/** Queries over the tables of the store. Ids are positions; the model reads a query's
    `->first()` as the lowest matching position and `->get()` as the matches in id order,
    an order the queries themselves do not request. */
module Sequences {
  import opened Optional

  /** The first position whose element satisfies `p`, if any. */
  function FirstIndex<T>(xs: seq<T>, p: T -> bool): (r: Option<nat>)
    ensures r.Some? ==> r.value < |xs| && p(xs[r.value])
    ensures r.Some? ==> forall j :: 0 <= j < r.value ==> !p(xs[j])
    ensures r.None? ==> forall j :: 0 <= j < |xs| ==> !p(xs[j])
    decreases |xs|
  {
    if |xs| == 0 then None
    else if p(xs[0]) then Some(0)
    else match FirstIndex(xs[1..], p)
      case None => None
      case Some(i) => Some(i + 1)
  }

  /** All positions whose element satisfies `p`, in increasing order. */
  function Select<T>(xs: seq<T>, p: T -> bool): (r: seq<nat>)
    ensures forall k :: 0 <= k < |r| ==> r[k] < |xs| && p(xs[r[k]])
    ensures forall i :: 0 <= i < |xs| && p(xs[i]) ==> i in r
    ensures forall k, l :: 0 <= k < l < |r| ==> r[k] < r[l]
    decreases |xs|
  {
    if |xs| == 0 then []
    else
      var front := Select(xs[..|xs| - 1], p);
      if p(xs[|xs| - 1]) then front + [|xs| - 1] else front
  }

  /** A position where `x` sits in `xs`, the first one. */
  function IndexOf<T(==)>(xs: seq<T>, x: T): (k: nat)
    requires x in xs
    ensures k < |xs| && xs[k] == x
  {
    if xs[0] == x then 0 else 1 + IndexOf(xs[1..], x)
  }

  /** No element occurs twice. */
  predicate Distinct<T(==)>(xs: seq<T>) {
    forall i, j :: 0 <= i < j < |xs| ==> xs[i] != xs[j]
  }

  /** Appending an element that is not yet present keeps a sequence duplicate-free. */
  lemma {:induction false} DistinctAppend<T>(xs: seq<T>, x: T)
    requires Distinct(xs) && x !in xs
    ensures Distinct(xs + [x])
  {
    forall i, j | 0 <= i < j < |xs + [x]|
      ensures (xs + [x])[i] != (xs + [x])[j]
    {
      if j == |xs| {
        assert (xs + [x])[i] == xs[i];
      }
    }
  }
}
