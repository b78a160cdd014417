/** PHP's byte-string helpers the controllers call. A `char` of the model stands for one
    byte of a PHP string, so `|s|` is `strlen($s)` and `s[i]` is `$s[$i]`. */
module Text {
  import opened Optional

  predicate IsUpper(c: char) { 'A' <= c <= 'Z' }
  predicate IsLower(c: char) { 'a' <= c <= 'z' }
  predicate IsLetter(c: char) { IsUpper(c) || IsLower(c) }
  predicate IsDigit(c: char) { '0' <= c <= '9' }

  /** `strtolower` on one byte: only `A`..`Z` change, each to its lower-case letter. */
  function LowerChar(c: char): (r: char)
    ensures IsUpper(c) ==> IsLower(r) && r as int == c as int + 32
    ensures !IsUpper(c) ==> r == c
    ensures !IsUpper(r)
  {
    if IsUpper(c) then (c as int + 32) as char else c
  }

  /** `strtolower` on a string. */
  function Lower(s: string): (r: string)
    ensures |r| == |s|
    ensures forall i :: 0 <= i < |s| ==> r[i] == LowerChar(s[i])
  {
    seq(|s|, i requires 0 <= i < |s| => LowerChar(s[i]))
  }

  /** Text with no upper-case ASCII letter is its own lower-case form. */
  lemma LowerNoUpper(s: string)
    requires forall k :: 0 <= k < |s| ==> !IsUpper(s[k])
    ensures Lower(s) == s
  {
  }

  /** The bytes PHP's `trim` strips by default: space, tab, newline, carriage return, NUL and
      vertical tab. */
  const Blank: set<char> := {' ', '\t', '\n', '\r', '\0', '\U{0B}'}

  /** Laravel's `required` on a string: something other than `Blank` bytes is left after `trim`. */
  predicate Filled(s: string) {
    exists k :: 0 <= k < |s| && s[k] !in Blank
  }

  /** `ltrim($s, $cut)`: drops leading bytes that belong to `cut`. */
  function TrimStart(s: string, cut: set<char>): (r: string)
    ensures |r| <= |s| && r == s[|s| - |r|..]
    ensures forall k :: 0 <= k < |s| - |r| ==> s[k] in cut
    ensures |r| > 0 ==> r[0] !in cut
    decreases |s|
  {
    if |s| > 0 && s[0] in cut then TrimStart(s[1..], cut) else s
  }

  /** `rtrim($s, $cut)`: drops trailing bytes that belong to `cut`. */
  function TrimEnd(s: string, cut: set<char>): (r: string)
    ensures |r| <= |s| && r == s[..|r|]
    ensures forall k :: |r| <= k < |s| ==> s[k] in cut
    ensures |r| > 0 ==> r[|r| - 1] !in cut
    decreases |s|
  {
    if |s| > 0 && s[|s| - 1] in cut then TrimEnd(s[..|s| - 1], cut) else s
  }

  /** `trim($s, $cut)`: the middle slice of `s` left once bytes of `cut` are stripped from both ends. */
  function Trim(s: string, cut: set<char>): (r: string)
    ensures |r| <= |s|
    ensures |r| > 0 ==> r[0] !in cut && r[|r| - 1] !in cut
    ensures var lo := |s| - |TrimStart(s, cut)|;
      && lo + |r| <= |s|
      && r == s[lo..lo + |r|]
      && (forall k :: 0 <= k < lo ==> s[k] in cut)
      && (forall k :: lo + |r| <= k < |s| ==> s[k] in cut)
  {
    TrimEnd(TrimStart(s, cut), cut)
  }

  /** Trimming a string padded on both sides with stripped bytes gives back the core,
      as long as the core does not itself begin or end with a stripped byte. */
  lemma {:induction false} TrimPadded(pre: string, core: string, post: string, cut: set<char>)
    requires forall k :: 0 <= k < |pre| ==> pre[k] in cut
    requires forall k :: 0 <= k < |post| ==> post[k] in cut
    requires |core| > 0 ==> core[0] !in cut && core[|core| - 1] !in cut
    ensures Trim(pre + core + post, cut) == core
  {
    var s := pre + core + post;
    if |core| > 0 {
      assert s == pre + (core + post);
      assert (core + post)[0] == core[0];
      TrimStartPadded(pre, core + post, cut);
      TrimEndPadded(core, post, cut);
    }
  }

  lemma {:induction false} TrimStartPadded(pre: string, rest: string, cut: set<char>)
    requires forall k :: 0 <= k < |pre| ==> pre[k] in cut
    requires |rest| > 0 ==> rest[0] !in cut
    ensures TrimStart(pre + rest, cut) == TrimStart(rest, cut)
    decreases |pre|
  {
    if |pre| > 0 {
      assert (pre + rest)[0] == pre[0];
      assert (pre + rest)[1..] == pre[1..] + rest;
      TrimStartPadded(pre[1..], rest, cut);
    } else {
      assert pre + rest == rest;
    }
  }

  lemma {:induction false} TrimEndPadded(core: string, post: string, cut: set<char>)
    requires forall k :: 0 <= k < |post| ==> post[k] in cut
    requires |core| > 0 ==> core[|core| - 1] !in cut
    ensures TrimEnd(core + post, cut) == core
    decreases |post|
  {
    if |post| > 0 {
      var shorter := post[..|post| - 1];
      assert (core + post)[..|core + post| - 1] == core + shorter;
      assert (core + post)[|core + post| - 1] == post[|post| - 1];
      TrimEndPadded(core, shorter, cut);
    } else {
      assert core + post == core;
      if |core| > 0 {
        assert TrimEnd(core, cut) == core;
      }
    }
  }

  /** `implode(' ', str_split($p))`: the bytes of `p` with one space between neighbours. */
  function Spaced(p: string): (r: string)
    ensures |r| == if |p| == 0 then 0 else 2 * |p| - 1
    ensures forall j :: 0 <= j < |r| ==> r[j] == if j % 2 == 0 then p[j / 2] else ' '
    decreases |p|
  {
    if |p| <= 1 then p
    else
      var rest := Spaced(p[1..]);
      var r := [p[0], ' '] + rest;
      assert forall j :: 2 <= j < |r| ==> r[j] == rest[j - 2];
      r
  }

  /** Every other byte of a spaced string: reads the mask back out of a displayed one. */
  function Unspaced(r: string): (p: string)
    ensures |p| == (|r| + 1) / 2
  {
    seq((|r| + 1) / 2, i requires 0 <= i < (|r| + 1) / 2 => r[2 * i])
  }

  /** The spaced display loses nothing: the mask can be read back from it. */
  lemma SpacedRoundTrip(p: string)
    ensures Unspaced(Spaced(p)) == p
  {
  }

  /** `"$n"` for a non-negative integer: its decimal digits, most significant first. */
  function Decimal(n: nat): (r: string)
    ensures |r| >= 1
    ensures forall k :: 0 <= k < |r| ==> IsDigit(r[k])
    ensures n >= 10 ==> r[0] != '0'
    decreases n
  {
    if n < 10 then [('0' as int + n) as char]
    else Decimal(n / 10) + [('0' as int + n % 10) as char]
  }

  /** The number an all-digit string denotes. */
  function DigitsValue(s: string): nat
    requires forall k :: 0 <= k < |s| ==> IsDigit(s[k])
    decreases |s|
  {
    if |s| == 0 then 0
    else
      assert IsDigit(s[|s| - 1]);
      DigitsValue(s[..|s| - 1]) * 10 + (s[|s| - 1] as int - '0' as int)
  }

  /** The value PHP's loose `==` gives a numeric string of plain digits; `None` for anything else. */
  function DecimalValue(s: string): (r: Option<nat>)
    ensures r.Some? <==> |s| > 0 && forall k :: 0 <= k < |s| ==> IsDigit(s[k])
  {
    if |s| > 0 && forall k :: 0 <= k < |s| ==> IsDigit(s[k]) then Some(DigitsValue(s)) else None
  }

  /** Reading back the decimal text of a number gives the number. */
  lemma {:induction false} DecimalRoundTrip(n: nat)
    ensures DecimalValue(Decimal(n)) == Some(n)
    decreases n
  {
    var d := Decimal(n);
    if n >= 10 {
      var front := Decimal(n / 10);
      DecimalRoundTrip(n / 10);
      assert d[..|d| - 1] == front;
      assert DigitsValue(d) == DigitsValue(front) * 10 + n % 10;
    }
  }
}
