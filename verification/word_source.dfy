/** The validation half of `fetchRandomWord`: the word provider's response body is an input,
    and the function decides whether it yields a usable secret word. */
module WordSource {
  import opened Optional
  import opened Text

  /** The bytes `trim($body, '[]" ')` strips: the provider answers with a JSON array of one string. */
  const Stripped: set<char> := {'[', ']', '"', ' '}

  /** The bytes matched by the pattern `[ñáéíóú]`. Without the `u` modifier the class is read
      byte by byte from its UTF-8 text: the lead byte 0xC3 shared by all six letters and their
      six second bytes. The `i` modifier folds ASCII letters only, so it adds nothing here. */
  const RejectedBytes: set<char> :=
    {'\U{C3}', '\U{B1}', '\U{A1}', '\U{A9}', '\U{AD}', '\U{B3}', '\U{BA}'}

  const MinLength: nat := 4
  const MaxLength: nat := 8

  predicate NoRejectedByte(w: string) {
    forall k :: 0 <= k < |w| ==> w[k] !in RejectedBytes
  }

  /** A candidate word read from the provider's body: trimmed, 4 to 8 bytes long, free of the
      rejected bytes, and then lower-cased; `None` (PHP `null`) otherwise. */
  function Candidate(body: string): (r: Option<string>)
    ensures r.Some? <==>
      MinLength <= |Trim(body, Stripped)| <= MaxLength && NoRejectedByte(Trim(body, Stripped))
    ensures r.Some? ==> |r.value| == |Trim(body, Stripped)|
    ensures r.Some? ==> forall k :: 0 <= k < |r.value| ==>
      r.value[k] == LowerChar(Trim(body, Stripped)[k]) && !IsUpper(r.value[k])
  {
    var w := Trim(body, Stripped);
    if MinLength <= |w| <= MaxLength && NoRejectedByte(w) then Some(Lower(w)) else None
  }

  /** `fetchRandomWord`: `None` stands for a response that was not successful. */
  function Fetch(response: Option<string>): (r: Option<string>)
    ensures response.None? ==> r.None?
    ensures response.Some? ==> r == Candidate(response.value)
  {
    match response
    case None => None
    case Some(body) => Candidate(body)
  }

  /** What an accepted word looks like: 4 to 8 bytes, no upper-case ASCII letter, none of the
      rejected bytes, and no stripped byte at either end. */
  predicate WellShaped(w: string) {
    && MinLength <= |w| <= MaxLength
    && NoRejectedByte(w)
    && (forall k :: 0 <= k < |w| ==> !IsUpper(w[k]))
    && w[0] !in Stripped && w[|w| - 1] !in Stripped
  }

  /** Every accepted word is well shaped. */
  lemma CandidateShape(body: string)
    requires Candidate(body).Some?
    ensures WellShaped(Candidate(body).value)
  {
    var t := Trim(body, Stripped);
    var w := Candidate(body).value;
    assert |w| == |t| && MinLength <= |w| <= MaxLength;
    assert t[0] !in Stripped && t[|t| - 1] !in Stripped;
    LowerKeeps(t[0]);
    LowerKeeps(t[|t| - 1]);
    assert w[0] !in Stripped && w[|w| - 1] !in Stripped;
    forall k | 0 <= k < |w| ensures w[k] !in RejectedBytes {
      assert t[k] !in RejectedBytes;
      LowerKeeps(t[k]);
    }
  }

  /** Lower-casing moves no byte into or out of the stripped or rejected sets. */
  lemma LowerKeeps(c: char)
    ensures c !in Stripped ==> LowerChar(c) !in Stripped
    ensures c !in RejectedBytes ==> LowerChar(c) !in RejectedBytes
  {
  }

  /** Accepting is idempotent: a word the validator produced passes it again unchanged. */
  lemma {:induction false} CandidateIdempotent(body: string)
    requires Candidate(body).Some?
    ensures Candidate(Candidate(body).value) == Candidate(body)
  {
    CandidateShape(body);
    WellShapedAccepted(Candidate(body).value);
  }

  /** A well-shaped word is accepted as it stands. */
  lemma WellShapedAccepted(w: string)
    requires WellShaped(w)
    ensures Candidate(w) == Some(w)
  {
    CandidateOfTrimmed(w);
    assert MinLength <= |w| <= MaxLength && NoRejectedByte(w);
    LowerNoUpper(w);
  }

  /** The JSON wrapping the provider puts around its word is stripped: `["w"]` yields what `w` yields. */
  lemma {:induction false} CandidateUnwrapsArray(w: string)
    requires |w| > 0 ==> w[0] !in Stripped && w[|w| - 1] !in Stripped
    ensures Candidate("[\"" + w + "\"]") == Candidate(w)
  {
    TrimPadded("[\"", w, "\"]", Stripped);
    TrimPadded([], w, [], Stripped);
    assert [] + w + [] == w;
    SameTrimSameCandidate("[\"" + w + "\"]", w);
  }

  lemma SameTrimSameCandidate(x: string, y: string)
    requires Trim(x, Stripped) == Trim(y, Stripped)
    ensures Candidate(x) == Candidate(y)
  {
  }

  /** Any body whose trimmed text holds the byte 0xC3, the UTF-8 lead byte of every accented
      letter the pattern names (in either case), is refused. */
  lemma AccentedRejected(body: string, k: nat)
    requires k < |Trim(body, Stripped)| && Trim(body, Stripped)[k] == '\U{C3}'
    ensures Candidate(body).None?
  {
  }

  /** The accented letters the pattern spells out, and their upper-case forms. */
  const Accented: seq<char> := ['ñ', 'á', 'é', 'í', 'ó', 'ú', 'Ñ', 'Á', 'É', 'Í', 'Ó', 'Ú']

  /** The UTF-8 encoding of a code point between U+0080 and U+07FF. */
  function Utf8TwoBytes(c: char): (r: string)
    requires 0x80 <= c as int < 0x800
    ensures |r| == 2
  {
    [(0xC0 + c as int / 64) as char, (0x80 + c as int % 64) as char]
  }

  /** Each of those letters is written in UTF-8 with the lead byte 0xC3, so a body spelling
      any of them in UTF-8 is refused by `AccentedRejected`. */
  lemma AccentedLeadByte(i: nat)
    requires i < |Accented|
    ensures 0x80 <= Accented[i] as int < 0x800 && Utf8TwoBytes(Accented[i])[0] == '\U{C3}'
  {
  }

  /** For a text with no stripped byte at either end the validator only checks and lower-cases. */
  lemma CandidateOfTrimmed(w: string)
    requires |w| > 0 ==> w[0] !in Stripped && w[|w| - 1] !in Stripped
    ensures Trim(w, Stripped) == w
    ensures Candidate(w) == if MinLength <= |w| <= MaxLength && NoRejectedByte(w) then Some(Lower(w)) else None
  {
    TrimPadded([], w, [], Stripped);
    assert [] + w + [] == w;
  }

  /** The provider's `["Gato"]` becomes the word `gato`. */
  lemma CandidateGato()
    ensures Candidate("[\"Gato\"]") == Some("gato")
  {
    var w := "Gato";
    assert "[\"" + w + "\"]" == "[\"Gato\"]";
    assert w[0] == 'G' && w[3] == 'o';
    CandidateUnwrapsArray(w);
    GatoAccepted(w);
  }

  lemma GatoAccepted(w: string)
    requires w == "Gato"
    ensures Candidate(w) == Some("gato")
  {
    assert w[0] == 'G' && w[3] == 'o';
    assert NoRejectedByte(w);
    CandidateOfTrimmed(w);
    GatoLowered(w);
  }

  lemma GatoLowered(w: string)
    requires w == "Gato"
    ensures Lower(w) == "gato"
  {
    assert w[0] == 'G' && w[1] == 'a' && w[2] == 't' && w[3] == 'o';
  }

  /** A three-letter word is refused. */
  lemma CandidateTooShort()
    ensures Candidate("[\"sol\"]") == None
  {
    var w := "sol";
    assert "[\"" + w + "\"]" == "[\"sol\"]";
    assert w[0] == 's' && w[2] == 'l';
    CandidateUnwrapsArray(w);
    CandidateOfTrimmed(w);
  }

  /** A word longer than eight bytes is refused. */
  lemma CandidateTooLong()
    ensures Candidate("[\"murcielago\"]") == None
  {
    var w := "murcielago";
    assert "[\"" + w + "\"]" == "[\"murcielago\"]";
    assert w[0] == 'm' && w[9] == 'o';
    CandidateUnwrapsArray(w);
    CandidateOfTrimmed(w);
  }

  /** The lead byte C3 covers only U+00C0 to U+00FF: `pāta`, whose ā is C4 81, is accepted. */
  lemma OtherAccentAccepted()
    ensures Candidate("p\U{C4}\U{81}ta") == Some("p\U{C4}\U{81}ta")
  {
    var w := "p\U{C4}\U{81}ta";
    assert |w| == 5;
    assert w[0] == 'p' && w[1] == '\U{C4}' && w[2] == '\U{81}' && w[3] == 't' && w[4] == 'a';
    assert forall k :: 0 <= k < |w| ==> w[k] !in RejectedBytes && !IsUpper(w[k]);
    assert WellShaped(w);
    WellShapedAccepted(w);
  }
  /** An accented letter outside U+00C0 to U+00FF is still refused when its second byte is one of
      the six second bytes: `pĩta`, whose ĩ is C4 A9, is refused. */
  lemma OtherAccentRefused()
    ensures Candidate("p\U{C4}\U{A9}ta").None?
  {
    var w := "p\U{C4}\U{A9}ta";
    assert w[0] !in Stripped && w[4] !in Stripped;
    assert w[2] in RejectedBytes;
    CandidateOfTrimmed(w);
  }
  /** Every byte of a letter is tested, not only the second: `pḡta`, whose ḡ (U+1E21) is
      E1 B8 A1, is refused by its third byte. */
  lemma ThreeByteAccentRefused()
    ensures Candidate("p\U{E1}\U{B8}\U{A1}ta").None?
  {
    var w := "p\U{E1}\U{B8}\U{A1}ta";
    assert w[0] !in Stripped && w[5] !in Stripped;
    assert w[3] in RejectedBytes;
    CandidateOfTrimmed(w);
  }


}
