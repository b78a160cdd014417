/** The rules of one game: a fresh game, the mask, and what one new letter does to it. */
module Hangman {
  import opened Optional
  import opened Text
  import opened Records

  /** The placeholder for a position not guessed yet. */
  const Hidden: char := '_'

  /** The mask a word shows once `tried` have been guessed: the word's own byte where it was
      guessed, the placeholder elsewhere. */
  function MaskOf(word: string, tried: seq<char>): (m: string)
    ensures |m| == |word|
  {
    seq(|word|, i requires 0 <= i < |word| => if word[i] in tried then word[i] else Hidden)
  }

  /** The mask equals the word exactly when every position is guessed or is itself a placeholder. */
  lemma MaskComplete(word: string, tried: seq<char>)
    ensures MaskOf(word, tried) == word <==>
      forall i :: 0 <= i < |word| ==> word[i] in tried || word[i] == Hidden
  {
    if forall i :: 0 <= i < |word| ==> word[i] in tried || word[i] == Hidden {
      assert forall i :: 0 <= i < |word| ==> MaskOf(word, tried)[i] == word[i];
    } else {
      var i :| 0 <= i < |word| && word[i] !in tried && word[i] != Hidden;
      assert MaskOf(word, tried)[i] != word[i];
    }
  }

  /** The row `create` inserts for `user` once the provider gave `word`. */
  function NewGame(user: UserId, word: string, maxAttempts: int): (g: Game)
    ensures g.userId == user && g.word == word
    ensures g.status == PorEmpezar && !g.isActive && g.activePlayerId == None
    ensures g.remainingAttempts == maxAttempts && g.lettersAttempted == []
    ensures |g.progress| == |word| && forall i :: 0 <= i < |word| ==> g.progress[i] == Hidden
    ensures g.progress == MaskOf(word, [])
  {
    Game(user, word, seq(|word|, _ => Hidden), maxAttempts, false, PorEmpezar, None, [])
  }

  /** The mask after the reveal loop: positions holding `letter` show it, the rest keep theirs. */
  function Reveal(word: string, progress: string, letter: char): (r: string)
    requires |progress| == |word|
    ensures |r| == |word|
  {
    seq(|word|, i requires 0 <= i < |word| => if word[i] == letter then letter else progress[i])
  }

  /** Revealing a new letter on the mask of `tried` gives the mask of `tried` plus that letter. */
  lemma RevealExtendsMask(word: string, tried: seq<char>, letter: char)
    ensures Reveal(word, MaskOf(word, tried), letter) == MaskOf(word, tried + [letter])
  {
    var r := Reveal(word, MaskOf(word, tried), letter);
    forall i | 0 <= i < |word| ensures r[i] == MaskOf(word, tried + [letter])[i] {
      assert word[i] in tried + [letter] <==> word[i] in tried || word[i] == letter;
    }
  }

  /** The loop of `guess` over the word's bytes: it copies `letter` into the mask wherever the
      word holds it and records whether it found any. */
  method RevealLoop(word: string, progress: string, letter: char) returns (revealed: string, found: bool)
    requires |progress| == |word|
    ensures |revealed| == |word|
    ensures forall i :: 0 <= i < |word| ==>
      revealed[i] == (if word[i] == letter then letter else progress[i])
    ensures found <==> letter in word
    ensures revealed == Reveal(word, progress, letter)
  {
    revealed := progress;
    found := false;
    var i := 0;
    while i < |word|
      invariant 0 <= i <= |word|
      invariant |revealed| == |word|
      invariant forall k :: 0 <= k < i ==>
        revealed[k] == (if word[k] == letter then letter else progress[k])
      invariant forall k :: i <= k < |word| ==> revealed[k] == progress[k]
      invariant found <==> letter in word[..i]
    {
      if word[i] == letter {
        revealed := revealed[i := letter];
        found := true;
      }
      assert word[..i + 1] == word[..i] + [word[i]];
      i := i + 1;
    }
    assert word[..i] == word;
  }

  /** One fresh letter played on a game: it is recorded, revealed, charged for when absent,
      and the win check runs before the loss check. */
  function Play(g: Game, letter: char): (r: (Game, Verdict))
    requires |g.progress| == |g.word|
    ensures r.0.lettersAttempted == g.lettersAttempted + [letter]
    ensures r.0.userId == g.userId && r.0.word == g.word && r.0.activePlayerId == g.activePlayerId
    ensures |r.0.progress| == |g.word|
    ensures forall i :: 0 <= i < |g.word| ==>
      r.0.progress[i] == (if g.word[i] == letter then letter else g.progress[i])
    ensures g.progress == MaskOf(g.word, g.lettersAttempted) ==>
      r.0.progress == MaskOf(g.word, r.0.lettersAttempted)
    ensures letter in g.word ==> r.0.remainingAttempts == g.remainingAttempts
    ensures letter !in g.word ==> r.0.remainingAttempts == g.remainingAttempts - 1
    ensures r.1 == Won <==> r.0.progress == g.word
    ensures r.1 == Lost <==> r.0.progress != g.word && r.0.remainingAttempts <= 0
    ensures r.1 == Won ==> r.0.status == Ganada && !r.0.isActive
    ensures r.1 == Lost ==> r.0.status == Perdida && !r.0.isActive
    ensures r.1 == Correct || r.1 == Incorrect ==>
      r.0.status == g.status && r.0.isActive == g.isActive && (r.1 == Correct <==> letter in g.word)
  {
    var progress := Reveal(g.word, g.progress, letter);
    var found := letter in g.word;
    var remaining := if found then g.remainingAttempts else g.remainingAttempts - 1;
    var played := g.(lettersAttempted := g.lettersAttempted + [letter], progress := progress,
                     remainingAttempts := remaining);
    RevealExtendsMask(g.word, g.lettersAttempted, letter);
    Outcome(played, g.word, found)
  }

  /** The status checks after the write: won when the mask is the word, else lost when no
      attempts remain, else still in play. */
  function Outcome(g: Game, word: string, found: bool): (Game, Verdict) {
    if g.progress == word then (g.(isActive := false, status := Ganada), Won)
    else if g.remainingAttempts <= 0 then (g.(isActive := false, status := Perdida), Lost)
    else (g, if found then Correct else Incorrect)
  }

  /** The game `gato` played with a, t, o, g: the masks `_a__`, `_at_`, `_ato`, then a win. */
  lemma GatoScenario()
    ensures var g0 := NewGame(0, "gato", 7).(status := EnProgreso, isActive := true, activePlayerId := Some(0));
      var p1 := Play(g0, 'a');
      var p2 := Play(p1.0, 't');
      var p3 := Play(p2.0, 'o');
      var p4 := Play(p3.0, 'g');
      && p1.0.progress == "_a__" && p1.1 == Correct
      && p2.0.progress == "_at_" && p2.1 == Correct
      && p3.0.progress == "_ato" && p3.1 == Correct
      && p4.0.progress == "gato" && p4.1 == Won && p4.0.status == Ganada
      && p4.0.remainingAttempts == 7
  {
    var g0 := NewGame(0, "gato", 7).(status := EnProgreso, isActive := true, activePlayerId := Some(0));
    assert g0 == GatoGame("____", []);
    GatoA();
    GatoT();
    GatoO();
    GatoG();
  }

  /** The `gato` game in progress with the given mask and letters. */
  function GatoGame(progress: string, tried: seq<char>): Game {
    Game(0, "gato", progress, 7, true, EnProgreso, Some(0), tried)
  }

  lemma GatoA()
    ensures Play(GatoGame("____", []), 'a') == (GatoGame("_a__", ['a']), Correct)
  {
    var w := "gato";
    assert w[0] == 'g' && w[1] == 'a' && w[2] == 't' && w[3] == 'o';
    var p := Play(GatoGame("____", []), 'a');
    assert p.0.progress == "_a__";
    assert 'a' in w;
    assert p.0.remainingAttempts == 7;
    assert p.0.lettersAttempted == ['a'];
    assert p.0.progress != w;
    assert p.1 == Correct;
    assert p.0 == GatoGame("_a__", ['a']);
  }

  lemma GatoT()
    ensures Play(GatoGame("_a__", ['a']), 't') == (GatoGame("_at_", ['a', 't']), Correct)
  {
    var w := "gato";
    assert w[0] == 'g' && w[1] == 'a' && w[2] == 't' && w[3] == 'o';
    var p := Play(GatoGame("_a__", ['a']), 't');
    assert p.0.progress == "_at_";
    assert 't' in w;
    assert p.0.remainingAttempts == 7;
    assert p.0.lettersAttempted == ['a', 't'];
    assert p.0.progress != w;
    assert p.1 == Correct;
    assert p.0 == GatoGame("_at_", ['a', 't']);
  }

  lemma GatoO()
    ensures Play(GatoGame("_at_", ['a', 't']), 'o') == (GatoGame("_ato", ['a', 't', 'o']), Correct)
  {
    var w := "gato";
    assert w[0] == 'g' && w[1] == 'a' && w[2] == 't' && w[3] == 'o';
    var p := Play(GatoGame("_at_", ['a', 't']), 'o');
    assert p.0.progress == "_ato";
    assert 'o' in w;
    assert p.0.remainingAttempts == 7;
    assert p.0.lettersAttempted == ['a', 't', 'o'];
    assert p.0.progress != w;
    assert p.1 == Correct;
    assert p.0 == GatoGame("_ato", ['a', 't', 'o']);
  }

  lemma GatoG()
    ensures Play(GatoGame("_ato", ['a', 't', 'o']), 'g')
         == (GatoGame("gato", ['a', 't', 'o', 'g']).(isActive := false, status := Ganada), Won)
  {
    var w := "gato";
    assert w[0] == 'g' && w[1] == 'a' && w[2] == 't' && w[3] == 'o';
    var p := Play(GatoGame("_ato", ['a', 't', 'o']), 'g');
    assert p.0.progress == "gato";
    assert 'g' in w;
    assert p.0.remainingAttempts == 7;
    assert p.0.lettersAttempted == ['a', 't', 'o', 'g'];
    assert p.0.progress == w;
    assert p.1 == Won;
    assert p.0 == GatoGame("gato", ['a', 't', 'o', 'g']).(isActive := false, status := Ganada);
  }

  /** A budget of one: `sol` and the absent letter x ends the game lost with no attempts left. */
  lemma SolScenario()
    ensures var g0 := NewGame(0, "sol", 1).(status := EnProgreso, isActive := true, activePlayerId := Some(0));
      var p := Play(g0, 'x');
      p.1 == Lost && p.0.remainingAttempts == 0 && p.0.status == Perdida && !p.0.isActive
  {
    var w := "sol";
    var g0 := NewGame(0, w, 1).(status := EnProgreso, isActive := true, activePlayerId := Some(0));
    assert w[0] == 's' && w[1] == 'o' && w[2] == 'l';
    assert 'x' !in w;
    var p := Play(g0, 'x');
    assert p.0.progress[0] == Hidden != w[0];
  }
}
