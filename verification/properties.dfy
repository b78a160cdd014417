/** Properties that relate several requests: what a second request sees after a first one. */
module Properties {
  import opened Optional
  import opened Text
  import opened Records
  import opened Access
  import opened Hangman
  import opened Games
  import opened Invariants
  import Admin
  import Accounts

  /** In a store where no player has two active games, the game `ActiveGameOf` finds is the
      caller's only active game. */
  lemma ActiveGameUnique(games: seq<Game>, user: UserId, j: GameId)
    requires OneActiveGameEach(games) && j < |games| && PlayedBy(games[j], user)
    ensures ActiveGameOf(games, user) == Some(j)
  {
    var id := ActiveGameOf(games, user).value;
  }

  /** In a valid store, `current` shows the spaced mask and attempts of the one game the caller
      plays, and the mask it shows reads back as the stored one. */
  lemma CurrentShowsActiveGame(s: System, t: Token, j: GameId)
    requires Valid(s) && Admitted(s, t) && j < |s.games| && PlayedBy(s.games[j], t.owner)
    ensures Current(s, t) == Step(InPlay(Spaced(s.games[j].progress), s.games[j].remainingAttempts), s)
    ensures Unspaced(Current(s, t).reply.progress) == s.games[j].progress
  {
    ActiveGameUnique(s.games, t.owner, j);
    SpacedRoundTrip(s.games[j].progress);
  }

  /** Once a join succeeds, any further join by the same token is refused with a 400 that names
      the game just joined. */
  lemma SecondJoinRefused(s: System, t: Token, gameId: int, other: int)
    requires Valid(s) && Join(s, t, gameId).reply.Joined?
    requires 0 <= other < |s.games|
    ensures var s1 := Join(s, t, gameId).sys;
      Join(s1, t, other) == Step(Failed(AlreadyPlaying(gameId)), s1)
  {
    var s1 := Join(s, t, gameId).sys;
    JoinValid(s, t, gameId);
    assert Admitted(s, t) && 0 <= gameId < |s.games|;
    assert s1.tokens == s.tokens && s1.users == s.users;
    ActiveGameUnique(s1.games, t.owner, gameId);
  }

  /** A letter that did not end the game, sent again, is refused as already tried and changes
      nothing; once the game is won or lost, the next guess finds no active game. */
  lemma RepeatedGuess(s: System, t: Token, letter: string)
    requires Valid(s)
    ensures Aligned(s.games)
    ensures var r := Guess(s, t, letter);
      r.reply.Guessed? ==>
        && Valid(r.sys) && Aligned(r.sys.games)
        && (r.reply.verdict == Correct || r.reply.verdict == Incorrect ==>
              Guess(r.sys, t, letter) == Step(Failed(LetterAlreadyTried), r.sys))
        && (r.reply.verdict == Won || r.reply.verdict == Lost ==>
              Guess(r.sys, t, letter) == Step(Failed(NoActiveGame), r.sys))
  {
    GuessValid(s, t, letter);
    var r := Guess(s, t, letter);
    if r.reply.Guessed? {
      ValidAligned(r.sys);
      assert Admitted(s, t) && ValidLetter(letter);
      var id := ActiveGameOf(s.games, t.owner).value;
      var g := r.sys.games[id];
      assert r.sys.tokens == s.tokens && r.sys.users == s.users;
      if r.reply.verdict == Correct || r.reply.verdict == Incorrect {
        ActiveGameUnique(r.sys.games, t.owner, id);
        assert LowerChar(letter[0]) in g.lettersAttempted;
      } else {
        forall j | 0 <= j < |r.sys.games| ensures !PlayedBy(r.sys.games[j], t.owner) {
          if j != id && PlayedBy(r.sys.games[j], t.owner) {
            assert s.games[j] == r.sys.games[j];
            ActiveGameUnique(s.games, t.owner, j);
          }
        }
      }
    }
  }

  /** After an administrator deactivates an account, no request can bring it back: activation
      is refused whoever asks, and the account's old tokens no longer authenticate. */
  lemma DeactivationSticks(s: System, admin: Token, phone: string, t: Token)
    requires Valid(s) && Admin.Deactivate(s, admin, phone).reply == Done
    ensures var s1 := Admin.Deactivate(s, admin, phone).sys;
      var v := Target(s, phone).value;
      && s1.users[v].DisabledByAdmin() && !s1.users[v].isActive
      && Target(s1, phone) == Some(v)
      && (Admin.Gate(s1, t).None? ==> Admin.ActivateUser(s1, t, phone) == Step(Failed(ReactivationForbidden), s1))
      && Admin.ActivateUser(s1, t, phone).sys == s1
      && (t.owner == v ==> Caller(s1, t).None?)
  {
    var s1 := Admin.Deactivate(s, admin, phone).sys;
    DeactivateValid(s, admin, phone);
    var v := Target(s, phone).value;
    assert s1.users[v].phone == phone;
  }

  /** `required` refuses a field holding only blanks as it refuses a missing one: an
      administrator registration with a blank phone or a blank password is a validation
      failure that changes nothing, even with the right admin code. */
  lemma BlankFieldsRefused(s: System, phone: string, password: string, blank: string)
    requires !Filled(blank)
    ensures Accounts.RegisterAdmin(s, blank, password, Accounts.AdminCode) == Step(Failed(Invalid), s)
    ensures Accounts.RegisterAdmin(s, phone, blank, Accounts.AdminCode) == Step(Failed(Invalid), s)
  {
  }

  /** An account an administrator disabled can neither verify a code nor log in: with both
      fields present the answer is the 403 `AccountDisabled`, and nothing changes. */
  lemma DisabledLockedOut(s: System, phone: string, code: string, password: string)
    requires Valid(s) && Target(s, phone).Some? && s.users[Target(s, phone).value].DisabledByAdmin()
    requires Filled(code) && Filled(password)
    ensures Accounts.VerifyCode(s, phone, code) == Step(Failed(AccountDisabled), s)
    ensures Accounts.Login(s, phone, password) == Step(Failed(AccountDisabled), s)
  {
  }

  /** Login hands a token to an account that is inactive but not disabled by an administrator;
      the first game request made with it is turned away with a 403 and the token is deleted. */
  lemma InactiveLoginRevoked(s: System, phone: string, password: string)
    requires Target(s, phone).Some? && Filled(password)
    requires var u := s.users[Target(s, phone).value];
      !u.isActive && !u.DisabledByAdmin() && Accounts.PasswordMatches(password, u.password)
    ensures var r := Accounts.Login(s, phone, password);
      && r.reply.LoggedIn?
      && Caller(r.sys, r.reply.token).Some?
      && Current(r.sys, r.reply.token).reply == Failed(AccountInactive)
      && r.reply.token !in Current(r.sys, r.reply.token).sys.tokens
  {
    var r := Accounts.Login(s, phone, password);
    assert r.reply.token in r.sys.tokens;
  }

  /** The code `sendVerification` caches, typed back in decimal, activates the new account and
      is consumed: the same code a second time is refused. */
  lemma SentCodeVerifiesOnce(s: System, phone: string, password: string, code: int, delivered: bool)
    requires Accounts.RegistrationValid(s, phone, password)
    requires Accounts.MinCode <= code <= Accounts.MaxCode
    ensures var s1 := Accounts.SendVerification(s, phone, password, code, delivered).sys;
      var r := Accounts.VerifyCode(s1, phone, Decimal(code));
      && Target(s1, phone) == Some(|s.users|)
      && r.reply == Done
      && r.sys.users[|s.users|].isActive
      && Accounts.VerifyCode(r.sys, phone, Decimal(code)) == Step(Failed(CodeInvalidOrExpired), r.sys)
  {
    var s1 := Accounts.SendVerification(s, phone, password, code, delivered).sys;
    assert s1.users[|s.users|].phone == phone;
    DecimalRoundTrip(code);
    assert Accounts.CodeKey(phone) in s1.codes && s1.codes[Accounts.CodeKey(phone)] == code;
  }

  /** With a configured maximum of zero attempts, a wrong letter leaves a game at -1 attempts:
      the bound `remaining_attempts >= 0` needs a maximum of at least one. */
  lemma ZeroAttemptsGoNegative()
    ensures var g0 := NewGame(0, "gato", 0).(status := EnProgreso, isActive := true, activePlayerId := Some(0));
      var (g1, verdict) := Play(g0, 'x');
      g1.remainingAttempts == -1 && verdict == Lost
  {
    var g0 := NewGame(0, "gato", 0).(status := EnProgreso, isActive := true, activePlayerId := Some(0));
    assert 'x' !in g0.word;
    assert Play(g0, 'x').0.progress[0] == Hidden != g0.word[0];
  }

  /** A word holding a byte that is neither a lower-case letter nor the mask character can never
      be revealed by letters, so a game on it can never be won. The word validator lets such
      words through (a hyphen or an inner space, say). */
  lemma NonLetterUnwinnable(word: string, tried: seq<char>, i: nat)
    requires i < |word| && !IsLower(word[i]) && word[i] != Hidden
    requires forall k :: 0 <= k < |tried| ==> IsLower(tried[k])
    ensures MaskOf(word, tried) != word
  {
    assert MaskOf(word, tried)[i] == Hidden;
  }

  /** The provider's `["x-ray"]` becomes a secret word, hyphen included. */
  lemma HyphenAccepted()
    ensures WordSource.Candidate("[\"x-ray\"]") == Some("x-ray")
  {
    var w := "x-ray";
    assert "[\"" + w + "\"]" == "[\"x-ray\"]";
    assert w[0] == 'x' && w[4] == 'y';
    WordSource.CandidateUnwrapsArray(w);
    HyphenWordAccepted(w);
  }

  lemma HyphenWordAccepted(w: string)
    requires w == "x-ray"
    ensures WordSource.Candidate(w) == Some(w)
  {
    assert w[0] == 'x' && w[4] == 'y';
    assert WordSource.NoRejectedByte(w);
    WordSource.CandidateOfTrimmed(w);
    assert Lower(w) == w;
  }
}
