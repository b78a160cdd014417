/** The facts about the store that every request keeps, and the ways a store may evolve from
    one request to the next. */
module Invariants {
  import opened Optional
  import opened Sequences
  import opened Text
  import opened Records
  import opened Access
  import opened Hangman
  import opened Games
  import Admin
  import Accounts

  /** What every game row satisfies. */
  predicate GameOk(g: Game, users: nat) {
    && g.userId < users
    && (g.isActive <==> g.status == EnProgreso)
    && (g.activePlayerId.Some? ==> g.activePlayerId.value == g.userId)
    && (g.isActive ==> g.activePlayerId.Some?)
    && g.progress == MaskOf(g.word, g.lettersAttempted)
    && Distinct(g.lettersAttempted)
    && (forall k :: 0 <= k < |g.lettersAttempted| ==> IsLower(g.lettersAttempted[k]))
    && g.remainingAttempts >= 0
    && (!g.status.Terminal() ==> g.remainingAttempts >= 1)
  }

  /** No player has two active games. */
  predicate OneActiveGameEach(games: seq<Game>) {
    forall i, j :: 0 <= i < j < |games| && games[i].isActive && games[j].isActive ==>
      games[i].activePlayerId != games[j].activePlayerId
  }

  predicate GamesOk(games: seq<Game>, users: nat) {
    && (forall i :: 0 <= i < |games| ==> GameOk(games[i], users))
    && OneActiveGameEach(games)
  }

  /** An account an administrator disabled is inactive; phone numbers are unique. */
  predicate UsersOk(users: seq<User>) {
    && (forall v :: 0 <= v < |users| ==> users[v].DisabledByAdmin() ==> !users[v].isActive)
    && (forall v, w :: 0 <= v < w < |users| ==> users[v].phone != users[w].phone)
  }

  /** Every token belongs to an existing account that no administrator disabled. */
  predicate TokensOk(s: System) {
    forall t :: t in s.tokens ==>
      t.owner < |s.users| && t.serial < s.issued && !s.users[t.owner].DisabledByAdmin()
  }

  /** Every cached code is one `rand(100000, 999999)` can draw. */
  predicate CodesOk(codes: map<string, int>) {
    forall k :: k in codes ==> Accounts.MinCode <= codes[k] <= Accounts.MaxCode
  }

  predicate Valid(s: System) {
    UsersOk(s.users) && TokensOk(s) && CodesOk(s.codes) && GamesOk(s.games, |s.users|)
  }

  /** The empty store every deployment starts from. */
  lemma EmptyValid()
    ensures Valid(System([], [], {}, 0, map[]))
  {
  }

  lemma ValidAligned(s: System)
    requires Valid(s)
    ensures Aligned(s.games)
  {
    forall i | 0 <= i < |s.games| ensures |s.games[i].progress| == |s.games[i].word| {
      assert GameOk(s.games[i], |s.users|);
    }
  }

  /** How one game row may change: owner and word are fixed, letters are only appended,
      attempts only fall, a game still waiting for a player is left alone until someone joins it,
      a game in progress only stays so or ends, and an ended game is frozen. */
  predicate GameFollows(g: Game, g': Game) {
    && g'.userId == g.userId && g'.word == g.word
    && |g.lettersAttempted| <= |g'.lettersAttempted|
    && g'.lettersAttempted[..|g.lettersAttempted|] == g.lettersAttempted
    && g'.remainingAttempts <= g.remainingAttempts
    && (g.status == PorEmpezar && g'.status == PorEmpezar ==> g' == g)
    && (g.status == EnProgreso ==> g'.status == EnProgreso || g'.status.Terminal())
    && (g.status.Terminal() ==> g' == g)
  }

  /** How one request may change a game still waiting for a player: not at all, or by a player
      joining it, which changes nothing but its player, its status and its active flag. */
  predicate JoinedOrKept(g: Game, g': Game) {
    || g' == g
    || (g'.activePlayerId.Some? && g' == g.(activePlayerId := g'.activePlayerId, status := EnProgreso, isActive := true))
  }

  /** Every game waiting for a player before a request is kept or joined by it. */
  predicate PendingStep(s: System, s': System) {
    && |s.games| <= |s'.games|
    && forall i :: 0 <= i < |s.games| && s.games[i].status == PorEmpezar ==> JoinedOrKept(s.games[i], s'.games[i])
  }

  /** How one account may change: its phone is fixed, and an account an administrator
      disabled is frozen. */
  predicate UserFollows(u: User, u': User) {
    u'.phone == u.phone && (u.DisabledByAdmin() ==> u' == u)
  }

  /** How the store may change: rows are never deleted, and each row changes as above. */
  predicate Follows(s: System, s': System) {
    && |s.users| <= |s'.users|
    && (forall v :: 0 <= v < |s.users| ==> UserFollows(s.users[v], s'.users[v]))
    && |s.games| <= |s'.games|
    && (forall i :: 0 <= i < |s.games| ==> GameFollows(s.games[i], s'.games[i]))
  }

  lemma FollowsRefl(s: System)
    ensures Follows(s, s)
  {
    forall i | 0 <= i < |s.games| ensures GameFollows(s.games[i], s.games[i]) {
      assert s.games[i].lettersAttempted[..|s.games[i].lettersAttempted|] == s.games[i].lettersAttempted;
    }
  }

  lemma {:induction false} FollowsTrans(a: System, b: System, c: System)
    requires Follows(a, b) && Follows(b, c)
    ensures Follows(a, c)
  {
    forall i | 0 <= i < |a.games| ensures GameFollows(a.games[i], c.games[i]) {
      var g, g', g'' := a.games[i], b.games[i], c.games[i];
      assert GameFollows(g, g') && GameFollows(g', g'');
      assert g''.lettersAttempted[..|g.lettersAttempted|]
          == g''.lettersAttempted[..|g'.lettersAttempted|][..|g.lettersAttempted|];
    }
    forall v | 0 <= v < |a.users| ensures UserFollows(a.users[v], c.users[v]) {
      assert UserFollows(a.users[v], b.users[v]) && UserFollows(b.users[v], c.users[v]);
    }
  }

  /** A request that only deletes tokens keeps the store valid. */
  lemma {:induction false} FewerTokensValid(s: System, s': System)
    requires Valid(s)
    requires s'.users == s.users && s'.games == s.games && s'.codes == s.codes && s'.issued == s.issued
    requires s'.tokens <= s.tokens
    ensures Valid(s') && Follows(s, s')
  {
    FollowsRefl(s);
  }

  /** `ensureAccountIsActive`'s refusal keeps the store valid. */
  lemma RefusalValid(s: System, user: UserId)
    requires Valid(s) && user < |s.users| && !s.users[user].isActive
    ensures Valid(Refusal(s, user).sys) && Follows(s, Refusal(s, user).sys)
  {
    FewerTokensValid(s, Refusal(s, user).sys);
  }

  /** Changing one game row in a way that keeps it well-formed, and that gives it no active
      player another active game has, keeps the games valid. */
  lemma {:induction false} ReplaceGameValid(s: System, id: GameId, g': Game)
    requires Valid(s) && id < |s.games|
    requires GameOk(g', |s.users|) && GameFollows(s.games[id], g')
    requires g'.isActive ==> forall j :: 0 <= j < |s.games| && j != id ==> !PlayedBy(s.games[j], g'.activePlayerId.value)
    ensures Valid(s.(games := s.games[id := g'])) && Follows(s, s.(games := s.games[id := g']))
  {
    var s' := s.(games := s.games[id := g']);
    forall i, j | 0 <= i < j < |s'.games| && s'.games[i].isActive && s'.games[j].isActive
      ensures s'.games[i].activePlayerId != s'.games[j].activePlayerId
    {
      if i == id {
        assert !PlayedBy(s.games[j], g'.activePlayerId.value);
      } else if j == id {
        assert !PlayedBy(s.games[i], g'.activePlayerId.value);
      } else {
        assert s'.games[i] == s.games[i] && s'.games[j] == s.games[j];
      }
    }
    forall i | 0 <= i < |s.games| ensures GameFollows(s.games[i], s'.games[i]) {
      if i != id {
        assert s.games[i].lettersAttempted[..|s.games[i].lettersAttempted|] == s.games[i].lettersAttempted;
      }
    }
  }

  lemma {:induction false} CreateValid(s: System, t: Token, response: Option<string>, maxAttempts: int)
    requires Valid(s) && maxAttempts >= 1
    ensures var r := Create(s, t, response, maxAttempts); Valid(r.sys) && Follows(s, r.sys) && PendingStep(s, r.sys)
  {
    var r := Create(s, t, response, maxAttempts);
    if Caller(s, t).Some? && !s.users[t.owner].isActive {
      RefusalValid(s, t.owner);
    } else if r.sys == s {
      FollowsRefl(s);
    } else {
      var g := NewGame(t.owner, WordSource.Fetch(response).value, maxAttempts);
      assert r.sys == s.(games := s.games + [g]);
      assert GameOk(g, |s.users|);
      AppendGameValid(s, g);
    }
  }

  /** Appending a well-formed game nobody plays yet keeps the store valid, and changes no
      existing row. */
  lemma {:induction false} AppendGameValid(s: System, g: Game)
    requires Valid(s) && GameOk(g, |s.users|) && !g.isActive
    ensures var s' := s.(games := s.games + [g]); Valid(s') && Follows(s, s') && PendingStep(s, s')
  {
    var s' := s.(games := s.games + [g]);
    forall i | 0 <= i < |s.games| ensures s'.games[i] == s.games[i] {
    }
    FollowsRefl(s);
    assert GamesOk(s'.games, |s'.users|) by {
      forall i | 0 <= i < |s'.games| ensures GameOk(s'.games[i], |s'.users|) {
        if i < |s.games| { assert GameOk(s.games[i], |s.users|); }
      }
    }
    assert Follows(s, s');
    assert PendingStep(s, s');
  }

  /** The read-only requests write nothing but the refusal's token deletion. */
  lemma ReadsValid(s: System, t: Token)
    requires Valid(s)
    ensures Valid(AvailableGames(s, t).sys) && Follows(s, AvailableGames(s, t).sys)
    ensures Valid(Current(s, t).sys) && Follows(s, Current(s, t).sys)
    ensures Valid(History(s, t).sys) && Follows(s, History(s, t).sys)
    ensures PendingStep(s, AvailableGames(s, t).sys) && PendingStep(s, Current(s, t).sys)
    ensures PendingStep(s, History(s, t).sys)
  {
    FollowsRefl(s);
    if Caller(s, t).Some? && !s.users[t.owner].isActive {
      RefusalValid(s, t.owner);
    }
  }

  lemma {:induction false} JoinValid(s: System, t: Token, gameId: int)
    requires Valid(s)
    ensures var r := Join(s, t, gameId); Valid(r.sys) && Follows(s, r.sys) && PendingStep(s, r.sys)
  {
    var r := Join(s, t, gameId);
    if Caller(s, t).Some? && !s.users[t.owner].isActive {
      RefusalValid(s, t.owner);
    } else if r.sys == s {
      FollowsRefl(s);
    } else {
      var g := s.games[gameId];
      var g' := g.(activePlayerId := Some(t.owner), status := EnProgreso, isActive := true);
      assert ActiveGameOf(s.games, t.owner).None?;
      assert r.sys == s.(games := s.games[gameId := g']);
      assert g.lettersAttempted[..|g.lettersAttempted|] == g.lettersAttempted;
      assert GameOk(g, |s.users|);
      ReplaceGameValid(s, gameId, g');
    }
  }

  lemma {:induction false} GuessValid(s: System, t: Token, letter: string)
    requires Valid(s)
    ensures Aligned(s.games)
    ensures var r := Guess(s, t, letter); Valid(r.sys) && Follows(s, r.sys) && PendingStep(s, r.sys)
  {
    ValidAligned(s);
    var r := Guess(s, t, letter);
    if Caller(s, t).Some? && !s.users[t.owner].isActive {
      RefusalValid(s, t.owner);
    } else if r.sys == s {
      FollowsRefl(s);
    } else {
      var id := ActiveGameOf(s.games, t.owner).value;
      var g := s.games[id];
      var c := LowerChar(letter[0]);
      assert c !in g.lettersAttempted;
      assert IsLower(c);
      var (g', verdict) := Play(g, c);
      assert r.sys == s.(games := s.games[id := g']);
      assert GameOk(g, |s.users|);
      DistinctAppend(g.lettersAttempted, c);
      assert g'.lettersAttempted[..|g.lettersAttempted|] == g.lettersAttempted;
      assert GameOk(g', |s.users|);
      if g'.isActive {
        forall j | 0 <= j < |s.games| && j != id ensures !PlayedBy(s.games[j], g'.activePlayerId.value) {
          assert OneActiveGameEach(s.games);
        }
      }
      ReplaceGameValid(s, id, g');
    }
  }

  lemma {:induction false} AbandonValid(s: System, t: Token)
    requires Valid(s)
    ensures var r := Abandon(s, t); Valid(r.sys) && Follows(s, r.sys) && PendingStep(s, r.sys)
  {
    var r := Abandon(s, t);
    if Caller(s, t).Some? && !s.users[t.owner].isActive {
      RefusalValid(s, t.owner);
    } else if r.sys == s {
      FollowsRefl(s);
    } else {
      var id := ActiveGameOf(s.games, t.owner).value;
      var g := s.games[id];
      var g' := g.(isActive := false, status := Abandonada);
      assert r.sys == s.(games := s.games[id := g']);
      assert GameOk(g, |s.users|);
      assert g.lettersAttempted[..|g.lettersAttempted|] == g.lettersAttempted;
      ReplaceGameValid(s, id, g');
    }
  }

  /** Changing one account in a way that keeps its phone, leaves an account an administrator
      disabled alone, and leaves no token with a disabled owner keeps the store valid. */
  lemma {:induction false} ReplaceUserValid(s: System, s': System, v: UserId)
    requires Valid(s) && v < |s.users|
    requires s'.games == s.games && s'.codes == s.codes && s'.issued == s.issued
    requires |s'.users| == |s.users| && s'.users[v].phone == s.users[v].phone
    requires forall w :: 0 <= w < |s.users| && w != v ==> s'.users[w] == s.users[w]
    requires s.users[v].DisabledByAdmin() ==> s'.users[v] == s.users[v]
    requires s'.users[v].DisabledByAdmin() ==> !s'.users[v].isActive
    requires s'.tokens <= s.tokens
    requires s'.users[v].DisabledByAdmin() ==> forall t :: t in s'.tokens ==> t.owner != v
    ensures Valid(s') && Follows(s, s')
  {
    FollowsRefl(s);
    forall w, x | 0 <= w < x < |s'.users| ensures s'.users[w].phone != s'.users[x].phone {
      assert s'.users[w].phone == s.users[w].phone && s'.users[x].phone == s.users[x].phone;
    }
    forall i | 0 <= i < |s'.games| ensures GameOk(s'.games[i], |s'.users|) {
      assert GameOk(s.games[i], |s.users|);
    }
  }

  lemma {:induction false} ActivateValid(s: System, t: Token, phone: string)
    requires Valid(s)
    ensures var r := Admin.ActivateUser(s, t, phone); Valid(r.sys) && Follows(s, r.sys) && PendingStep(s, r.sys)
  {
    var r := Admin.ActivateUser(s, t, phone);
    if r.sys == s {
      FollowsRefl(s);
    } else {
      ReplaceUserValid(s, r.sys, Target(s, phone).value);
    }
  }

  lemma {:induction false} DeactivateValid(s: System, t: Token, phone: string)
    requires Valid(s)
    ensures var r := Admin.Deactivate(s, t, phone); Valid(r.sys) && Follows(s, r.sys) && PendingStep(s, r.sys)
  {
    var r := Admin.Deactivate(s, t, phone);
    if r.sys == s {
      FollowsRefl(s);
    } else {
      ReplaceUserValid(s, r.sys, Target(s, phone).value);
    }
  }

  lemma {:induction false} PromoteValid(s: System, t: Token, phone: string)
    requires Valid(s)
    ensures var r := Admin.PromoteToAdmin(s, t, phone); Valid(r.sys) && Follows(s, r.sys) && PendingStep(s, r.sys)
  {
    var r := Admin.PromoteToAdmin(s, t, phone);
    if r.sys == s {
      FollowsRefl(s);
    } else {
      ReplaceUserValid(s, r.sys, Target(s, phone).value);
    }
  }

  /** Appending a new account whose phone is unused keeps the store valid. */
  lemma {:induction false} NewUserValid(s: System, u: User, codes: map<string, int>)
    requires Valid(s) && FindUser(s.users, u.phone).None? && !u.DisabledByAdmin()
    requires CodesOk(codes)
    ensures var s' := s.(users := s.users + [u], codes := codes); Valid(s') && Follows(s, s')
  {
    var s' := s.(users := s.users + [u], codes := codes);
    FollowsRefl(s);
    forall w, x | 0 <= w < x < |s'.users| ensures s'.users[w].phone != s'.users[x].phone {
      if x == |s.users| {
        assert s'.users[w] == s.users[w];
      } else {
        assert s'.users[w] == s.users[w] && s'.users[x] == s.users[x];
      }
    }
    forall t | t in s'.tokens ensures !s'.users[t.owner].DisabledByAdmin() {
      assert s'.users[t.owner] == s.users[t.owner];
    }
    forall i | 0 <= i < |s'.games| ensures GameOk(s'.games[i], |s'.users|) {
      assert GameOk(s.games[i], |s.users|);
    }
    forall v | 0 <= v < |s.users| ensures UserFollows(s.users[v], s'.users[v]) {
      assert s'.users[v] == s.users[v];
    }
  }

  lemma {:induction false} RegisterAdminValid(s: System, phone: string, password: string, adminCode: string)
    requires Valid(s)
    ensures var r := Accounts.RegisterAdmin(s, phone, password, adminCode); Valid(r.sys) && Follows(s, r.sys) && PendingStep(s, r.sys)
  {
    var r := Accounts.RegisterAdmin(s, phone, password, adminCode);
    if r.sys == s {
      FollowsRefl(s);
    } else {
      NewUserValid(s, User(phone, password, AdminRole, true, None), s.codes);
    }
  }

  lemma {:induction false} SendVerificationValid(s: System, phone: string, password: string, code: int, delivered: bool)
    requires Valid(s) && Accounts.MinCode <= code <= Accounts.MaxCode
    ensures var r := Accounts.SendVerification(s, phone, password, code, delivered); Valid(r.sys) && Follows(s, r.sys) && PendingStep(s, r.sys)
  {
    var r := Accounts.SendVerification(s, phone, password, code, delivered);
    if r.sys == s {
      FollowsRefl(s);
    } else {
      NewUserValid(s, User(phone, password, PlayerRole, false, None), s.codes[Accounts.CodeKey(phone) := code]);
    }
  }

  lemma {:induction false} ResendValid(s: System, phone: string, code: int, delivered: bool)
    requires Valid(s) && Accounts.MinCode <= code <= Accounts.MaxCode
    ensures var r := Accounts.ResendVerificationCode(s, phone, code, delivered); Valid(r.sys) && Follows(s, r.sys) && PendingStep(s, r.sys)
  {
    FollowsRefl(s);
  }

  lemma {:induction false} VerifyValid(s: System, phone: string, code: string)
    requires Valid(s)
    ensures var r := Accounts.VerifyCode(s, phone, code); Valid(r.sys) && Follows(s, r.sys) && PendingStep(s, r.sys)
  {
    var r := Accounts.VerifyCode(s, phone, code);
    if r.sys == s {
      FollowsRefl(s);
    } else {
      var v := Target(s, phone).value;
      var s1 := s.(codes := s.codes - {Accounts.CodeKey(phone)});
      assert r.sys == s1.(users := s.users[v := s.users[v].(isActive := true, deactivationReason := None)]);
      ReplaceUserValid(s1, r.sys, v);
      FollowsRefl(s);
    }
  }

  lemma {:induction false} LoginValid(s: System, phone: string, password: string)
    requires Valid(s)
    ensures var r := Accounts.Login(s, phone, password); Valid(r.sys) && Follows(s, r.sys) && PendingStep(s, r.sys)
  {
    FollowsRefl(s);
  }

  lemma {:induction false} LogoutValid(s: System, t: Token)
    requires Valid(s)
    ensures var r := Accounts.Logout(s, t); Valid(r.sys) && Follows(s, r.sys) && PendingStep(s, r.sys)
  {
    FollowsRefl(s);
  }
}
