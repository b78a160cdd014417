/** Any sequence of requests, from any client, against one store. */
module Sessions {
  import opened Optional
  import opened Records
  import opened Games
  import opened Invariants
  import Sequences
  import Hangman
  import Admin
  import Accounts

  /** One call of a controller action: every routed request, plus `ResendCode`, whose action
      `resendVerificationCode` no route reaches. Codes and delivery outcomes are what `rand`
      and the messaging service would have produced. */
  datatype Command =
    | CreateGame(token: Token, response: Option<string>)
    | ListGames(token: Token)
    | JoinGame(token: Token, gameId: int)
    | GuessLetter(token: Token, letter: string)
    | AbandonGame(token: Token)
    | ShowCurrent(token: Token)
    | ShowHistory(token: Token)
    | Activate(token: Token, phone: string)
    | Deactivate(token: Token, phone: string)
    | Promote(token: Token, phone: string)
    | RegisterAdministrator(phone: string, password: string, adminCode: string)
    | RegisterPlayer(phone: string, password: string, code: int, delivered: bool)
    | ResendCode(phone: string, code: int, delivered: bool)
    | Verify(phone: string, typed: string)
    | LogIn(phone: string, password: string)
    | LogOut(token: Token)

  /** A drawn code lies in the range `rand(100000, 999999)` draws from. */
  predicate Drawn(c: Command) {
    (c.RegisterPlayer? || c.ResendCode?) ==> Accounts.MinCode <= c.code <= Accounts.MaxCode
  }

  /** One request, answered and applied. A valid store stays valid and evolves only in the
      permitted ways. */
  function Apply(s: System, c: Command, maxAttempts: int): (r: Step)
    requires Valid(s) && Drawn(c) && maxAttempts >= 1
    ensures Valid(r.sys) && Follows(s, r.sys)
    ensures PendingStep(s, r.sys)
  {
    match c
    case CreateGame(t, response) => CreateValid(s, t, response, maxAttempts); Create(s, t, response, maxAttempts)
    case ListGames(t) => ReadsValid(s, t); AvailableGames(s, t)
    case JoinGame(t, id) => JoinValid(s, t, id); Join(s, t, id)
    case GuessLetter(t, letter) => GuessValid(s, t, letter); Guess(s, t, letter)
    case AbandonGame(t) => AbandonValid(s, t); Abandon(s, t)
    case ShowCurrent(t) => ReadsValid(s, t); Current(s, t)
    case ShowHistory(t) => ReadsValid(s, t); History(s, t)
    case Activate(t, phone) => ActivateValid(s, t, phone); Admin.ActivateUser(s, t, phone)
    case Deactivate(t, phone) => DeactivateValid(s, t, phone); Admin.Deactivate(s, t, phone)
    case Promote(t, phone) => PromoteValid(s, t, phone); Admin.PromoteToAdmin(s, t, phone)
    case RegisterAdministrator(phone, password, adminCode) =>
      RegisterAdminValid(s, phone, password, adminCode); Accounts.RegisterAdmin(s, phone, password, adminCode)
    case RegisterPlayer(phone, password, code, delivered) =>
      SendVerificationValid(s, phone, password, code, delivered);
      Accounts.SendVerification(s, phone, password, code, delivered)
    case ResendCode(phone, code, delivered) =>
      ResendValid(s, phone, code, delivered); Accounts.ResendVerificationCode(s, phone, code, delivered)
    case Verify(phone, typed) => VerifyValid(s, phone, typed); Accounts.VerifyCode(s, phone, typed)
    case LogIn(phone, password) => LoginValid(s, phone, password); Accounts.Login(s, phone, password)
    case LogOut(t) => LogoutValid(s, t); Accounts.Logout(s, t)
  }

  /** The replies to a sequence of requests and the store they leave. Every invariant holds after
      every request, and the final store relates to the first as `Follows` permits: no terminal
      game is reopened and no account an administrator disabled is touched. */
  function Run(s: System, cmds: seq<Command>, maxAttempts: int): (r: (seq<Reply>, System))
    requires Valid(s) && maxAttempts >= 1
    requires forall k :: 0 <= k < |cmds| ==> Drawn(cmds[k])
    ensures |r.0| == |cmds|
    ensures Valid(r.1) && Follows(s, r.1)
    decreases |cmds|
  {
    if |cmds| == 0 then ([], s)
    else
      var step := Apply(s, cmds[0], maxAttempts);
      var rest := Run(step.sys, cmds[1..], maxAttempts);
      FollowsTrans(s, step.sys, rest.1);
      ([step.reply] + rest.0, rest.1)
  }

  /** An account an administrator disabled stays exactly as it is, inactive, whatever follows. */
  lemma DisabledStaysDisabled(s: System, cmds: seq<Command>, maxAttempts: int, v: UserId)
    requires Valid(s) && maxAttempts >= 1
    requires forall k :: 0 <= k < |cmds| ==> Drawn(cmds[k])
    requires v < |s.users| && s.users[v].DisabledByAdmin()
    ensures var s' := Run(s, cmds, maxAttempts).1;
      v < |s'.users| && s'.users[v] == s.users[v] && !s'.users[v].isActive
  {
    var s' := Run(s, cmds, maxAttempts).1;
    assert UserFollows(s.users[v], s'.users[v]);
  }

  /** A game that is won, lost or abandoned stays exactly as it is whatever follows. */
  lemma TerminalStaysTerminal(s: System, cmds: seq<Command>, maxAttempts: int, id: GameId)
    requires Valid(s) && maxAttempts >= 1
    requires forall k :: 0 <= k < |cmds| ==> Drawn(cmds[k])
    requires id < |s.games| && s.games[id].status.Terminal()
    ensures var s' := Run(s, cmds, maxAttempts).1;
      id < |s'.games| && s'.games[id] == s.games[id]
  {
    var s' := Run(s, cmds, maxAttempts).1;
    assert GameFollows(s.games[id], s'.games[id]);
  }

  /** After any sequence of requests each game's mask is its word with the untried letters
      hidden, its letters are distinct, its attempts are not negative, it is active exactly
      when in progress, and no player has two active games. */
  lemma GamesStayWellFormed(s: System, cmds: seq<Command>, maxAttempts: int)
    requires Valid(s) && maxAttempts >= 1
    requires forall k :: 0 <= k < |cmds| ==> Drawn(cmds[k])
    ensures var games := Run(s, cmds, maxAttempts).1.games;
      forall id :: 0 <= id < |games| ==>
        && games[id].progress == Hangman.MaskOf(games[id].word, games[id].lettersAttempted)
        && Sequences.Distinct(games[id].lettersAttempted)
        && games[id].remainingAttempts >= 0
        && (games[id].isActive <==> games[id].status == EnProgreso)
    ensures OneActiveGameEach(Run(s, cmds, maxAttempts).1.games)
  {
    var s' := Run(s, cmds, maxAttempts).1;
    assert GamesOk(s'.games, |s'.users|);
  }
}
