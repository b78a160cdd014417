/** The actions of the game controller over the whole store. Each one runs behind the
    authentication middleware and `ensureAccountIsActive` (`Guarded`). */
module Games {
  import opened Optional
  import opened Sequences
  import opened Text
  import opened Records
  import opened Access
  import opened Hangman
  import WordSource

  /** The game a `where('active_player_id', user)->where('is_active', true)->first()` query finds. */
  function ActiveGameOf(games: seq<Game>, user: UserId): (r: Option<GameId>)
    ensures r.Some? ==> r.value < |games| && PlayedBy(games[r.value], user)
    ensures r.Some? ==> forall j :: 0 <= j < r.value ==> !PlayedBy(games[j], user)
    ensures r.None? ==> forall j :: 0 <= j < |games| ==> !PlayedBy(games[j], user)
  {
    FirstIndex(games, (g: Game) => PlayedBy(g, user))
  }

  /** Every stored mask is as long as its word, as `create` writes it and `guess` keeps it. */
  predicate Aligned(games: seq<Game>) {
    forall i :: 0 <= i < |games| ==> |games[i].progress| == |games[i].word|
  }

  /** Only game `id` differs between the two stores; every other table and row is as it was. */
  predicate OnlyGameChanged(s: System, s': System, id: GameId) {
    && s'.users == s.users && s'.tokens == s.tokens && s'.issued == s.issued && s'.codes == s.codes
    && |s'.games| == |s.games| && id < |s.games|
    && forall j :: 0 <= j < |s.games| && j != id ==> s'.games[j] == s.games[j]
  }

  /** `create`: a fresh `por empezar` game for the caller when the provider's body yields a word
      (`response` is `None` when the request to the provider failed); a 500 and no row otherwise. */
  function Create(s: System, t: Token, response: Option<string>, maxAttempts: int): (r: Step)
    ensures Guarded(s, t, r)
    ensures Admitted(s, t) && WordSource.Fetch(response).None? ==>
      r == Step(Failed(WordUnavailable), s)
    ensures Admitted(s, t) && WordSource.Fetch(response).Some? ==>
      var word := WordSource.Fetch(response).value;
      && r.reply == Created(|s.games|, PorEmpezar, |word|, maxAttempts)
      && HttpStatus(r.reply) == 201
      && r.sys == s.(games := s.games + [NewGame(t.owner, word, maxAttempts)])
  {
    match Caller(s, t)
    case None => Step(Failed(Unauthenticated), s)
    case Some(user) =>
      if !s.users[user].isActive then Refusal(s, user)
      else match WordSource.Fetch(response)
        case None => Step(Failed(WordUnavailable), s)
        case Some(word) =>
          var g := NewGame(user, word, maxAttempts);
          Step(Created(|s.games|, g.status, |word|, maxAttempts), s.(games := s.games + [g]))
  }

  function ListingOf(id: GameId, g: Game): Listing {
    Listing(id, |g.word|, g.progress, g.remainingAttempts)
  }

  /** The listing `availableGames` answers with: the user's `por empezar` games, taken in id order. */
  function OpenListing(games: seq<Game>, user: UserId): (open: seq<Listing>)
    ensures |open| == 0 <==> forall i :: 0 <= i < |games| ==> !OpenFor(games[i], user)
    ensures forall k :: 0 <= k < |open| ==>
      open[k].id < |games| && OpenFor(games[open[k].id], user)
      && open[k] == ListingOf(open[k].id, games[open[k].id])
    ensures forall i :: 0 <= i < |games| && OpenFor(games[i], user) ==>
      exists k :: 0 <= k < |open| && open[k].id == i
    ensures forall k, l :: 0 <= k < l < |open| ==> open[k].id < open[l].id
  {
    var ids := Select(games, (g: Game) => OpenFor(g, user));
    var open := Listings(games, ids);
    assert |open| > 0 ==> open[0].id == ids[0] && OpenFor(games[ids[0]], user);
    assert forall i :: 0 <= i < |games| && OpenFor(games[i], user) ==> open[IndexOf(ids, i)].id == i;
    open
  }

  /** The listing of each of the rows `ids`, in the order given. */
  function Listings(games: seq<Game>, ids: seq<nat>): (open: seq<Listing>)
    requires forall k :: 0 <= k < |ids| ==> ids[k] < |games|
    ensures |open| == |ids|
    ensures forall k :: 0 <= k < |ids| ==> open[k] == ListingOf(ids[k], games[ids[k]])
  {
    seq(|ids|, k requires 0 <= k < |ids| => ListingOf(ids[k], games[ids[k]]))
  }

  /** `availableGames`: the caller's games still `por empezar`, in id order, each with its word
      withheld and its length shown; a 404 when there are none. Nothing is written. */
  function AvailableGames(s: System, t: Token): (r: Step)
    ensures Guarded(s, t, r)
    ensures Admitted(s, t) ==> r.sys == s
    ensures Admitted(s, t) ==>
      (r.reply == Failed(NoOpenGames) <==>
         forall i :: 0 <= i < |s.games| ==> !OpenFor(s.games[i], t.owner))
    ensures Admitted(s, t) && r.reply != Failed(NoOpenGames) ==>
      r.reply == Listed(OpenListing(s.games, t.owner))
  {
    match Caller(s, t)
    case None => Step(Failed(Unauthenticated), s)
    case Some(user) =>
      if !s.users[user].isActive then Refusal(s, user)
      else
        var open := OpenListing(s.games, user);
        if |open| == 0 then Step(Failed(NoOpenGames), s) else Step(Listed(open), s)
  }

  /** `join`: an unknown game id fails validation; a caller who already plays a game gets a 400
      naming it; a game that is not the caller's or not `por empezar` gets a 403; otherwise that
      game, and nothing else, becomes the caller's game in progress. */
  function Join(s: System, t: Token, gameId: int): (r: Step)
    ensures Guarded(s, t, r)
    ensures Admitted(s, t) && !(0 <= gameId < |s.games|) ==> r == Step(Failed(Invalid), s)
    ensures Admitted(s, t) && 0 <= gameId < |s.games| && ActiveGameOf(s.games, t.owner).Some? ==>
      r == Step(Failed(AlreadyPlaying(ActiveGameOf(s.games, t.owner).value)), s)
    ensures Admitted(s, t) && 0 <= gameId < |s.games| && ActiveGameOf(s.games, t.owner).None? ==>
      if !OpenFor(s.games[gameId], t.owner) then r == Step(Failed(NotJoinable), s)
      else
        var g := s.games[gameId];
        && r.reply == Joined(gameId, |g.word|, g.remainingAttempts)
        && OnlyGameChanged(s, r.sys, gameId)
        && r.sys.games[gameId] == g.(activePlayerId := Some(t.owner), status := EnProgreso, isActive := true)
  {
    match Caller(s, t)
    case None => Step(Failed(Unauthenticated), s)
    case Some(user) =>
      if !s.users[user].isActive then Refusal(s, user)
      else if !(0 <= gameId < |s.games|) then Step(Failed(Invalid), s)
      else match ActiveGameOf(s.games, user)
        case Some(active) => Step(Failed(AlreadyPlaying(active)), s)
        case None =>
          var g := s.games[gameId];
          if g.userId != user || g.status != PorEmpezar then Step(Failed(NotJoinable), s)
          else
            var joined := g.(activePlayerId := Some(user), status := EnProgreso, isActive := true);
            Step(Joined(gameId, |g.word|, g.remainingAttempts), s.(games := s.games[gameId := joined]))
  }

  /** The `letter` field passes `required|string|size:1|regex:/^[a-zA-Z]$/`. */
  predicate ValidLetter(letter: string) {
    |letter| == 1 && IsLetter(letter[0])
  }

  /** `guess`: after validation, the caller's active game is needed (404 without one); a letter
      tried before is a 400 that changes nothing; a fresh letter is played on that game alone. */
  function Guess(s: System, t: Token, letter: string): (r: Step)
    requires Aligned(s.games)
    ensures Guarded(s, t, r)
    ensures Admitted(s, t) && !ValidLetter(letter) ==> r == Step(Failed(Invalid), s)
    ensures Admitted(s, t) && ValidLetter(letter) && ActiveGameOf(s.games, t.owner).None? ==>
      r == Step(Failed(NoActiveGame), s)
    ensures Admitted(s, t) && ValidLetter(letter) && ActiveGameOf(s.games, t.owner).Some? ==>
      var id := ActiveGameOf(s.games, t.owner).value;
      var c := LowerChar(letter[0]);
      if c in s.games[id].lettersAttempted then r == Step(Failed(LetterAlreadyTried), s)
      else
        var (g, verdict) := Play(s.games[id], c);
        && OnlyGameChanged(s, r.sys, id)
        && r.sys.games[id] == g
        && r.reply == Guessed(verdict, Spaced(g.progress), g.remainingAttempts)
  {
    match Caller(s, t)
    case None => Step(Failed(Unauthenticated), s)
    case Some(user) =>
      if !s.users[user].isActive then Refusal(s, user)
      else if !ValidLetter(letter) then Step(Failed(Invalid), s)
      else match ActiveGameOf(s.games, user)
        case None => Step(Failed(NoActiveGame), s)
        case Some(id) =>
          var c := LowerChar(letter[0]);
          if c in s.games[id].lettersAttempted then Step(Failed(LetterAlreadyTried), s)
          else
            var (g, verdict) := Play(s.games[id], c);
            Step(Guessed(verdict, Spaced(g.progress), g.remainingAttempts), s.(games := s.games[id := g]))
  }

  /** `abandon`: without an active game a 404 and no change; otherwise that game alone becomes
      `abandonada` and inactive. */
  function Abandon(s: System, t: Token): (r: Step)
    ensures Guarded(s, t, r)
    ensures Admitted(s, t) && ActiveGameOf(s.games, t.owner).None? ==>
      r == Step(Failed(NoActiveGame), s)
    ensures Admitted(s, t) && ActiveGameOf(s.games, t.owner).Some? ==>
      var id := ActiveGameOf(s.games, t.owner).value;
      && r.reply == Abandoned
      && OnlyGameChanged(s, r.sys, id)
      && r.sys.games[id] == s.games[id].(isActive := false, status := Abandonada)
  {
    match Caller(s, t)
    case None => Step(Failed(Unauthenticated), s)
    case Some(user) =>
      if !s.users[user].isActive then Refusal(s, user)
      else match ActiveGameOf(s.games, user)
        case None => Step(Failed(NoActiveGame), s)
        case Some(id) =>
          var g := s.games[id].(isActive := false, status := Abandonada);
          Step(Abandoned, s.(games := s.games[id := g]))
  }

  /** `current`: the spaced mask and attempts left of the caller's active game, or a 404.
      Nothing is written. */
  function Current(s: System, t: Token): (r: Step)
    ensures Guarded(s, t, r)
    ensures Admitted(s, t) ==> r.sys == s
    ensures Admitted(s, t) ==>
      (r.reply == Failed(NoActiveGame) <==> forall j :: 0 <= j < |s.games| ==> !PlayedBy(s.games[j], t.owner))
    ensures Admitted(s, t) && ActiveGameOf(s.games, t.owner).Some? ==>
      var g := s.games[ActiveGameOf(s.games, t.owner).value];
      r.reply == InPlay(Spaced(g.progress), g.remainingAttempts)
    ensures Admitted(s, t) && r.reply.InPlay? ==>
      exists id :: 0 <= id < |s.games| && PlayedBy(s.games[id], t.owner)
        && Unspaced(r.reply.progress) == s.games[id].progress
        && r.reply.remainingAttempts == s.games[id].remainingAttempts
  {
    match Caller(s, t)
    case None => Step(Failed(Unauthenticated), s)
    case Some(user) =>
      if !s.users[user].isActive then Refusal(s, user)
      else match ActiveGameOf(s.games, user)
        case None => Step(Failed(NoActiveGame), s)
        case Some(id) =>
          SpacedRoundTrip(s.games[id].progress);
          Step(InPlay(Spaced(s.games[id].progress), s.games[id].remainingAttempts), s)
  }

  /** Each of the rows `ids` with its id, in the order given. */
  function Rows(games: seq<Game>, ids: seq<nat>): (rows: seq<(GameId, Game)>)
    requires forall k :: 0 <= k < |ids| ==> ids[k] < |games|
    ensures |rows| == |ids|
    ensures forall k :: 0 <= k < |ids| ==> rows[k] == (ids[k], games[ids[k]])
  {
    seq(|ids|, k requires 0 <= k < |ids| => (ids[k], games[ids[k]]))
  }

  /** The rows `history` answers with: the user's won, lost and abandoned games, with their ids,
      taken in id order. */
  function FinishedListing(games: seq<Game>, user: UserId): (fin: seq<(GameId, Game)>)
    ensures forall k :: 0 <= k < |fin| ==>
      fin[k].0 < |games| && fin[k].1 == games[fin[k].0] && FinishedFor(fin[k].1, user)
    ensures forall i :: 0 <= i < |games| && FinishedFor(games[i], user) ==>
      exists k :: 0 <= k < |fin| && fin[k].0 == i
    ensures forall k, l :: 0 <= k < l < |fin| ==> fin[k].0 < fin[l].0
  {
    var ids := Select(games, (g: Game) => FinishedFor(g, user));
    var fin := Rows(games, ids);
    assert forall i :: 0 <= i < |games| && FinishedFor(games[i], user) ==> fin[IndexOf(ids, i)].0 == i;
    fin
  }

  /** `history`: every game of the caller that is won, lost or abandoned, in id order, with its
      full row. Nothing is written. */
  function History(s: System, t: Token): (r: Step)
    ensures Guarded(s, t, r)
    ensures Admitted(s, t) ==> r.sys == s && r.reply.Finished?
    ensures Admitted(s, t) ==>
      var fin := r.reply.finished;
      && (forall k :: 0 <= k < |fin| ==>
            fin[k].0 < |s.games| && fin[k].1 == s.games[fin[k].0] && FinishedFor(fin[k].1, t.owner))
      && (forall i :: 0 <= i < |s.games| && FinishedFor(s.games[i], t.owner) ==>
            exists k :: 0 <= k < |fin| && fin[k].0 == i)
      && (forall k, l :: 0 <= k < l < |fin| ==> fin[k].0 < fin[l].0)
  {
    match Caller(s, t)
    case None => Step(Failed(Unauthenticated), s)
    case Some(user) =>
      if !s.users[user].isActive then Refusal(s, user)
      else Step(Finished(FinishedListing(s.games, user)), s)
  }
}
