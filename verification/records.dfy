/** The rows the controllers read and write, the whole store, and the replies they send. */
module Records {
  import opened Optional

  /** Ids are positions in their table: rows are only ever appended, never deleted. */
  type UserId = nat
  type GameId = nat

  /** The `status` column of a game: `por empezar`, `en progreso`, `ganada`, `perdida`, `abandonada`. */
  datatype Status = PorEmpezar | EnProgreso | Ganada | Perdida | Abandonada {
    /** The statuses `history` lists: a game in one of them is over. */
    predicate Terminal() {
      this == Ganada || this == Perdida || this == Abandonada
    }
  }

  /** A row of the `games` table. */
  datatype Game = Game(
    userId: UserId,
    word: string,
    progress: string,
    remainingAttempts: int,
    isActive: bool,
    status: Status,
    activePlayerId: Option<UserId>,
    lettersAttempted: seq<char>)

  /** The game is the one `user` is currently playing. */
  predicate PlayedBy(g: Game, user: UserId) {
    g.activePlayerId == Some(user) && g.isActive
  }

  /** The game belongs to `user` and has not been joined yet. */
  predicate OpenFor(g: Game, user: UserId) {
    g.userId == user && g.status == PorEmpezar
  }

  /** The game belongs to `user` and is over. */
  predicate FinishedFor(g: Game, user: UserId) {
    g.userId == user && g.status.Terminal()
  }

  const AdminRole: string := "admin"
  const PlayerRole: string := "player"
  const AdminDisabled: string := "admin_disabled"

  /** A row of the `users` table. `password` stands for the stored hash. */
  datatype User = User(
    phone: string,
    password: string,
    role: string,
    isActive: bool,
    deactivationReason: Option<string>)
  {
    predicate DisabledByAdmin() {
      deactivationReason == Some(AdminDisabled)
    }
  }

  /** A personal access token; `owner` is its `tokenable_id`. */
  datatype Token = Token(serial: nat, owner: UserId)

  /** Everything the controllers share: the two tables, the issued tokens, the number of
      tokens ever issued, and the verification codes the cache holds, by cache key. */
  datatype System = System(
    users: seq<User>,
    games: seq<Game>,
    tokens: set<Token>,
    issued: nat,
    codes: map<string, int>)

  datatype Verdict = Won | Lost | Correct | Incorrect

  /** A pending game as `availableGames` lists it: the word is withheld, its length shown. */
  datatype Listing = Listing(id: GameId, wordLength: nat, progress: string, remainingAttempts: int)

  /** The error replies, one per distinct message of the controllers. */
  datatype Error =
    | Unauthenticated          // no valid token (the authentication middleware)
    | Invalid                  // a request validation rule failed
    | DisabledByAdministrator  // ensureAccountIsActive, reason 'admin_disabled'
    | AccountInactive          // ensureAccountIsActive, any other reason
    | WordUnavailable          // create: no valid word
    | NoOpenGames              // availableGames: nothing to join
    | AlreadyPlaying(activeGame: GameId)  // join: the caller already has an active game
    | NotJoinable              // join: not the caller's, or not 'por empezar'
    | NoActiveGame             // guess, abandon, current
    | LetterAlreadyTried       // guess
    | NotAdmin                 // authorizeAdmin
    | AlreadyActive            // activateUser
    | ReactivationForbidden    // activateUser on an 'admin_disabled' user
    | AlreadyInactive          // deactivate
    | PromoteInactive          // promoteToAdmin on an inactive user
    | AlreadyAdmin             // promoteToAdmin
    | WrongAdminCode           // registerAdmin
    | AccountDisabled          // registration, verification and login of an 'admin_disabled' user
    | CodeInvalidOrExpired     // verifyCode
    | WrongPassword            // login
    | DeliveryFailed           // the messaging call threw after the writes

  function ErrorStatus(e: Error): int {
    match e
    case Unauthenticated => 401
    case Invalid => 422
    case DisabledByAdministrator => 403
    case AccountInactive => 403
    case WordUnavailable => 500
    case NoOpenGames => 404
    case AlreadyPlaying(_) => 400
    case NotJoinable => 403
    case NoActiveGame => 404
    case LetterAlreadyTried => 400
    case NotAdmin => 403
    case AlreadyActive => 400
    case ReactivationForbidden => 403
    case AlreadyInactive => 400
    case PromoteInactive => 400
    case AlreadyAdmin => 400
    case WrongAdminCode => 403
    case AccountDisabled => 403
    case CodeInvalidOrExpired => 400
    case WrongPassword => 401
    case DeliveryFailed => 500
  }

  /** What a request answers, in place of the JSON body. */
  datatype Reply =
    | Created(id: GameId, status: Status, wordLength: nat, remainingAttempts: int)
    | Listed(open: seq<Listing>)
    | Joined(id: GameId, wordLength: nat, remainingAttempts: int)
    | Guessed(verdict: Verdict, progress: string, remainingAttempts: int)
    | Abandoned
    | InPlay(progress: string, remainingAttempts: int)
    | Finished(finished: seq<(GameId, Game)>)
    | Done
    | LoggedIn(token: Token)
    | Failed(error: Error)

  function HttpStatus(r: Reply): int {
    match r
    case Created(_, _, _, _) => 201
    case Failed(e) => ErrorStatus(e)
    case _ => 200
  }

  /** One request: its reply and the store it leaves behind. */
  datatype Step = Step(reply: Reply, sys: System)
}
