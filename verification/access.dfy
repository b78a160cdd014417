/** Who is calling, and the gates in front of the controllers' actions: the authentication
    middleware, `ensureAccountIsActive` and `authorizeAdmin`. */
module Access {
  import opened Optional
  import opened Sequences
  import opened Text
  import opened Records

  /** The user a bearer token authenticates; `None` for a token the store does not hold. */
  function Caller(s: System, t: Token): (r: Option<UserId>)
    ensures r.Some? ==> r.value == t.owner && r.value < |s.users| && t in s.tokens
    ensures t in s.tokens && t.owner < |s.users| ==> r.Some?
  {
    if t in s.tokens && t.owner < |s.users| then Some(t.owner) else None
  }

  /** The token authenticates a user whose account is active: the request reaches the action. */
  predicate Admitted(s: System, t: Token) {
    Caller(s, t).Some? && s.users[t.owner].isActive
  }

  /** Deleting every personal access token whose `tokenable_id` is `user`. */
  function RevokeTokens(tokens: set<Token>, user: UserId): (r: set<Token>)
    ensures forall t :: t in r <==> t in tokens && t.owner != user
  {
    set t | t in tokens && t.owner != user
  }

  /** `ensureAccountIsActive` turning an inactive account away: every token of the user is
      deleted, the reply is a 403 whose message says whether an administrator disabled the
      account, and nothing else in the store changes. */
  function Refusal(s: System, user: UserId): (r: Step)
    requires user < |s.users| && !s.users[user].isActive
    ensures HttpStatus(r.reply) == 403
    ensures r.reply == Failed(DisabledByAdministrator) <==> s.users[user].DisabledByAdmin()
    ensures r.reply == Failed(AccountInactive) <==> !s.users[user].DisabledByAdmin()
    ensures r.sys.users == s.users && r.sys.games == s.games && r.sys.codes == s.codes
    ensures r.sys.issued == s.issued
    ensures forall t :: t in r.sys.tokens <==> t in s.tokens && t.owner != user
  {
    var e := if s.users[user].DisabledByAdmin() then DisabledByAdministrator else AccountInactive;
    Step(Failed(e), s.(tokens := RevokeTokens(s.tokens, user)))
  }

  /** The gates every game action sits behind: an unknown token is answered 401 with no change,
      an inactive account gets `Refusal`. */
  predicate Guarded(s: System, t: Token, r: Step) {
    && (Caller(s, t).None? ==> r == Step(Failed(Unauthenticated), s))
    && (Caller(s, t).Some? && !s.users[t.owner].isActive ==> r == Refusal(s, t.owner))
  }

  /** `authorizeAdmin`: a missing caller, or one whose role is not `admin`, is refused. */
  predicate AuthorizeAdmin(caller: Option<User>) {
    caller.Some? && caller.value.role == AdminRole
  }

  /** The user `User::where('phone', $phone)->first()` finds. */
  function FindUser(users: seq<User>, phone: string): (r: Option<UserId>)
    ensures r.Some? ==> r.value < |users| && users[r.value].phone == phone
    ensures r.None? ==> forall v :: 0 <= v < |users| ==> users[v].phone != phone
  {
    FirstIndex(users, (u: User) => u.phone == phone)
  }

  /** The account the `phone` field names, once `required|exists:users,phone` passed (the
      administrator, verification and login requests). */
  function Target(s: System, phone: string): (r: Option<UserId>)
    ensures r.Some? ==> r.value < |s.users| && s.users[r.value].phone == phone && Filled(phone)
    ensures r.None? ==> !Filled(phone) || forall v :: 0 <= v < |s.users| ==> s.users[v].phone != phone
  {
    if !Filled(phone) then None else FindUser(s.users, phone)
  }
}
