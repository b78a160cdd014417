/** The administrator controller: activating, deactivating and promoting an account named by
    its phone number. */
module Admin {
  import opened Optional
  import opened Records
  import opened Access

  /** The gates in front of every administrator action: the authentication middleware, then
      `authorizeAdmin`. `None` lets the request through. */
  function Gate(s: System, t: Token): (e: Option<Error>)
    ensures e.None? <==> Caller(s, t).Some? && s.users[t.owner].role == AdminRole
    ensures Caller(s, t).None? ==> e == Some(Unauthenticated)
    ensures Caller(s, t).Some? && s.users[t.owner].role != AdminRole ==> e == Some(NotAdmin)
  {
    match Caller(s, t)
    case None => Some(Unauthenticated)
    case Some(caller) => if AuthorizeAdmin(Some(s.users[caller])) then None else Some(NotAdmin)
  }

  /** `activateUser`: an active account is a 400, an account an administrator disabled is a
      403; any other inactive account becomes active with its reason cleared. No request
      ever activates an account an administrator disabled. */
  function ActivateUser(s: System, t: Token, phone: string): (r: Step)
    ensures Gate(s, t).Some? ==> r == Step(Failed(Gate(s, t).value), s)
    ensures Gate(s, t).None? && Target(s, phone).None? ==> r == Step(Failed(Invalid), s)
    ensures Gate(s, t).None? && Target(s, phone).Some? ==>
      var v := Target(s, phone).value;
      var u := s.users[v];
      && (u.isActive ==> r == Step(Failed(AlreadyActive), s))
      && (!u.isActive && u.DisabledByAdmin() ==> r == Step(Failed(ReactivationForbidden), s))
      && (!u.isActive && !u.DisabledByAdmin() ==>
            r.reply == Done
            && r.sys == s.(users := s.users[v := u.(isActive := true, deactivationReason := None)]))
    ensures |r.sys.users| == |s.users|
    ensures forall v :: 0 <= v < |s.users| && s.users[v].DisabledByAdmin() ==> r.sys.users[v] == s.users[v]
  {
    match Gate(s, t)
    case Some(e) => Step(Failed(e), s)
    case None =>
      match Target(s, phone)
      case None => Step(Failed(Invalid), s)
      case Some(v) =>
        var u := s.users[v];
        if u.isActive then Step(Failed(AlreadyActive), s)
        else if u.DisabledByAdmin() then Step(Failed(ReactivationForbidden), s)
        else Step(Done, s.(users := s.users[v := u.(isActive := true, deactivationReason := None)]))
  }

  /** `deactivate`: an inactive account is a 400; an active one becomes inactive with reason
      `admin_disabled`, and every token it holds is deleted. */
  function Deactivate(s: System, t: Token, phone: string): (r: Step)
    ensures Gate(s, t).Some? ==> r == Step(Failed(Gate(s, t).value), s)
    ensures Gate(s, t).None? && Target(s, phone).None? ==> r == Step(Failed(Invalid), s)
    ensures Gate(s, t).None? && Target(s, phone).Some? ==>
      var v := Target(s, phone).value;
      var u := s.users[v];
      && (!u.isActive ==> r == Step(Failed(AlreadyInactive), s))
      && (u.isActive ==>
            && r.reply == Done
            && r.sys.users == s.users[v := u.(isActive := false, deactivationReason := Some(AdminDisabled))]
            && r.sys.games == s.games && r.sys.codes == s.codes && r.sys.issued == s.issued
            && forall tk :: tk in r.sys.tokens <==> tk in s.tokens && tk.owner != v)
  {
    match Gate(s, t)
    case Some(e) => Step(Failed(e), s)
    case None =>
      match Target(s, phone)
      case None => Step(Failed(Invalid), s)
      case Some(v) =>
        var u := s.users[v];
        if !u.isActive then Step(Failed(AlreadyInactive), s)
        else
          var off := u.(isActive := false, deactivationReason := Some(AdminDisabled));
          Step(Done, s.(users := s.users[v := off], tokens := RevokeTokens(s.tokens, v)))
  }

  /** `promoteToAdmin`: an inactive account and an administrator are refused with a 400;
      otherwise only the role changes, to `admin`. */
  function PromoteToAdmin(s: System, t: Token, phone: string): (r: Step)
    ensures Gate(s, t).Some? ==> r == Step(Failed(Gate(s, t).value), s)
    ensures Gate(s, t).None? && Target(s, phone).None? ==> r == Step(Failed(Invalid), s)
    ensures Gate(s, t).None? && Target(s, phone).Some? ==>
      var v := Target(s, phone).value;
      var u := s.users[v];
      && (!u.isActive ==> r == Step(Failed(PromoteInactive), s))
      && (u.isActive && u.role == AdminRole ==> r == Step(Failed(AlreadyAdmin), s))
      && (u.isActive && u.role != AdminRole ==>
            r.reply == Done && r.sys == s.(users := s.users[v := u.(role := AdminRole)]))
  {
    match Gate(s, t)
    case Some(e) => Step(Failed(e), s)
    case None =>
      match Target(s, phone)
      case None => Step(Failed(Invalid), s)
      case Some(v) =>
        var u := s.users[v];
        if !u.isActive then Step(Failed(PromoteInactive), s)
        else if u.role == AdminRole then Step(Failed(AlreadyAdmin), s)
        else Step(Done, s.(users := s.users[v := u.(role := AdminRole)]))
  }
}
