/** The account controller: registering administrators and players, the verification code
    kept in the cache, and logging in and out. */
module Accounts {
  import opened Optional
  import opened Text
  import opened Records
  import opened Access

  /** The fixed code an administrator registration must quote. */
  const AdminCode: string := "270905"

  /** The cache key a phone's verification code is kept under. */
  function CodeKey(phone: string): (k: string)
    ensures |k| == |phone| + 13 && k[13..] == phone
  {
    "verification_" + phone
  }

  /** Different phones never share a cache key. */
  lemma CodeKeyInjective(p: string, q: string)
    requires CodeKey(p) == CodeKey(q)
    ensures p == q
  {
    assert p == CodeKey(p)[13..];
  }

  /** The lowest and highest code `rand(100000, 999999)` draws. */
  const MinCode: int := 100000
  const MaxCode: int := 999999

  /** The registration rules on `phone` and `password`: `required|string|unique:users,phone|max:15`
      and `required|string|min:6`. */
  predicate RegistrationValid(s: System, phone: string, password: string) {
    Filled(phone) && |phone| <= 15 && FindUser(s.users, phone).None? && Filled(password) && |password| >= 6
  }

  /** `Hash::check`: the stored password stands for its hash, so checking is comparing. */
  predicate PasswordMatches(given: string, stored: string) {
    given == stored
  }

  /** PHP's `$storedCode && $storedCode == $data['code']` between the cached integer and the
      submitted text: a non-zero code equal to the number the text spells in digits. */
  predicate CodeMatches(stored: int, given: string) {
    stored != 0 && DecimalValue(given).Some? && DecimalValue(given).value == stored
  }

  /** `registerAdmin`: with valid fields and the right code, a new active administrator. */
  function RegisterAdmin(s: System, phone: string, password: string, adminCode: string): (r: Step)
    ensures !(RegistrationValid(s, phone, password) && Filled(adminCode)) ==> r == Step(Failed(Invalid), s)
    ensures RegistrationValid(s, phone, password) && Filled(adminCode) && adminCode != AdminCode ==>
      r == Step(Failed(WrongAdminCode), s) && HttpStatus(r.reply) == 403
    ensures RegistrationValid(s, phone, password) && adminCode == AdminCode ==>
      && r.reply == Done
      && r.sys == s.(users := s.users + [User(phone, password, AdminRole, true, None)])
  {
    assert AdminCode[0] !in Blank;
    if !(RegistrationValid(s, phone, password) && Filled(adminCode)) then Step(Failed(Invalid), s)
    else if adminCode != AdminCode then Step(Failed(WrongAdminCode), s)
    else Step(Done, s.(users := s.users + [User(phone, password, AdminRole, true, None)]))
  }

  /** `sendVerification`: a new inactive player and `code` cached under its phone's key. The
      writes happen before the message is sent, so they stay when `delivered` is false and the
      reply is a 500. */
  function SendVerification(s: System, phone: string, password: string, code: int, delivered: bool): (r: Step)
    requires MinCode <= code <= MaxCode
    ensures !RegistrationValid(s, phone, password) ==> r == Step(Failed(Invalid), s)
    ensures RegistrationValid(s, phone, password) ==>
      && r.sys == s.(users := s.users + [User(phone, password, PlayerRole, false, None)],
                     codes := s.codes[CodeKey(phone) := code])
      && (r.reply == Done <==> delivered)
      && (!delivered ==> r.reply == Failed(DeliveryFailed))
  {
    if !RegistrationValid(s, phone, password) then Step(Failed(Invalid), s)
    else
      var s' := s.(users := s.users + [User(phone, password, PlayerRole, false, None)],
                   codes := s.codes[CodeKey(phone) := code]);
      Step(if delivered then Done else Failed(DeliveryFailed), s')
  }

  /** `resendVerificationCode`: a fresh code replaces the cached one, unless an administrator
      disabled the account. */
  function ResendVerificationCode(s: System, phone: string, code: int, delivered: bool): (r: Step)
    requires MinCode <= code <= MaxCode
    ensures Target(s, phone).None? ==> r == Step(Failed(Invalid), s)
    ensures Target(s, phone).Some? && s.users[Target(s, phone).value].DisabledByAdmin() ==>
      r == Step(Failed(AccountDisabled), s)
    ensures Target(s, phone).Some? && !s.users[Target(s, phone).value].DisabledByAdmin() ==>
      && r.sys == s.(codes := s.codes[CodeKey(phone) := code])
      && (r.reply == Done <==> delivered)
      && (!delivered ==> r.reply == Failed(DeliveryFailed))
  {
    match Target(s, phone)
    case None => Step(Failed(Invalid), s)
    case Some(v) =>
      if s.users[v].DisabledByAdmin() then Step(Failed(AccountDisabled), s)
      else Step(if delivered then Done else Failed(DeliveryFailed), s.(codes := s.codes[CodeKey(phone) := code]))
  }

  /** `verifyCode`: an account an administrator disabled is refused whatever the code; a code
      matching the cached one activates the account, clears its reason and is consumed; a
      missing or different code is a 400 that changes nothing. */
  function VerifyCode(s: System, phone: string, code: string): (r: Step)
    ensures Target(s, phone).None? || !Filled(code) ==> r == Step(Failed(Invalid), s)
    ensures Target(s, phone).Some? && Filled(code) && s.users[Target(s, phone).value].DisabledByAdmin() ==>
      r == Step(Failed(AccountDisabled), s)
    ensures Target(s, phone).Some? && Filled(code) && !s.users[Target(s, phone).value].DisabledByAdmin() ==>
      var v := Target(s, phone).value;
      var key := CodeKey(phone);
      && (r.reply == Done <==> key in s.codes && CodeMatches(s.codes[key], code))
      && (r.reply == Done ==>
            r.sys == s.(users := s.users[v := s.users[v].(isActive := true, deactivationReason := None)],
                        codes := s.codes - {key}))
      && (r.reply != Done ==> r == Step(Failed(CodeInvalidOrExpired), s))
    ensures forall v :: 0 <= v < |s.users| && s.users[v].DisabledByAdmin() ==> r.sys.users[v] == s.users[v]
  {
    match Target(s, phone)
    case None => Step(Failed(Invalid), s)
    case Some(v) =>
      if !Filled(code) then Step(Failed(Invalid), s)
      else if s.users[v].DisabledByAdmin() then Step(Failed(AccountDisabled), s)
      else
        var key := CodeKey(phone);
        if key in s.codes && CodeMatches(s.codes[key], code) then
          var u := s.users[v].(isActive := true, deactivationReason := None);
          Step(Done, s.(users := s.users[v := u], codes := s.codes - {key}))
        else Step(Failed(CodeInvalidOrExpired), s)
  }

  /** `login`: an account an administrator disabled is refused before the password is looked
      at; a wrong password is a 401; otherwise a new token, whether or not the account is active. */
  function Login(s: System, phone: string, password: string): (r: Step)
    ensures Target(s, phone).None? || !Filled(password) ==> r == Step(Failed(Invalid), s)
    ensures Target(s, phone).Some? && Filled(password) ==>
      var v := Target(s, phone).value;
      && (s.users[v].DisabledByAdmin() ==> r == Step(Failed(AccountDisabled), s))
      && (!s.users[v].DisabledByAdmin() && !PasswordMatches(password, s.users[v].password) ==>
            r == Step(Failed(WrongPassword), s) && HttpStatus(r.reply) == 401)
      && (!s.users[v].DisabledByAdmin() && PasswordMatches(password, s.users[v].password) ==>
            && r.reply == LoggedIn(Token(s.issued, v))
            && r.sys == s.(tokens := s.tokens + {Token(s.issued, v)}, issued := s.issued + 1))
  {
    match Target(s, phone)
    case None => Step(Failed(Invalid), s)
    case Some(v) =>
      if !Filled(password) then Step(Failed(Invalid), s)
      else if s.users[v].DisabledByAdmin() then Step(Failed(AccountDisabled), s)
      else if !PasswordMatches(password, s.users[v].password) then Step(Failed(WrongPassword), s)
      else
        var token := Token(s.issued, v);
        Step(LoggedIn(token), s.(tokens := s.tokens + {token}, issued := s.issued + 1))
  }

  /** `logout`: the token the request carries is deleted. */
  function Logout(s: System, t: Token): (r: Step)
    ensures Caller(s, t).None? ==> r == Step(Failed(Unauthenticated), s)
    ensures Caller(s, t).Some? ==> r.reply == Done && r.sys == s.(tokens := s.tokens - {t})
  {
    match Caller(s, t)
    case None => Step(Failed(Unauthenticated), s)
    case Some(_) => Step(Done, s.(tokens := s.tokens - {t}))
  }
}
