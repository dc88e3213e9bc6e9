/**
 * The account state machine of routers/authRoutes.js, one pure step function
 * per route handler. Each step reads the record stored under the request's
 * email, runs the handler's guards in the handler's order, and yields the
 * HTTP reply, the store after the handler's `save()` and the OTP mail it
 * dispatched, if any.
 */
module AccountMachine {
  import opened Wrappers
  import opened SecretCodec

  /** Ten minutes in milliseconds: an OTP is valid this long after issuance. */
  const OtpTtlMs: int := 600000

  /**
   * A user document as routers/authRoutes.js reads and writes it. A string
   * field the request left out (or sent empty) is "".
   */
  datatype User = User(
    id: nat,
    name: string,
    email: string,
    phone: string,
    password: PasswordDigest,
    role: string,
    otp: Option<OtpDigest>,
    otpExpires: Option<int>,
    isVerified: bool)

  /** The user collection, looked up by email. */
  type Store = map<string, User>

  /** What `login` returns about the user: no password digest, no OTP fields. */
  datatype PublicUser = PublicUser(id: nat, name: string, email: string, role: string)

  /** The JSON body of a reply. */
  datatype Payload =
    | Message(message: string)
    | Error(error: string)
    | LoggedIn(success: bool, message: string, token: Token, user: PublicUser)

  datatype Response = Response(status: nat, body: Payload)

  /** One OTP mail: the plaintext code goes out by mail only. */
  datatype Mail = Mail(to: string, code: string)

  /** The effect of one handler: its reply, the store afterwards, the mail it sent. */
  datatype Outcome = Outcome(res: Response, store: Store, mail: Option<Mail>)

  datatype RegisterBody = RegisterBody(name: string, email: string, phone: string, password: string, role: string)
  datatype VerifyOtpBody = VerifyOtpBody(email: string, otp: string)
  datatype LoginBody = LoginBody(email: string, password: string)
  datatype ForgetPasswordBody = ForgetPasswordBody(email: string)
  datatype ResetPasswordBody = ResetPasswordBody(email: string, otp: string, newPassword: string)

  const MsgRegisterFieldsRequired := "Name, email, password required"
  const MsgOtpResent := "OTP resent successfully. Verify your email."
  const MsgEmailRegistered := "Email already registered"
  const MsgRegistered := "User registered. OTP sent for verification."
  const MsgVerifyFieldsRequired := "Email and OTP required"
  const MsgUserNotFound := "User not found"
  const MsgNoOtpRequested := "No OTP requested"
  const MsgOtpExpired := "OTP expired"
  const MsgInvalidOtp := "Invalid OTP"
  const MsgAccountVerified := "Account verified successfully"
  const MsgLoginFieldsRequired := "Email and password required"
  const MsgInvalidCredentials := "Invalid credentials"
  const MsgNotVerified := "Account not verified"
  const MsgLoginSuccessful := "Login successful"
  const MsgEmailRequired := "Email required"
  const MsgOtpSentIfExists := "If an account exists, an OTP has been sent."
  const MsgResetFieldsRequired := "Email, OTP, new password required"
  const MsgInvalidRequest := "Invalid request"
  const MsgPasswordReset := "Password has been reset successfully"

  /** JavaScript truthiness of a request string. */
  predicate Present(s: string) { s != "" }

  // ---------------------------------------------------------------------------
  // Invariants
  // ---------------------------------------------------------------------------

  /** `otp` and `otpExpires` are both set or both unset. */
  predicate OtpPaired(u: User) { u.otp.Some? <==> u.otpExpires.Some? }

  /** Every record sits under its own non-empty email and pairs its OTP fields. */
  ghost predicate StoreValid(s: Store)
  {
    forall e :: e in s ==> e != "" && s[e].email == e && OtpPaired(s[e])
  }

  /** The fields no handler rewrites once a record exists. */
  predicate SameIdentity(u: User, v: User)
  {
    u.id == v.id && u.name == v.name && u.email == v.email && u.phone == v.phone && u.role == v.role
  }

  /**
   * `t` can follow `s`: no record disappears, no record changes identity,
   * name, phone or role, and a verified account stays verified.
   */
  ghost predicate Evolves(s: Store, t: Store)
  {
    forall e :: e in s ==> e in t && SameIdentity(s[e], t[e]) && (s[e].isVerified ==> t[e].isVerified)
  }

  /** The store changed at most at `key`. */
  ghost predicate OnlyTouches(s: Store, t: Store, key: string)
  {
    forall e :: e in s && e != key ==> e in t && t[e] == s[e]
  }

  /** A mail that was sent carries the code whose digest is now pending, with a fresh expiry. */
  ghost predicate MailMatchesStore(o: Outcome, email: string, now: int)
  {
    o.mail.Some? ==>
      && o.mail.value.to == email
      && email in o.store
      && o.store[email].otp == Some(HashOtp(o.mail.value.code))
      && o.store[email].otpExpires == Some(now + OtpTtlMs)
      && |o.mail.value.code| == 6 && IsDecimal(o.mail.value.code)
  }

  // ---------------------------------------------------------------------------
  // Shared pieces of the handlers
  // ---------------------------------------------------------------------------

  /** Store the digest of a fresh code and an expiry ten minutes from now. */
  function Reissue(u: User, code: string, now: int): User
  {
    u.(otp := Some(HashOtp(code)), otpExpires := Some(now + OtpTtlMs))
  }

  /** The role given to a new account (routers/authRoutes.js:57-62). */
  function FinalRole(env: Env, email: string, role: string): string
  {
    if email == env.adminEmail then "admin"
    else if Present(role) then role
    else "customer"
  }

  /** The `user` object a successful login returns. */
  function Profile(u: User): PublicUser
  {
    PublicUser(u.id, u.name, u.email, u.role)
  }

  /** The record lacks the OTP digest or its expiry. */
  predicate NoPendingOtp(u: User) { u.otp.None? || u.otpExpires.None? }

  /** The expiry lies strictly before now: a code is still valid at exactly the expiry instant. */
  predicate Expired(u: User, now: int)
    requires u.otpExpires.Some?
  {
    u.otpExpires.value < now
  }

  // ---------------------------------------------------------------------------
  // The five handlers
  // ---------------------------------------------------------------------------

  /** POST /register */
  function RegisterStep(s: Store, env: Env, b: RegisterBody, now: int, draw: OtpDraw, salt: nat, freshId: nat): (o: Outcome)
    ensures s.Keys <= o.store.Keys <= s.Keys + {b.email}
    ensures OnlyTouches(s, o.store, b.email)
    ensures Evolves(s, o.store)
    ensures StoreValid(s) ==> StoreValid(o.store)
    ensures MailMatchesStore(o, b.email, now)
    ensures o.mail.None? ==> o.store == s
    ensures o.mail.Some? <==>
              Present(b.name) && Present(b.email) && Present(b.password)
              && (b.email !in s || !s[b.email].isVerified)
    ensures o.res.status != 400 <==> o.mail.Some?
    ensures o.res.status == 201 <==> o.mail.Some? && b.email !in s
    ensures o.res.status == 201 ==> o.store.Keys == s.Keys + {b.email} && !o.store[b.email].isVerified
    ensures o.res.status == 200 ==> o.store.Keys == s.Keys
    ensures b.email in s ==> o.store[b.email] == s[b.email].(otp := o.store[b.email].otp, otpExpires := o.store[b.email].otpExpires)
  {
    if !Present(b.name) || !Present(b.email) || !Present(b.password) then
      Outcome(Response(400, Error(MsgRegisterFieldsRequired)), s, None)
    else if b.email in s then
      var user := s[b.email];
      if !user.isVerified then
        var code := GenerateOtp(draw);
        Outcome(Response(200, Message(MsgOtpResent)), s[b.email := Reissue(user, code, now)], Some(Mail(b.email, code)))
      else
        Outcome(Response(400, Error(MsgEmailRegistered)), s, None)
    else
      var code := GenerateOtp(draw);
      var user := User(freshId, b.name, b.email, b.phone, BcryptHash(b.password, salt),
                       FinalRole(env, b.email, b.role), Some(HashOtp(code)), Some(now + OtpTtlMs), false);
      Outcome(Response(201, Message(MsgRegistered)), s[b.email := user], Some(Mail(b.email, code)))
  }

  /** POST /verify-otp */
  function VerifyOtpStep(s: Store, b: VerifyOtpBody, now: int): (o: Outcome)
    ensures o.store.Keys == s.Keys && o.mail.None?
    ensures OnlyTouches(s, o.store, b.email)
    ensures Evolves(s, o.store)
    ensures StoreValid(s) ==> StoreValid(o.store)
    ensures o.res.status == 200 <==>
              Present(b.email) && Present(b.otp) && b.email in s && !NoPendingOtp(s[b.email])
              && !Expired(s[b.email], now) && CompareHashedOtp(s[b.email].otp.value, b.otp)
    ensures o.res.status == 200 ==>
              o.store[b.email] == s[b.email].(isVerified := true, otp := None, otpExpires := None)
    ensures o.res.status != 200 ==> o.store == s
  {
    if !Present(b.email) || !Present(b.otp) then
      Outcome(Response(400, Error(MsgVerifyFieldsRequired)), s, None)
    else if b.email !in s then
      Outcome(Response(404, Error(MsgUserNotFound)), s, None)
    else
      var user := s[b.email];
      if NoPendingOtp(user) then
        Outcome(Response(400, Error(MsgNoOtpRequested)), s, None)
      else if Expired(user, now) then
        Outcome(Response(400, Error(MsgOtpExpired)), s, None)
      else if !CompareHashedOtp(user.otp.value, b.otp) then
        Outcome(Response(400, Error(MsgInvalidOtp)), s, None)
      else
        var verified := user.(isVerified := true, otp := None, otpExpires := None);
        Outcome(Response(200, Message(MsgAccountVerified)), s[b.email := verified], None)
  }

  /** POST /login: a reply only; the store is not written. */
  function LoginStep(s: Store, env: Env, b: LoginBody, now: int): (r: Response)
    ensures r.body.LoggedIn? <==>
              Present(b.email) && Present(b.password) && b.email in s
              && s[b.email].isVerified && BcryptCompare(b.password, s[b.email].password)
    ensures r.body.LoggedIn? ==>
              && r.status == 200
              && r.body.success
              && r.body.user == Profile(s[b.email])
              && r.body.token.claims == Claims(s[b.email].id, s[b.email].role)
    ensures !r.body.LoggedIn? ==> r.status == 400 && r.body.Error?
  {
    if !Present(b.email) || !Present(b.password) then
      Response(400, Error(MsgLoginFieldsRequired))
    else if b.email !in s then
      Response(400, Error(MsgInvalidCredentials))
    else
      var user := s[b.email];
      if !user.isVerified then
        Response(400, Error(MsgNotVerified))
      else if !BcryptCompare(b.password, user.password) then
        Response(400, Error(MsgInvalidCredentials))
      else
        Response(200, LoggedIn(true, MsgLoginSuccessful, SignToken(env, user.id, user.role, now), Profile(user)))
  }

  /** POST /forget-password */
  function ForgetPasswordStep(s: Store, b: ForgetPasswordBody, now: int, draw: OtpDraw): (o: Outcome)
    ensures o.store.Keys == s.Keys
    ensures OnlyTouches(s, o.store, b.email)
    ensures Evolves(s, o.store)
    ensures StoreValid(s) ==> StoreValid(o.store)
    ensures MailMatchesStore(o, b.email, now)
    ensures Present(b.email) ==> o.res == Response(200, Message(MsgOtpSentIfExists))
    ensures !Present(b.email) ==> o.res == Response(400, Error(MsgEmailRequired))
    ensures o.mail.Some? <==> Present(b.email) && b.email in s
    ensures o.mail.None? ==> o.store == s
  {
    if !Present(b.email) then
      Outcome(Response(400, Error(MsgEmailRequired)), s, None)
    else if b.email in s then
      var code := GenerateOtp(draw);
      Outcome(Response(200, Message(MsgOtpSentIfExists)), s[b.email := Reissue(s[b.email], code, now)], Some(Mail(b.email, code)))
    else
      Outcome(Response(200, Message(MsgOtpSentIfExists)), s, None)
  }

  /** POST /reset-password */
  function ResetPasswordStep(s: Store, b: ResetPasswordBody, now: int, salt: nat): (o: Outcome)
    ensures o.store.Keys == s.Keys && o.mail.None?
    ensures OnlyTouches(s, o.store, b.email)
    ensures Evolves(s, o.store)
    ensures StoreValid(s) ==> StoreValid(o.store)
    ensures o.res.status == 200 <==>
              Present(b.email) && Present(b.otp) && Present(b.newPassword) && b.email in s
              && !NoPendingOtp(s[b.email]) && !Expired(s[b.email], now)
              && CompareHashedOtp(s[b.email].otp.value, b.otp)
    ensures o.res.status == 200 ==>
              o.store[b.email] == s[b.email].(password := BcryptHash(b.newPassword, salt),
                                              otp := None, otpExpires := None, isVerified := true)
    ensures o.res.status != 200 ==> o.store == s
  {
    if !Present(b.email) || !Present(b.otp) || !Present(b.newPassword) then
      Outcome(Response(400, Error(MsgResetFieldsRequired)), s, None)
    else if b.email !in s || NoPendingOtp(s[b.email]) then
      Outcome(Response(400, Error(MsgInvalidRequest)), s, None)
    else
      var user := s[b.email];
      if Expired(user, now) then
        Outcome(Response(400, Error(MsgOtpExpired)), s, None)
      else if !CompareHashedOtp(user.otp.value, b.otp) then
        Outcome(Response(400, Error(MsgInvalidOtp)), s, None)
      else
        var reset := user.(password := BcryptHash(b.newPassword, salt), otp := None,
                           otpExpires := None, isVerified := true);
        Outcome(Response(200, Message(MsgPasswordReset)), s[b.email := reset], None)
  }
}
