/**
 * Properties of the account state machine: the guard order and outcome of
 * each handler, what a sequence of calls can and cannot do, and the
 * invariants every reachable store keeps.
 */
module AccountProperties {
  import opened Wrappers
  import opened SecretCodec
  import opened AccountMachine

  // ---------------------------------------------------------------------------
  // register
  // ---------------------------------------------------------------------------

  lemma RegisterNeedsFields(s: Store, env: Env, b: RegisterBody, now: int, draw: OtpDraw, salt: nat, freshId: nat)
    requires !Present(b.name) || !Present(b.email) || !Present(b.password)
    ensures var o := RegisterStep(s, env, b, now, draw, salt, freshId);
            o.res == Response(400, Error(MsgRegisterFieldsRequired)) && o.store == s && o.mail.None?
  {
  }

  /** Re-registering an unverified email reissues the OTP and changes nothing else. */
  lemma RegisterResendsToUnverified(s: Store, env: Env, b: RegisterBody, now: int, draw: OtpDraw, salt: nat, freshId: nat)
    requires Present(b.name) && Present(b.email) && Present(b.password)
    requires b.email in s && !s[b.email].isVerified
    ensures var o := RegisterStep(s, env, b, now, draw, salt, freshId);
            var code := GenerateOtp(draw);
            && o.res == Response(200, Message(MsgOtpResent))
            && o.store.Keys == s.Keys
            && o.store[b.email] == s[b.email].(otp := Some(HashOtp(code)), otpExpires := Some(now + OtpTtlMs))
            && o.store[b.email].name == s[b.email].name
            && o.store[b.email].password == s[b.email].password
            && o.mail == Some(Mail(b.email, code))
  {
  }

  lemma RegisterRejectsVerified(s: Store, env: Env, b: RegisterBody, now: int, draw: OtpDraw, salt: nat, freshId: nat)
    requires Present(b.name) && Present(b.email) && Present(b.password)
    requires b.email in s && s[b.email].isVerified
    ensures var o := RegisterStep(s, env, b, now, draw, salt, freshId);
            o.res == Response(400, Error(MsgEmailRegistered)) && o.store == s && o.mail.None?
  {
  }

  /** A new email gets exactly one new, unverified record with hashed secrets. */
  lemma RegisterCreatesPendingAccount(s: Store, env: Env, b: RegisterBody, now: int, draw: OtpDraw, salt: nat, freshId: nat)
    requires Present(b.name) && Present(b.email) && Present(b.password)
    requires b.email !in s
    ensures var o := RegisterStep(s, env, b, now, draw, salt, freshId);
            var u := o.store[b.email];
            var code := GenerateOtp(draw);
            && o.res == Response(201, Message(MsgRegistered))
            && o.store.Keys == s.Keys + {b.email}
            && |o.store| == |s| + 1
            && (forall e :: e in s ==> o.store[e] == s[e])
            && u.id == freshId && u.name == b.name && u.email == b.email && u.phone == b.phone
            && !u.isVerified
            && u.password.rounds == BcryptRounds
            && (forall p :: BcryptCompare(p, u.password) <==> BcryptKey(p) == BcryptKey(b.password))
            && (forall c :: CompareHashedOtp(u.otp.value, c) <==> c == code)
            && u.otpExpires == Some(now + OtpTtlMs)
            && u.role == (if b.email == env.adminEmail then "admin"
                          else if Present(b.role) then b.role else "customer")
            && o.mail == Some(Mail(b.email, code))
  {
  }

  /** Any non-empty role the caller sends is stored, "admin" included, unless the email is the admin email. */
  lemma RegisterHonoursCallerRole(s: Store, env: Env, b: RegisterBody, now: int, draw: OtpDraw, salt: nat, freshId: nat)
    requires Present(b.name) && Present(b.email) && Present(b.password) && Present(b.role)
    requires b.email !in s && b.email != env.adminEmail
    ensures RegisterStep(s, env, b, now, draw, salt, freshId).store[b.email].role == b.role
  {
  }

  /**
   * Registering the same new email twice leaves one record; the second call
   * resends, and with a different draw the pending digest changes.
   */
  lemma RegisterTwiceKeepsOneRecord(s: Store, env: Env, b: RegisterBody, now1: int, now2: int,
                                    d1: OtpDraw, d2: OtpDraw, salt1: nat, salt2: nat, id1: nat, id2: nat)
    requires Present(b.name) && Present(b.email) && Present(b.password)
    requires b.email !in s
    ensures var o1 := RegisterStep(s, env, b, now1, d1, salt1, id1);
            var o2 := RegisterStep(o1.store, env, b, now2, d2, salt2, id2);
            && o2.res == Response(200, Message(MsgOtpResent))
            && o2.store.Keys == s.Keys + {b.email}
            && o2.store[b.email].id == id1
            && o2.store[b.email].password == o1.store[b.email].password
            && o2.store[b.email].otpExpires == Some(now2 + OtpTtlMs)
            && (d1 != d2 ==> o2.store[b.email].otp != o1.store[b.email].otp)
  {
    GenerateOtpInjective(d1, d2);
  }

  // ---------------------------------------------------------------------------
  // verify-otp
  // ---------------------------------------------------------------------------

  /** The reply of verify-otp, guard by guard in the handler's order. */
  lemma VerifyOtpGuardOrder(s: Store, b: VerifyOtpBody, now: int)
    ensures var r := VerifyOtpStep(s, b, now).res;
            if !Present(b.email) || !Present(b.otp) then r == Response(400, Error(MsgVerifyFieldsRequired))
            else if b.email !in s then r == Response(404, Error(MsgUserNotFound))
            else if s[b.email].otp.None? || s[b.email].otpExpires.None? then r == Response(400, Error(MsgNoOtpRequested))
            else if s[b.email].otpExpires.value < now then r == Response(400, Error(MsgOtpExpired))
            else if HashOtp(b.otp) != s[b.email].otp.value then r == Response(400, Error(MsgInvalidOtp))
            else r == Response(200, Message(MsgAccountVerified))
  {
  }

  /** The expiry test is strict: the code is still accepted at exactly `otpExpires`. */
  lemma VerifyOtpAcceptedAtExpiryInstant(s: Store, b: VerifyOtpBody, now: int)
    requires Present(b.email) && Present(b.otp) && b.email in s
    requires s[b.email].otp == Some(HashOtp(b.otp)) && s[b.email].otpExpires == Some(now)
    ensures VerifyOtpStep(s, b, now).res == Response(200, Message(MsgAccountVerified))
    ensures VerifyOtpStep(s, b, now + 1).res == Response(400, Error(MsgOtpExpired))
  {
  }

  /** A successful verification consumes the OTP: any later attempt finds none. */
  lemma VerifyOtpNotRepeatable(s: Store, b: VerifyOtpBody, now: int, again: VerifyOtpBody, later: int)
    requires VerifyOtpStep(s, b, now).res.status == 200
    requires again.email == b.email && Present(again.otp)
    ensures var o := VerifyOtpStep(s, b, now);
            && o.store[b.email].isVerified
            && VerifyOtpStep(o.store, again, later) == Outcome(Response(400, Error(MsgNoOtpRequested)), o.store, None)
  {
  }

  // ---------------------------------------------------------------------------
  // login
  // ---------------------------------------------------------------------------

  /** The reply of login, guard by guard in the handler's order. */
  lemma LoginGuardOrder(s: Store, env: Env, b: LoginBody, now: int)
    ensures var r := LoginStep(s, env, b, now);
            if !Present(b.email) || !Present(b.password) then r == Response(400, Error(MsgLoginFieldsRequired))
            else if b.email !in s then r == Response(400, Error(MsgInvalidCredentials))
            else if !s[b.email].isVerified then r == Response(400, Error(MsgNotVerified))
            else if !BcryptCompare(b.password, s[b.email].password) then r == Response(400, Error(MsgInvalidCredentials))
            else r == Response(200, LoggedIn(true, MsgLoginSuccessful,
                                             SignToken(env, s[b.email].id, s[b.email].role, now),
                                             PublicUser(s[b.email].id, s[b.email].name, s[b.email].email, s[b.email].role)))
  {
  }

  /**
   * An unverified account answers differently from an unknown email, so the
   * reply tells a caller that the account exists.
   */
  lemma LoginDistinguishesUnverified(s: Store, env: Env, known: string, unknown: string, p: string, q: string, now: int)
    requires Present(known) && Present(unknown) && Present(p) && Present(q)
    requires known in s && !s[known].isVerified && unknown !in s
    ensures LoginStep(s, env, LoginBody(known, p), now) != LoginStep(s, env, LoginBody(unknown, q), now)
  {
  }

  // ---------------------------------------------------------------------------
  // forget-password
  // ---------------------------------------------------------------------------

  /** The reply never depends on the store: it does not reveal whether the email exists. */
  lemma ForgetPasswordUniformReply(s1: Store, s2: Store, b: ForgetPasswordBody, now1: int, now2: int, d1: OtpDraw, d2: OtpDraw)
    requires Present(b.email)
    ensures ForgetPasswordStep(s1, b, now1, d1).res == ForgetPasswordStep(s2, b, now2, d2).res
  {
  }

  lemma ForgetPasswordUnknownWritesNothing(s: Store, b: ForgetPasswordBody, now: int, draw: OtpDraw)
    requires b.email !in s
    ensures var o := ForgetPasswordStep(s, b, now, draw); o.store == s && o.mail.None?
  {
  }

  /** A known email gets a fresh OTP whether or not it is verified; nothing else changes. */
  lemma ForgetPasswordReissues(s: Store, b: ForgetPasswordBody, now: int, draw: OtpDraw)
    requires Present(b.email) && b.email in s
    ensures var o := ForgetPasswordStep(s, b, now, draw);
            && o.store[b.email] == s[b.email].(otp := Some(HashOtp(GenerateOtp(draw))), otpExpires := Some(now + OtpTtlMs))
            && o.store[b.email].isVerified == s[b.email].isVerified
            && o.mail == Some(Mail(b.email, GenerateOtp(draw)))
  {
  }

  // ---------------------------------------------------------------------------
  // reset-password
  // ---------------------------------------------------------------------------

  /** The reply of reset-password, guard by guard in the handler's order. */
  lemma ResetPasswordGuardOrder(s: Store, b: ResetPasswordBody, now: int, salt: nat)
    ensures var r := ResetPasswordStep(s, b, now, salt).res;
            if !Present(b.email) || !Present(b.otp) || !Present(b.newPassword) then r == Response(400, Error(MsgResetFieldsRequired))
            else if b.email !in s || s[b.email].otp.None? || s[b.email].otpExpires.None? then r == Response(400, Error(MsgInvalidRequest))
            else if s[b.email].otpExpires.value < now then r == Response(400, Error(MsgOtpExpired))
            else if HashOtp(b.otp) != s[b.email].otp.value then r == Response(400, Error(MsgInvalidOtp))
            else r == Response(200, Message(MsgPasswordReset))
  {
  }

  /** An unknown email and an account without a pending OTP get the same reply. */
  lemma ResetPasswordUnknownLikeNoOtp(s: Store, unknown: string, known: string, otp1: string, otp2: string,
                                      pw1: string, pw2: string, now: int, salt1: nat, salt2: nat)
    requires Present(unknown) && Present(known) && Present(otp1) && Present(otp2) && Present(pw1) && Present(pw2)
    requires unknown !in s && known in s && s[known].otp.None?
    ensures ResetPasswordStep(s, ResetPasswordBody(unknown, otp1, pw1), now, salt1).res
            == ResetPasswordStep(s, ResetPasswordBody(known, otp2, pw2), now, salt2).res
  {
  }

  /**
   * After a reset exactly the passwords with the new password's bcrypt key log
   * in, and every other one gets "Invalid credentials"; the same OTP can then
   * neither reset again nor verify.
   */
  lemma ResetPasswordConsumesOtp(s: Store, env: Env, b: ResetPasswordBody, now: int, salt: nat,
                                 later: int, again: ResetPasswordBody, salt2: nat, other: string)
    requires ResetPasswordStep(s, b, now, salt).res.status == 200
    requires again.email == b.email && Present(again.otp) && Present(again.newPassword)
    requires Present(other)
    ensures var t := ResetPasswordStep(s, b, now, salt).store;
            && t[b.email].isVerified
            && LoginStep(t, env, LoginBody(b.email, b.newPassword), later).body.LoggedIn?
            && (LoginStep(t, env, LoginBody(b.email, other), later).body.LoggedIn?
                <==> BcryptKey(other) == BcryptKey(b.newPassword))
            && (BcryptKey(other) != BcryptKey(b.newPassword)
                ==> LoginStep(t, env, LoginBody(b.email, other), later) == Response(400, Error(MsgInvalidCredentials)))
            && ResetPasswordStep(t, again, later, salt2) == Outcome(Response(400, Error(MsgInvalidRequest)), t, None)
            && VerifyOtpStep(t, VerifyOtpBody(b.email, b.otp), later).res == Response(400, Error(MsgNoOtpRequested))
  {
  }

  /** A code consumed by verification cannot then reset the password. */
  lemma VerifiedOtpCannotReset(s: Store, b: VerifyOtpBody, now: int, pw: string, later: int, salt: nat)
    requires VerifyOtpStep(s, b, now).res.status == 200
    requires Present(pw)
    ensures ResetPasswordStep(VerifyOtpStep(s, b, now).store, ResetPasswordBody(b.email, b.otp, pw), later, salt).res
            == Response(400, Error(MsgInvalidRequest))
  {
  }

  // ---------------------------------------------------------------------------
  // Sequences of requests
  // ---------------------------------------------------------------------------

  datatype Request =
    | RegisterReq(register: RegisterBody)
    | VerifyOtpReq(verify: VerifyOtpBody)
    | LoginReq(login: LoginBody)
    | ForgetPasswordReq(forget: ForgetPasswordBody)
    | ResetPasswordReq(reset: ResetPasswordBody)

  /** One request with the clock reading and the random choices made while serving it. */
  datatype Event = Event(req: Request, now: int, draw: OtpDraw, salt: nat, freshId: nat)

  /** Serve one request (login leaves the store as it is). */
  function Apply(s: Store, env: Env, ev: Event): (o: Outcome)
    ensures Evolves(s, o.store)
    ensures StoreValid(s) ==> StoreValid(o.store)
  {
    match ev.req
    case RegisterReq(b) => RegisterStep(s, env, b, ev.now, ev.draw, ev.salt, ev.freshId)
    case VerifyOtpReq(b) => VerifyOtpStep(s, b, ev.now)
    case LoginReq(b) => Outcome(LoginStep(s, env, b, ev.now), s, None)
    case ForgetPasswordReq(b) => ForgetPasswordStep(s, b, ev.now, ev.draw)
    case ResetPasswordReq(b) => ResetPasswordStep(s, b, ev.now, ev.salt)
  }

  /** The outcome of each request of `evs`, served one after another from `s`. */
  function Trace(s: Store, env: Env, evs: seq<Event>): (t: seq<Outcome>)
    ensures |t| == |evs|
    decreases |evs|
  {
    if evs == [] then []
    else
      var o := Apply(s, env, evs[0]);
      [o] + Trace(o.store, env, evs[1..])
  }

  /** The store in which the `k`-th request of `evs` is served. */
  function StoreBefore(s: Store, env: Env, evs: seq<Event>, k: nat): Store
    requires k <= |evs|
  {
    if k == 0 then s else Trace(s, env, evs)[k - 1].store
  }

  /** The `k`-th outcome of a trace is one step from the store before it. */
  lemma {:induction false} TraceStep(s: Store, env: Env, evs: seq<Event>, k: nat)
    requires k < |evs|
    ensures Trace(s, env, evs)[k] == Apply(StoreBefore(s, env, evs, k), env, evs[k])
    decreases k
  {
    if k > 0 {
      var o := Apply(s, env, evs[0]);
      TraceStep(o.store, env, evs[1..], k - 1);
      assert Trace(s, env, evs)[k] == Trace(o.store, env, evs[1..])[k - 1];
      if k > 1 {
        assert Trace(s, env, evs)[k - 1] == Trace(o.store, env, evs[1..])[k - 2];
      }
    }
  }

  /** Every store reachable from a valid store is valid. */
  lemma {:induction false} TraceKeepsValid(s: Store, env: Env, evs: seq<Event>)
    requires StoreValid(s)
    ensures forall k :: 0 <= k < |evs| ==> StoreValid(Trace(s, env, evs)[k].store)
    decreases |evs|
  {
    if evs != [] {
      var o := Apply(s, env, evs[0]);
      TraceKeepsValid(o.store, env, evs[1..]);
      var t := Trace(s, env, evs);
      forall k | 0 <= k < |evs|
        ensures StoreValid(t[k].store)
      {
        if k > 0 {
          assert t[k] == Trace(o.store, env, evs[1..])[k - 1];
        }
      }
    }
  }

  lemma EvolvesTransitive(r: Store, s: Store, t: Store)
    requires Evolves(r, s) && Evolves(s, t)
    ensures Evolves(r, t)
  {
  }

  /**
   * No sequence of requests deletes a record, changes its id, name, phone or
   * role, or takes a verified account back to unverified.
   */
  lemma {:induction false} TraceEvolves(s: Store, env: Env, evs: seq<Event>)
    ensures forall k :: 0 <= k < |evs| ==> Evolves(s, Trace(s, env, evs)[k].store)
    decreases |evs|
  {
    if evs != [] {
      var o := Apply(s, env, evs[0]);
      TraceEvolves(o.store, env, evs[1..]);
      var t := Trace(s, env, evs);
      forall k | 0 <= k < |evs|
        ensures Evolves(s, t[k].store)
      {
        if k > 0 {
          assert t[k] == Trace(o.store, env, evs[1..])[k - 1];
          EvolvesTransitive(s, o.store, t[k].store);
        }
      }
    }
  }

  /** Serving the request mailed a new OTP to `email`. */
  predicate MailedTo(o: Outcome, email: string)
  {
    o.mail.Some? && o.mail.value.to == email
  }

  /** The request is an OTP-authorised operation on `email` that succeeded. */
  predicate ConsumesOtpOf(ev: Event, o: Outcome, email: string)
  {
    o.res.status == 200 &&
    match ev.req
    case VerifyOtpReq(b) => b.email == email
    case ResetPasswordReq(b) => b.email == email
    case _ => false
  }

  /** `email` has no OTP in flight. */
  ghost predicate NothingPending(s: Store, email: string)
  {
    email in s ==> NoPendingOtp(s[email])
  }

  /** Only a register or forget-password request for an email mails it an OTP. */
  lemma OnlyIssuersMail(s: Store, env: Env, ev: Event, email: string)
    requires MailedTo(Apply(s, env, ev), email)
    ensures || (ev.req.RegisterReq? && ev.req.register.email == email)
            || (ev.req.ForgetPasswordReq? && ev.req.forget.email == email)
  {
  }

  lemma ConsumptionClears(s: Store, env: Env, ev: Event, email: string)
    requires ConsumesOtpOf(ev, Apply(s, env, ev), email)
    ensures NothingPending(Apply(s, env, ev).store, email)
  {
  }

  lemma QuietStepKeepsClear(s: Store, env: Env, ev: Event, email: string)
    requires NothingPending(s, email) && !MailedTo(Apply(s, env, ev), email)
    ensures NothingPending(Apply(s, env, ev).store, email)
    ensures !ConsumesOtpOf(ev, Apply(s, env, ev), email)
  {
  }

  lemma {:induction false} ClearUntilIssued(s: Store, env: Env, evs: seq<Event>, email: string, i: nat, k: nat)
    requires i < k <= |evs|
    requires ConsumesOtpOf(evs[i], Trace(s, env, evs)[i], email)
    requires forall m :: i < m < k ==> !MailedTo(Trace(s, env, evs)[m], email)
    ensures NothingPending(StoreBefore(s, env, evs, k), email)
    decreases k
  {
    TraceStep(s, env, evs, k - 1);
    if k - 1 == i {
      ConsumptionClears(StoreBefore(s, env, evs, i), env, evs[i], email);
    } else {
      ClearUntilIssued(s, env, evs, email, i, k - 1);
      QuietStepKeepsClear(StoreBefore(s, env, evs, k - 1), env, evs[k - 1], email);
    }
  }

  /**
   * An OTP authorises at most one operation: after a successful verify-otp or
   * reset-password for an email, no later one succeeds for that email until
   * a new OTP has been mailed to it (which only register and forget-password
   * do, by `OnlyIssuersMail`).
   */
  lemma OtpAuthorisesOnce(s: Store, env: Env, evs: seq<Event>, email: string, i: nat, j: nat)
    requires i < j < |evs|
    requires ConsumesOtpOf(evs[i], Trace(s, env, evs)[i], email)
    requires forall m :: i < m < j ==> !MailedTo(Trace(s, env, evs)[m], email)
    ensures !ConsumesOtpOf(evs[j], Trace(s, env, evs)[j], email)
  {
    ClearUntilIssued(s, env, evs, email, i, j);
    TraceStep(s, env, evs, j);
    if !MailedTo(Trace(s, env, evs)[j], email) {
      QuietStepKeepsClear(StoreBefore(s, env, evs, j), env, evs[j], email);
    }
  }

  // ---------------------------------------------------------------------------
  // A whole account lifecycle
  // ---------------------------------------------------------------------------

  /**
   * register, verify with the mailed code, log in, forget the password,
   * reset it with the newly mailed code: afterwards the new password logs in,
   * the old one logs in exactly when it has the new one's bcrypt key, and the
   * account stayed verified throughout the reset.
   */
  lemma AccountLifecycle(s: Store, env: Env, name: string, email: string, pw1: string, pw2: string,
                         t0: int, d1: OtpDraw, d2: OtpDraw, salt1: nat, salt2: nat, id: nat)
    requires Present(name) && Present(email) && Present(pw1) && Present(pw2)
    requires email !in s
    ensures var reg := RegisterStep(s, env, RegisterBody(name, email, "", pw1, ""), t0, d1, salt1, id);
            var code1 := reg.mail.value.code;
            var ver := VerifyOtpStep(reg.store, VerifyOtpBody(email, code1), t0 + OtpTtlMs);
            var login1 := LoginStep(ver.store, env, LoginBody(email, pw1), t0 + OtpTtlMs);
            var fgt := ForgetPasswordStep(ver.store, ForgetPasswordBody(email), t0 + OtpTtlMs, d2);
            var code2 := fgt.mail.value.code;
            var rst := ResetPasswordStep(fgt.store, ResetPasswordBody(email, code2, pw2), t0 + OtpTtlMs, salt2);
            && reg.res.status == 201 && reg.mail.Some? && !reg.store[email].isVerified
            && ver.res == Response(200, Message(MsgAccountVerified))
            && login1.body.LoggedIn? && login1.body.user.role == (if email == env.adminEmail then "admin" else "customer")
            && fgt.mail.Some? && fgt.store[email].isVerified
            && rst.res == Response(200, Message(MsgPasswordReset))
            && (LoginStep(rst.store, env, LoginBody(email, pw1), t0 + OtpTtlMs).body.LoggedIn?
                <==> BcryptKey(pw1) == BcryptKey(pw2))
            && (BcryptKey(pw1) != BcryptKey(pw2)
                ==> LoginStep(rst.store, env, LoginBody(email, pw1), t0 + OtpTtlMs) == Response(400, Error(MsgInvalidCredentials)))
            && LoginStep(rst.store, env, LoginBody(email, pw2), t0 + OtpTtlMs).body.LoggedIn?
  {
    var reg := RegisterStep(s, env, RegisterBody(name, email, "", pw1, ""), t0, d1, salt1, id);
    RegisterCreatesPendingAccount(s, env, RegisterBody(name, email, "", pw1, ""), t0, d1, salt1, id);
    var u := reg.store[email];
    var code1 := reg.mail.value.code;
    assert u.otp == Some(HashOtp(code1)) && u.otpExpires == Some(t0 + OtpTtlMs);
    var ver := VerifyOtpStep(reg.store, VerifyOtpBody(email, code1), t0 + OtpTtlMs);
    assert ver.res == Response(200, Message(MsgAccountVerified));
    var v := ver.store[email];
    assert v == u.(isVerified := true, otp := None, otpExpires := None);
    var fgt := ForgetPasswordStep(ver.store, ForgetPasswordBody(email), t0 + OtpTtlMs, d2);
    var w := fgt.store[email];
    var code2 := fgt.mail.value.code;
    assert w == Reissue(v, code2, t0 + OtpTtlMs);
    var rst := ResetPasswordStep(fgt.store, ResetPasswordBody(email, code2, pw2), t0 + OtpTtlMs, salt2);
    assert rst.store[email].password == BcryptHash(pw2, salt2);
  }
}
