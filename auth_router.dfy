/**
 * The route handlers of routers/authRoutes.js as methods of a router object
 * that owns the user collection. Each handler looks up the user document by
 * email, runs its guards, updates the document's fields one by one and saves
 * it back; `sendOtp` appends to the mail outbox. Each method is proved to
 * have exactly the effect of the corresponding step function.
 */
module AuthRouter {
  import opened Wrappers
  import opened SecretCodec
  import opened AccountMachine

  function MailsOf(m: Option<Mail>): seq<Mail>
  {
    if m.Some? then [m.value] else []
  }

  class Router {
    /** `process.env` as the handlers read it. */
    const env: Env
    /** The user collection, keyed by email. */
    var users: Store
    /** Every OTP mail that `sendOtp` has delivered, oldest first. */
    var outbox: seq<Mail>

    ghost predicate Valid()
      reads this
    {
      StoreValid(users)
    }

    constructor (env: Env, users: Store)
      requires StoreValid(users)
      ensures Valid()
      ensures this.env == env && this.users == users && outbox == []
    {
      this.env := env;
      this.users := users;
      outbox := [];
    }

    /** Save the document: write it back under its email. */
    method Save(user: User)
      modifies this
      ensures users == old(users)[user.email := user] && outbox == old(outbox)
    {
      users := users[user.email := user];
    }

    /** Mail the code: delivery is best effort and never fails the request. */
    method SendOtp(email: string, otp: string)
      modifies this
      ensures outbox == old(outbox) + [Mail(email, otp)] && users == old(users)
    {
      outbox := outbox + [Mail(email, otp)];
    }

    /** POST /register */
    method Register(b: RegisterBody, now: int, draw: OtpDraw, salt: nat, freshId: nat) returns (res: Response)
      requires Valid()
      modifies this
      ensures Valid()
      ensures var o := RegisterStep(old(users), env, b, now, draw, salt, freshId);
              res == o.res && users == o.store && outbox == old(outbox) + MailsOf(o.mail)
    {
      if !Present(b.name) || !Present(b.email) || !Present(b.password) {
        return Response(400, Error(MsgRegisterFieldsRequired));
      }
      if b.email in users {
        var user := users[b.email];
        if !user.isVerified {
          var otp := GenerateOtp(draw);
          user := user.(otp := Some(HashOtp(otp)));
          user := user.(otpExpires := Some(now + OtpTtlMs));
          Save(user);
          SendOtp(b.email, otp);
          return Response(200, Message(MsgOtpResent));
        } else {
          return Response(400, Error(MsgEmailRegistered));
        }
      }
      var finalRole := "customer";
      if b.email == env.adminEmail {
        finalRole := "admin";
      } else if Present(b.role) {
        finalRole := b.role;
      }
      var hashedPassword := BcryptHash(b.password, salt);
      var otp := GenerateOtp(draw);
      var otpHash := HashOtp(otp);
      var otpExpires := now + OtpTtlMs;
      var user := User(freshId, b.name, b.email, b.phone, hashedPassword, finalRole,
                       Some(otpHash), Some(otpExpires), false);
      Save(user);
      SendOtp(b.email, otp);
      res := Response(201, Message(MsgRegistered));
    }

    /** POST /verify-otp */
    method VerifyOtp(b: VerifyOtpBody, now: int) returns (res: Response)
      requires Valid()
      modifies this
      ensures Valid()
      ensures var o := VerifyOtpStep(old(users), b, now);
              res == o.res && users == o.store && outbox == old(outbox)
    {
      if !Present(b.email) || !Present(b.otp) {
        return Response(400, Error(MsgVerifyFieldsRequired));
      }
      if b.email !in users {
        return Response(404, Error(MsgUserNotFound));
      }
      var user := users[b.email];
      if user.otp.None? || user.otpExpires.None? {
        return Response(400, Error(MsgNoOtpRequested));
      }
      if user.otpExpires.value < now {
        return Response(400, Error(MsgOtpExpired));
      }
      if !CompareHashedOtp(user.otp.value, b.otp) {
        return Response(400, Error(MsgInvalidOtp));
      }
      user := user.(isVerified := true);
      user := user.(otp := None);
      user := user.(otpExpires := None);
      Save(user);
      res := Response(200, Message(MsgAccountVerified));
    }

    /** POST /login: reads the collection and writes nothing. */
    method Login(b: LoginBody, now: int) returns (res: Response)
      ensures res == LoginStep(users, env, b, now)
    {
      if !Present(b.email) || !Present(b.password) {
        return Response(400, Error(MsgLoginFieldsRequired));
      }
      if b.email !in users {
        return Response(400, Error(MsgInvalidCredentials));
      }
      var user := users[b.email];
      if !user.isVerified {
        return Response(400, Error(MsgNotVerified));
      }
      var matches := BcryptCompare(b.password, user.password);
      if !matches {
        return Response(400, Error(MsgInvalidCredentials));
      }
      var token := SignToken(env, user.id, user.role, now);
      res := Response(200, LoggedIn(true, MsgLoginSuccessful, token,
                                    PublicUser(user.id, user.name, user.email, user.role)));
    }

    /** POST /forget-password */
    method ForgetPassword(b: ForgetPasswordBody, now: int, draw: OtpDraw) returns (res: Response)
      requires Valid()
      modifies this
      ensures Valid()
      ensures var o := ForgetPasswordStep(old(users), b, now, draw);
              res == o.res && users == o.store && outbox == old(outbox) + MailsOf(o.mail)
    {
      if !Present(b.email) {
        return Response(400, Error(MsgEmailRequired));
      }
      if b.email in users {
        var user := users[b.email];
        var otp := GenerateOtp(draw);
        user := user.(otp := Some(HashOtp(otp)));
        user := user.(otpExpires := Some(now + OtpTtlMs));
        Save(user);
        SendOtp(b.email, otp);
      }
      res := Response(200, Message(MsgOtpSentIfExists));
    }

    /** POST /reset-password */
    method ResetPassword(b: ResetPasswordBody, now: int, salt: nat) returns (res: Response)
      requires Valid()
      modifies this
      ensures Valid()
      ensures var o := ResetPasswordStep(old(users), b, now, salt);
              res == o.res && users == o.store && outbox == old(outbox)
    {
      if !Present(b.email) || !Present(b.otp) || !Present(b.newPassword) {
        return Response(400, Error(MsgResetFieldsRequired));
      }
      if b.email !in users || users[b.email].otp.None? || users[b.email].otpExpires.None? {
        return Response(400, Error(MsgInvalidRequest));
      }
      var user := users[b.email];
      if user.otpExpires.value < now {
        return Response(400, Error(MsgOtpExpired));
      }
      if !CompareHashedOtp(user.otp.value, b.otp) {
        return Response(400, Error(MsgInvalidOtp));
      }
      user := user.(password := BcryptHash(b.newPassword, salt));
      user := user.(otp := None);
      user := user.(otpExpires := None);
      user := user.(isVerified := true);
      Save(user);
      res := Response(200, Message(MsgPasswordReset));
    }
  }
}
