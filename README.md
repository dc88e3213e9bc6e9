# OTP-gated account state machine (tailorone backend, `routers/authRoutes.js`)

This project models the authentication router of a retail backend. It covers
five handlers: register, verify-otp, login, forget-password and
reset-password. Each handler reads one user document by email, checks a fixed
sequence of guards, updates the document's `otp`, `otpExpires`, `isVerified`
and `password` fields, and saves it. It replies with an HTTP status and a JSON
message. The model also covers the helpers at the top of the file: OTP
generation, the SHA-256 OTP digest and its comparison, and token signing.
Password hashing (bcryptjs) sits next to them.

Modules:

- `Wrappers` (`wrappers.dfy`): `Option`, used for fields that may be `undefined`.
- `SecretCodec` (`secret_codec.dfy`): the helpers. The decimal text of the
  OTP is built digit by digit and reads back as its number. The SHA-256,
  bcrypt and JWT primitives are symbolic datatypes. Each is a constructor
  applied to its inputs, so it is deterministic and collision-free by
  construction. For bcrypt that input is not the password but the 72-byte
  key bcryptjs derives from it: the UTF-8 bytes plus one zero byte, repeated
  to fill 72 bytes. So passwords that share their first 72 UTF-8 bytes are
  interchangeable (`BcryptTruncates`, `BcryptLongPasswordsCollide`), while
  shorter passwords without U+0000 are told apart (`BcryptKeyShort`).
- `AccountMachine` (`account_machine.dfy`): the `User` record, the store
  (`map<string, User>` keyed by email), replies and mails. It also holds one
  pure step function per handler. Each step's contract states its frame (which
  records it may touch), the store invariant it preserves, and when it
  succeeds or mails an OTP, in both directions. For verify-otp and
  reset-password it also states the record after a success. The replies and
  records of each register branch are stated by lemmas in `AccountProperties`.
- `AccountProperties` (`account_properties.dfy`): lemmas about the steps. They
  cover the guard order of every handler, the edge cases of the code, and how
  two calls interact (an OTP is consumed, re-registration keeps one record).
  It also models a whole sequence of requests (`Trace`). Over a trace it
  proves three things: every reachable store is valid, records only evolve
  monotonically, and an OTP authorises at most one operation.
- `AuthRouter` (`auth_router.dfy`): class `Router`. It owns the user
  collection (`users`) and the mail outbox (`outbox`) and has one method per
  route handler. Each method works the way the handler does: look up, guard,
  update fields one by one, `Save`, `SendOtp`. Each method is proved to have
  exactly the effect of the matching step function. `Login` has no `modifies`
  clause and cannot write the store.

Environment and nondeterminism are parameters:

- The clock is `now`, in epoch milliseconds.
- `Math.random()` becomes `draw`, a natural below 900000: the integer that
  `Math.random() * 900000` contributes after the floor.
- The bcrypt salt and the store-assigned `_id` are parameters.
- `process.env` is an `Env` value.

A request field that is absent or empty is `""`, because both are falsy in the
handlers' tests. An unset environment variable is `""` too. That matches
`JWT_SECRET || "YOUR_SECRET_KEY"`. It also matches `email === ADMIN_EMAIL`,
because a present email is never `""`.

Where the code behaves differently from what the design intent suggests, the
model follows the code and proves the code's behaviour:

- Login answers an unverified account with "Account not verified". That reply
  differs from the "Invalid credentials" given for an unknown email, so the
  existence of the account is observable (`LoginDistinguishesUnverified`).
- Any non-empty caller-supplied role is stored, "admin" included, for every
  email except the configured admin email (`RegisterHonoursCallerRole`).
- Re-registering an unverified email changes only the OTP fields. Name,
  phone and password stay as they were (`RegisterResendsToUnverified`).
- Verify-otp reports "User not found" with status 404. Reset-password gives
  one reply, "Invalid request", for an unknown user and for a missing OTP
  (`ResetPasswordUnknownLikeNoOtp`).
- The expiry test is a strict `<`, so an OTP is still accepted at exactly
  `otpExpires` (`VerifyOtpAcceptedAtExpiryInstant`).

## Model

| member | source | states |
|---|---|---|
| `SecretCodec.DecimalString` | routers/authRoutes.js:13 | the decimal text of a number is all digits, has no superfluous leading digit (its length is the number's digit count) and reads back as the number |
| `SecretCodec.DecimalLength` | routers/authRoutes.js:13 | a number with exactly k decimal digits prints as exactly k characters |
| `SecretCodec.GenerateOtp` | routers/authRoutes.js:13 | a generated OTP is a 6-character digit string whose value is 100000 plus the random draw, hence within 100000..999999 |
| `SecretCodec.GenerateOtpInjective` | routers/authRoutes.js:13 | two draws give the same code exactly when they are equal |
| `SecretCodec.GenerateOtpCovers` | routers/authRoutes.js:13 | every value in 100000..999999 is produced by some draw |
| `SecretCodec.CompareHashedOtpExact` | routers/authRoutes.js:14-15 | comparing a candidate against the stored SHA-256 digest of a code succeeds exactly when the candidate is that code; the comparison goes through the digest |
| `SecretCodec.Utf8Injective` | routers/authRoutes.js:64 | distinct passwords have distinct UTF-8 encodings, so the byte string bcryptjs hashes determines the password |
| `SecretCodec.BcryptKeyLong` | routers/authRoutes.js:64 | a password of at least 72 UTF-8 bytes has as bcrypt key exactly its first 72 bytes |
| `SecretCodec.BcryptKeyShort` | routers/authRoutes.js:64 | two passwords shorter than 72 UTF-8 bytes and free of U+0000 have the same bcrypt key exactly when they are equal |
| `SecretCodec.BcryptCompareExact` | routers/authRoutes.js:131 | bcrypt comparison against a digest made with cost 10 and any salt succeeds exactly for the passwords whose bcrypt key equals that of the password it was made from |
| `SecretCodec.BcryptTruncates` | routers/authRoutes.js:131 | two passwords that share a prefix of at least 72 UTF-8 bytes are accepted by each other's digest, whatever follows the prefix |
| `SecretCodec.BcryptLongPasswordsCollide` | routers/authRoutes.js:131 | 72 letters "a" followed by "2" is a password different from 72 letters "a" followed by "1", yet it is accepted by the latter's digest |
| `SecretCodec.SignToken` | routers/authRoutes.js:16-21 | the token carries exactly the claims {id, role}; the key is JWT_SECRET when it is set and "YOUR_SECRET_KEY" otherwise, the lifetime JWT_EXPIRES when set and "1d" otherwise, so neither is ever empty; `iat` is the current second |
| `SecretCodec.SignTokenInjective` | routers/authRoutes.js:16-21 | under one configuration and clock a token determines the id and role it was issued for |
| `AccountMachine.RegisterStep` | routers/authRoutes.js:31-88 | register mails an OTP exactly when name, email and password are present and the email is new or unverified, and replies 400 exactly when it mails nothing; it replies 201 exactly for a new email, which then gains one unverified record, and 200 keeps the set of records; it adds at most the record under the request's email and touches no other; it deletes nothing; an existing record keeps every field (identity, name, phone, password, role, verification) except `otp` and `otpExpires`; it preserves the store invariant; a mail is sent only together with storing that code's digest and an expiry of now + 600000 ms, and without a mail the store is unchanged |
| `AccountMachine.VerifyOtpStep` | routers/authRoutes.js:91-117 | verify-otp returns 200 exactly when both fields are present, the user exists, an OTP is pending, it has not expired (`otpExpires < now` is false) and the digest matches; on success the record becomes verified with both OTP fields cleared, otherwise nothing is written |
| `AccountMachine.LoginStep` | routers/authRoutes.js:120-150 | a login succeeds exactly for a present email and password of a known, verified account whose bcrypt digest matches; success carries `success: true`, a token with {id, role} and the public profile {id, name, email, role} only; every failure is a 400 error |
| `AccountMachine.ForgetPasswordStep` | routers/authRoutes.js:153-172 | a missing email gives 400 "Email required"; with an email present the reply is always the same generic 200 message; a mail is sent exactly when the email is known, with the digest of the mailed code and expiry now + 600000 ms stored; an unknown email leaves the store unchanged; only that record is touched |
| `AccountMachine.ResetPasswordStep` | routers/authRoutes.js:175-202 | reset succeeds exactly when all three fields are present, the user exists with a pending OTP that has not expired and whose digest matches; success stores the bcrypt digest of the new password, clears both OTP fields and sets isVerified; otherwise nothing is written |
| `AccountProperties.RegisterNeedsFields` | routers/authRoutes.js:34-35 | a missing name, email or password gives 400 "Name, email, password required" with no write and no mail |
| `AccountProperties.RegisterResendsToUnverified` | routers/authRoutes.js:39-50 | an existing unverified email gets 200 "OTP resent…", no new record, and only otp/otpExpires replaced (new digest, now + 600000 ms); name and password stay; the code is mailed |
| `AccountProperties.RegisterRejectsVerified` | routers/authRoutes.js:51-53 | an existing verified email gets 400 "Email already registered" with no write and no mail |
| `AccountProperties.RegisterCreatesPendingAccount` | routers/authRoutes.js:56-83 | a new email gets 201 and exactly one new record: unverified, the fresh id, a cost-10 bcrypt digest accepting exactly the passwords with the given password's bcrypt key, an OTP digest accepting only the mailed code, expiry now + 600000 ms, role "admin" for the admin email, else the supplied role if non-empty, else "customer" |
| `AccountProperties.RegisterHonoursCallerRole` | routers/authRoutes.js:58-62 | for a non-admin email any non-empty requested role, including "admin", is stored |
| `AccountProperties.RegisterTwiceKeepsOneRecord` | routers/authRoutes.js:37-50 | registering one new email twice leaves one record with the first id and password; the second call resends with a recomputed expiry, and a different draw gives a different digest |
| `AccountProperties.VerifyOtpGuardOrder` | routers/authRoutes.js:94-112 | verify-otp checks missing fields (400), unknown user (404), no OTP requested, expired, invalid OTP, in that order, and otherwise replies "Account verified successfully" |
| `AccountProperties.VerifyOtpAcceptedAtExpiryInstant` | routers/authRoutes.js:102-103 | the correct code is accepted at exactly otpExpires and rejected as expired one millisecond later |
| `AccountProperties.VerifyOtpNotRepeatable` | routers/authRoutes.js:107-110 | after a successful verification the account is verified and any further verify-otp for that email, with any non-empty code at any time, answers "No OTP requested" and writes nothing |
| `AccountProperties.LoginGuardOrder` | routers/authRoutes.js:123-145 | login checks missing fields, unknown email ("Invalid credentials"), unverified ("Account not verified"), wrong password ("Invalid credentials"), in that order, and otherwise returns the signed token and {id, name, email, role} |
| `AccountProperties.LoginDistinguishesUnverified` | routers/authRoutes.js:127-129 | the reply for an unverified account differs from the reply for an unknown email |
| `AccountProperties.ForgetPasswordUniformReply` | routers/authRoutes.js:159-167 | the reply for a present email is the same whatever the store holds |
| `AccountProperties.ForgetPasswordUnknownWritesNothing` | routers/authRoutes.js:158-165 | an unknown email causes no write and no mail |
| `AccountProperties.ForgetPasswordReissues` | routers/authRoutes.js:159-164 | a known email, verified or not, gets a new OTP digest and expiry and nothing else changes, isVerified included; the code is mailed |
| `AccountProperties.ResetPasswordGuardOrder` | routers/authRoutes.js:178-197 | reset-password checks missing fields, unknown user or missing OTP ("Invalid request"), expired, invalid OTP, in that order, and otherwise replies "Password has been reset successfully" |
| `AccountProperties.ResetPasswordUnknownLikeNoOtp` | routers/authRoutes.js:184-185 | an unknown email and an account with no pending OTP get the same reply |
| `AccountProperties.ResetPasswordConsumesOtp` | routers/authRoutes.js:191-195 | after a reset the account is verified, the new password logs in, another password logs in exactly when it has the new password's bcrypt key and otherwise gets "Invalid credentials", and the same OTP can neither reset again ("Invalid request", no write) nor verify ("No OTP requested") |
| `AccountProperties.VerifiedOtpCannotReset` | routers/authRoutes.js:107-109 | a code consumed by verify-otp cannot then reset the password |
| `AccountProperties.Apply` | routers/authRoutes.js:31-202 | serving any one request keeps the store invariant and evolves the store monotonically |
| `AccountProperties.Trace` | routers/authRoutes.js:31-202 | serving a sequence of requests yields one outcome per request |
| `AccountProperties.TraceStep` | routers/authRoutes.js:31-202 | each outcome of a sequence is one handler step from the store left by the previous request |
| `AccountProperties.TraceKeepsValid` | routers/authRoutes.js:31-202 | in every store reachable from a valid one, each record sits under its own email and has otp and otpExpires both set or both unset |
| `AccountProperties.EvolvesTransitive` | routers/authRoutes.js:31-202 | monotone evolution of the store composes |
| `AccountProperties.TraceEvolves` | routers/authRoutes.js:31-202 | no sequence of requests deletes a record, changes its id, name, email, phone or role, or makes a verified account unverified |
| `AccountProperties.ConsumptionClears` | routers/authRoutes.js:107-109 | a successful verify-otp or reset-password leaves the email with no OTP pending |
| `AccountProperties.OnlyIssuersMail` | routers/authRoutes.js:31-202 | only a register or forget-password request for an email mails it an OTP |
| `AccountProperties.QuietStepKeepsClear` | routers/authRoutes.js:100-101 | with no OTP pending for an email, a request whose outcome mails it no OTP keeps it so and cannot succeed as a verification or reset for it |
| `AccountProperties.ClearUntilIssued` | routers/authRoutes.js:192-193 | after a consumption, the email stays without a pending OTP until a request actually mails it a new one |
| `AccountProperties.OtpAuthorisesOnce` | routers/authRoutes.js:184-195 | between two successful OTP-authorised operations on one email some request in between mailed that email a new OTP: an OTP authorises at most one operation |
| `AccountProperties.AccountLifecycle` | routers/authRoutes.js:31-202 | register, verify with the mailed code, login, forget, reset with the new mailed code: every step succeeds, the account stays verified across the reset, and afterwards the new password logs in while the old one logs in exactly when it has the new one's bcrypt key (otherwise "Invalid credentials") |
| `AuthRouter.Router.Save` | routers/authRoutes.js:45 | saving writes the document under its email and nothing else |
| `AuthRouter.Router.SendOtp` | utils/sendOtp.js:3-37 | delivery appends the mail (recipient and plaintext code) to the outbox, never fails and changes no record |
| `AuthRouter.Router.Register` | routers/authRoutes.js:31-88 | the register handler's reply, new collection and new outbox are those of `RegisterStep`; the store invariant is kept |
| `AuthRouter.Router.VerifyOtp` | routers/authRoutes.js:91-117 | the verify-otp handler's reply and new collection are those of `VerifyOtpStep`; no mail is sent |
| `AuthRouter.Router.Login` | routers/authRoutes.js:120-150 | the login handler's reply is that of `LoginStep`; the method cannot modify the collection |
| `AuthRouter.Router.ForgetPassword` | routers/authRoutes.js:153-172 | the forget-password handler's reply, new collection and new outbox are those of `ForgetPasswordStep` |
| `AuthRouter.Router.ResetPassword` | routers/authRoutes.js:175-202 | the reset-password handler's reply and new collection are those of `ResetPasswordStep`; no mail is sent |

## Left out

- Rate limiter (routers/authRoutes.js:24-28): the express-rate-limit middleware on register and forget-password is library configuration whose internals are not visible here. Its settings are a 15-minute window and at most 5 requests, answered otherwise with "Too many requests, try again later.". The model serves every request.
- Cryptographic internals: SHA-256, bcrypt salting and JWT signing are symbolic constructors. The model captures determinism and collision-freedom: of SHA-256 on the code, of bcrypt on the 72-byte key with cost and salt, and of JWT on its claims and options. It does not capture one-wayness, digest length, hex or bcrypt's base-64 encoding, or the signature itself.
- bcrypt key derivation: `SecretCodec.BcryptKey` follows bcryptjs for "$2a$"/"$2b$" salts, the kind `bcrypt.hash` generates. Older "$2$" digests, which omit the trailing zero byte, are not modelled. Passwords are strings of Unicode scalar values, so the handling of lone UTF-16 surrogates is not modelled.
- JWT time claims: the token records `iat` and the `expiresIn` string. Turning that string into an `exp` claim, and verifying tokens, belong to the jsonwebtoken library and downstream middleware.
- `Math.random()` floating point: the model takes the integer draw below 900000 directly.
- utils/sendOtp.js: SMTP delivery through nodemailer, whose errors are logged and swallowed, becomes an append to `outbox` that cannot fail. The mail text, which says the code expires in 5 minutes while the code uses 10, is not modelled.
- The store: a map keyed by email stands for the mongoose `User` collection. `save()` replaces the entry for the document's email. Mongoose schema validation, defaults and the generation of unique `_id` values (a parameter here) are not modelled. model/User.js is not part of this model.
- Request values that are not strings (JSON numbers, objects) are not modelled. Fields are strings, with `""` for absent. An absent phone is stored as `""` rather than `undefined`.
- Concurrency and infrastructure: async/await, races between concurrent requests on one record, and the catch-all 500 "Server error" replies.
- app.js (Express and CORS wiring, router mounting) and model/UserSubscription.js (a schema whose only logic is a pre-save hook over a database lookup) are outside the modelled core.
