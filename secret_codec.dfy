/**
 * The helpers at the top of routers/authRoutes.js: OTP generation, the OTP
 * digest and its comparison, the password digest (bcrypt) and token signing.
 *
 * The cryptographic primitives are modelled symbolically: a digest is a
 * constructor applied to its preimage, so equal inputs give equal digests and
 * distinct inputs give distinct digests (the collision-freedom the comparisons
 * rely on). The bcrypt preimage is the 72-byte key bcryptjs derives from the
 * password, not the password itself. One-wayness is not expressible in this model.
 */
module SecretCodec {

  // ---------------------------------------------------------------------------
  // Decimal text of a natural number (Number.prototype.toString)
  // ---------------------------------------------------------------------------

  predicate IsDigit(c: char) { '0' <= c <= '9' }

  predicate IsDecimal(s: string) { forall i :: 0 <= i < |s| ==> IsDigit(s[i]) }

  function DigitChar(d: nat): (c: char)
    requires d < 10
  {
    ('0' as int + d) as char
  }

  function DigitValue(c: char): nat
    requires IsDigit(c)
  {
    c as int - '0' as int
  }

  /** The number a string of decimal digits denotes (most significant first). */
  function DecimalValue(s: string): nat
    requires IsDecimal(s)
  {
    if s == [] then 0 else 10 * DecimalValue(s[..|s| - 1]) + DigitValue(s[|s| - 1])
  }

  function Pow10(k: nat): nat
  {
    if k == 0 then 1 else 10 * Pow10(k - 1)
  }

  lemma {:induction false} Pow10Mono(a: nat, b: nat)
    requires a <= b
    ensures Pow10(a) <= Pow10(b)
  {
    if a < b {
      Pow10Mono(a, b - 1);
    }
  }

  /**
   * The shortest decimal text of `n`: digits only, no leading zero, and it
   * reads back as `n`.
   */
  function DecimalString(n: nat): (r: string)
    ensures 1 <= |r| && IsDecimal(r)
    ensures DecimalValue(r) == n
    ensures n < Pow10(|r|)
    ensures 1 < |r| ==> Pow10(|r| - 1) <= n
    decreases n
  {
    if n < 10 then [DigitChar(n)]
    else
      var p := DecimalString(n / 10);
      var r := p + [DigitChar(n % 10)];
      assert r[..|r| - 1] == p;
      r
  }

  /** A number with exactly `k` decimal digits prints as `k` characters. */
  lemma DecimalLength(n: nat, k: nat)
    requires 1 <= k && Pow10(k - 1) <= n < Pow10(k)
    ensures |DecimalString(n)| == k
  {
    var r := DecimalString(n);
    if |r| < k {
      Pow10Mono(|r|, k - 1);
    }
    if |r| > k {
      Pow10Mono(k, |r| - 1);
    }
  }

  // ---------------------------------------------------------------------------
  // OTP generation and digest
  // ---------------------------------------------------------------------------

  const OtpLow: nat := 100000
  const OtpSpan: nat := 900000

  /**
   * The integer part of `Math.random() * 900000`: the random source is a
   * parameter, and this is the range of values it can contribute.
   */
  type OtpDraw = d: nat | d < 900000

  /** The decimal text of 100000 plus the random draw: a six-digit code. */
  function GenerateOtp(draw: OtpDraw): (code: string)
    ensures |code| == 6 && IsDecimal(code)
    ensures DecimalValue(code) == OtpLow + draw
    ensures OtpLow <= DecimalValue(code) <= 999999
  {
    var n := OtpLow + draw;
    assert Pow10(5) == 100000 && Pow10(6) == 1000000 by {
      assert Pow10(2) == 100;
      assert Pow10(4) == 10000;
    }
    DecimalLength(n, 6);
    DecimalString(n)
  }

  /** Distinct draws give distinct codes: the generator loses no entropy. */
  lemma GenerateOtpInjective(d1: OtpDraw, d2: OtpDraw)
    ensures GenerateOtp(d1) == GenerateOtp(d2) <==> d1 == d2
  {
  }

  /** Every 6-digit number in 100000..999999 is produced by some draw. */
  lemma GenerateOtpCovers(n: nat)
    requires OtpLow <= n <= 999999
    ensures var d: OtpDraw := n - OtpLow; DecimalValue(GenerateOtp(d)) == n
  {
  }

  /** The hex SHA-256 digest of a code, kept symbolically. */
  datatype OtpDigest = Sha256Hex(preimage: string)

  /** The hex SHA-256 digest of a code, as stored in the user record. */
  function HashOtp(code: string): (d: OtpDigest)
  {
    Sha256Hex(code)
  }

  /** A candidate code matches when its digest equals the stored one; no plaintext is compared. */
  function CompareHashedOtp(stored: OtpDigest, candidate: string): bool
  {
    HashOtp(candidate) == stored
  }

  /** A stored digest accepts exactly the code it was made from. */
  lemma CompareHashedOtpExact(code: string, candidate: string)
    ensures CompareHashedOtp(HashOtp(code), candidate) <==> candidate == code
  {
  }

  // ---------------------------------------------------------------------------
  // Password digest (bcryptjs)
  // ---------------------------------------------------------------------------

  type Byte = b: int | 0 <= b < 256

  /** The UTF-8 encoding of one Unicode scalar value, written with 6-bit groups. */
  function Utf8Char(c: char): (r: seq<Byte>)
  {
    var v := c as int;
    var q1 := v / 64;
    var q2 := q1 / 64;
    var q3 := q2 / 64;
    if v < 0x80 then [v]
    else if v < 0x800 then [0xC0 + q1, 0x80 + v % 64]
    else if v < 0x10000 then [0xE0 + q2, 0x80 + q1 % 64, 0x80 + v % 64]
    else [0xF0 + q3, 0x80 + q2 % 64, 0x80 + q1 % 64, 0x80 + v % 64]
  }

  /** The UTF-8 encoding of a string, the bytes bcryptjs feeds to the cipher. */
  function Utf8(s: string): (r: seq<Byte>)
    ensures |r| >= |s|
  {
    if s == [] then [] else Utf8Char(s[0]) + Utf8(s[1..])
  }

  /**
   * The lead byte of an encoded character says how many bytes follow it:
   * below 0x80 none, below 0xE0 one, below 0xF0 two, otherwise three.
   * Continuation bytes lie in 0x80..0xBF.
   */
  lemma Utf8CharShape(c: char)
    ensures var r := Utf8Char(c);
            && (|r| == 1 <==> r[0] < 0x80)
            && (|r| == 2 <==> 0xC0 <= r[0] < 0xE0)
            && (|r| == 3 <==> 0xE0 <= r[0] < 0xF0)
            && (|r| == 4 <==> 0xF0 <= r[0])
            && (forall k :: 1 <= k < |r| ==> 0x80 <= r[k] < 0xC0)
  {
  }

  lemma SplitSixBits(v: int, w: int)
    requires 0 <= v && 0 <= w && v / 64 == w / 64 && v % 64 == w % 64
    ensures v == w
  {
  }

  /** Distinct characters have distinct encodings. */
  lemma Utf8CharInjective(c: char, d: char)
    requires Utf8Char(c) == Utf8Char(d)
    ensures c == d
  {
    Utf8CharShape(c);
    Utf8CharShape(d);
    var v, w := c as int, d as int;
    var r := Utf8Char(c);
    if |r| == 2 {
      SplitSixBits(v, w);
    } else if |r| == 3 {
      SplitSixBits(v / 64, w / 64);
      SplitSixBits(v, w);
    } else if |r| == 4 {
      SplitSixBits(v / 64 / 64, w / 64 / 64);
      SplitSixBits(v / 64, w / 64);
      SplitSixBits(v, w);
    }
  }

  /** An encoded character is recognised at the head of any byte stream. */
  lemma Utf8CharPrefix(c: char, d: char, x: seq<Byte>, y: seq<Byte>)
    requires Utf8Char(c) + x == Utf8Char(d) + y
    ensures c == d && x == y
  {
    var rc, rd := Utf8Char(c), Utf8Char(d);
    Utf8CharShape(c);
    Utf8CharShape(d);
    assert rc[0] == (rc + x)[0] == (rd + y)[0] == rd[0];
    assert |rc| == |rd|;
    assert rc == (rc + x)[..|rc|] == (rd + y)[..|rd|] == rd;
    Utf8CharInjective(c, d);
    assert x == (rc + x)[|rc|..] == (rd + y)[|rd|..] == y;
  }

  /** UTF-8 is injective on strings. */
  lemma {:induction false} Utf8Injective(p: string, q: string)
    requires Utf8(p) == Utf8(q)
    ensures p == q
  {
    if p != [] && q != [] {
      Utf8CharPrefix(p[0], q[0], Utf8(p[1..]), Utf8(q[1..]));
      Utf8Injective(p[1..], q[1..]);
      assert p == [p[0]] + p[1..] && q == [q[0]] + q[1..];
    }
  }

  /** The encoding of a concatenation is the concatenation of the encodings. */
  lemma {:induction false} Utf8Append(p: string, q: string)
    ensures Utf8(p + q) == Utf8(p) + Utf8(q)
  {
    if p != [] {
      assert (p + q)[0] == p[0] && (p + q)[1..] == p[1..] + q;
      Utf8Append(p[1..], q);
    } else {
      assert p + q == q;
    }
  }

  predicate NoNul(s: string) { forall i :: 0 <= i < |s| ==> s[i] != '\0' }

  /** A string without U+0000 encodes to bytes none of which is zero. */
  lemma {:induction false} Utf8NoZero(s: string)
    requires NoNul(s)
    ensures forall j :: 0 <= j < |Utf8(s)| ==> Utf8(s)[j] != 0
  {
    if s != [] {
      Utf8CharShape(s[0]);
      assert NoNul(s[1..]) by { assert forall i :: 0 <= i < |s[1..]| ==> s[1..][i] == s[i + 1]; }
      Utf8NoZero(s[1..]);
    }
  }

  /** An ASCII string encodes to one byte per character. */
  lemma {:induction false} Utf8Ascii(s: string)
    requires forall i :: 0 <= i < |s| ==> s[i] as int < 0x80
    ensures |Utf8(s)| == |s|
  {
    if s != [] {
      assert forall i :: 0 <= i < |s[1..]| ==> s[1..][i] == s[i + 1];
      Utf8Ascii(s[1..]);
    }
  }

  /** The number of key bytes the bcrypt key schedule consumes (18 words of 4 bytes). */
  const BcryptKeyBytes: nat := 72

  /**
   * The key bcryptjs derives from a password for a "$2a$"/"$2b$" salt: the
   * UTF-8 bytes followed by one zero byte, repeated cyclically to fill
   * BcryptKeyBytes bytes. Everything past that is never read.
   */
  function BcryptKey(password: string): (k: seq<Byte>)
    ensures |k| == BcryptKeyBytes
  {
    var bytes := Utf8(password) + [0];
    seq(BcryptKeyBytes, i requires 0 <= i < BcryptKeyBytes => bytes[i % |bytes|])
  }

  lemma ModBelow(i: int, n: int)
    requires 0 <= i < n
    ensures i % n == i
  {
  }

  /** Key byte i is byte i of the password's encoding, the zero byte at its end, or a repetition. */
  lemma BcryptKeyAt(password: string, i: nat)
    requires i < BcryptKeyBytes
    ensures var u := Utf8(password);
            && (i < |u| ==> BcryptKey(password)[i] == u[i])
            && (i == |u| ==> BcryptKey(password)[i] == 0)
  {
    var u := Utf8(password);
    if i <= |u| {
      ModBelow(i, |u + [0]|);
    }
  }

  /** A password of 72 UTF-8 bytes or more has as key its first 72 bytes. */
  lemma BcryptKeyLong(password: string)
    requires |Utf8(password)| >= BcryptKeyBytes
    ensures BcryptKey(password) == Utf8(password)[..BcryptKeyBytes]
  {
    forall i | 0 <= i < BcryptKeyBytes
      ensures BcryptKey(password)[i] == Utf8(password)[i]
    {
      BcryptKeyAt(password, i);
    }
  }

  /**
   * Below 72 UTF-8 bytes, and without U+0000, the key determines the
   * password: two such passwords have the same key exactly when they are equal.
   */
  lemma BcryptKeyShort(p: string, q: string)
    requires |Utf8(p)| < BcryptKeyBytes && NoNul(p) && NoNul(q)
    ensures BcryptKey(p) == BcryptKey(q) <==> p == q
  {
    if BcryptKey(p) == BcryptKey(q) {
      var u, w := Utf8(p), Utf8(q);
      Utf8NoZero(p);
      Utf8NoZero(q);
      var n := |u|;
      BcryptKeyAt(p, n);
      if |w| < n {
        BcryptKeyAt(p, |w|);
        BcryptKeyAt(q, |w|);
        assert false;
      } else if |w| > n {
        BcryptKeyAt(q, n);
        assert false;
      }
      forall i | 0 <= i < n
        ensures u[i] == w[i]
      {
        BcryptKeyAt(p, i);
        BcryptKeyAt(q, i);
      }
      assert u == w;
      Utf8Injective(p, q);
    }
  }

  /** The bcrypt cost factor the handlers use. */
  const BcryptRounds: nat := 10

  /** A bcrypt digest records its cost and salt next to the (symbolic) hash of the key. */
  datatype PasswordDigest = Bcrypt(rounds: nat, salt: nat, key: seq<Byte>)

  /** A bcrypt digest of the password at the handlers' cost; the random salt is a parameter. */
  function BcryptHash(password: string, salt: nat): (d: PasswordDigest)
  {
    Bcrypt(BcryptRounds, salt, BcryptKey(password))
  }

  /** bcrypt comparison: rehash the candidate with the digest's own cost and salt. */
  function BcryptCompare(candidate: string, digest: PasswordDigest): bool
  {
    Bcrypt(digest.rounds, digest.salt, BcryptKey(candidate)) == digest
  }

  /**
   * A password digest accepts exactly the passwords with the same key as the one it
   * was made from, whatever the salt.
   */
  lemma BcryptCompareExact(password: string, salt: nat, candidate: string)
    ensures BcryptCompare(candidate, BcryptHash(password, salt)) <==> BcryptKey(candidate) == BcryptKey(password)
  {
  }

  /** Two passwords sharing their first 72 bytes are interchangeable, whatever follows. */
  lemma BcryptTruncates(prefix: string, tail1: string, tail2: string, salt: nat)
    requires |Utf8(prefix)| >= BcryptKeyBytes
    ensures BcryptCompare(prefix + tail2, BcryptHash(prefix + tail1, salt))
  {
    Utf8Append(prefix, tail1);
    Utf8Append(prefix, tail2);
    BcryptKeyLong(prefix + tail1);
    BcryptKeyLong(prefix + tail2);
    assert Utf8(prefix + tail1)[..BcryptKeyBytes] == Utf8(prefix)[..BcryptKeyBytes] == Utf8(prefix + tail2)[..BcryptKeyBytes];
  }

  /** 72 letters "a" followed by "1" and by "2": the second logs in with the first's digest. */
  lemma BcryptLongPasswordsCollide(salt: nat)
    ensures var a72 := seq(72, _ => 'a');
            a72 + "1" != a72 + "2" && BcryptCompare(a72 + "2", BcryptHash(a72 + "1", salt))
  {
    var a72 := seq(72, _ => 'a');
    Utf8Ascii(a72);
    BcryptTruncates(a72, "1", "2", salt);
    assert (a72 + "1")[72] != (a72 + "2")[72];
  }

  // ---------------------------------------------------------------------------
  // Token signing (jsonwebtoken)
  // ---------------------------------------------------------------------------

  /** The process environment the helpers read; "" stands for an unset variable. */
  datatype Env = Env(adminEmail: string, jwtSecret: string, jwtExpires: string)

  const DefaultJwtSecret := "YOUR_SECRET_KEY"
  const DefaultJwtExpires := "1d"

  /** A configured string, or the fallback when it is unset or empty. */
  function OrElse(value: string, fallback: string): string
  {
    if value != "" then value else fallback
  }

  /** The payload `{ id, role }` that a token encodes. */
  datatype Claims = Claims(id: nat, role: string)

  /** A signed token: its claims, the signing key, the lifetime and `iat` in seconds. */
  datatype Token = Jwt(claims: Claims, key: string, expiresIn: string, issuedAt: int)

  /**
   * Sign the claims {id, role} with the configured secret (by default
   * "YOUR_SECRET_KEY") and lifetime (by default "1d") at time `nowMs`.
   */
  function SignToken(env: Env, id: nat, role: string, nowMs: int): (t: Token)
    ensures t.claims == Claims(id, role)
    ensures t.key != "" && t.expiresIn != ""
    ensures env.jwtSecret == "" ==> t.key == DefaultJwtSecret
    ensures env.jwtExpires == "" ==> t.expiresIn == DefaultJwtExpires
    ensures env.jwtSecret != "" ==> t.key == env.jwtSecret
    ensures env.jwtExpires != "" ==> t.expiresIn == env.jwtExpires
    ensures t.issuedAt * 1000 <= nowMs < t.issuedAt * 1000 + 1000
  {
    Jwt(Claims(id, role), OrElse(env.jwtSecret, DefaultJwtSecret),
        OrElse(env.jwtExpires, DefaultJwtExpires), nowMs / 1000)
  }

  /** Under one configuration and clock, a token determines the identity and role it was issued for. */
  lemma SignTokenInjective(env: Env, id1: nat, role1: string, id2: nat, role2: string, nowMs: int)
    ensures SignToken(env, id1, role1, nowMs) == SignToken(env, id2, role2, nowMs)
            <==> id1 == id2 && role1 == role2
  {
  }
}
