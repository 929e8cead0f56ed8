/**
 * The JSON Web Tokens the handlers mint and check, as claim sets with an
 * issue time and an expiry (both in whole seconds, as the library writes
 * them).  Signing and the signature check are abstract: a presented token is
 * either one whose signature failed, or the payload of a well-signed token.
 */
module Tokens {
  import opened Wrappers

  /** `expiresIn: "10m"` of the registration token, in seconds. */
  const VerificationTtl: nat := 600

  /** `expiresIn: "14 days"` of the session token, in seconds. */
  const SessionTtl: nat := 14 * 24 * 60 * 60

  /** The registration token names the first name; the session token the username. */
  datatype Claims =
    | VerificationClaims(memberid: int, name: string, email: string)
    | SessionClaims(memberid: int, username: string, email: string)

  datatype Jwt = Jwt(claims: Claims, iat: int, exp: int)

  /**
   * `jwt.sign(claims, secret, {expiresIn: ttl})` at time nowMs (milliseconds):
   * the issue time is the current second and the expiry ttl seconds later.
   */
  function Sign(claims: Claims, nowMs: nat, ttl: nat): (t: Jwt)
    ensures t.claims == claims
    ensures t.exp - t.iat == ttl
    ensures t.iat * 1000 <= nowMs < t.iat * 1000 + 1000
  {
    var iat := nowMs / 1000;
    Jwt(claims, iat, iat + ttl)
  }

  /** What `jwt.verify` makes of a presented token string. */
  datatype SignatureCheck = BadSignature | GoodSignature(payload: Jwt)

  datatype JwtError = InvalidSignature | TokenExpired

  /**
   * `jwt.verify` without `ignoreExpiration`: the library compares the current
   * whole second with `exp` and rejects from `exp` on.
   */
  function VerifyStrict(check: SignatureCheck, nowMs: nat): (r: Result<Jwt, JwtError>)
    ensures r.Success? <==> check.GoodSignature? && nowMs < check.payload.exp * 1000
    ensures r.Success? ==> r.value == check.payload
    ensures r == Failure(InvalidSignature) <==> check.BadSignature?
  {
    match check
    case BadSignature => Failure(InvalidSignature)
    case GoodSignature(t) => if nowMs / 1000 >= t.exp then Failure(TokenExpired) else Success(t)
  }

  /**
   * The handler's own expiry test `decoded.exp < new Date().getTime() / 1000`,
   * with the division exact.
   */
  predicate PastExpiry(t: Jwt, nowMs: nat) {
    (t.exp as real) < (nowMs as real) / 1000.0
  }

  /** The handler's test in whole milliseconds. */
  lemma PastExpiryInMillis(t: Jwt, nowMs: nat)
    ensures PastExpiry(t, nowMs) <==> t.exp * 1000 < nowMs
  {
    var e, n := t.exp as real, nowMs as real;
    assert (t.exp * 1000) as real == e * 1000.0;
    assert n / 1000.0 * 1000.0 == n;
  }

  /**
   * The handler's test is more lenient than the library's by exactly one
   * instant: every token it calls expired the library rejects too, and the
   * library alone rejects a token checked at exactly `exp` seconds.
   */
  lemma LenientAndStrictExpiry(t: Jwt, nowMs: nat)
    ensures PastExpiry(t, nowMs) ==> VerifyStrict(GoodSignature(t), nowMs) == Failure(TokenExpired)
    ensures (VerifyStrict(GoodSignature(t), nowMs) == Failure(TokenExpired) && !PastExpiry(t, nowMs))
              <==> nowMs == t.exp * 1000
  {
    PastExpiryInMillis(t, nowMs);
  }

  /**
   * A token signed at issuedMs with lifetime ttl seconds passes the library's
   * check up to a second before ttl has elapsed, and fails once it has.
   */
  lemma TokenLifetime(claims: Claims, issuedMs: nat, ttl: nat, atMs: nat)
    ensures atMs + 1000 <= issuedMs + ttl * 1000 ==>
              VerifyStrict(GoodSignature(Sign(claims, issuedMs, ttl)), atMs).Success?
    ensures atMs >= issuedMs + ttl * 1000 ==>
              VerifyStrict(GoodSignature(Sign(claims, issuedMs, ttl)), atMs) == Failure(TokenExpired)
  {
    var t := Sign(claims, issuedMs, ttl);
    assert t.exp * 1000 == t.iat * 1000 + ttl * 1000;
  }
}
