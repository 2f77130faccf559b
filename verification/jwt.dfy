/**
 * Access tokens: the claims `GenerateJwt` signs and the checks `ValidateJwt`
 * makes on a parsed token. The token is an HS256 JSON Web Signature (section
 * 3.2 of RFC 7518) over a JSON Web Token claim set (section 4.1 of RFC 7519);
 * signing and parsing are kept abstract as a `Signer`, and the current time
 * is a parameter.
 */
module Jwt {
  import opened Wrappers
  import opened Go
  import opened Errors
  import opened Entity

  /** The `jwt` section of the server configuration; `expireIn` is in milliseconds. */
  datatype Config = Config(secret: string, expireIn: Int64, issuer: string)

  /** `JwtClaim`: the user id plus the registered claims the core sets; a date is `None` when absent. */
  datatype Claims = Claims(
    userId: string,
    subject: string,
    issuer: string,
    expiresAt: Option<Time>,
    notBefore: Option<Time>,
    issuedAt: Option<Time>)

  /** `jwt.NewNumericDate`: the time truncated to whole seconds. */
  function NumericDate(t: Time): (r: Time)
    ensures r <= t < r + Second
    ensures r % Second == 0
  {
    t - t % Second
  }

  /** Truncation to whole seconds keeps the order of times. */
  lemma NumericDateMonotone(t1: Time, t2: Time)
    ensures t1 <= t2 ==> NumericDate(t1) <= NumericDate(t2)
  {
  }

  /** `time.Duration(expireIn) * time.Millisecond`, a 64-bit nanosecond count. */
  function Lifetime(cfg: Config): (d: Int64)
    ensures 0 <= cfg.expireIn && cfg.expireIn * Millisecond <= MaxInt64 ==>
      d == cfg.expireIn * Millisecond && d >= 0
  {
    Wrap64(cfg.expireIn * Millisecond)
  }

  /** The claim set `GenerateJwt` builds for `userId` at time `now`. */
  function NewClaims(cfg: Config, now: Time, userId: string): (c: Claims)
    ensures c.userId == userId && c.subject == userId && c.issuer == cfg.issuer
    ensures c.issuedAt.Some? && c.notBefore == c.issuedAt && c.expiresAt.Some?
    ensures c.issuedAt.value <= now < c.issuedAt.value + Second
    ensures now + Lifetime(cfg) - Second < c.expiresAt.value <= now + Lifetime(cfg)
    ensures Lifetime(cfg) >= 0 ==> c.issuedAt.value <= c.expiresAt.value
  {
    NumericDateMonotone(now, now + Lifetime(cfg));
    Claims(userId, userId, cfg.issuer,
           Some(NumericDate(now + Lifetime(cfg))), Some(NumericDate(now)), Some(NumericDate(now)))
  }

  /**
   * What `jwt.ParseWithClaims` finds before it validates the claims: an error
   * in the token's form or signature, or the decoded claims and the
   * validity flag.
   */
  datatype ParseOutcome = ParseFailed(err: Error) | ParsedToken(claims: Claims, valid: bool)

  /** HS256 signing, and decoding with signature verification, with a secret, as the `golang-jwt` library does them. */
  datatype Signer = Signer(
    sign: (string, Claims) -> Result<string>,
    parse: (string, string) -> ParseOutcome)

  /**
   * What the core relies on: a signed token is a non-empty string that
   * decodes, under the same secret, back to the claims that were signed,
   * with a good signature.
   */
  ghost predicate IsSigner(s: Signer) {
    forall secret, c :: s.sign(secret, c).Ok? ==>
      s.sign(secret, c).value != "" && s.parse(secret, s.sign(secret, c).value) == ParsedToken(c, true)
  }

  /** `GenerateJwt(userId)` at time `now`. */
  function GenerateJwt(cfg: Config, signer: Signer, now: Time, userId: string): (r: Result<string>)
    ensures IsSigner(signer) && r.Ok? ==>
      r.value != "" && signer.parse(cfg.secret, r.value) == ParsedToken(NewClaims(cfg, now, userId), true)
    ensures r.Fail? <==> signer.sign(cfg.secret, NewClaims(cfg, now, userId)).Fail?
  {
    signer.sign(cfg.secret, NewClaims(cfg, now, userId))
  }

  /**
   * The library's default validator refuses a token whose `exp`, when
   * present, is not after `now` (no leeway) ...
   */
  predicate LibraryExpired(c: Claims, now: Time) {
    c.expiresAt.Some? && c.expiresAt.value <= now
  }

  /** ... and one whose `nbf`, when present, is after `now`; `iat` is not checked by default. */
  predicate LibraryNotYetValid(c: Claims, now: Time) {
    c.notBefore.Some? && now < c.notBefore.value
  }

  /** The library's default validation passes at `now`. */
  predicate LibraryAccepts(c: Claims, now: Time) {
    !LibraryExpired(c, now) && !LibraryNotYetValid(c, now)
  }

  /**
   * The core's own checks pass at `now`: all three dates present (each is
   * dereferenced), the expiry not before `now`, and neither the issue time
   * nor the not-before time after it.
   */
  predicate CoreAccepts(c: Claims, now: Time) {
    && c.expiresAt.Some? && c.issuedAt.Some? && c.notBefore.Some?
    && now <= c.expiresAt.value
    && c.issuedAt.value <= now
    && c.notBefore.value <= now
  }

  /**
   * The outcome of `ValidateJwt`: the claims, an error, or a nil-pointer
   * panic when a date the checks read is absent from the token.
   */
  datatype Validated = Accepted(claims: Claims) | Rejected(err: Error) | NilDate

  /**
   * All three dates are present and `now` lies in the window both the
   * library and the core allow when they read the same instant: before the
   * expiry, and not before the issue time and the not-before time.
   */
  predicate InWindow(c: Claims, now: Time) {
    && c.expiresAt.Some? && c.issuedAt.Some? && c.notBefore.Some?
    && now < c.expiresAt.value
    && c.issuedAt.value <= now
    && c.notBefore.value <= now
  }

  /**
   * `ValidateJwt(token)`: `ParseWithClaims` (decoding and signature, then the
   * library's claim validation against the clock as it reads it, `parsedAt`),
   * the validity flag, then the core's own expiry, issued-at and not-before
   * checks, in that order, against its own later clock read `now`.
   */
  function ValidateJwt(cfg: Config, signer: Signer, parsedAt: Time, now: Time, token: string): (v: Validated)
    ensures var p := signer.parse(cfg.secret, token);
      p.ParseFailed? ==> v == Rejected(p.err)
    ensures var p := signer.parse(cfg.secret, token);
      p.ParsedToken? && (LibraryExpired(p.claims, parsedAt) || LibraryNotYetValid(p.claims, parsedAt)) ==>
        v == Rejected(InvalidClaims(LibraryExpired(p.claims, parsedAt), LibraryNotYetValid(p.claims, parsedAt)))
    ensures var p := signer.parse(cfg.secret, token);
      p.ParsedToken? && LibraryAccepts(p.claims, parsedAt) && !p.valid ==>
        v == Rejected(InvalidKey)
    ensures var p := signer.parse(cfg.secret, token);
      v.Accepted? <==>
        p.ParsedToken? && p.valid && LibraryAccepts(p.claims, parsedAt) && CoreAccepts(p.claims, now)
    ensures v.Accepted? ==> signer.parse(cfg.secret, token) == ParsedToken(v.claims, true)
    ensures var p := signer.parse(cfg.secret, token);
      p.ParsedToken? && v == Rejected(TokenExpired) <==>
        && p.ParsedToken? && p.valid && LibraryAccepts(p.claims, parsedAt)
        && p.claims.expiresAt.Some? && p.claims.expiresAt.value < now
    ensures var p := signer.parse(cfg.secret, token);
      p.ParsedToken? && v == Rejected(TokenNotValidYet) <==>
        && p.ParsedToken? && p.valid && LibraryAccepts(p.claims, parsedAt)
        && p.claims.expiresAt.Some? && now <= p.claims.expiresAt.value && p.claims.issuedAt.Some?
        && (|| now < p.claims.issuedAt.value
            || (p.claims.notBefore.Some? && now < p.claims.notBefore.value))
    ensures var p := signer.parse(cfg.secret, token);
      v.NilDate? <==>
        && p.ParsedToken? && p.valid && LibraryAccepts(p.claims, parsedAt)
        && (|| p.claims.expiresAt.None?
            || (now <= p.claims.expiresAt.value && p.claims.issuedAt.None?)
            || (now <= p.claims.expiresAt.value && p.claims.issuedAt.value <= now && p.claims.notBefore.None?))
  {
    match signer.parse(cfg.secret, token)
    case ParseFailed(err) => Rejected(err)
    case ParsedToken(claims, valid) =>
      var expired, early := LibraryExpired(claims, parsedAt), LibraryNotYetValid(claims, parsedAt);
      if expired || early then Rejected(InvalidClaims(expired, early))
      else if !valid then Rejected(InvalidKey)
      else if claims.expiresAt.None? then NilDate
      else if claims.expiresAt.value < now then Rejected(TokenExpired)
      else if claims.issuedAt.None? then NilDate
      else if claims.issuedAt.value > now then Rejected(TokenNotValidYet)
      else if claims.notBefore.None? then NilDate
      else if claims.notBefore.value > now then Rejected(TokenNotValidYet)
      else Accepted(claims)
  }

  /**
   * When both clock reads give the same instant, the two checks together
   * accept exactly the tokens whose three dates are present and whose window
   * holds that instant.
   */
  lemma SingleInstantWindow(c: Claims, now: Time)
    ensures LibraryAccepts(c, now) && CoreAccepts(c, now) <==> InWindow(c, now)
  {
  }

  /**
   * At a single instant (`parsedAt == now`), the core's own expiry check
   * never fires on a token that decodes: the library has already refused
   * every token whose expiry is not after that instant. Of the core's two
   * not-yet-valid checks, only the issued-at one can fire.
   */
  lemma ExplicitExpiryUnreachable(cfg: Config, signer: Signer, now: Time, token: string)
    requires signer.parse(cfg.secret, token).ParsedToken?
    ensures ValidateJwt(cfg, signer, now, now, token) != Rejected(TokenExpired)
    ensures ValidateJwt(cfg, signer, now, now, token) == Rejected(TokenNotValidYet) ==>
      var c := signer.parse(cfg.secret, token).claims;
      c.issuedAt.Some? && now < c.issuedAt.value && (c.notBefore.None? || c.notBefore.value <= now)
  {
  }

  /**
   * With two distinct reads, the core's expiry check is reachable: a token
   * whose expiry falls strictly between the library's read and the core's
   * passes the library and is then refused with the bare expiry error.
   */
  lemma ExpiryBetweenClockReads(cfg: Config, signer: Signer, parsedAt: Time, now: Time, token: string)
    requires signer.parse(cfg.secret, token).ParsedToken? && signer.parse(cfg.secret, token).valid
    requires var c := signer.parse(cfg.secret, token).claims;
      c.expiresAt.Some? && parsedAt < c.expiresAt.value < now
    requires var c := signer.parse(cfg.secret, token).claims;
      c.notBefore.None? || c.notBefore.value <= parsedAt
    ensures ValidateJwt(cfg, signer, parsedAt, now, token) == Rejected(TokenExpired)
  {
  }

  /**
   * A token issued at `t` is accepted when both clock reads fall from `t` up
   * to its expiry (the library's strictly before it, the core's possibly at
   * it), and carries the user id it was issued for.
   */
  lemma FreshTokenAccepted(cfg: Config, signer: Signer, t: Time, parsedAt: Time, now: Time, userId: string)
    requires IsSigner(signer)
    requires GenerateJwt(cfg, signer, t, userId).Ok?
    requires t <= parsedAt < NewClaims(cfg, t, userId).expiresAt.value
    requires t <= now <= NewClaims(cfg, t, userId).expiresAt.value
    ensures ValidateJwt(cfg, signer, parsedAt, now, GenerateJwt(cfg, signer, t, userId).value) ==
      Accepted(NewClaims(cfg, t, userId))
    ensures ValidateJwt(cfg, signer, parsedAt, now, GenerateJwt(cfg, signer, t, userId).value).claims.userId == userId
  {
    var c := NewClaims(cfg, t, userId);
    assert LibraryAccepts(c, parsedAt) && CoreAccepts(c, now);
  }

  /**
   * When the library reads the clock at or after its expiry, the same token
   * is refused by the library as expired, wrapped as invalid claims, whatever
   * the core's own read.
   */
  lemma StaleTokenExpired(cfg: Config, signer: Signer, t: Time, parsedAt: Time, now: Time, userId: string)
    requires IsSigner(signer)
    requires GenerateJwt(cfg, signer, t, userId).Ok?
    requires NewClaims(cfg, t, userId).expiresAt.value <= parsedAt
    ensures var v := ValidateJwt(cfg, signer, parsedAt, now, GenerateJwt(cfg, signer, t, userId).value);
      v.Rejected? && v.err.InvalidClaims? && v.err.expired
  {
  }
}
