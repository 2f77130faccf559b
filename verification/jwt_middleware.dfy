/**
 * `JwtMiddleware`: the guard in front of every protected handler. It reads
 * the `Authorization` header, strips the bearer prefix, validates the token
 * and either answers 401 or lets the request through with the token's user
 * id in its context.
 */
module JwtMiddleware {
  import opened Go
  import opened Errors
  import opened Entity
  import opened Jwt

  const BearerPrefix: string := "Bearer "

  /** Which of the three checks refused the request. */
  datatype Stage = MissingOrMalformed | EmptyToken | InvalidToken

  /**
   * What the guard does with a request: answer with an error, call the next
   * handler with the user id in the context, or panic inside the validator.
   */
  datatype Decision =
    | Reject(status: int, message: string, stage: Stage)
    | Proceed(userId: string)
    | Aborted

  /**
   * The header test as written: `header == ""` or `strings.HasPrefix("Bearer ", header)`,
   * which asks whether the header is a prefix of "Bearer ", not the other way round.
   */
  predicate MalformedHeader(header: string) {
    header == "" || HasPrefix(BearerPrefix, header)
  }

  /**
   * The guard on one request. `validate` is `ValidateJwt` at the two clock
   * reads it makes while handling the request.
   */
  function Guard(header: string, validate: string -> Validated): (d: Decision)
    ensures d.Reject? ==> d.status == StatusUnauthorized && d.message == Unauthorized
    ensures d.Reject? && d.stage == MissingOrMalformed <==> MalformedHeader(header)
    ensures d.Proceed? <==>
      !MalformedHeader(header) && validate(TrimPrefix(header, BearerPrefix)).Accepted?
    ensures d.Proceed? ==> d.userId == validate(TrimPrefix(header, BearerPrefix)).claims.userId
    ensures d.Aborted? <==> !MalformedHeader(header) && validate(TrimPrefix(header, BearerPrefix)).NilDate?
  {
    if MalformedHeader(header) then Reject(StatusUnauthorized, Unauthorized, MissingOrMalformed)
    else
      var token := TrimPrefix(header, BearerPrefix);
      if token == "" then Reject(StatusUnauthorized, Unauthorized, EmptyToken)
      else
        match validate(token)
        case Rejected(_) => Reject(StatusUnauthorized, Unauthorized, InvalidToken)
        case NilDate => Aborted
        case Accepted(claims) => Proceed(claims.userId)
  }

  /**
   * The first check refuses exactly the eight prefixes of "Bearer ", from ""
   * to "Bearer " itself; the `header == ""` half adds nothing.
   */
  lemma {:induction false} MalformedExactlyPrefixes(header: string)
    ensures MalformedHeader(header) <==> HasPrefix(BearerPrefix, header)
    ensures MalformedHeader(header) <==> exists n :: 0 <= n <= |BearerPrefix| && header == BearerPrefix[..n]
  {
    if MalformedHeader(header) {
      assert header == BearerPrefix[..|header|];
    }
  }

  /** The empty-token check can never fire: every header that strips to "" was already refused. */
  lemma EmptyTokenUnreachable(header: string, validate: string -> Validated)
    ensures Guard(header, validate) != Reject(StatusUnauthorized, Unauthorized, EmptyToken)
  {
    if !MalformedHeader(header) {
      var token := TrimPrefix(header, BearerPrefix);
      if HasPrefix(header, BearerPrefix) {
        assert header[..|BearerPrefix|] == BearerPrefix;
        assert |header| > |BearerPrefix|;
      }
      assert token != "";
    }
  }

  /**
   * The prefix is optional: a token that neither starts with "Bearer " nor is
   * a prefix of it is treated the same with or without it.
   */
  lemma BearerPrefixOptional(token: string, validate: string -> Validated)
    requires !HasPrefix(token, BearerPrefix) && !HasPrefix(BearerPrefix, token) && token != ""
    ensures Guard(token, validate) == Guard(BearerPrefix + token, validate)
  {
    var header := BearerPrefix + token;
    assert header[..|BearerPrefix|] == BearerPrefix;
    assert TrimPrefix(header, BearerPrefix) == token;
    assert !MalformedHeader(header);
  }

  /**
   * The guard with the header test the right way round,
   * `strings.HasPrefix(header, "Bearer ")`: a header must start with the
   * prefix and carry a non-empty token after it.
   */
  function StrictGuard(header: string, validate: string -> Validated): (d: Decision)
    ensures d.Reject? ==> d.status == StatusUnauthorized && d.message == Unauthorized
    ensures !HasPrefix(header, BearerPrefix) ==> d == Reject(StatusUnauthorized, Unauthorized, MissingOrMalformed)
    ensures header == BearerPrefix ==> d == Reject(StatusUnauthorized, Unauthorized, EmptyToken)
    ensures d.Proceed? <==>
      HasPrefix(header, BearerPrefix) && |header| > |BearerPrefix| && validate(header[|BearerPrefix|..]).Accepted?
    ensures d.Proceed? ==> d.userId == validate(header[|BearerPrefix|..]).claims.userId
  {
    if header == "" || !HasPrefix(header, BearerPrefix) then Reject(StatusUnauthorized, Unauthorized, MissingOrMalformed)
    else
      var token := TrimPrefix(header, BearerPrefix);
      if token == "" then Reject(StatusUnauthorized, Unauthorized, EmptyToken)
      else
        match validate(token)
        case Rejected(_) => Reject(StatusUnauthorized, Unauthorized, InvalidToken)
        case NilDate => Aborted
        case Accepted(claims) => Proceed(claims.userId)
  }

  /** On every header that is "Bearer " followed by a token, the guard as written and the strict one agree. */
  lemma StrictGuardAgrees(header: string, validate: string -> Validated)
    requires HasPrefix(header, BearerPrefix) && |header| > |BearerPrefix|
    ensures StrictGuard(header, validate) == Guard(header, validate)
  {
    assert !MalformedHeader(header);
  }

  /**
   * The guard as written lets a bare token through: "t0k3n" is neither
   * empty nor a prefix of "Bearer ", so it is validated as it is, where
   * the strict guard refuses it.
   */
  lemma BareTokenProceeds(validate: string -> Validated)
    requires validate("t0k3n").Accepted?
    ensures Guard("t0k3n", validate) == Proceed(validate("t0k3n").claims.userId)
    ensures StrictGuard("t0k3n", validate) == Reject(StatusUnauthorized, Unauthorized, MissingOrMalformed)
  {
    assert !HasPrefix(BearerPrefix, "t0k3n") by {
      assert BearerPrefix[..5] != "t0k3n" by { assert BearerPrefix[..5][1] == 'e'; }
    }
    assert !HasPrefix("t0k3n", BearerPrefix);
  }

  /**
   * A token issued at `t` and sent as "Bearer <token>" while both clock reads
   * of the validation fall in its lifetime lets the request through with the
   * id it was issued for, under both guards.
   */
  lemma IssuedTokenProceeds(cfg: Config, signer: Signer, t: Time, parsedAt: Time, now: Time, userId: string)
    requires IsSigner(signer)
    requires GenerateJwt(cfg, signer, t, userId).Ok?
    requires t <= parsedAt < NewClaims(cfg, t, userId).expiresAt.value
    requires t <= now <= NewClaims(cfg, t, userId).expiresAt.value
    ensures var header := BearerPrefix + GenerateJwt(cfg, signer, t, userId).value;
      var validate := (tok: string) => ValidateJwt(cfg, signer, parsedAt, now, tok);
      Guard(header, validate) == Proceed(userId) && StrictGuard(header, validate) == Proceed(userId)
  {
    var token := GenerateJwt(cfg, signer, t, userId).value;
    var header := BearerPrefix + token;
    assert header[..|BearerPrefix|] == BearerPrefix;
    assert TrimPrefix(header, BearerPrefix) == token;
    FreshTokenAccepted(cfg, signer, t, parsedAt, now, userId);
    StrictGuardAgrees(header, (tok: string) => ValidateJwt(cfg, signer, parsedAt, now, tok));
  }
}
