/** Token issuance and verification (app/core/security.py). Issuing copies the
    caller's claims, stamps `exp` and `type` over them and signs the result;
    verifying decodes and then checks, in order, that `sub` is present and
    that `type` is the expected one. The clock reading `now` and the
    library's expiry comparison `rule` are parameters. */
module Security {
  import opened Wrappers
  import opened Errors
  import opened Config
  import opened Jwt

  const ACCESS := "access"
  const REFRESH := "refresh"

  /** The lifetime in seconds of a new token: `expires_delta or
      timedelta(minutes = default_minutes)`, so a missing or zero delta falls
      back to the default while any other delta, negative ones included, is
      kept. */
  function Lifetime(expiresDelta: Option<int>, defaultMinutes: int): (seconds: int)
    ensures expiresDelta.None? ==> seconds == Minutes(defaultMinutes)
    ensures expiresDelta == Some(0) ==> seconds == Minutes(defaultMinutes)
    ensures expiresDelta.Some? && expiresDelta.value != 0 ==> seconds == expiresDelta.value
  {
    if expiresDelta.Some? && expiresDelta.value != 0 then expiresDelta.value else Minutes(defaultMinutes)
  }

  /** `_create_token`. The result carries every claim of `data` except that
      `exp` and `type` are replaced by the computed expiry and the tag;
      `data` itself is a value and cannot change. */
  function CreateToken(data: Claims, expiresDelta: Option<int>, tokenType: string, defaultMinutes: int, now: int): (t: Token)
    ensures t.Signed? && t.key == SECRET_KEY && t.algorithm == ALGORITHM
    ensures t.claims.Keys == data.Keys + {"exp", "type"}
    ensures t.claims["exp"] == Number(now + Lifetime(expiresDelta, defaultMinutes))
    ensures t.claims["type"] == Text(tokenType)
    ensures forall k :: k in data && k != "exp" && k != "type" ==> t.claims[k] == data[k]
  {
    var toEncode := data["exp" := Number(now + Lifetime(expiresDelta, defaultMinutes))]["type" := Text(tokenType)];
    Encode(toEncode, SECRET_KEY, ALGORITHM)
  }

  function CreateAccessToken(data: Claims, now: int, expiresDelta: Option<int> := None): (t: Token)
    ensures t.Signed? && "type" in t.claims && t.claims["type"] == Text(ACCESS)
    ensures "exp" in t.claims && t.claims["exp"] == Number(now + Lifetime(expiresDelta, ACCESS_TOKEN_EXPIRE_MINUTES))
  {
    CreateToken(data, expiresDelta, ACCESS, ACCESS_TOKEN_EXPIRE_MINUTES, now)
  }

  function CreateRefreshToken(data: Claims, now: int, expiresDelta: Option<int> := None): (t: Token)
    ensures t.Signed? && "type" in t.claims && t.claims["type"] == Text(REFRESH)
    ensures "exp" in t.claims && t.claims["exp"] == Number(now + Lifetime(expiresDelta, REFRESH_TOKEN_EXPIRE_MINUTES))
  {
    CreateToken(data, expiresDelta, REFRESH, REFRESH_TOKEN_EXPIRE_MINUTES, now)
  }

  /** `_verify_token`: library errors first (expired, or any other failure),
      then a missing `sub`, then a type other than the expected one. */
  function VerifyToken(token: Token, expectedType: string, now: int, rule: ExpiryRule): (r: Result<Claims, AuthError>)
    ensures r.Failure? ==> r.error.IsTokenError()
    ensures r.Success? <==>
      Decode(token, SECRET_KEY, [ALGORITHM], now, rule).Payload?
      && "sub" in token.claims
      && "type" in token.claims && token.claims["type"] == Text(expectedType)
    ensures r.Success? ==> r.value == token.claims
    ensures r == Failure(TokenExpired) <==> Decode(token, SECRET_KEY, [ALGORITHM], now, rule).Expired?
  {
    match Decode(token, SECRET_KEY, [ALGORITHM], now, rule)
    case Expired => Failure(TokenExpired)
    case Rejected => Failure(InvalidToken(""))
    case Payload(payload) =>
      if "sub" !in payload then Failure(InvalidToken("Token missing 'sub' claim"))
      else if !("type" in payload && payload["type"] == Text(expectedType)) then
        Failure(InvalidToken("Invalid token type: expected " + expectedType))
      else Success(payload)
  }

  function VerifyAccessToken(token: Token, now: int, rule: ExpiryRule): (r: Result<Claims, AuthError>)
    ensures r.Success? ==> token.Signed? && "type" in token.claims && token.claims["type"] == Text(ACCESS)
  {
    VerifyToken(token, ACCESS, now, rule)
  }

  function VerifyRefreshToken(token: Token, now: int, rule: ExpiryRule): (r: Result<Claims, AuthError>)
    ensures r.Success? ==> token.Signed? && "type" in token.claims && token.claims["type"] == Text(REFRESH)
  {
    VerifyToken(token, REFRESH, now, rule)
  }

  /** The instant from which an issued token no longer verifies. */
  function ExpiryOf(t: Token): int
    requires t.Signed? && "exp" in t.claims && t.claims["exp"].Number?
  {
    t.claims["exp"].n
  }

  /** Round trip: a freshly issued token, presented with its own type before
      its expiry, verifies and yields the issued subject and tag. */
  lemma IssuedTokenVerifies(data: Claims, expiresDelta: Option<int>, tokenType: string, defaultMinutes: int, issuedAt: int, now: int, rule: ExpiryRule)
    requires "sub" in data
    requires now < issuedAt + Lifetime(expiresDelta, defaultMinutes)
    ensures var t := CreateToken(data, expiresDelta, tokenType, defaultMinutes, issuedAt);
      var r := VerifyToken(t, tokenType, now, rule);
      r.Success? && r.value["sub"] == data["sub"] && r.value["type"] == Text(tokenType)
  {
    var t := CreateToken(data, expiresDelta, tokenType, defaultMinutes, issuedAt);
    RoundTrip(t.claims, SECRET_KEY, ALGORITHM, issuedAt + Lifetime(expiresDelta, defaultMinutes), now, rule);
  }

  /** Once its expiry has passed an issued token fails with `TokenExpired`,
      whichever type it is presented as: expiry is decided by the decoder,
      before the type is looked at. */
  lemma ExpiredBeatsWrongType(data: Claims, expiresDelta: Option<int>, tokenType: string, defaultMinutes: int, issuedAt: int, expectedType: string, now: int, rule: ExpiryRule)
    requires HasExpired(issuedAt + Lifetime(expiresDelta, defaultMinutes), now, rule)
    ensures VerifyToken(CreateToken(data, expiresDelta, tokenType, defaultMinutes, issuedAt), expectedType, now, rule) == Failure(TokenExpired)
  {
    var t := CreateToken(data, expiresDelta, tokenType, defaultMinutes, issuedAt);
    RoundTrip(t.claims, SECRET_KEY, ALGORITHM, issuedAt + Lifetime(expiresDelta, defaultMinutes), now, rule);
  }

  /** Type separation: an unexpired access token is refused by refresh
      verification, and an unexpired refresh token by access verification,
      both with `InvalidToken`. */
  lemma TokenTypesNotInterchangeable(data: Claims, expiresDelta: Option<int>, issuedAt: int, now: int, rule: ExpiryRule)
    requires "sub" in data
    ensures var a := CreateAccessToken(data, issuedAt, expiresDelta);
      !HasExpired(ExpiryOf(a), now, rule) ==>
        VerifyRefreshToken(a, now, rule) == Failure(InvalidToken("Invalid token type: expected refresh"))
    ensures var t := CreateRefreshToken(data, issuedAt, expiresDelta);
      !HasExpired(ExpiryOf(t), now, rule) ==>
        VerifyAccessToken(t, now, rule) == Failure(InvalidToken("Invalid token type: expected access"))
  {
    assert ACCESS[0] != REFRESH[0];
    var a := CreateAccessToken(data, issuedAt, expiresDelta);
    RoundTrip(a.claims, SECRET_KEY, ALGORITHM, ExpiryOf(a), now, rule);
    assert "sub" in a.claims;
    assert "Invalid token type: expected " + REFRESH == "Invalid token type: expected refresh";
    var t := CreateRefreshToken(data, issuedAt, expiresDelta);
    RoundTrip(t.claims, SECRET_KEY, ALGORITHM, ExpiryOf(t), now, rule);
    assert "sub" in t.claims;
    assert "Invalid token type: expected " + ACCESS == "Invalid token type: expected access";
  }

  /** Neither kind of token ever passes the other kind's verification. */
  lemma TokenTypesNeverCross(data: Claims, expiresDelta: Option<int>, issuedAt: int, now: int, rule: ExpiryRule)
    ensures VerifyRefreshToken(CreateAccessToken(data, issuedAt, expiresDelta), now, rule).Failure?
    ensures VerifyAccessToken(CreateRefreshToken(data, issuedAt, expiresDelta), now, rule).Failure?
  {
  }

  /** A decodable token without a `sub` claim fails with `InvalidToken`,
      whatever its type. */
  lemma MissingSubjectRejected(claims: Claims, expectedType: string, now: int, rule: ExpiryRule)
    requires "sub" !in claims
    requires Decode(Encode(claims, SECRET_KEY, ALGORITHM), SECRET_KEY, [ALGORITHM], now, rule).Payload?
    ensures VerifyToken(Encode(claims, SECRET_KEY, ALGORITHM), expectedType, now, rule) == Failure(InvalidToken("Token missing 'sub' claim"))
  {
  }

  /** A token signed with another key, or one that does not parse, fails
      with `InvalidToken`, even when its expiry has passed. */
  lemma ForgedOrMalformedRejected(claims: Claims, key: string, text: string, expectedType: string, now: int, rule: ExpiryRule)
    requires key != SECRET_KEY
    ensures VerifyToken(Encode(claims, key, ALGORITHM), expectedType, now, rule) == Failure(InvalidToken(""))
    ensures VerifyToken(Unparsable(text), expectedType, now, rule) == Failure(InvalidToken(""))
  {
    OtherKeyRejected(claims, SECRET_KEY, key, ALGORITHM, now, rule);
  }
}
