/** The JSON Web Token library the codec calls (`jwt.encode` and
    `jwt.decode`), modelled symbolically. A token is either the signed
    encoding of a claims object under a key and an algorithm, or text that
    does not parse as a token at all. Holding a `Signed` value stands for
    holding the compact string; the key inside it stands for the HMAC
    signature, so a verifier recognises it only by comparing keys. */
module Jwt {

  /** A JSON value inside the payload, as far as the service looks at it. */
  datatype Claim = Text(s: string) | Number(n: int) | Null

  type Claims = map<string, Claim>

  /** Python truthiness of a payload value, as in `if not username`. */
  predicate Truthy(c: Claim) {
    match c
    case Text(s) => s != ""
    case Number(n) => n != 0
    case Null => false
  }

  /** `payload.get(name)`: the claim, or `None` (falsy) when absent. */
  predicate TruthyClaim(claims: Claims, name: string) {
    name in claims && Truthy(claims[name])
  }

  datatype Token =
    | Signed(algorithm: string, claims: Claims, key: string)
    | Unparsable(text: string)

  /** Whether a token whose `exp` equals the current instant has already
      expired: the comparison happens inside the library and is not fixed by
      the service, so both readings are kept. */
  datatype ExpiryRule = ExpiredAtExp | ExpiredAfterExp

  /** What `jwt.decode` produces: the payload, `ExpiredSignatureError`, or
      any other `PyJWTError` (bad signature, unknown algorithm, malformed
      token or a non-numeric `exp`). */
  datatype Decoded = Payload(claims: Claims) | Expired | Rejected

  predicate HasExpired(exp: int, now: int, rule: ExpiryRule) {
    match rule
    case ExpiredAtExp => now >= exp
    case ExpiredAfterExp => now > exp
  }

  /** `jwt.encode`: the token carries the claims unchanged, and only a
      verifier holding the same key and accepting the algorithm gets them
      back; while `exp` is absent or not yet reached it gets them at once. */
  function Encode(claims: Claims, key: string, algorithm: string): (t: Token)
    ensures t.Signed? && t.claims == claims
    ensures forall verifierKey, now, rule ::
      Decode(t, verifierKey, [algorithm], now, rule).Payload? ==> verifierKey == key
    ensures forall now, rule ::
      ("exp" !in claims || (claims["exp"].Number? && !HasExpired(claims["exp"].n, now, rule))) ==>
        Decode(t, key, [algorithm], now, rule) == Payload(claims)
  {
    Signed(algorithm, claims, key)
  }

  /** The signature and algorithm are checked first; only a token that
      passes them has its `exp` claim examined. */
  function Decode(t: Token, key: string, algorithms: seq<string>, now: int, rule: ExpiryRule): (d: Decoded)
    ensures d.Payload? ==> t.Signed? && t.key == key && t.algorithm in algorithms && d.claims == t.claims
    ensures (t.Unparsable? || t.key != key || t.algorithm !in algorithms) ==> d.Rejected?
  {
    match t
    case Unparsable(_) => Rejected
    case Signed(algorithm, claims, signer) =>
      if signer != key || algorithm !in algorithms then Rejected
      else if "exp" in claims && !claims["exp"].Number? then Rejected
      else if "exp" in claims && HasExpired(claims["exp"].n, now, rule) then Expired
      else Payload(claims)
  }

  /** Decoding a token with the key and algorithm it was encoded with gives
      back its claims exactly when its expiry has not passed, and reports it
      expired otherwise. */
  lemma RoundTrip(claims: Claims, key: string, algorithm: string, exp: int, now: int, rule: ExpiryRule)
    requires "exp" in claims && claims["exp"] == Number(exp)
    ensures !HasExpired(exp, now, rule) ==> Decode(Encode(claims, key, algorithm), key, [algorithm], now, rule) == Payload(claims)
    ensures HasExpired(exp, now, rule) ==> Decode(Encode(claims, key, algorithm), key, [algorithm], now, rule) == Expired
  {
  }

  /** A token signed under another key is rejected, never reported expired,
      at every instant. */
  lemma OtherKeyRejected(claims: Claims, key: string, other: string, algorithm: string, now: int, rule: ExpiryRule)
    requires other != key
    ensures Decode(Encode(claims, other, algorithm), key, [algorithm], now, rule) == Rejected
  {
  }
}
