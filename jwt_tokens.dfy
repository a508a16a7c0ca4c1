/**
 * JWT creation and decoding: `JwtGenerator` (the service the container provides) and
 * `JwtService`, which build the registered claims `jti`, `iss`, `sub` and `exp`
 * (section 4.1 of RFC 7519) around the caller's claims and hand the token to the
 * signing library.
 *
 * The signing library's `encode` and `decode` are not part of this model: they are the
 * two functions of a `Proof` value. The UUID, the current time and the TTL are inputs.
 */
module JwtTokens {
  import opened Wrappers
  import opened PhpStrings
  import opened PhpValues

  /** A `Nimbly\Proof\Token`: its claims by name. */
  datatype Token = Token(claims: map<string, Value>)

  /** What `Proof::decode` throws for a JWT it rejects. */
  datatype DecodeError =
    | TokenDecodingFailed(message: string)
    | SignerNotFound(message: string)
    | OtherDecodeFailure(message: string)

  /** The signing library: turns a token into a signed JWT and a JWT back into a token. */
  datatype Proof = Proof(encode: Token -> string, decode: string -> Result<Token, DecodeError>)

  /** A library whose `decode` accepts every JWT its `encode` produced and gives the token back. */
  ghost predicate RoundTrips(p: Proof) {
    forall t: Token :: p.decode(p.encode(t)) == Success(t)
  }

  /** An epoch-seconds instant that PHP's `(int)` holds. */
  predicate FitsInt(n: int) {
    IntMin <= n <= IntMax
  }

  /** The claims `jti`, `iss` and `sub` both services generate. */
  function Identity(jti: string, issuer: string, subject: string): map<string, Value> {
    map["jti" := Str(jti), "iss" := Str(issuer), "sub" := Str(subject)]
  }

  /** The registered claim names every created token carries. */
  const RegisteredNames: set<string> := {"jti", "iss", "sub", "exp"}

  /**
   * `JwtGenerator`: the caller's claims are spread before `exp`, so they may replace
   * `jti`, `iss` and `sub` but never the expiry.
   */
  datatype JwtGenerator = JwtGenerator(proof: Proof, issuer: string) {

    /** `createToken($subject, $ttl, $claims)` at time `now`, with `jti` the fresh UUID. */
    function CreateToken(subject: string, ttl: int, claims: map<string, Value>, jti: string, now: int): (t: Token)
      requires FitsInt(now + ttl)
      ensures t.claims.Keys == RegisteredNames + claims.Keys
      ensures t.claims["exp"] == Int(now + ttl)
      ensures forall k | k in claims && k != "exp" :: t.claims[k] == claims[k]
      ensures "jti" !in claims ==> t.claims["jti"] == Str(jti)
      ensures "iss" !in claims ==> t.claims["iss"] == Str(issuer)
      ensures "sub" !in claims ==> t.claims["sub"] == Str(subject)
    {
      Token(Identity(jti, issuer, subject) + claims + map["exp" := Int(now + ttl)])
    }

    /** `createJwt`: the signed form of the token `createToken` builds. */
    function CreateJwt(subject: string, ttl: int, claims: map<string, Value>, jti: string, now: int): string
      requires FitsInt(now + ttl)
    {
      proof.encode(CreateToken(subject, ttl, claims, jti, now))
    }

    /** `decodeJwtToToken`: whatever the library's `decode` gives for the JWT. */
    function DecodeJwtToToken(jwt: string): Result<Token, DecodeError> {
      proof.decode(jwt)
    }
  }

  /**
   * `JwtService`: the caller's claims are spread last, so they replace any generated
   * claim, the expiry included.
   */
  datatype JwtService = JwtService(proof: Proof, issuer: string) {

    function CreateToken(subject: string, ttl: int, claims: map<string, Value>, jti: string, now: int): (t: Token)
      requires FitsInt(now + ttl)
      ensures t.claims.Keys == RegisteredNames + claims.Keys
      ensures forall k | k in claims :: t.claims[k] == claims[k]
      ensures "jti" !in claims ==> t.claims["jti"] == Str(jti)
      ensures "iss" !in claims ==> t.claims["iss"] == Str(issuer)
      ensures "sub" !in claims ==> t.claims["sub"] == Str(subject)
      ensures "exp" !in claims ==> t.claims["exp"] == Int(now + ttl)
    {
      Token(Identity(jti, issuer, subject) + map["exp" := Int(now + ttl)] + claims)
    }

    function CreateJwt(subject: string, ttl: int, claims: map<string, Value>, jti: string, now: int): string
      requires FitsInt(now + ttl)
    {
      proof.encode(CreateToken(subject, ttl, claims, jti, now))
    }

    function DecodeJwtToToken(jwt: string): Result<Token, DecodeError> {
      proof.decode(jwt)
    }
  }

  // ---------------------------------------------------------------- properties

  /**
   * The two services differ only in who wins `exp`: the generator's token is the
   * service's token for the caller's claims without `exp`, and the two tokens are equal
   * exactly when the caller passes no `exp` or passes the one that would be generated.
   */
  lemma GeneratorIsServiceWithoutCallerExpiry(issuer: string, p: Proof, q: Proof, subject: string, ttl: int,
                                              claims: map<string, Value>, jti: string, now: int)
    requires FitsInt(now + ttl)
    ensures JwtGenerator(p, issuer).CreateToken(subject, ttl, claims, jti, now)
         == JwtService(q, issuer).CreateToken(subject, ttl, claims - {"exp"}, jti, now)
    ensures JwtGenerator(p, issuer).CreateToken(subject, ttl, claims, jti, now)
         == JwtService(q, issuer).CreateToken(subject, ttl, claims, jti, now)
        <==> "exp" !in claims || claims["exp"] == Int(now + ttl)
  {
    var generated := JwtGenerator(p, issuer).CreateToken(subject, ttl, claims, jti, now);
    var stripped := JwtService(q, issuer).CreateToken(subject, ttl, claims - {"exp"}, jti, now);
    var served := JwtService(q, issuer).CreateToken(subject, ttl, claims, jti, now);
    assert generated.claims == stripped.claims;
    if "exp" !in claims || claims["exp"] == Int(now + ttl) {
      assert generated.claims == served.claims;
    } else {
      assert generated.claims["exp"] != served.claims["exp"];
    }
  }

  /**
   * With a library whose `decode` inverts `encode`, decoding a JWT the generator created
   * gives back exactly the token `createToken` built.
   */
  lemma GeneratorJwtRoundTrip(g: JwtGenerator, subject: string, ttl: int, claims: map<string, Value>, jti: string, now: int)
    requires FitsInt(now + ttl) && RoundTrips(g.proof)
    ensures g.DecodeJwtToToken(g.CreateJwt(subject, ttl, claims, jti, now))
         == Success(g.CreateToken(subject, ttl, claims, jti, now))
  {
    var t := g.CreateToken(subject, ttl, claims, jti, now);
    assert g.proof.decode(g.proof.encode(t)) == Success(t);
  }

  lemma ServiceJwtRoundTrip(s: JwtService, subject: string, ttl: int, claims: map<string, Value>, jti: string, now: int)
    requires FitsInt(now + ttl) && RoundTrips(s.proof)
    ensures s.DecodeJwtToToken(s.CreateJwt(subject, ttl, claims, jti, now))
         == Success(s.CreateToken(subject, ttl, claims, jti, now))
  {
    var t := s.CreateToken(subject, ttl, claims, jti, now);
    assert s.proof.decode(s.proof.encode(t)) == Success(t);
  }
}
