/**
 * `JwtValidatorMiddleware`: finds a JWT in a request header, decodes it with the signing
 * library and attaches the token to the request. A request without a recognisable token
 * passes through; a token the library rejects as undecodable, or whose signer it cannot
 * find, ends the request with 401 Unauthorized.
 */
module JwtValidator {
  import opened Wrappers
  import opened PhpStrings
  import opened PhpValues
  import opened HttpMessages
  import opened JwtTokens

  // ---------------------------------------------------------------- the token pattern

  /** The segment alphabet `[0-9a-zA-Z_+=\-/]`; caseless matching leaves it unchanged. */
  predicate SegmentChar(c: char) {
    '0' <= c <= '9' || 'a' <= c <= 'z' || 'A' <= c <= 'Z' || c == '_' || c == '+' || c == '=' || c == '-' || c == '/'
  }

  predicate AllSegmentChars(s: string) {
    forall i | 0 <= i < |s| :: SegmentChar(s[i])
  }

  /** One `[0-9a-zA-Z_+=\-/]+`. */
  predicate Segment(s: string) {
    |s| > 0 && AllSegmentChars(s)
  }

  /**
   * The group `(seg\.seg\.seg)` matched against all of `s`, left to right: `dots` is the
   * number of dots read so far and `open` says whether the current segment has a
   * character yet.
   */
  function Scan(s: string, dots: nat, open: bool): bool
    decreases |s|
  {
    if s == [] then dots == 2 && open
    else if SegmentChar(s[0]) then Scan(s[1..], dots, true)
    else if s[0] == '.' && open && dots < 2 then Scan(s[1..], dots + 1, false)
    else false
  }

  /** The text is a token as the pattern's group accepts it. */
  predicate TokenText(s: string) {
    Scan(s, 0, false)
  }

  /** The shape of a JWS compact serialisation: three non-empty segments between two dots. */
  predicate ThreeSegments(s: string) {
    var parts := Split(s, '.');
    |parts| == 3 && Segment(parts[0]) && Segment(parts[1]) && Segment(parts[2])
  }

  /** The scanner's state read off the pieces between the dots still to come. */
  lemma {:induction false} ScanSplit(s: string, dots: nat, open: bool)
    ensures Scan(s, dots, open) <==>
      var parts := Split(s, '.');
      |parts| + dots == 3 && (open || |parts[0]| > 0) && AllSegmentChars(parts[0]) &&
      forall i | 1 <= i < |parts| :: Segment(parts[i])
    decreases |s|
  {
    if s != [] {
      var rest := Split(s[1..], '.');
      var parts := Split(s, '.');
      if s[0] == '.' {
        ScanSplit(s[1..], dots + 1, false);
        assert parts == [""] + rest;
        assert (forall i | 1 <= i < |parts| :: Segment(parts[i])) <==>
               Segment(rest[0]) && forall i | 1 <= i < |rest| :: Segment(rest[i]) by {
          assert forall i | 1 <= i < |parts| :: parts[i] == rest[i - 1];
          assert forall i | 0 <= i < |rest| :: rest[i] == parts[i + 1];
        }
      } else {
        ScanSplit(s[1..], dots, true);
        assert parts == [[s[0]] + rest[0]] + rest[1..];
        assert parts[0][0] == s[0];
        assert forall i | 1 <= i < |parts| :: parts[i] == rest[i];
        if SegmentChar(s[0]) {
          assert parts[0][1..] == rest[0];
          assert forall i | 1 <= i < |parts[0]| :: parts[0][i] == rest[0][i - 1];
        }
      }
    }
  }

  /** The pattern's group accepts exactly three non-empty segments joined by two dots. */
  lemma TokenTextIsThreeSegments(s: string)
    ensures TokenText(s) <==> ThreeSegments(s)
  {
    ScanSplit(s, 0, false);
  }

  /** Everything the scanner accepts is dots and segment characters. */
  lemma {:induction false} ScanChars(s: string, dots: nat, open: bool)
    requires Scan(s, dots, open)
    ensures forall i | 0 <= i < |s| :: s[i] == '.' || SegmentChar(s[i])
    decreases |s|
  {
    if s != [] {
      if SegmentChar(s[0]) {
        ScanChars(s[1..], dots, true);
      } else {
        ScanChars(s[1..], dots + 1, false);
      }
      assert forall i | 1 <= i < |s| :: s[i] == s[1..][i - 1];
    }
  }

  /** A token never holds a newline, so `$` can only match at the end or before a final newline. */
  lemma TokenTextHasNoNewline(s: string)
    requires TokenText(s)
    ensures '\n' !in s
  {
    ScanChars(s, 0, false);
  }

  // ---------------------------------------------------------------- getJwt

  /**
   * The prefix the pattern puts before the token: the scheme and a space when the scheme
   * is truthy in PHP (not null, "" or "0"), nothing otherwise.
   */
  function SchemePrefix(scheme: Option<string>): string {
    match scheme
    case Some(s) => if s == "" || s == "0" then "" else s + " "
    case None => ""
  }

  /** What `$` lets the match end on: the text without one final newline. */
  function BeforeFinalNewline(contents: string): (r: string)
    ensures contents == r || contents == r + "\n"
  {
    if |contents| > 0 && contents[|contents| - 1] == '\n' then contents[..|contents| - 1] else contents
  }

  /**
   * `getJwt($contents, $scheme)`: the token after the caselessly matched scheme prefix,
   * when the rest of the header (bar a final newline) is a token.
   */
  function GetJwt(contents: string, scheme: Option<string>): (r: Option<string>)
    ensures r.Some? ==> ThreeSegments(r.value)
    ensures r.Some? ==> var prefix := SchemePrefix(scheme);
      exists p | |p| == |prefix| && Lower(p) == Lower(prefix) ::
        contents == p + r.value || contents == p + r.value + "\n"
  {
    var line := BeforeFinalNewline(contents);
    var prefix := SchemePrefix(scheme);
    if |prefix| <= |line| && Lower(line[..|prefix|]) == Lower(prefix) && TokenText(line[|prefix|..]) then
      TokenTextIsThreeSegments(line[|prefix|..]);
      assert line == line[..|prefix|] + line[|prefix|..];
      Some(line[|prefix|..])
    else None
  }

  /** A token after the scheme, written in any case, is found. */
  lemma GetJwtWithScheme(scheme: string, written: string, token: string)
    requires scheme != "" && scheme != "0"
    requires |written| == |scheme| && Lower(written) == Lower(scheme)
    requires ThreeSegments(token)
    ensures GetJwt(written + " " + token, Some(scheme)) == Some(token)
    ensures GetJwt(written + " " + token + "\n", Some(scheme)) == Some(token)
  {
    TokenTextIsThreeSegments(token);
    TokenTextHasNoNewline(token);
    var contents := written + " " + token;
    assert |token| > 0 && token[|token| - 1] in token;
    assert contents[|contents| - 1] == token[|token| - 1];
    assert BeforeFinalNewline(contents) == contents;
    assert (contents + "\n")[..|contents|] == contents;
    assert contents[..|scheme| + 1] == written + " " && contents[|scheme| + 1..] == token;
    assert Lower(written + " ") == Lower(written) + " ";
    assert Lower(scheme + " ") == Lower(scheme) + " ";
  }

  /** With a scheme, a header not starting with it (up to case) and a space yields nothing. */
  lemma GetJwtNeedsScheme(contents: string, scheme: string)
    requires scheme != "" && scheme != "0"
    requires !(|scheme| + 1 <= |contents| && Lower(contents[..|scheme| + 1]) == Lower(scheme + " "))
    ensures GetJwt(contents, Some(scheme)) == None
  {
    var line := BeforeFinalNewline(contents);
    if |scheme| + 1 <= |line| {
      assert line[..|scheme| + 1] == contents[..|scheme| + 1];
    }
  }

  /** Without a scheme (null, "" or "0") the whole header line is the token or nothing. */
  lemma GetJwtWithoutScheme(contents: string, scheme: Option<string>)
    requires SchemePrefix(scheme) == ""
    requires contents == [] || contents[|contents| - 1] != '\n'
    ensures GetJwt(contents, scheme) == if ThreeSegments(contents) then Some(contents) else None
  {
    TokenTextIsThreeSegments(contents);
    assert contents[..0] == [] && contents[0..] == contents;
  }

  /** A final newline is tolerated, and only one. */
  lemma GetJwtFinalNewline(contents: string, scheme: Option<string>)
    requires contents == [] || contents[|contents| - 1] != '\n'
    ensures GetJwt(contents + "\n", scheme) == GetJwt(contents, scheme)
    ensures GetJwt(contents + "\n\n", scheme) == None
  {
    var c1 := contents + "\n";
    assert c1[..|contents|] == contents;
    var c2 := contents + "\n\n";
    assert c2[..|c1|] == c1;
    var prefix := SchemePrefix(scheme);
    if |prefix| <= |c1| && TokenText(c1[|prefix|..]) {
      assert c1[|prefix|..][|c1| - |prefix| - 1] == '\n';
      TokenTextHasNoNewline(c1[|prefix|..]);
      assert false;
    }
  }

  // ---------------------------------------------------------------- process

  const DefaultHeader: string := "Authorization"
  const DefaultScheme: Option<string> := Some("Bearer")
  const InvalidToken: string := "Your token is not valid."

  /** `Proof::decode` failures that become 401 Unauthorized. */
  predicate Rejection(e: DecodeError) {
    e.TokenDecodingFailed? || e.SignerNotFound?
  }

  datatype JwtValidatorMiddleware = JwtValidatorMiddleware(proof: Proof, header: string, scheme: Option<string>)
  {
    /** The token this middleware reads off the request, if any. */
    function Jwt(request: Request): Option<string> {
      GetJwt(HeaderLine(request.headers, header), scheme)
    }

    /**
     * `process($request, $handler)`; `at` is where the 401 exception is created, also
     * standing for where the library threw.
     */
    function Process(request: Request, handler: Handler, at: Origin): (r: Outcome)
      ensures Jwt(request).None? ==> r == handler(request)
      ensures Jwt(request).Some? && proof.decode(Jwt(request).value).Success? ==>
        r == handler(request.WithAttribute(TokenClass, TokenAttribute(proof.decode(Jwt(request).value).value)))
      ensures Jwt(request).Some? && proof.decode(Jwt(request).value).Failure? ==>
        var e := proof.decode(Jwt(request).value).error;
        r == Failure(if Rejection(e)
                     then Unauthorized("Bearer", InvalidToken, Some(DecodeException(e, at)), at)
                     else DecodeException(e, at))
    {
      match Jwt(request)
      case None => handler(request)
      case Some(jwt) =>
        match proof.decode(jwt)
        case Success(token) => handler(request.WithAttribute(TokenClass, TokenAttribute(token)))
        case Failure(e) =>
          if Rejection(e) then Failure(Unauthorized("Bearer", InvalidToken, Some(DecodeException(e, at)), at))
          else Failure(DecodeException(e, at))
    }
  }

  /** The constructor's defaults: the `Authorization` header with the `Bearer` scheme. */
  function Default(proof: Proof): JwtValidatorMiddleware {
    JwtValidatorMiddleware(proof, DefaultHeader, DefaultScheme)
  }

  /**
   * Without a recognisable token the library is never asked: the outcome is the
   * handler's for the unchanged request, whatever `decode` would do.
   */
  lemma NoTokenPassesThrough(m: JwtValidatorMiddleware, other: Proof, request: Request, handler: Handler, at: Origin)
    requires m.Jwt(request).None?
    ensures m.Process(request, handler, at) == handler(request)
    ensures m.(proof := other).Process(request, handler, at) == m.Process(request, handler, at)
  {
  }

  /**
   * A rejected token ends the request with 401 "Bearer" before the handler: the outcome
   * is the same whatever the handler would do.
   */
  lemma RejectedTokenIsUnauthorized(m: JwtValidatorMiddleware, request: Request, handler: Handler, other: Handler, at: Origin)
    requires m.Jwt(request).Some? && m.proof.decode(m.Jwt(request).value).Failure?
    requires Rejection(m.proof.decode(m.Jwt(request).value).error)
    ensures m.Process(request, handler, at) == m.Process(request, other, at)
    ensures var r := m.Process(request, handler, at);
      r.Failure? && r.error.kind == Http(401, [("WWW-Authenticate", "Bearer")]) &&
      r.error.message == InvalidToken && r.error.previous.Some?
  {
  }

  /**
   * With the defaults, `Authorization: Bearer <jwt>` (the scheme in any case) hands the
   * handler the request carrying the decoded token.
   */
  lemma BearerTokenIsAttached(proof: Proof, written: string, jwt: string, request: Request, handler: Handler,
                              at: Origin, token: Token)
    requires |written| == 6 && Lower(written) == Lower("Bearer")
    requires ThreeSegments(jwt) && proof.decode(jwt) == Success(token)
    requires HeaderLine(request.headers, DefaultHeader) == written + " " + jwt
    ensures Default(proof).Process(request, handler, at)
         == handler(request.WithAttribute(TokenClass, TokenAttribute(token)))
  {
    GetJwtWithScheme("Bearer", written, jwt);
  }

  /** A token the generator created and a round-tripping library decoded reaches the handler. */
  lemma GeneratedTokenIsAttached(g: JwtGenerator, subject: string, ttl: int, claims: map<string, Value>,
                                 jti: string, now: int, request: Request, handler: Handler, at: Origin)
    requires FitsInt(now + ttl) && RoundTrips(g.proof)
    requires ThreeSegments(g.CreateJwt(subject, ttl, claims, jti, now))
    requires HeaderLine(request.headers, DefaultHeader) == "Bearer " + g.CreateJwt(subject, ttl, claims, jti, now)
    ensures Default(g.proof).Process(request, handler, at)
         == handler(request.WithAttribute(TokenClass, TokenAttribute(g.CreateToken(subject, ttl, claims, jti, now))))
  {
    GeneratorJwtRoundTrip(g, subject, ttl, claims, jti, now);
    BearerTokenIsAttached(g.proof, "Bearer", g.CreateJwt(subject, ttl, claims, jti, now), request, handler, at,
                          g.CreateToken(subject, ttl, claims, jti, now));
  }
}
