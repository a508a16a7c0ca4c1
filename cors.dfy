/**
 * `CorsMiddleware`: adds the CORS response headers to the handler's response for a
 * request that carries an `Origin` header; the origin itself is echoed only when it is
 * in the allowed list.
 */
module Cors {
  import opened Wrappers
  import opened PhpStrings
  import opened PhpNumeric
  import opened HttpMessages

  const AllowOrigin: string := "Access-Control-Allow-Origin"
  const AllowHeaders: string := "Access-Control-Allow-Headers"
  const AllowMethods: string := "Access-Control-Allow-Methods"
  const AllowedRequestHeaders: string := "Origin, Content-type, Authorization"

  /** The names of the headers this middleware may set, lower-cased. */
  const CorsNames: set<string> := {Lower(AllowOrigin), Lower("Vary"), Lower(AllowHeaders), Lower(AllowMethods)}

  datatype CorsMiddleware = CorsMiddleware(allowedOrigins: seq<string>)
  {
    /** The origin is allowed: `in_array($origin, $allowed_origins)`, a loose comparison. */
    predicate Allowed(origin: string) {
      LooselyIn(origin, allowedOrigins)
    }

    /** What `process` does to the handler's response. */
    function Decorate(request: Request, response: Response): (r: Response)
      ensures r.status == response.status && r.body == response.body
      ensures !HasHeader(request.headers, "Origin") ==> r == response
      ensures HasHeader(request.headers, "Origin") ==>
        var origin := HeaderLine(request.headers, "Origin");
        HeaderLine(r.headers, AllowHeaders) == AllowedRequestHeaders &&
        (Allowed(origin) ==> HeaderLine(r.headers, AllowOrigin) == origin && HeaderLine(r.headers, "Vary") == "Origin") &&
        (!Allowed(origin) ==>
           HasHeader(r.headers, AllowOrigin) == HasHeader(response.headers, AllowOrigin) &&
           HeaderLine(r.headers, AllowOrigin) == HeaderLine(response.headers, AllowOrigin) &&
           HeaderLine(r.headers, "Vary") == HeaderLine(response.headers, "Vary")) &&
        (request.httpMethod == "OPTIONS" ==> HeaderLine(r.headers, AllowMethods) == HeaderLine(response.headers, "Allow")) &&
        (request.httpMethod != "OPTIONS" ==>
           HasHeader(r.headers, AllowMethods) == HasHeader(response.headers, AllowMethods) &&
           HeaderLine(r.headers, AllowMethods) == HeaderLine(response.headers, AllowMethods))
      ensures forall name | Lower(name) !in CorsNames ::
        HasHeader(r.headers, name) == HasHeader(response.headers, name) &&
        HeaderLine(r.headers, name) == HeaderLine(response.headers, name)
    {
      CorsNamesDistinct();
      if !HasHeader(request.headers, "Origin") then response
      else
        var origin := HeaderLine(request.headers, "Origin");
        var echoed := if Allowed(origin) then response.WithHeader(AllowOrigin, origin).WithHeader("Vary", "Origin") else response;
        var described := echoed.WithHeader(AllowHeaders, AllowedRequestHeaders);
        if request.httpMethod == "OPTIONS" then described.WithHeader(AllowMethods, HeaderLine(described.headers, "Allow"))
        else described
    }

    /** `process($request, $handler)`: the handler first, always; then the headers. */
    function Process(request: Request, handler: Handler): (r: Outcome)
      ensures handler(request).Failure? ==> r == handler(request)
      ensures handler(request).Success? ==> r == Success(Decorate(request, handler(request).value))
    {
      match handler(request)
      case Failure(x) => Failure(x)
      case Success(response) => Success(Decorate(request, response))
    }
  }

  /** An origin listed exactly as sent is allowed. */
  lemma ListedOriginIsAllowed(m: CorsMiddleware, i: nat)
    requires i < |m.allowedOrigins|
    ensures m.Allowed(m.allowedOrigins[i])
  {
    var o := m.allowedOrigins[i];
    if ParseNumeric(o).Some? {
      var d := ParseNumeric(o).value;
      assert Scaled(d, d.scale) == Scaled(d, d.scale);
    }
    assert LooseEquals(o, m.allowedOrigins[i]);
  }

  /**
   * The header names the middleware sets and reads are different names whatever their
   * case: all differ in length except the two 28-character ones, which differ at index 21.
   */
  lemma CorsNamesDistinct()
    ensures |AllowOrigin| == 27 && |AllowHeaders| == 28 && |AllowMethods| == 28
    ensures Lower(AllowHeaders) != Lower(AllowMethods)
  {
    assert AllowHeaders[21] == 'H' && AllowMethods[21] == 'M';
    assert Lower(AllowHeaders)[21] != Lower(AllowMethods)[21];
  }
}
