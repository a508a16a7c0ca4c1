/**
 * PSR-7 server requests and responses as immutable values, and the exceptions the HTTP
 * layer throws and catches: Limber's HTTP exceptions, the OpenAPI validator's exceptions,
 * the JWT library's decoding exceptions and any other class by name.
 *
 * A middleware's next handler and the JSON codec are foreign code: they are values of
 * arrow type that the middlewares receive as arguments.
 */
module HttpMessages {
  import opened Wrappers
  import opened PhpStrings
  import opened PhpValues
  import JwtTokens

  // ---------------------------------------------------------------- headers

  /** Header values by lower-cased name: PSR-7 header names are case-insensitive. */
  type Headers = map<string, seq<string>>

  /** `hasHeader($name)`. */
  predicate HasHeader(h: Headers, name: string) {
    Lower(name) in h
  }

  /** `getHeaderLine($name)`: the values joined by ", ", or "" when the header is absent. */
  function HeaderLine(h: Headers, name: string): string {
    if Lower(name) in h then Join(", ", h[Lower(name)]) else ""
  }

  /** `withHeader($name, $value)`: the name's values are replaced by the one value. */
  function SetHeader(h: Headers, name: string, value: string): (r: Headers)
    ensures HasHeader(r, name) && HeaderLine(r, name) == value
    ensures forall other | Lower(other) != Lower(name) ::
              HasHeader(r, other) == HasHeader(h, other) && HeaderLine(r, other) == HeaderLine(h, other)
  {
    h[Lower(name) := [value]]
  }

  /**
   * The header array a response constructor receives (`["Name" => "value", ...]`): its
   * entries are set one after the other, so a later name replaces an earlier one that
   * differs only in case.
   */
  function FromArray(entries: seq<(string, string)>): Headers
    decreases |entries|
  {
    if entries == [] then map[]
    else
      var last := entries[|entries| - 1];
      SetHeader(FromArray(entries[..|entries| - 1]), last.0, last.1)
  }

  /** The value of the last entry whose name equals `name` up to case. */
  function LastValue(entries: seq<(string, string)>, name: string): Option<string>
    decreases |entries|
  {
    if entries == [] then None
    else if Lower(entries[|entries| - 1].0) == Lower(name) then Some(entries[|entries| - 1].1)
    else LastValue(entries[..|entries| - 1], name)
  }

  /** A header set from an array reads as the array's last entry of that name. */
  lemma {:induction false} FromArrayReads(entries: seq<(string, string)>, name: string)
    ensures HasHeader(FromArray(entries), name) <==> LastValue(entries, name).Some?
    ensures HeaderLine(FromArray(entries), name) == LastValue(entries, name).GetOr("")
    decreases |entries|
  {
    if entries != [] {
      FromArrayReads(entries[..|entries| - 1], name);
    }
  }

  // ---------------------------------------------------------------- requests and responses

  /** A Limber route as the router attaches it to the request. */
  datatype Route = Route(methods: seq<string>)

  /** The request attributes the core reads or writes. */
  datatype Attribute = TokenAttribute(token: JwtTokens.Token) | RouteAttribute(route: Route)

  /** The attribute names: the class names `Token::class` and `Route::class`. */
  const TokenClass: string := "Nimbly\\Proof\\Token"
  const RouteClass: string := "Nimbly\\Limber\\Router\\Route"

  /** A server request; `parsedBody` is PHP null until a middleware parses the body. */
  datatype Request = Request(httpMethod: string, uri: string, headers: Headers, body: string,
                             parsedBody: Value, attributes: map<string, Attribute>)
  {
    function WithAttribute(name: string, a: Attribute): Request {
      this.(attributes := attributes[name := a])
    }

    function WithParsedBody(v: Value): Request {
      this.(parsedBody := v)
    }
  }

  datatype Response = Response(status: int, headers: Headers, body: string)
  {
    function WithHeader(name: string, value: string): Response {
      this.(headers := SetHeader(headers, name, value))
    }
  }

  // ---------------------------------------------------------------- exceptions

  /** `getFile()`, `getLine()` and `getTraceAsString()` of an exception. */
  datatype Origin = Origin(file: string, line: Int64, trace: string)

  /**
   * The OpenAPI validator's exception classes the core catches. One exception may be
   * an instance of several (`InvalidSecurity` is a `ValidationFailed`, say), so an
   * exception carries the set of those it is an instance of.
   */
  datatype ValidatorClass =
    | TypeMismatch
    | SchemaMismatch
    | NoOperation
    | NoPath
    | InvalidSecurity
    | ValidationFailed

  datatype Kind =
    /** Any class the core does not inspect, by name. */
    | Thrown(className: string)
    /** A Limber `HttpException`: its HTTP status and its header array. */
    | Http(status: int, httpHeaders: seq<(string, string)>)
    /**
     * A validator exception; `breadcrumb` is `dataBreadCrumb()?->buildChain()` and
     * `data` is `data()`, both meaningful for a `SchemaMismatch`.
     */
    | Validation(classes: set<ValidatorClass>, breadcrumb: Option<seq<string>>, data: Value)

  datatype Exception = Exception(kind: Kind, message: string, code: Value, origin: Origin,
                                 previous: Option<Exception>)
  {
    /** `$e instanceof C` for a validator class. */
    predicate IsA(c: ValidatorClass) {
      kind.Validation? && c in kind.classes
    }
  }

  /** What a middleware produces: a response, or the exception it lets escape. */
  type Outcome = Result<Response, Exception>

  /** `$handler->handle($request)`. */
  type Handler = Request -> Outcome

  /** A Limber HTTP exception with PHP's default code 0. */
  function HttpError(status: int, headers: seq<(string, string)>, message: string,
                     previous: Option<Exception>, at: Origin): Exception
  {
    Exception(Http(status, headers), message, Int(0), at, previous)
  }

  function BadRequest(message: string, previous: Option<Exception>, at: Origin): Exception {
    HttpError(400, [], message, previous, at)
  }

  /** Limber sends the authentication method as the `WWW-Authenticate` header. */
  function Unauthorized(authMethod: string, message: string, previous: Option<Exception>, at: Origin): Exception {
    HttpError(401, [("WWW-Authenticate", authMethod)], message, previous, at)
  }

  function NotFound(message: string, previous: Option<Exception>, at: Origin): Exception {
    HttpError(404, [], message, previous, at)
  }

  /** Limber sends the allowed methods as the `Allow` header. */
  function MethodNotAllowed(methods: seq<string>, message: string, previous: Option<Exception>, at: Origin): Exception {
    HttpError(405, [("Allow", Join(", ", methods))], message, previous, at)
  }

  function NotAcceptable(message: string, at: Origin): Exception {
    HttpError(406, [], message, None, at)
  }

  function InternalServerError(message: string, previous: Option<Exception>, at: Origin): Exception {
    HttpError(500, [], message, previous, at)
  }

  function UnexpectedValue(message: string, at: Origin): Exception {
    Exception(Thrown("UnexpectedValueException"), message, Int(0), at, None)
  }

  /** PHP's `Error`, thrown for a method call on null. */
  function CallOnNull(member: string, at: Origin): Exception {
    Exception(Thrown("Error"), "Call to a member function " + member + "() on null", Int(0), at, None)
  }

  /** The exception `Proof::decode` throws, as an exception value. */
  function DecodeException(e: JwtTokens.DecodeError, at: Origin): Exception {
    var name := match e
      case TokenDecodingFailed(_) => "Nimbly\\Proof\\TokenDecodingException"
      case SignerNotFound(_) => "Nimbly\\Proof\\SignerNotFoundException"
      case OtherDecodeFailure(_) => "Throwable";
    Exception(Thrown(name), e.message, Int(0), at, None)
  }

  // ---------------------------------------------------------------- JSON

  /**
   * `json_encode` (with unescaped slashes and unicode) and `json_decode` (to associative
   * arrays): each gives nothing where PHP reports a JSON error.
   */
  datatype JsonCodec = JsonCodec(encode: Value -> Option<string>, decode: string -> Option<Value>)
}
