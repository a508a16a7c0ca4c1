/**
 * `SchemaValidatorMiddleware`: validates each request, and the response the handler
 * gives for it, against the OpenAPI schema. Request validation failures become 4xx HTTP
 * exceptions; a response that does not match its schema becomes a 500.
 *
 * The two validators are foreign code: the request validator gives the operation address
 * or throws, the response validator returns or throws.
 */
module SchemaValidation {
  import opened Wrappers
  import opened PhpValues
  import opened HttpMessages

  /** The operation (path and method) the request validator matched. */
  datatype OperationAddress = OperationAddress(path: string, httpMethod: string)

  const AuthenticateMessage: string := "Please authenticate to continue"
  const ResponseMismatch: string := "Response does not adhere to OpenAPI schema."

  /** `config("http.schema.enabled") === false`: only the boolean false disables validation. */
  predicate Disabled(enabled: Value) {
    enabled == Bool(false)
  }

  /**
   * The request exception's catch clauses, tried in order: the first class the exception
   * is an instance of decides; an exception none of them catches escapes unchanged.
   */
  function RequestFailure(request: Request, x: Exception, at: Origin): (r: Exception)
    ensures !Caught(x) ==> r == x
  {
    if x.IsA(TypeMismatch) then BadRequest(x.message, Some(x), at)
    else if x.IsA(NoOperation) then
      if RouteClass in request.attributes && request.attributes[RouteClass].RouteAttribute? then
        MethodNotAllowed(request.attributes[RouteClass].route.methods, x.message, Some(x), at)
      else CallOnNull("getMethods", at)
    else if x.IsA(NoPath) then NotFound(x.message, Some(x), at)
    else if x.IsA(InvalidSecurity) then Unauthorized("Bearer", AuthenticateMessage, Some(x), at)
    else if x.IsA(ValidationFailed) then BadRequest(x.message, Some(x), at)
    else x
  }

  datatype SchemaValidatorMiddleware = SchemaValidatorMiddleware(
    validateRequest: Request -> Result<OperationAddress, Exception>,
    validateResponse: (OperationAddress, Response) -> Result<(), Exception>)
  {
    /** `process($request, $handler)`, with `enabled` the configured `http.schema.enabled`. */
    function Process(request: Request, handler: Handler, enabled: Value, at: Origin): (r: Outcome)
      ensures Disabled(enabled) ==> r == handler(request)
      ensures !Disabled(enabled) && validateRequest(request).Failure? ==>
        r == Failure(RequestFailure(request, validateRequest(request).error, at))
      ensures !Disabled(enabled) && validateRequest(request).Success? && handler(request).Failure? ==>
        r == handler(request)
    {
      if Disabled(enabled) then handler(request)
      else match validateRequest(request)
        case Failure(x) => Failure(RequestFailure(request, x, at))
        case Success(address) =>
          match handler(request)
          case Failure(x) => Failure(x)
          case Success(response) =>
            match validateResponse(address, response)
            case Success(_) => Success(response)
            case Failure(x) =>
              if x.IsA(TypeMismatch) then Failure(InternalServerError(ResponseMismatch, Some(x), at))
              else Failure(x)
    }
  }

  // ---------------------------------------------------------------- properties

  /** The HTTP status each caught request failure becomes, in catch order. */
  function RequestStatus(x: Exception): int {
    if x.IsA(TypeMismatch) then 400
    else if x.IsA(NoOperation) then 405
    else if x.IsA(NoPath) then 404
    else if x.IsA(InvalidSecurity) then 401
    else 400
  }

  /** The message the HTTP exception carries: the validator's own, except the fixed text for `InvalidSecurity`. */
  function RequestMessage(x: Exception): string {
    if !x.IsA(TypeMismatch) && !x.IsA(NoOperation) && !x.IsA(NoPath) && x.IsA(InvalidSecurity) then AuthenticateMessage
    else x.message
  }

  /** A validator exception of a caught class never passes on; it becomes a 4xx HTTP exception. */
  predicate Caught(x: Exception) {
    x.IsA(TypeMismatch) || x.IsA(NoOperation) || x.IsA(NoPath) || x.IsA(InvalidSecurity) || x.IsA(ValidationFailed)
  }

  /**
   * Every caught request failure becomes an HTTP exception with its status, carrying the
   * validator's exception as previous; only a `NoOperation` without a route attribute
   * fails otherwise.
   */
  lemma RequestFailuresBecomeHttpErrors(request: Request, x: Exception, at: Origin)
    requires Caught(x)
    requires x.IsA(NoOperation) && !x.IsA(TypeMismatch) ==>
               RouteClass in request.attributes && request.attributes[RouteClass].RouteAttribute?
    ensures var r := RequestFailure(request, x, at);
      r.kind.Http? && r.kind.status == RequestStatus(x) && r.previous == Some(x) &&
      400 <= r.kind.status < 500 && r.message == RequestMessage(x)
  {
  }

  /** `InvalidSecurity` wins over `ValidationFailed`: 401 "Bearer" with a fixed message. */
  lemma InvalidSecurityIsUnauthorized(request: Request, x: Exception, at: Origin)
    requires x.IsA(InvalidSecurity) && x.IsA(ValidationFailed)
    requires !x.IsA(TypeMismatch) && !x.IsA(NoOperation) && !x.IsA(NoPath)
    ensures RequestFailure(request, x, at) == Unauthorized("Bearer", AuthenticateMessage, Some(x), at)
  {
  }

  /** A request that fails validation never reaches the handler. */
  lemma InvalidRequestSkipsHandler(m: SchemaValidatorMiddleware, request: Request, handler: Handler, other: Handler,
                                   enabled: Value, at: Origin)
    requires !Disabled(enabled) && m.validateRequest(request).Failure?
    ensures m.Process(request, handler, enabled, at) == m.Process(request, other, enabled, at)
  {
  }

  /** An unset (null) setting counts as enabled: an invalid request is rejected. */
  lemma NullSettingValidates(m: SchemaValidatorMiddleware, request: Request, handler: Handler, at: Origin)
    requires m.validateRequest(request).Failure?
    ensures m.Process(request, handler, Null, at) == Failure(RequestFailure(request, m.validateRequest(request).error, at))
  {
  }

  /**
   * A valid request's response comes back unchanged when it matches its schema, and as
   * a 500 when the response validator reports a type mismatch.
   */
  lemma ValidResponsePassesThrough(m: SchemaValidatorMiddleware, request: Request, handler: Handler,
                                   enabled: Value, at: Origin)
    requires !Disabled(enabled) && m.validateRequest(request).Success? && handler(request).Success?
    ensures var v := m.validateResponse(m.validateRequest(request).value, handler(request).value);
      var r := m.Process(request, handler, enabled, at);
      (v.Success? ==> r == handler(request)) &&
      (v.Failure? && v.error.IsA(TypeMismatch) ==>
         r == Failure(InternalServerError(ResponseMismatch, Some(v.error), at)))
  {
  }
}
