/**
 * What a client receives when a middleware's exception reaches the exception handler:
 * the status, headers and visible message of the JSON error response.
 */
module Pipeline {
  import opened Wrappers
  import opened PhpStrings
  import opened PhpValues
  import opened HttpMessages
  import opened JsonResponses
  import opened ExceptionHandling
  import opened JwtValidator
  import opened SchemaValidation

  /** The visible message of a handled body. */
  function MessageOf(body: Value): Option<string> {
    if body.Arr? && |body.entries| >= 2 && body.entries[1].0 == StrKey("message") && body.entries[1].1.Str?
    then Some(body.entries[1].1.s) else None
  }

  /**
   * A token the library rejects reaches the client as 401 with `WWW-Authenticate: Bearer`
   * and the message "Your token is not valid.".
   */
  lemma RejectedTokenResponse(m: JwtValidatorMiddleware, request: Request, handler: Handler, at: Origin,
                              h: ExceptionHandler, json: JsonCodec, statuses: set<int>, logReady: bool)
    requires StatusEnum(statuses)
    requires m.Jwt(request).Some? && m.proof.decode(m.Jwt(request).value).Failure?
    requires Rejection(m.proof.decode(m.Jwt(request).value).error)
    ensures var e := m.Process(request, handler, at).error;
      h.Body(e, at).Success? && MessageOf(h.Body(e, at).value) == Some(InvalidToken)
    ensures var e := m.Process(request, handler, at).error;
      h.HandleOutcome(e, at, json, statuses, logReady).Success? ==>
        var resp := h.HandleOutcome(e, at, json, statuses, logReady).value;
        resp.status == 401 && HeaderLine(resp.headers, "WWW-Authenticate") == "Bearer"
  {
    var e := m.Process(request, handler, at).error;
    assert e.kind.httpHeaders == [("WWW-Authenticate", "Bearer")];
    assert !HasSchemaDetails(e);
    if h.HandleOutcome(e, at, json, statuses, logReady).Success? {
      ResponseFollowsException(h, e, at, json, statuses, logReady, 0);
    }
  }

  /**
   * A request rejected by the schema validator reaches the client with the 4xx status of
   * its class and the validator's message ("Please authenticate to continue" for a
   * security failure), never the default text.
   */
  lemma RejectedRequestResponse(m: SchemaValidatorMiddleware, request: Request, handler: Handler, enabled: Value,
                                at: Origin, h: ExceptionHandler, json: JsonCodec, statuses: set<int>, logReady: bool)
    requires StatusEnum(statuses)
    requires !Disabled(enabled) && m.validateRequest(request).Failure?
    requires var x := m.validateRequest(request).error;
      Caught(x) && (x.IsA(NoOperation) && !x.IsA(TypeMismatch) ==>
                      RouteClass in request.attributes && request.attributes[RouteClass].RouteAttribute?)
    ensures var x := m.validateRequest(request).error;
      var e := m.Process(request, handler, enabled, at).error;
      StatusCode(e) == RequestStatus(x) &&
      h.VisibleMessage(e) == e.message && e.message == RequestMessage(x) &&
      (h.Body(e, at).Success? ==> MessageOf(h.Body(e, at).value) == Some(RequestMessage(x))) &&
      (h.HandleOutcome(e, at, json, statuses, logReady).Success? ==>
         h.HandleOutcome(e, at, json, statuses, logReady).value.status == RequestStatus(x))
  {
    RequestFailuresBecomeHttpErrors(request, m.validateRequest(request).error, at);
  }

  /**
   * A response that breaks its schema reaches the client as 500 with the handler's
   * default message: the validator's own text stays out of the body.
   */
  lemma MismatchedResponseIsHidden(m: SchemaValidatorMiddleware, request: Request, handler: Handler, enabled: Value,
                                   at: Origin, h: ExceptionHandler)
    requires !Disabled(enabled) && m.validateRequest(request).Success? && handler(request).Success?
    requires var v := m.validateResponse(m.validateRequest(request).value, handler(request).value);
      v.Failure? && v.error.IsA(TypeMismatch)
    ensures var e := m.Process(request, handler, enabled, at).error;
      StatusCode(e) == 500 && h.VisibleMessage(e) == h.defaultMessage &&
      (h.Body(e, at).Success? ==> MessageOf(h.Body(e, at).value) == Some(h.defaultMessage))
  {
    ValidResponsePassesThrough(m, request, handler, enabled, at);
  }
}
