/**
 * `ExceptionHandler`: turns any exception that escapes the middleware stack into a JSON
 * error response. HTTP exceptions keep their status and headers; everything else is a
 * 500. Messages of 5xx responses are replaced by a default text, 5xx exceptions are
 * logged as critical, and in debug mode the body carries the exception's own message,
 * file, line and trace, with a breadcrumb of schema mismatches when request validation
 * failed on one.
 */
module ExceptionHandling {
  import opened Wrappers
  import opened PhpStrings
  import opened PhpValues
  import opened HttpMessages
  import opened JsonResponses
  import opened LogFacade

  const DefaultMessage: string := "There was an issue processing your request."
  const InternalServerErrorStatus: int := 500

  /** `getStatusCode($exception)`. */
  function StatusCode(e: Exception): int {
    if e.kind.Http? then e.kind.status else InternalServerErrorStatus
  }

  /**
   * The values the `ResponseStatus` enum defines. The enum belongs to the HTTP message
   * library, which is not part of this model, so its cases are a parameter of the handler;
   * each is a three-digit HTTP status, and `INTERNAL_SERVER_ERROR` is among them.
   */
  predicate StatusEnum(statuses: set<int>) {
    InternalServerErrorStatus in statuses && forall s | s in statuses :: 100 <= s <= 599
  }

  const ResponseStatusClass: string := "Nimbly\\Capsule\\ResponseStatus"

  /** `ResponseStatus::from($code)`: the case of that value, or a `ValueError` when there is none. */
  function StatusFrom(statuses: set<int>, code: int, at: Origin): (r: Result<int, Exception>)
    ensures r.Success? <==> code in statuses
    ensures r.Success? ==> r.value == code
    ensures r.Failure? ==> r.error.kind == Thrown("ValueError") && r.error.origin == at && r.error.previous == None
  {
    if code in statuses then Success(code)
    else Failure(Exception(Thrown("ValueError"), IntToString(code) + " is not a valid backing value for enum " + ResponseStatusClass,
                           Int(0), at, None))
  }

  /**
   * `getStatusCode($exception)` with its enum lookup: an HTTP exception's status through
   * `ResponseStatus::from`, 500 for anything else.
   */
  function GetStatusCode(e: Exception, statuses: set<int>, at: Origin): (r: Result<int, Exception>)
    requires StatusEnum(statuses)
    ensures r.Success? <==> StatusCode(e) in statuses
    ensures r.Success? ==> r.value == StatusCode(e) && FitsStatus(e)
    ensures r.Failure? ==> e.kind.Http? && r.error.kind == Thrown("ValueError")
  {
    if e.kind.Http? then StatusFrom(statuses, e.kind.status, at) else Success(InternalServerErrorStatus)
  }

  /** The headers of the response: an HTTP exception's own, none for anything else. */
  function ExceptionHeaders(e: Exception): seq<(string, string)> {
    if e.kind.Http? then e.kind.httpHeaders else []
  }

  function Field(name: string, v: Value): (Key, Value) {
    (StrKey(name), v)
  }

  // ---------------------------------------------------------------- the breadcrumb

  /** One entry of `debug.details`. */
  datatype Detail = Detail(message: string, location: string, data: Value)

  function DetailValue(d: Detail): Value {
    Arr([Field("message", Str(d.message)), Field("location", Str(d.location)), Field("data", d.data)])
  }

  /** The exception and its previous ones, in order. */
  function Chain(o: Option<Exception>): seq<Exception>
    decreases o
  {
    match o
    case None => []
    case Some(e) => [e] + Chain(e.previous)
  }

  /** `dataBreadCrumb()` called on a link that is no `SchemaMismatch`. */
  function UndefinedMethod(at: Origin): Exception {
    Exception(Thrown("Error"), "Call to undefined method dataBreadCrumb()", Int(0), at, None)
  }

  /** `implode("/", null)`. */
  function ImplodeOfNull(at: Origin): Exception {
    Exception(Thrown("TypeError"), "implode(): Argument #1 ($pieces) must be of type array, string given", Int(0), at, None)
  }

  /** Puts `ds` in front of a successful result. */
  function Prefixed(ds: seq<Detail>, r: Result<seq<Detail>, Exception>): Result<seq<Detail>, Exception> {
    match r
    case Success(rest) => Success(ds + rest)
    case Failure(x) => Failure(x)
  }

  /**
   * `buildBreadcrumb` as written: a mismatch without a data breadcrumb makes `implode`
   * receive null, which throws.
   */
  function BreadcrumbAsWritten(o: Option<Exception>, at: Origin): Result<seq<Detail>, Exception>
    decreases o
  {
    match o
    case None => Success([])
    case Some(e) =>
      if !e.IsA(SchemaMismatch) then Failure(UndefinedMethod(at))
      else match e.kind.breadcrumb
        case None => Failure(ImplodeOfNull(at))
        case Some(chain) => Prefixed([Detail(e.message, Join("/", chain), e.kind.data)], BreadcrumbAsWritten(e.previous, at))
  }

  /** The entry a mismatch contributes; a missing data breadcrumb has the empty location. */
  function DetailOf(e: Exception): Detail
    requires e.kind.Validation?
  {
    Detail(e.message, Join("/", e.kind.breadcrumb.GetOr([])), e.kind.data)
  }

  /** `buildBreadcrumb` as the null-safe `?->` intends it: one entry per link. */
  function Breadcrumb(o: Option<Exception>, at: Origin): Result<seq<Detail>, Exception>
    decreases o
  {
    match o
    case None => Success([])
    case Some(e) =>
      if !e.IsA(SchemaMismatch) then Failure(UndefinedMethod(at))
      else Prefixed([DetailOf(e)], Breadcrumb(e.previous, at))
  }

  /** Every link of the chain is a `SchemaMismatch`. */
  predicate AllMismatches(links: seq<Exception>) {
    forall i | 0 <= i < |links| :: links[i].IsA(SchemaMismatch)
  }

  /**
   * Over a chain of mismatches the breadcrumb has one entry per link, in chain order,
   * each with the link's message, its data breadcrumb joined by "/" and its data; any
   * other link makes it fail.
   */
  lemma {:induction false} BreadcrumbFollowsChain(o: Option<Exception>, at: Origin)
    ensures var r := Breadcrumb(o, at); var links := Chain(o);
      (r.Success? <==> AllMismatches(links)) &&
      (r.Success? ==> |r.value| == |links| && forall i | 0 <= i < |links| :: r.value[i] == DetailOf(links[i])) &&
      (r.Failure? ==> r.error == UndefinedMethod(at))
    decreases o
  {
    if o.Some? {
      var e := o.value;
      BreadcrumbFollowsChain(e.previous, at);
      var links := Chain(o);
      assert links == [e] + Chain(e.previous);
      assert links[0] == e;
      assert AllMismatches(links) <==> e.IsA(SchemaMismatch) && AllMismatches(Chain(e.previous)) by {
        assert forall i | 1 <= i < |links| :: links[i] == Chain(e.previous)[i - 1];
        assert forall i | 0 <= i < |Chain(e.previous)| :: Chain(e.previous)[i] == links[i + 1];
      }
    }
  }

  /** Where every mismatch has a data breadcrumb, the code as written gives the same entries. */
  lemma {:induction false} AsWrittenAgreesWithBreadcrumbs(o: Option<Exception>, at: Origin)
    requires forall i | 0 <= i < |Chain(o)| :: Chain(o)[i].kind.Validation? ==> Chain(o)[i].kind.breadcrumb.Some?
    ensures BreadcrumbAsWritten(o, at) == Breadcrumb(o, at)
    decreases o
  {
    if o.Some? {
      var e := o.value;
      assert Chain(o)[0] == e;
      assert forall i | 0 <= i < |Chain(e.previous)| :: Chain(e.previous)[i] == Chain(o)[i + 1];
      AsWrittenAgreesWithBreadcrumbs(e.previous, at);
    }
  }

  /** A mismatch without a data breadcrumb: the code as written throws a `TypeError`. */
  lemma AsWrittenThrowsWithoutDataBreadcrumb(at: Origin)
    ensures var e := Exception(Validation({SchemaMismatch}, None, Null), "Value expected to be 'integer'", Int(0), at, None);
      BreadcrumbAsWritten(Some(e), at) == Failure(ImplodeOfNull(at)) &&
      Breadcrumb(Some(e), at) == Success([Detail("Value expected to be 'integer'", "", Null)])
  {
    var d := Detail("Value expected to be 'integer'", "", Null);
    assert [d] + [] == [d];
  }

  /** `buildBreadcrumb($exception)`: walks the previous-chain, appending one entry per link. */
  method BuildBreadcrumb(first: Exception, at: Origin) returns (r: Result<seq<Detail>, Exception>)
    requires first.IsA(SchemaMismatch)
    ensures r == Breadcrumb(Some(first), at)
  {
    var messages: seq<Detail> := [];
    var current := Some(first);
    PrefixedNothing(Breadcrumb(current, at));
    while current.Some?
      invariant Breadcrumb(Some(first), at) == Prefixed(messages, Breadcrumb(current, at))
      decreases |Chain(current)|
    {
      var e := current.value;
      if !e.IsA(SchemaMismatch) {
        return Failure(UndefinedMethod(at));
      }
      PrefixedTwice(messages, [DetailOf(e)], Breadcrumb(e.previous, at));
      messages := messages + [DetailOf(e)];
      current := e.previous;
    }
    assert messages + [] == messages;
    return Success(messages);
  }

  lemma PrefixedNothing(r: Result<seq<Detail>, Exception>)
    ensures Prefixed([], r) == r
  {
    if r.Success? {
      assert [] + r.value == r.value;
    }
  }

  lemma PrefixedTwice(a: seq<Detail>, b: seq<Detail>, r: Result<seq<Detail>, Exception>)
    ensures Prefixed(a, Prefixed(b, r)) == Prefixed(a + b, r)
  {
    if r.Success? {
      assert a + (b + r.value) == a + b + r.value;
    }
  }

  // ---------------------------------------------------------------- the critical log entry

  /**
   * The context of the critical log entry as written: `(int) $status_code` casts the
   * status enum object, which PHP turns into 1 (with a warning) whatever the status.
   */
  function CriticalContextAsWritten(e: Exception, request: Request): seq<(Key, Value)> {
    [Field("method", Str(request.httpMethod)), Field("uri", Str(request.uri)), Field("code", Int(1)),
     Field("file", Str(e.origin.file)), Field("line", Int(e.origin.line))]
  }

  /** The context as intended: the status code itself. */
  function CriticalContext(e: Exception, request: Request): seq<(Key, Value)>
    requires FitsStatus(e)
  {
    [Field("method", Str(request.httpMethod)), Field("uri", Str(request.uri)), Field("code", Int(StatusCode(e))),
     Field("file", Str(e.origin.file)), Field("line", Int(e.origin.line))]
  }

  /** A status a PHP integer holds, as every `ResponseStatus` case does. */
  predicate FitsStatus(e: Exception) {
    IntMin <= StatusCode(e) <= IntMax
  }

  /** The logged code as written is never the status of a logged (5xx) exception. */
  lemma AsWrittenLogsWrongCode(e: Exception, request: Request)
    requires StatusCode(e) >= InternalServerErrorStatus && FitsStatus(e)
    ensures CriticalContextAsWritten(e, request)[2] == Field("code", Int(1))
    ensures CriticalContext(e, request)[2] == Field("code", Int(StatusCode(e)))
    ensures CriticalContextAsWritten(e, request) != CriticalContext(e, request)
  {
    assert CriticalContextAsWritten(e, request)[2] != CriticalContext(e, request)[2];
  }

  /** The call `Log::critical` forwards for an exception. */
  function CriticalCall(e: Exception, request: Request): LogCall
    requires FitsStatus(e)
  {
    Critical(e.message, CriticalContext(e, request))
  }

  // ---------------------------------------------------------------- the handler

  /** The body's fields a schema mismatch chain adds in debug mode. */
  predicate HasSchemaDetails(e: Exception) {
    e.previous.Some? && e.previous.value.IsA(ValidationFailed) &&
    e.previous.value.previous.Some? && e.previous.value.previous.value.IsA(SchemaMismatch)
  }

  datatype ExceptionHandler = ExceptionHandler(defaultMessage: string, debug: bool)
  {
    /** The message the body shows: the exception's own below 500, the default text from 500 on. */
    function VisibleMessage(e: Exception): string {
      if StatusCode(e) < InternalServerErrorStatus then e.message else defaultMessage
    }

    /** The fields of `$body["debug"]` before any details. */
    function DebugFields(e: Exception): seq<(Key, Value)> {
      [Field("message", Str(e.message)), Field("file", Str(e.origin.file)),
       Field("line", Int(e.origin.line)), Field("trace", Str(e.origin.trace))]
    }

    /** The response body `handle` builds, or the exception building it throws. */
    function Body(e: Exception, at: Origin): (r: Result<Value, Exception>)
      ensures r.Success? ==> r.value.Arr? && |r.value.entries| == if debug then 3 else 2
      ensures r.Success? ==> r.value.entries[0] == Field("code", Int(ToInt(e.code)))
      ensures r.Success? ==> r.value.entries[1] == Field("message", Str(VisibleMessage(e)))
      ensures r.Failure? ==> debug && HasSchemaDetails(e)
    {
      var base := [Field("code", Int(ToInt(e.code))), Field("message", Str(VisibleMessage(e)))];
      if !debug then Success(Arr(base))
      else if !HasSchemaDetails(e) then Success(Arr(base + [Field("debug", Arr(DebugFields(e)))]))
      else match Breadcrumb(e.previous.value.previous, at)
        case Failure(x) => Failure(x)
        case Success(ds) =>
          var details := Arr(List(seq(|ds|, i requires 0 <= i < |ds| => DetailValue(ds[i]))));
          Success(Arr(base + [Field("debug", Arr(DebugFields(e) + [Field("details", details)]))]))
    }

    /**
     * The outcome of `handle`, given whether the `Log` facade has a logger (the critical
     * call throws when it has none).
     */
    function HandleOutcome(e: Exception, at: Origin, json: JsonCodec, statuses: set<int>, logReady: bool): Outcome
      requires StatusEnum(statuses)
    {
      match GetStatusCode(e, statuses, at)
      case Failure(x) => Failure(x)
      case Success(status) =>
        if status >= InternalServerErrorStatus && !logReady then Failure(UnexpectedValue(LogFacade.NotInitialized, at))
        else match Body(e, at)
          case Failure(x) => Failure(x)
          case Success(b) => Make(status, b, ExceptionHeaders(e), json, at)
    }

    /**
     * `handle($exception, $request)`: a 5xx exception is logged as critical first; the
     * response is a JSON response with the exception's status, body and headers.
     */
    method Handle(log: Log, e: Exception, request: Request, json: JsonCodec, statuses: set<int>, at: Origin)
      returns (r: Outcome)
      requires StatusEnum(statuses)
      modifies log.logger
      ensures log.logger == old(log.logger)
      ensures r == HandleOutcome(e, at, json, statuses, old(log.logger) != null)
      ensures old(log.logger) != null ==>
        log.logger.received == old(log.logger.received) +
          (if StatusCode(e) in statuses && StatusCode(e) >= InternalServerErrorStatus then [CriticalCall(e, request)] else [])
    {
      var from := GetStatusCode(e, statuses, at);
      if from.Failure? {
        return Failure(from.error);
      }
      var status := from.value;
      if status >= InternalServerErrorStatus {
        var logged := log.Call("critical", [Str(e.message), Arr(CriticalContext(e, request))], at);
        if logged.Failure? {
          return Failure(logged.error);
        }
      }
      var body := [Field("code", Int(ToInt(e.code))), Field("message", Str(VisibleMessage(e)))];
      if debug {
        var debugFields := DebugFields(e);
        if HasSchemaDetails(e) {
          var details := BuildBreadcrumb(e.previous.value.previous.value, at);
          if details.Failure? {
            return Failure(details.error);
          }
          var ds := details.value;
          debugFields := debugFields + [Field("details", Arr(List(seq(|ds|, i requires 0 <= i < |ds| => DetailValue(ds[i])))))];
        }
        body := body + [Field("debug", Arr(debugFields))];
      }
      r := Make(status, Arr(body), ExceptionHeaders(e), json, at);
    }
  }

  /** The handler the framework builds by default: the default message, debug off. */
  function DefaultHandler(): ExceptionHandler {
    ExceptionHandler(DefaultMessage, false)
  }

  // ---------------------------------------------------------------- properties

  /**
   * A handled exception's response has the exception's status (500 unless it is an HTTP
   * exception) and sends the HTTP exception's headers, each one read back as given when
   * no other shares its name.
   */
  lemma ResponseFollowsException(h: ExceptionHandler, e: Exception, at: Origin, json: JsonCodec, statuses: set<int>, logReady: bool, i: nat)
    requires StatusEnum(statuses) && h.HandleOutcome(e, at, json, statuses, logReady).Success?
    requires e.kind.Http? && i < |e.kind.httpHeaders|
    requires forall j | 0 <= j < |e.kind.httpHeaders| && j != i ::
               Lower(e.kind.httpHeaders[j].0) != Lower(e.kind.httpHeaders[i].0)
    ensures var resp := h.HandleOutcome(e, at, json, statuses, logReady).value;
      resp.status == e.kind.status &&
      HeaderLine(resp.headers, e.kind.httpHeaders[i].0) == e.kind.httpHeaders[i].1
  {
    CallerHeaderKept(e.kind.httpHeaders, i);
  }

  /** Anything that is not an HTTP exception is a 500 with only the JSON content type. */
  lemma OtherExceptionsAreServerErrors(h: ExceptionHandler, e: Exception, at: Origin, json: JsonCodec, statuses: set<int>, logReady: bool)
    requires !e.kind.Http?
    requires StatusEnum(statuses) && h.HandleOutcome(e, at, json, statuses, logReady).Success?
    ensures var resp := h.HandleOutcome(e, at, json, statuses, logReady).value;
      resp.status == InternalServerErrorStatus && HeaderLine(resp.headers, ContentType) == ApplicationJson &&
      resp.headers.Keys == {Lower(ContentType)}
  {
    DefaultContentType([]);
  }

  /**
   * An HTTP exception whose status the enum does not define makes the handler itself
   * throw a `ValueError`, before anything is logged or built; a response always carries
   * a defined status.
   */
  lemma UndefinedStatusThrows(h: ExceptionHandler, e: Exception, at: Origin, json: JsonCodec, statuses: set<int>,
                              logReady: bool)
    requires StatusEnum(statuses)
    ensures var r := h.HandleOutcome(e, at, json, statuses, logReady);
      && (e.kind.Http? && e.kind.status !in statuses ==> r.Failure? && r.error.kind == Thrown("ValueError") && r.error.origin == at)
      && (r.Success? ==> StatusCode(e) in statuses && r.value.status == StatusCode(e))
  {
  }

  /** Debug details appear exactly for a `ValidationFailed` caused by a `SchemaMismatch`. */
  lemma DetailsOnlyForSchemaMismatch(h: ExceptionHandler, e: Exception, at: Origin)
    requires h.debug && h.Body(e, at).Success?
    ensures var debug := h.Body(e, at).value.entries[2];
      debug.0 == StrKey("debug") && debug.1.Arr? &&
      (|debug.1.entries| == 5 <==> HasSchemaDetails(e)) &&
      debug.1.entries[..4] == h.DebugFields(e)
  {
    var debug := h.Body(e, at).value.entries[2];
    if HasSchemaDetails(e) {
      assert (h.DebugFields(e) + [debug.1.entries[4]])[..4] == h.DebugFields(e);
    }
  }
}
