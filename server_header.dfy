/**
 * `ServerHeaderMiddleware`: names the service and its version in the `Server` header of
 * every response, as in `Server: FooService/1.3.17`.
 */
module ServerHeader {
  import opened Wrappers
  import opened PhpStrings
  import opened PhpValues
  import opened HttpMessages

  /** `config("app.name") . "/" . config("app.version")`. */
  function ServerValue(appName: Value, appVersion: Value): string {
    ToStr(appName) + "/" + ToStr(appVersion)
  }

  /**
   * `process($request, $handler)` with the configured name and version: the handler gets
   * the request unchanged and its response gains the `Server` header, replacing any
   * earlier one; status, body and every other header stay.
   */
  function Process(request: Request, handler: Handler, appName: Value, appVersion: Value): (r: Outcome)
    ensures handler(request).Failure? ==> r == handler(request)
    ensures handler(request).Success? ==>
      var response := handler(request).value;
      r.Success? && r.value.status == response.status && r.value.body == response.body &&
      HeaderLine(r.value.headers, "Server") == ServerValue(appName, appVersion) &&
      forall name | Lower(name) != Lower("Server") ::
        HasHeader(r.value.headers, name) == HasHeader(response.headers, name) &&
        HeaderLine(r.value.headers, name) == HeaderLine(response.headers, name)
  {
    match handler(request)
    case Failure(x) => Failure(x)
    case Success(response) => Success(response.WithHeader("Server", ServerValue(appName, appVersion)))
  }

  /** A `Server` header the handler set is replaced, not appended to. */
  lemma ServerHeaderReplaces(request: Request, handler: Handler, appName: Value, appVersion: Value)
    requires handler(request).Success? && HasHeader(handler(request).value.headers, "Server")
    ensures var r := Process(request, handler, appName, appVersion);
      r.Success? && r.value.headers[Lower("Server")] == [ServerValue(appName, appVersion)]
  {
  }

  /** String configuration values appear as given, separated by one slash. */
  lemma ServerValueOfStrings(name: string, version: string)
    ensures ServerValue(Str(name), Str(version)) == name + "/" + version
  {
  }
}
