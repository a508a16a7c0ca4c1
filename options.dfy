/**
 * `OptionsMiddleware`: answers every OPTIONS request itself with 204 No Content and an
 * `Allow` header listing OPTIONS and the methods the router supports for the path; any
 * other request goes on to the handler.
 */
module OptionsRequests {
  import opened Wrappers
  import opened PhpStrings
  import opened HttpMessages

  const NoContent: int := 204

  /** The `Allow` value: "OPTIONS" first, then the router's methods, joined by ", ". */
  function AllowValue(supported: seq<string>): string {
    Join(", ", ["OPTIONS"] + supported)
  }

  /** `$router->getSupportedMethods($request)` is foreign: a function of the request. */
  datatype OptionsMiddleware = OptionsMiddleware(supportedMethods: Request -> seq<string>)
  {
    /** `process($request, $handler)`. */
    function Process(request: Request, handler: Handler): (r: Outcome)
      ensures request.httpMethod != "OPTIONS" ==> r == handler(request)
      ensures request.httpMethod == "OPTIONS" ==>
        r.Success? && r.value.status == NoContent && r.value.body == "" &&
        HeaderLine(r.value.headers, "Allow") == AllowValue(supportedMethods(request))
    {
      if request.httpMethod != "OPTIONS" then handler(request)
      else
        FromArrayReads([("Allow", AllowValue(supportedMethods(request)))], "Allow");
        Success(Response(NoContent, FromArray([("Allow", AllowValue(supportedMethods(request)))]), ""))
    }
  }

  /** "OPTIONS" always comes first and the router's methods follow in their order. */
  lemma {:induction false} AllowListsOptionsFirst(supported: seq<string>)
    ensures AllowValue(supported) == "OPTIONS" + (if supported == [] then "" else ", " + Join(", ", supported))
  {
    var head: seq<string> := ["OPTIONS"];
    if supported != [] {
      JoinAppend(", ", head, supported);
    } else {
      assert head + supported == head;
    }
  }

  /** The handler never sees an OPTIONS request: the answer is the same whatever it would do. */
  lemma OptionsSkipsHandler(m: OptionsMiddleware, request: Request, handler: Handler, other: Handler)
    requires request.httpMethod == "OPTIONS"
    ensures m.Process(request, handler) == m.Process(request, other)
  {
  }
}
