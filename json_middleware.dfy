/**
 * `JsonMiddleware`: a POST, PUT or PATCH request with a body and no parsed body yet must
 * declare a JSON content type; its body is decoded into the request's parsed body before
 * the handler sees it.
 */
module JsonBodies {
  import opened Wrappers
  import opened PhpStrings
  import opened PhpValues
  import opened HttpMessages
  import JsonResponses

  const ApplicationJson: string := "application/json"
  const InvalidBody: string := "Invalid JSON request body."

  /** The methods whose requests carry a body: `HttpMethod::tryFrom(strtoupper($method))`. */
  predicate BodyMethod(m: string) {
    var upper := Upper(m);
    upper == "POST" || upper == "PUT" || upper == "PATCH"
  }

  /** The request is one this middleware parses: a body method, no parsed body, a non-empty body. */
  predicate Applies(request: Request) {
    BodyMethod(request.httpMethod) && request.parsedBody == Null && |request.body| > 0
  }

  /** The trimmed `Content-Type` header line. */
  function ContentTypeOf(request: Request): string {
    Trim(HeaderLine(request.headers, "Content-Type"), DefaultTrimChars)
  }

  /** `stripos($content_type, "application/json") !== false`. */
  predicate AcceptsJson(contentType: string) {
    Contains(Lower(contentType), ApplicationJson)
  }

  function Unsupported(contentType: string): string {
    "Content type \"" + contentType + "\" is not supported."
  }

  /**
   * The parsed body for a body PHP's `empty` holds ("0" included): the empty array;
   * otherwise the decoded value, or nothing when decoding fails.
   */
  function ParsedBody(body: string, json: JsonCodec): Option<Value> {
    if IsEmpty(Str(body)) then Some(Arr([])) else json.decode(body)
  }

  datatype JsonMiddleware = JsonMiddleware(json: JsonCodec)
  {
    /** `process($request, $handler)`. */
    function Process(request: Request, handler: Handler, at: Origin): (r: Outcome)
      ensures !Applies(request) ==> r == handler(request)
      ensures Applies(request) && !AcceptsJson(ContentTypeOf(request)) ==>
        r == Failure(NotAcceptable(Unsupported(ContentTypeOf(request)), at))
      ensures Applies(request) && AcceptsJson(ContentTypeOf(request)) && ParsedBody(request.body, json).None? ==>
        r == Failure(BadRequest(InvalidBody, None, at))
      ensures Applies(request) && AcceptsJson(ContentTypeOf(request)) && ParsedBody(request.body, json).Some? ==>
        r == handler(request.WithParsedBody(ParsedBody(request.body, json).value))
    {
      if !Applies(request) then handler(request)
      else
        var contentType := ContentTypeOf(request);
        if !AcceptsJson(contentType) then Failure(NotAcceptable(Unsupported(contentType), at))
        else match ParsedBody(request.body, json)
          case None => Failure(BadRequest(InvalidBody, None, at))
          case Some(v) => handler(request.WithParsedBody(v))
    }
  }

  // ---------------------------------------------------------------- properties

  /** A parsed body already set is never replaced: such a request reaches the handler as it is. */
  lemma ParsedBodyIsKept(m: JsonMiddleware, request: Request, handler: Handler, at: Origin)
    requires request.parsedBody != Null
    ensures m.Process(request, handler, at) == handler(request)
  {
  }

  /**
   * The method is matched case-insensitively: a method is a body method exactly when its
   * lower case is post, put or patch, so methods that differ only in case are treated alike.
   */
  lemma MethodIsCaseInsensitive(m: string, m': string)
    requires Upper(m) == Upper(m')
    ensures BodyMethod(m) <==> Lower(m) in ["post", "put", "patch"]
    ensures BodyMethod(m) == BodyMethod(m')
  {
    assert Upper("post") == "POST" && Upper("put") == "PUT" && Upper("patch") == "PATCH";
    SameUpperIsLower(m, "post");
    SameUpperIsLower(m, "put");
    SameUpperIsLower(m, "patch");
  }

  /** The body "0" is PHP-empty: it becomes the empty array without decoding. */
  lemma ZeroBodyIsEmptyArray(json: JsonCodec)
    ensures ParsedBody("0", json) == Some(Arr([]))
  {
  }

  /**
   * A content type is accepted exactly when `application/json`, in any case, occurs in
   * it: whatever precedes it and whatever follows it (a charset parameter, say).
   */
  lemma ContentTypeWithCharset(pre: string, c: string, post: string)
    requires Lower(c) == ApplicationJson
    ensures AcceptsJson(pre + c + post)
  {
    LowerAppend(pre + c, post);
    LowerAppend(pre, c);
    ContainsPlaced(Lower(pre), ApplicationJson, Lower(post));
  }

  /** Conversely, an accepted content type holds `application/json`, in some case, at some position. */
  lemma AcceptedContentTypeHasJson(contentType: string) returns (i: nat)
    requires AcceptsJson(contentType)
    ensures i + |ApplicationJson| <= |contentType| && Lower(contentType[i..i + |ApplicationJson|]) == ApplicationJson
  {
    i := ContainsAt(Lower(contentType), ApplicationJson);
    LowerSlice(contentType, i, i + |ApplicationJson|);
  }

  /**
   * A JSON body the codec encoded, and decodes back, reaches the handler as the value it
   * encoded: the body of a `JsonResponse` sent back as a request is parsed to its value.
   */
  lemma EncodedBodyIsParsed(m: JsonMiddleware, request: Request, handler: Handler, at: Origin, v: Value)
    requires Applies(request) && AcceptsJson(ContentTypeOf(request))
    requires m.json.encode(v).Some? && request.body == m.json.encode(v).value
    requires m.json.decode(m.json.encode(v).value) == Some(v)
    requires !IsEmpty(Str(request.body))
    ensures m.Process(request, handler, at) == handler(request.WithParsedBody(v))
  {
  }
}
