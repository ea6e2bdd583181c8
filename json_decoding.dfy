/** JsonDecoder, the older JSON stage: for any method other than GET whose
    media type is exactly application/json, the parsed body is replaced by
    whatever json_decode gives back, without looking at the parsed body
    already there and without looking at decode errors. */
module JsonDecoding {
  import opened Php
  import opened Psr7
  import ContentHandling

  /** The decoder's settings, with its constructor defaults. */
  datatype JsonDecoder = JsonDecoder(assoc: bool := false, maxDepth: int := 256, options: int := 0)

  /** json_decode(body, assoc, depth, options); only its value is used. */
  type JsonDecode = (string, bool, int, int) -> ContentHandling.JsonDecoded

  /** Whether the stage decodes the body of `request`. */
  predicate WillDecode(request: Request)
    ensures WillDecode(request) ==> "content-type" in request.headerLines
  {
    MediaTypeOfEmpty();
    request.httpMethod != "GET" &&
    ContentHandling.MediaType(HeaderLine(request, "content-type")) == "application/json"
  }

  /** __invoke: the request handed to `next` is the incoming one, with its
      parsed body overwritten by the decoded body when the gate opens. */
  function Invoke(d: JsonDecoder, jsonDecode: JsonDecode, request: Request, response: Response, next: Next): Outcome<Response> {
    var passed :=
      if WillDecode(request) then
        request.(parsedBody := jsonDecode(request.body, d.assoc, d.maxDepth, d.options).value)
      else request;
    next(passed, response)
  }

  // ---------------------------------------------------------------------
  // Properties

  /** The body is decoded exactly when the gate opens: `next` then sees the
      decoded value as the parsed body, whatever json_decode reported as its
      error and whatever parsed body the request had; otherwise `next` sees
      the request as it came. */
  lemma DecodesIffGateOpens(d: JsonDecoder, jsonDecode: JsonDecode, request: Request, response: Response, next: Next)
    ensures WillDecode(request) ==>
      Invoke(d, jsonDecode, request, response, next) ==
        next(request.(parsedBody := jsonDecode(request.body, d.assoc, d.maxDepth, d.options).value), response)
    ensures !WillDecode(request) ==> Invoke(d, jsonDecode, request, response, next) == next(request, response)
  {
  }

  /** An empty Content-Type line has the empty media type. */
  lemma MediaTypeOfEmpty()
    ensures ContentHandling.MediaType("") == ""
  {
    assert BeforeFirst("", ';') == "";
    assert Trim("") == "";
  }

  /** A request without a Content-Type header keeps its parsed body. */
  lemma NoContentTypePassesThrough(d: JsonDecoder, jsonDecode: JsonDecode, request: Request, response: Response, next: Next)
    requires "content-type" !in request.headerLines
    ensures Invoke(d, jsonDecode, request, response, next) == next(request, response)
  {
    MediaTypeOfEmpty();
  }

  /** Unlike the JSON content handler, the decoder decodes the body of a HEAD
      request and overwrites a parsed body that is already there (truthy),
      even when the decode fails. */
  lemma DiffersFromJsonContentHandler(lib: ContentHandling.Decoders, request: Request, response: Response, next: Next)
    requires request.httpMethod == "HEAD" || Truthy(request.parsedBody)
    requires WillDecode(request)
    ensures ContentHandling.Invoke(ContentHandling.JsonContentHandler(), lib, request, response, next) == next(request, response)
    ensures Invoke(JsonDecoder(), lib.jsonDecode, request, response, next) ==
      next(request.(parsedBody := lib.jsonDecode(request.body, false, 256, 0).value), response)
  {
    if request.httpMethod == "HEAD" {
      ContentHandling.BodilessMethodsPassThrough(ContentHandling.JsonContentHandler(), lib, request, response, next);
    } else {
      ContentHandling.ParsedPassesThrough(ContentHandling.JsonContentHandler(), lib, request, response, next);
    }
  }

  /** Where both stages parse, with the same settings and a decode without
      error, they hand `next` the same request. */
  lemma AgreesWithJsonContentHandler(assoc: bool, maxDepth: int, options: int, lib: ContentHandling.Decoders,
                                     request: Request, response: Response, next: Next)
    requires request.httpMethod != "GET" && request.httpMethod != "HEAD"
    requires !Truthy(request.parsedBody)
    requires ContentHandling.MediaType(HeaderLine(request, "content-type")) == "application/json"
    requires lib.jsonDecode(request.body, assoc, maxDepth, options).errorCode == 0
    ensures Invoke(JsonDecoder(assoc, maxDepth, options), lib.jsonDecode, request, response, next) ==
      ContentHandling.Invoke(ContentHandling.JsonContentHandler(assoc, maxDepth, options), lib, request, response, next)
  {
    ContentHandling.ParsesThenCallsNext(ContentHandling.JsonContentHandler(assoc, maxDepth, options), lib, request, response, next);
  }
}
