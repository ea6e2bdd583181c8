/** ContentHandler and its two concrete handlers, JsonContentHandler and
    FormContentHandler: for a request whose method can carry a body, the
    body is parsed when its media type suits the handler and the request
    has no parsed body yet; then the rest of the chain runs. The concrete
    handlers form one closed datatype; their two hooks (which media types
    apply, how a body is parsed) are functions over it. */
module ContentHandling {
  import opened Php
  import opened Psr7

  /** json_decode's result together with what json_last_error() and
      json_last_error_msg() report right after the call. */
  datatype JsonDecoded = JsonDecoded(value: Value, errorCode: int, errorMessage: string)

  /** The library decoders: json_decode(body, assoc, depth, options) and
      parse_str(body, $parsed), which always fills `$parsed` with an array. */
  datatype Decoders = Decoders(
    jsonDecode: (string, bool, int, int) -> JsonDecoded,
    parseStr: string -> seq<Entry>)

  /** The methods that cannot carry a request body. */
  const MethodsWithoutContent: seq<string> := ["GET", "HEAD"]

  /** The concrete content handlers, with JsonContentHandler's constructor
      defaults. */
  datatype ContentHandler =
    | JsonContentHandler(assoc: bool := false, maxDepth: int := 512, options: int := 0)
    | FormContentHandler

  /** The media type of a Content-Type header line: the part before the
      first ";", trimmed and lower-cased. It carries no parameters, no
      surrounding whitespace and no upper-case ASCII letters. */
  function MediaType(contentType: string): (mime: string)
    ensures ';' !in mime
    ensures mime == [] || (!IsTrimChar(mime[0]) && !IsTrimChar(mime[|mime| - 1]))
    ensures forall i :: 0 <= i < |mime| ==> !('A' <= mime[i] <= 'Z')
  {
    var trimmed := Trim(BeforeFirst(contentType, ';'));
    NotInTrim(BeforeFirst(contentType, ';'), ';');
    StrToLower(trimmed)
  }

  /** Parameters after the first ";" never change the media type. */
  lemma MediaTypeIgnoresParameters(mediaType: string, parameters: string)
    requires ';' !in mediaType
    ensures MediaType(mediaType + ";" + parameters) == MediaType(mediaType)
  {
    SplitAtFirst(mediaType, ';', parameters);
    BeforeFirstNoSeparator(mediaType, ';');
  }

  /** A media type is its own media type. */
  lemma MediaTypeIdempotent(contentType: string)
    ensures MediaType(MediaType(contentType)) == MediaType(contentType)
  {
    var mime := MediaType(contentType);
    BeforeFirstNoSeparator(mime, ';');
    TrimOfTrimmed(mime);
    assert forall i :: 0 <= i < |mime| ==> LowerChar(mime[i]) == mime[i];
  }

  /** isApplicableMimeType, per handler. */
  predicate IsApplicableMimeType(h: ContentHandler, mime: string) {
    match h
    case JsonContentHandler(_, _, _) => mime == "application/json" || mime == "application/vnd.api+json"
    case FormContentHandler => mime == "application/x-www-form-urlencoded"
  }

  /** throwException: always a RuntimeException carrying the message. */
  function ThrowException<T>(message: string): (r: Outcome<T>)
    ensures r.Throw? && r.className == "RuntimeException" && r.message == message
  {
    Throw("RuntimeException", message)
  }

  /** getParsedBody, per handler. JSON: the decoded value, or a
      RuntimeException when json_last_error() reports an error. Form: the
      array parse_str fills in. */
  function GetParsedBody(h: ContentHandler, lib: Decoders, body: string): (r: Outcome<Value>)
    ensures h.FormContentHandler? ==> r.Ok?
    ensures r.Throw? ==> h.JsonContentHandler? && r.className == "RuntimeException"
  {
    match h
    case JsonContentHandler(assoc, maxDepth, options) =>
      var decoded := lib.jsonDecode(body, assoc, maxDepth, options);
      if decoded.errorCode != 0 then ThrowException("Error parsing JSON: " + decoded.errorMessage)
      else Ok(decoded.value)
    case FormContentHandler => Ok(Array(lib.parseStr(body)))
  }

  /** requestWithParsedBody. */
  function RequestWithParsedBody(h: ContentHandler, lib: Decoders, request: Request): (r: Outcome<Request>)
    ensures r.Ok? ==> r.value == request.(parsedBody := r.value.parsedBody)
    ensures !(IsApplicableMimeType(h, MediaType(HeaderLine(request, "content-type"))) && !Truthy(request.parsedBody)) ==>
      r == Ok(request)
    ensures r.Throw? ==> h.JsonContentHandler? && r.className == "RuntimeException"
  {
    var mime := MediaType(HeaderLine(request, "content-type"));
    if IsApplicableMimeType(h, mime) && !Truthy(request.parsedBody) then
      match GetParsedBody(h, lib, request.body)
      case Ok(parsed) => Ok(request.(parsedBody := parsed))
      case Throw(c, m) => Throw(c, m)
    else Ok(request)
  }

  /** __invoke. */
  function Invoke(h: ContentHandler, lib: Decoders, request: Request, response: Response, next: Next): (r: Outcome<Response>)
    ensures !WillParse(h, request) ==> r == next(request, response)
  {
    if request.httpMethod !in MethodsWithoutContent then
      assert !WillParse(h, request) ==> RequestWithParsedBody(h, lib, request) == Ok(request);
      match RequestWithParsedBody(h, lib, request)
      case Ok(updated) => next(updated, response)
      case Throw(c, m) => Throw(c, m)
    else next(request, response)
  }

  /** Whether `request` arrives at a handler that will parse its body. */
  predicate WillParse(h: ContentHandler, request: Request)
    ensures WillParse(h, request) ==> request.httpMethod != "GET" && request.httpMethod != "HEAD"
  {
    request.httpMethod !in MethodsWithoutContent &&
    IsApplicableMimeType(h, MediaType(HeaderLine(request, "content-type"))) &&
    !Truthy(request.parsedBody)
  }

  // ---------------------------------------------------------------------
  // Properties

  /** A request whose media type does not suit the handler reaches `next`
      as it came, with the response as it came, and `next`'s outcome is the
      result. */
  lemma InapplicablePassesThrough(h: ContentHandler, lib: Decoders, request: Request, response: Response, next: Next)
    requires !IsApplicableMimeType(h, MediaType(HeaderLine(request, "content-type")))
    ensures Invoke(h, lib, request, response, next) == next(request, response)
  {
  }

  /** So does a request that already has a truthy parsed body: it is not
      parsed a second time. */
  lemma ParsedPassesThrough(h: ContentHandler, lib: Decoders, request: Request, response: Response, next: Next)
    requires Truthy(request.parsedBody)
    ensures Invoke(h, lib, request, response, next) == next(request, response)
  {
  }

  /** A request that will be parsed reaches `next` with its parsed body
      replaced by the handler's parse of the whole body and nothing else
      changed; a parse error is thrown instead and `next` is not reached. */
  lemma ParsesThenCallsNext(h: ContentHandler, lib: Decoders, request: Request, response: Response, next: Next)
    requires WillParse(h, request)
    ensures GetParsedBody(h, lib, request.body).Ok? ==>
      Invoke(h, lib, request, response, next) ==
        next(request.(parsedBody := GetParsedBody(h, lib, request.body).value), response)
    ensures GetParsedBody(h, lib, request.body).Throw? ==>
      var e := GetParsedBody(h, lib, request.body);
      Invoke(h, lib, request, response, next) == Throw(e.className, e.message)
  {
  }

  /** GET and HEAD (exactly these spellings) are never parsed. */
  lemma BodilessMethodsPassThrough(h: ContentHandler, lib: Decoders, request: Request, response: Response, next: Next)
    requires request.httpMethod == "GET" || request.httpMethod == "HEAD"
    ensures Invoke(h, lib, request, response, next) == next(request, response)
  {
  }

  /** The media type of a Content-Type line made of a type `t`, with
      whitespace around it and optionally ";" and parameters after it, is
      `t` in lower case. */
  lemma MediaTypeOfLine(pad1: string, t: string, pad2: string, parameters: string)
    requires forall c :: c in pad1 ==> IsTrimChar(c)
    requires forall c :: c in pad2 ==> IsTrimChar(c)
    requires t != [] && ';' !in t && !IsTrimChar(t[0]) && !IsTrimChar(t[|t| - 1])
    ensures MediaType(pad1 + t + pad2) == StrToLower(t)
    ensures MediaType(pad1 + t + pad2 + ";" + parameters) == StrToLower(t)
  {
    var u := pad1 + t + pad2;
    PaddedHasNoSemicolon(pad1, t, pad2);
    assert u + ";" + parameters == u + [';'] + parameters;
    SplitAtFirst(u, ';', parameters);
    BeforeFirstNoSeparator(u, ';');
    TrimOfPadded(pad1, t, pad2);
  }

  lemma PaddedHasNoSemicolon(pad1: string, t: string, pad2: string)
    requires forall c :: c in pad1 ==> IsTrimChar(c)
    requires forall c :: c in pad2 ==> IsTrimChar(c)
    requires ';' !in t
    ensures ';' !in pad1 + t + pad2
  {
    var u := pad1 + t + pad2;
    assert forall i :: 0 <= i < |u| ==> u[i] in pad1 || u[i] in t || u[i] in pad2;
  }

  lemma TrimOfPadded(pad1: string, t: string, pad2: string)
    requires forall c :: c in pad1 ==> IsTrimChar(c)
    requires forall c :: c in pad2 ==> IsTrimChar(c)
    requires t != [] && !IsTrimChar(t[0]) && !IsTrimChar(t[|t| - 1])
    ensures Trim(pad1 + t + pad2) == t
  {
    assert pad1 + t + pad2 == pad1 + (t + pad2);
    TrimLeftPadding(pad1, t + pad2);
    TrimRightPadding(t, pad2);
  }

  /** The JSON handlers apply to a Content-Type line exactly when its type,
      lower-cased, is application/json or application/vnd.api+json, and
      the form handler exactly when it is application/x-www-form-urlencoded,
      whatever the case, the surrounding whitespace or the parameters. */
  lemma ApplicableMediaTypes(h: ContentHandler, pad1: string, t: string, pad2: string, parameters: string)
    requires forall c :: c in pad1 ==> IsTrimChar(c)
    requires forall c :: c in pad2 ==> IsTrimChar(c)
    requires t != [] && ';' !in t && !IsTrimChar(t[0]) && !IsTrimChar(t[|t| - 1])
    ensures h.JsonContentHandler? ==>
      (IsApplicableMimeType(h, MediaType(pad1 + t + pad2 + ";" + parameters)) <==>
        StrToLower(t) == "application/json" || StrToLower(t) == "application/vnd.api+json")
    ensures h.JsonContentHandler? ==>
      (IsApplicableMimeType(h, MediaType(pad1 + t + pad2)) <==>
        StrToLower(t) == "application/json" || StrToLower(t) == "application/vnd.api+json")
    ensures h.FormContentHandler? ==>
      (IsApplicableMimeType(h, MediaType(pad1 + t + pad2 + ";" + parameters)) <==>
        StrToLower(t) == "application/x-www-form-urlencoded")
    ensures h.FormContentHandler? ==>
      (IsApplicableMimeType(h, MediaType(pad1 + t + pad2)) <==> StrToLower(t) == "application/x-www-form-urlencoded")
  {
    MediaTypeOfLine(pad1, t, pad2, parameters);
  }

  /** Other JSON-based media types, such as application/vnd.custom+json,
      are not accepted by the JSON handler. */
  lemma CustomJsonNotAccepted(assoc: bool, maxDepth: int, options: int)
    ensures !IsApplicableMimeType(JsonContentHandler(assoc, maxDepth, options), "application/vnd.custom+json")
  {
  }

  /** Whitespace before the ";" and any parameters after it never change
      the media type of a Content-Type line whose type is already in
      lower case: the corollary of MediaTypeOfLine without leading
      whitespace, stated for a lower-case type. */
  lemma MediaTypeOfParameterized(mime: string, pad: string, parameters: string)
    requires mime != [] && !IsTrimChar(mime[0]) && !IsTrimChar(mime[|mime| - 1])
    requires forall c :: c in mime ==> c != ';' && !('A' <= c <= 'Z')
    requires forall c :: c in pad ==> IsTrimChar(c)
    ensures MediaType(mime + pad + ";" + parameters) == mime
  {
    assert ';' !in mime + pad by {
      assert forall i :: 0 <= i < |mime + pad| ==> (mime + pad)[i] in mime || (mime + pad)[i] in pad;
    }
    SplitAtFirst(mime + pad, ';', parameters);
    assert TrimLeft(mime + pad) == mime + pad;
    TrimRightPadding(mime, pad);
    LowerOfLowercase(mime);
  }

  /** `application/json ; charset=utf-8` (written here in its four pieces)
      has the media type `application/json`, which the JSON handler
      accepts. */
  lemma JsonWithParameters()
    ensures MediaType("application/json" + " " + ";" + " charset=utf-8") == "application/json"
    ensures IsApplicableMimeType(JsonContentHandler(), MediaType("application/json" + " " + ";" + " charset=utf-8"))
  {
    assert forall c :: c in "application/json" ==> c != ';' && !('A' <= c <= 'Z');
    MediaTypeOfParameterized("application/json", " ", " charset=utf-8");
  }

  /** The JSON handler's decode error becomes a RuntimeException with the
      message "Error parsing JSON: " and the library's error text; `next`
      is not reached. */
  lemma JsonErrorThrows(handler: ContentHandler, lib: Decoders, request: Request, response: Response, next: Next)
    requires handler.JsonContentHandler? && WillParse(handler, request)
    requires lib.jsonDecode(request.body, handler.assoc, handler.maxDepth, handler.options).errorCode != 0
    ensures Invoke(handler, lib, request, response, next) ==
      Throw("RuntimeException", "Error parsing JSON: " +
        lib.jsonDecode(request.body, handler.assoc, handler.maxDepth, handler.options).errorMessage)
  {
    ParsesThenCallsNext(handler, lib, request, response, next);
  }

  /** A successful JSON decode is passed on as the parsed body, as decoded;
      the default handler decodes with assoc = false, depth 512, options 0. */
  lemma JsonDecodedAsIs(lib: Decoders, request: Request, response: Response, next: Next)
    requires WillParse(JsonContentHandler(), request)
    requires lib.jsonDecode(request.body, false, 512, 0).errorCode == 0
    ensures Invoke(JsonContentHandler(), lib, request, response, next) ==
      next(request.(parsedBody := lib.jsonDecode(request.body, false, 512, 0).value), response)
  {
  }

  /** The form handler never throws: a form request that will be parsed
      reaches `next` with the parse_str array as its parsed body. */
  lemma FormNeverThrows(lib: Decoders, request: Request, response: Response, next: Next)
    requires WillParse(FormContentHandler, request)
    ensures GetParsedBody(FormContentHandler, lib, request.body) == Ok(Array(lib.parseStr(request.body)))
    ensures Invoke(FormContentHandler, lib, request, response, next) ==
      next(request.(parsedBody := Array(lib.parseStr(request.body))), response)
  {
  }
}
