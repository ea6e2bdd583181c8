# Relay.Middleware stages, modelled in Dafny

A model of the PSR-7 middleware stages of Relay.Middleware. Each stage is
invoked as `(request, response, next)`. Here `next` is the rest of the
chain: a function that either returns a response or throws. The stages are:

- **ContentHandler** with **JsonContentHandler** and **FormContentHandler**
  (`ContentHandling`). For a method other than GET and HEAD, the stage
  parses the request body into the parsed body. It does so when the media
  type of the Content-Type line suits the handler and the request has no
  truthy parsed body yet. A JSON decode error becomes a RuntimeException.
- **JsonDecoder** (`JsonDecoding`). This is the older JSON stage. For any
  method but GET with media type `application/json`, it overwrites the
  parsed body with whatever json_decode returns.
- **ResponseSender** (`ResponseSending`). It runs `next`, then sends the
  status line and one `Name: value` line per header value through
  `header()`. It then rewinds the body and echoes it in chunks of 8192
  bytes. `header()` and `echo` append to an output log (class `Output`).
- **ExceptionHandler** and **StatelessExceptionHandler**
  (`ExceptionHandling`). When `next` throws, the result is the held
  exception response with status 500 and the standard reason phrase for
  500. `Class: message` is written into
  its body stream. The stateless variant rebuilds the held response from
  its factory when none is held, and drops it after every call.
- **SessionHeadersHandler** (`SessionHeaders`). It remembers the session
  id the request's cookie carried and runs `next`. When the session id
  read afterwards differs, it adds one `Set-Cookie` value to the response.
  The value is built as newSessionCookie builds it.

Requests and responses are immutable values (module `Psr7`), as PSR-7
makes them. The one exception is a response's body, a `Stream` object
written in place. `withStatus(500)` copies a response with status 500
and the implementation's standard reason phrase for 500, but keeps the
same stream, so the model keeps that aliasing. The PHP built-ins the stages
call are modelled in `Php`: truthiness, strtolower, trim, the first piece
of explode, ucwords, str_replace on one character, int-to-string and
urlencode/urldecode.

Where the library's tests expect behaviour the code does not have, the
model follows the code. There are three such cases:

- The source says the cache-limiter headers are still to be done, and
  nothing in the code sends them. The tests expect `Expires`,
  `Cache-Control` and `Pragma` headers
  (tests/SessionHeadersHandlerTest.php:109-115, 147-153 and 192-198); the
  model does not send them.
- The tests list `application/vnd.custom+json` among the JSON media types
  and expect its body to be parsed (tests/JsonContentHandlerTest.php:25
  and 58-62). The code accepts only `application/json` and
  `application/vnd.api+json` (src/JsonContentHandler.php:42-43), and so
  does the model (ApplicableMediaTypes, CustomJsonNotAccepted).
- The tests expect a RuntimeException from the session headers stage's
  constructor when the session ini settings are wrong
  (tests/SessionHeadersHandlerTest.php:26-70). The code has no
  constructor and checks no ini setting, and neither does the model.

One behaviour of the code is worth noting, although no test covers it. A
session destroyed downstream, leaving the id `""`, still gets a Set-Cookie.
Its cookie-pair is `urlencode(name)=` with an empty value, followed by the
usual attributes (with PHP's default parameters, `PHPSESSID=; path=/`).

## Model

| member | source | states |
|---|---|---|
| Php.StringTruthy | src/SessionHeadersHandler.php:54 | no contract of its own: a string is non-empty in PHP's sense unless it is "" or "0"; OldId's contract states what this means for the old id |
| Php.Truthy | src/ContentHandler.php:118 | no contract of its own: PHP truthiness of a parsed-body value (null, false, 0, 0.0, "", "0" and the empty array are falsy; objects are truthy); ParsedPassesThrough states its use |
| Php.StrToLower | src/ContentHandler.php:117 | strtolower: same length, each character lower-cased, and no upper-case ASCII letter left |
| Php.LowerIdempotent | src/ContentHandler.php:117 | lower-casing twice is lower-casing once |
| Php.Trim | src/ContentHandler.php:117 | trim: the input is a run of " \t\n\r\0\x0B" characters, then the result, then another such run, and the result neither starts nor ends with one of them |
| Php.TrimLeftPadding | src/ContentHandler.php:117 | leading whitespace before a string not starting with whitespace is exactly what trim removes from the left |
| Php.TrimRightPadding | src/ContentHandler.php:117 | trailing whitespace after a string not ending in whitespace is exactly what trim removes |
| Php.BeforeFirst | src/ContentHandler.php:116-117 | the first piece of explode(';', s) is the prefix up to the first separator, or all of s, and holds no separator |
| Php.SplitAtFirst | src/ContentHandler.php:116-117 | splitting a + sep + b at the first sep gives back a and b when a holds no sep |
| Php.UcWords | src/ResponseSender.php:94 | ucwords upper-cases the first character and each one after a space, tab, CR, LF, FF or VT, and nothing else |
| Php.ReplaceChar | src/ResponseSender.php:93-95 | str_replace of one character: same length, each occurrence replaced, all else kept |
| Php.IntToString | src/ResponseSender.php:61 | the decimal string of an integer is well formed (an optional "-" then at least one digit) and starts with "-" exactly for a negative integer, has no leading zero, and is "0" exactly for zero |
| Php.IntToStringRoundTrip | src/ResponseSender.php:61 | the decimal string of an integer reads back as the integer |
| Php.UrlEncode | src/SessionHeadersHandler.php:88 | every character urlencode produces is a letter, a digit, "-", "_", ".", "+" or "%" |
| Php.UrlDecodeEncode | src/SessionHeadersHandler.php:88 | urldecode undoes urlencode, for every byte string |
| Psr7.HeaderLine | src/ContentHandler.php:116 | no contract of its own: getHeaderLine gives the request's line for the lower-cased name, or "" when the header is missing; MediaTypeOfEmpty and NoContentTypePassesThrough state the missing case |
| Psr7.GetHeader | src/SessionHeadersHandler.php:67-70 | no contract of its own: the values of the first field FindHeader matches, or none; WithAddedHeader's contract states how adding a value changes them |
| Psr7.FindHeader | src/SessionHeadersHandler.php:67-70 | the header lookup finds the first field whose name matches case-insensitively, and none before it matches |
| Psr7.WithAddedHeader | src/SessionHeadersHandler.php:67-70 | withAddedHeader appends the value to the header's values, keeping every field in place; all other headers and all non-header parts are unchanged |
| Psr7.WithStatus | src/ExceptionHandler.php:38 | withStatus sets the status, and the phrase to the one given or, when it is empty (the default), to the standard phrase for the code; version, headers and body stream stay the same |
| Psr7.Stream.Read | src/ResponseSender.php:115 | a read returns the bytes from the position, at most `length` of them, and moves past them |
| Psr7.Stream.Write | src/ExceptionHandler.php:39 | a write overwrites the stream from the position (growing it past the end) and moves past the data |
| ContentHandling.MediaType | src/ContentHandler.php:116-117 | the media type has no ";", no surrounding whitespace and no upper-case ASCII letter |
| ContentHandling.MediaTypeIgnoresParameters | src/ContentHandler.php:116-117 | parameters after the first ";" never change the media type |
| ContentHandling.MediaTypeIdempotent | src/ContentHandler.php:116-117 | the media type of a media type is itself |
| ContentHandling.CustomJsonNotAccepted | src/JsonContentHandler.php:40-44 | the JSON handler does not accept application/vnd.custom+json, although tests/JsonContentHandlerTest.php:25 lists it |
| ContentHandling.MediaTypeOfParameterized | src/ContentHandler.php:116-117 | a lower-case type followed by whitespace, ";" and parameters has that type as its media type (the corollary of MediaTypeOfLine with no leading whitespace) |
| ContentHandling.JsonWithParameters | src/ContentHandler.php:116-118 | `application/json ; charset=utf-8` has media type application/json, which the JSON handler accepts |
| ContentHandling.ThrowException | src/ContentHandler.php:73-76 | throwException always throws a RuntimeException carrying the message |
| ContentHandling.MediaTypeOfLine | src/ContentHandler.php:116-117 | a Content-Type line made of a type with whitespace around it, with or without ";" and parameters, has that type lower-cased as its media type |
| ContentHandling.ApplicableMediaTypes | src/JsonContentHandler.php:40-44 | for any Content-Type line of that shape, the JSON handler applies exactly when the lower-cased type is application/json or application/vnd.api+json, and the form handler (src/FormContentHandler.php:10-13) exactly when it is application/x-www-form-urlencoded, whatever the case, padding or parameters |
| ContentHandling.IsApplicableMimeType | src/JsonContentHandler.php:40-44 | no contract of its own: the JSON handler accepts application/json and application/vnd.api+json, the form handler (src/FormContentHandler.php:10-13) application/x-www-form-urlencoded; ApplicableMediaTypes states it for whole Content-Type lines |
| ContentHandling.GetParsedBody | src/JsonContentHandler.php:49-58 | the form handler (src/FormContentHandler.php:18-22) never fails; only the JSON handler can throw, and then a RuntimeException |
| ContentHandling.RequestWithParsedBody | src/ContentHandler.php:114-123 | a parsed request differs from the incoming one in its parsed body only; when the media type does not suit the handler or the parsed body is truthy, the request is returned as it came; only the JSON handler throws, and then a RuntimeException |
| ContentHandling.WillParse | src/ContentHandler.php:93-100 | a request whose body will be parsed is neither a GET nor a HEAD request |
| ContentHandling.Invoke | src/ContentHandler.php:91-103 | a request that will not be parsed reaches `next` unchanged, and `next`'s outcome is the result |
| ContentHandling.InapplicablePassesThrough | src/ContentHandler.php:114-122 | a media type the handler does not accept leaves the request as it came, and `next`'s outcome is the result |
| ContentHandling.ParsedPassesThrough | src/ContentHandler.php:118 | a request with a truthy parsed body is not parsed again |
| ContentHandling.BodilessMethodsPassThrough | src/ContentHandler.php:91-103 | GET and HEAD requests reach `next` unchanged |
| ContentHandling.ParsesThenCallsNext | src/ContentHandler.php:91-122 | when the gate opens, `next` gets the request with only its parsed body replaced by the parse of the whole body; a parse error is thrown instead and `next` is not reached |
| ContentHandling.JsonErrorThrows | src/JsonContentHandler.php:49-58 | a JSON decode error throws RuntimeException "Error parsing JSON: " followed by the library's message |
| ContentHandling.JsonDecodedAsIs | src/JsonContentHandler.php:30-35 | the default JSON handler decodes with assoc false, depth 512, options 0, and passes the decoded value on as is |
| ContentHandling.FormNeverThrows | src/FormContentHandler.php:18-22 | the form handler never throws and passes on the parse_str array |
| JsonDecoding.WillDecode | src/JsonDecoder.php:72-75 | the body is decoded only for a request that has a Content-Type header |
| JsonDecoding.Invoke | src/JsonDecoder.php:70-86 | no contract of its own: the request passed to `next` is the incoming one, with the decoded body as parsed body when the gate opens; DecodesIffGateOpens states both cases |
| JsonDecoding.DecodesIffGateOpens | src/JsonDecoder.php:70-86 | when the method is not GET and the media type is application/json, `next` sees the decoded value as parsed body, whatever the error and the earlier parsed body; otherwise `next` sees the request as it came |
| JsonDecoding.NoContentTypePassesThrough | src/JsonDecoder.php:72-75 | a request without Content-Type keeps its parsed body |
| JsonDecoding.DiffersFromJsonContentHandler | src/JsonDecoder.php:50-86 | with default settings (depth 256), HEAD requests and requests with a truthy parsed body are decoded by this stage, while the JSON content handler passes them through |
| JsonDecoding.AgreesWithJsonContentHandler | src/JsonDecoder.php:70-86 | where both stages parse with equal settings and the decode succeeds, both hand `next` the same request |
| ResponseSending.Output.Header | src/ResponseSender.php:61 | header() appends one header call to the log |
| ResponseSending.Output.Echo | src/ResponseSender.php:115 | echo appends one echo call to the log |
| ResponseSending.StatusLine | src/ResponseSender.php:61 | no contract of its own: "HTTP/", version, space, status code, space, phrase; StatusLineRoundTrip states that it can be read back |
| ResponseSending.StatusLineRoundTrip | src/ResponseSender.php:56-62 | the status line "HTTP/version status phrase" parses back into its version, code and phrase (version without spaces) |
| ResponseSending.CanonicalName | src/ResponseSender.php:93-95 | the sent name has the name's length; CanonicalNameChars states each character |
| ResponseSending.CanonicalNameChars | src/ResponseSender.php:93-95 | the sent name has the name's length; "-" and space become "-", each word's first letter is upper-cased, all else is kept |
| ResponseSending.CanonicalNameOfDashedWords | src/ResponseSender.php:93-95 | for a dashed name without whitespace, only each word's first character changes, to upper case |
| ResponseSending.CanonicalNameIdempotent | src/ResponseSender.php:93-95 | canonicalising a name twice is canonicalising it once |
| ResponseSending.HeaderLineSplits | src/ResponseSender.php:97 | each header line splits at its first ":" into the canonical name and " value" |
| ResponseSending.ValueCalls | src/ResponseSender.php:96-98 | one non-replacing "Name: value" call per value, in value order |
| ResponseSending.HeaderCalls | src/ResponseSender.php:73-78 | no contract of its own: the calls of every header field, in field order; HeaderCallsCount and HeaderCallsPrefix state their number and order |
| ResponseSending.HeaderCallsCount | src/ResponseSender.php:73-78 | the header calls number exactly the values of all headers, and none replaces another |
| ResponseSending.ChunksConcat | src/ResponseSender.php:114-116 | the chunks put together are the whole body |
| ResponseSending.ChunksSizes | src/ResponseSender.php:115 | every chunk is 1 to 8192 bytes, and all but the last are exactly 8192 |
| ResponseSending.BodyCalls | src/ResponseSender.php:110-117 | no contract of its own: one echo per chunk of 8192 bytes; BodyCallsSendBody states that they echo the whole body |
| ResponseSending.BodyCallsSendBody | src/ResponseSender.php:110-117 | the echoed text of the body calls is the whole body, in echoes of 1 to 8192 bytes |
| ResponseSending.SendStatus | src/ResponseSender.php:56-62 | one replacing header call with the status line, which StatusLineRoundTrip reads back |
| ResponseSending.SendHeader | src/ResponseSender.php:91-99 | the log gains exactly the header's calls under its canonical name |
| ResponseSending.SendHeaders | src/ResponseSender.php:73-78 | the log gains the calls of every header, in header-map order |
| ResponseSending.SendBody | src/ResponseSender.php:110-117 | the stream is rewound and read to its end, its contents are unchanged, and the log gains the chunked echoes of the whole body |
| ResponseSending.Invoke | src/ResponseSender.php:38-45 | `next`'s outcome is the result; on a response the log gains the status line, the header lines and the body, in that order; on an exception nothing is sent |
| ExceptionHandling.ExceptionText | src/ExceptionHandler.php:39 | the text is the class name, ": ", then the message |
| ExceptionHandling.ExceptionTextRoundTrip | src/ExceptionHandler.php:39 | class name and message can be read back from the text |
| ExceptionHandling.Catch | src/ExceptionHandler.php:35-40 | a returned response is passed on with the held body untouched; an exception gives withStatus(500) of the held response (status 500, the standard phrase for 500, the same stream) after the text is written into that stream at its position |
| ExceptionHandling.ExceptionHandler.constructor | src/ExceptionHandler.php:28-31 | the handler holds the given exception response |
| ExceptionHandling.ExceptionHandler.Invoke | src/ExceptionHandler.php:33-42 | without an exception, `next`'s response with the held body unchanged; with one, withStatus(500) of the held response (standard phrase for 500), its stream overwritten with the exception text at its position |
| ExceptionHandling.TwoExceptionsAccumulate | src/ExceptionHandler.php:26-42 | for a handler whose held body is positioned at its end, two caught exceptions write into the one held body, one after the other, and both results share that stream |
| ExceptionHandling.Build | src/StatelessExceptionHandler.php:50 | the factory gives a response with a fresh stream holding the factory's body, positioned where the factory left it |
| ExceptionHandling.StatelessExceptionHandler.constructor | src/StatelessExceptionHandler.php:46-51 | stores the factory and holds a freshly built response |
| ExceptionHandling.StatelessExceptionHandler.Invoke | src/StatelessExceptionHandler.php:67-78 | a missing held response is rebuilt; an exception gives status 500 with the standard phrase, and the text written into a fresh factory stream at the factory's position (or into the held stream at its position); a returned response leaves the held stream untouched; afterwards no response is held |
| ExceptionHandling.RewoundBodyReplaced | src/ExceptionHandler.php:39 | writing a text at least as long as a rewound body replaces it entirely |
| ExceptionHandling.RepeatedExceptions | src/StatelessExceptionHandler.php:67-78 | from a handler holding no response (every call after the first), every repeated exceptional call gives status 500 with the standard phrase, and a body that is the factory's body with the exception text written at the factory's position: the body followed by the text when the factory leaves its stream at the end, exactly the text for an empty body (tests/StatelessExceptionHandlerTest.php:33-37); nothing accumulates |
| SessionHeaders.OldId | src/SessionHeadersHandler.php:51-56 | the old id is the cookie under the session name when that is non-empty in PHP's sense, and "" otherwise (a missing cookie, "" or "0") |
| SessionHeaders.Attributes | src/SessionHeadersHandler.php:93-112 | no contract of its own: the attributes the cookie parameters call for; AttributesOrder and AttributesPresence state their order and presence |
| SessionHeaders.SessionCookie | src/SessionHeadersHandler.php:86-115 | no contract of its own: the encoded pair followed by the rendered attributes; NewSessionCookie, CookiePairRoundTrip and CookiePairSyntax state what it holds |
| SessionHeaders.Render | src/SessionHeadersHandler.php:95-111 | every attribute renders as "; " then its text |
| SessionHeaders.WriteIsConcat | src/SessionHeadersHandler.php:93-112 | appending attributes one at a time appends their renderings |
| SessionHeaders.NewSessionCookie | src/SessionHeadersHandler.php:86-115 | the cookie built by the successive appends is the encoded pair followed by the attributes the parameters call for |
| SessionHeaders.AttributesOrder | src/SessionHeadersHandler.php:93-112 | the attributes come in the order expires, max-age, domain, path, secure, httponly, so none appears twice |
| SessionHeaders.AttributesPresence | src/SessionHeadersHandler.php:93-112 | each attribute is present exactly when its parameter is truthy, with the value from the parameters, and no other is present |
| SessionHeaders.ExpiresWithMaxAge | src/SessionHeadersHandler.php:93-96 | expires (the date of now + lifetime) then max-age come first exactly when the lifetime is non-zero |
| SessionHeaders.CookiePairRoundTrip | src/SessionHeadersHandler.php:88 | the cookie up to its first ";" is urlencode(name)=urlencode(id), and decoding its two sides gives back the name and the id |
| SessionHeaders.CookiePairSyntax | src/SessionHeadersHandler.php:88 | the encoded name is an RFC 6265 (section 4.1.1) cookie-name token and the encoded id is made of cookie-octets |
| SessionHeaders.Invoke | src/SessionHeadersHandler.php:48-75 | the stage throws exactly when `next` throws; otherwise the result is `next`'s response with only its headers changed, every existing field kept in place with its values, and at most one Set-Cookie value added |
| SessionHeaders.SetCookieIffIdChanged | src/SessionHeadersHandler.php:48-75 | a Set-Cookie value is added after any existing ones exactly when the id after `next` differs from the incoming one; other headers keep their values; exceptions pass through |
| SessionHeaders.DestroyedSessionSendsEmptyCookie | src/SessionHeadersHandler.php:62-71 | a request that had a session cookie, with id "" afterwards, still gets a Set-Cookie whose pair is "name=" with an empty value |
| SessionHeaders.CookieUsesStateAfterNext | src/SessionHeadersHandler.php:66-69 | the added cookie carries the session name and id as read after `next` |
| SessionHeaders.DefaultAttributes | src/SessionHeadersHandler.php:91-112 | PHP's default cookie parameters call for the path attribute only |
| SessionHeaders.DefaultParamsCookie | tests/SessionHeadersHandlerTest.php:105-107 | with the default parameters the cookie is exactly `PHPSESSID=<id>; path=/` for an id of URL-safe characters |

## Left out

- The cache-limiter headers (`Expires`, `Cache-Control`, `Last-Modified`, `Pragma`): the source leaves them as a to-do (src/SessionHeadersHandler.php:26-28), so the code does not send them, and neither does the model.
- The session ini settings (`session.use_trans_sid`, `session.use_cookies`, `session.use_only_cookies`): the documentation (src/SessionHeadersHandler.php:18-24) makes them a precondition on the caller, which neither the code nor the model checks.
- Throwables that are not `Exception` (PHP `Error`): `next` either returns or throws one exception, given by its class name and message, and that exception is always caught.
- `get_class`: an exception is its class name as a string; class hierarchies are not modelled.
- The effects of `header()` and `echo` on a real connection (headers already sent, output buffering): both append to an ordered log.
- Body streams are held in memory: `eof` holds once the position reaches the end, `rewind` always succeeds, and no read or write fails.
- `json_decode`, `parse_str`, `gmdate`, `time()` and the PHP session runtime (`session_name`, `session_id`, `session_get_cookie_params`): they are parameters, or values read before and after `next`.
- Request header lookup: a request's header lines are given keyed by the lower-cased name, and the stages look up `content-type`.
- Cookie values and header values that are arrays: cookies are strings.
- Float values in a parsed body are reals; NaN and the other float details are not modelled.
- Calling `next` exactly once: each stage applies `next` once in its definition; no separate lemma states it.
- The response factory is a prototype value; building from it gives a response with a fresh stream holding the prototype's body at the prototype's position. A factory with side effects, or one that returns a stream shared between calls, is not modelled.
- PSR-7 `getHeaders()` keeps the name as first given; `withAddedHeader` adds under that name. Header-name validation by the PSR-7 implementation is not modelled.
- Header-value validation: the PSR-7 implementation rejects a value holding CR or LF in `withAddedHeader` (one could come from a cookie domain); the model adds any value.
- Exceptions from `json_decode`: the model's decoder never throws. With JSON_THROW_ON_ERROR in the options the stages would see a JsonException, and a depth of 0 or less raises a ValueError; neither is modelled.
- `time() + lifetime` is an unbounded integer; PHP's integer overflow into a float is not modelled.
- Php.UcWords, Php.StrToLower: ASCII-only case conversion (as in PHP 8.2 and later); the locale-dependent conversion of earlier PHP versions is not modelled.
- The standard reason phrases of the PSR-7 implementation are a parameter (`StandardPhrases`); status-code validation in withStatus is not modelled, since the stages only ever pass 500.
