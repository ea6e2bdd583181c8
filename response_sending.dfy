/** ResponseSender, the stage that emits the response `next` returns: the
    status line and the header lines through header(), then the body in
    chunks of at most 8192 bytes through echo. Both outputs are appended to
    one log, in the order they happen. */
module ResponseSending {
  import opened Php
  import opened Psr7

  /** One call of header(line, replace) or of echo text. */
  datatype Call = HeaderCall(line: string, replace: bool) | EchoCall(text: string)

  /** What has been sent to the client so far. */
  class Output {
    var log: seq<Call>

    constructor ()
      ensures log == []
    {
      log := [];
    }

    /** header(line, replace) */
    method Header(line: string, replace: bool)
      modifies this
      ensures log == old(log) + [HeaderCall(line, replace)]
    {
      log := log + [HeaderCall(line, replace)];
    }

    /** echo text */
    method Echo(text: string)
      modifies this
      ensures log == old(log) + [EchoCall(text)]
    {
      log := log + [EchoCall(text)];
    }
  }

  /** The size of the body chunks. */
  const ChunkSize: nat := 8192

  // ---------------------------------------------------------------------
  // The status line

  function StatusLine(version: string, status: int, phrase: string): string {
    "HTTP/" + version + " " + IntToString(status) + " " + phrase
  }

  datatype StatusParts = StatusParts(version: string, status: int, phrase: string)

  /** Reading a status line back: "HTTP/", the version up to the first
      space, the status code up to the next space, the phrase after it. */
  function ParseStatusLine(line: string): Option<StatusParts> {
    if |line| < 5 || line[..5] != "HTTP/" then None
    else
      var rest := line[5..];
      var version := BeforeFirst(rest, ' ');
      var afterVersion := AfterFirst(rest, ' ');
      var code := BeforeFirst(afterVersion, ' ');
      if |version| == |rest| || |code| == |afterVersion| || !IsIntString(code) then None
      else Some(StatusParts(version, IntValue(code), AfterFirst(afterVersion, ' ')))
  }

  lemma IntStringHasNoSpace(s: string)
    requires IsIntString(s)
    ensures ' ' !in s
  {
    if ' ' in s {
      var k :| 0 <= k < |s| && s[k] == ' ';
      assert false;
    }
  }

  /** The status line gives back the version, the code and the phrase it
      was made of, provided the version holds no space (the phrase may). */
  lemma StatusLineRoundTrip(version: string, status: int, phrase: string)
    requires ' ' !in version
    ensures ParseStatusLine(StatusLine(version, status, phrase)) == Some(StatusParts(version, status, phrase))
  {
    var code := IntToString(status);
    var line := StatusLine(version, status, phrase);
    var rest := version + " " + code + " " + phrase;
    assert line == "HTTP/" + rest;
    assert line[..5] == "HTTP/";
    assert line[5..] == rest;
    assert rest == version + [' '] + (code + " " + phrase);
    SplitAtFirst(version, ' ', code + " " + phrase);
    IntStringHasNoSpace(code);
    assert code + " " + phrase == code + [' '] + phrase;
    SplitAtFirst(code, ' ', phrase);
    IntToStringRoundTrip(status);
  }

  // ---------------------------------------------------------------------
  // Header lines

  /** The name as sent: each "-"-separated (and space-separated) word gets
      an upper-case first letter, and spaces become "-". */
  function CanonicalName(name: string): (sent: string)
    ensures |sent| == |name|
  {
    ReplaceChar(UcWords(ReplaceChar(name, '-', ' ')), ' ', '-')
  }

  /** Whether position `i` of `name` starts a word of the canonical name. */
  predicate StartsWord(name: string, i: nat)
    requires i < |name|
  {
    i == 0 || name[i - 1] == '-' || IsWordDelimiter(name[i - 1])
  }

  /** The canonical name has the length of the name; "-" and space become
      "-", the first letter of every word is upper-cased and every other
      character is left as it is. */
  lemma CanonicalNameChars(name: string)
    ensures |CanonicalName(name)| == |name|
    ensures forall i :: 0 <= i < |name| ==>
      CanonicalName(name)[i] ==
        if name[i] == '-' || name[i] == ' ' then '-'
        else if StartsWord(name, i) then UpperChar(name[i])
        else name[i]
  {
    var spaced := ReplaceChar(name, '-', ' ');
    var upper := UcWords(spaced);
    forall i | 0 <= i < |name|
      ensures CanonicalName(name)[i] ==
        if name[i] == '-' || name[i] == ' ' then '-'
        else if StartsWord(name, i) then UpperChar(name[i])
        else name[i]
    {
      if i > 0 {
        assert IsWordDelimiter(spaced[i - 1]) <==> name[i - 1] == '-' || IsWordDelimiter(name[i - 1]);
      }
    }
  }

  /** Upper-casing keeps "-", spaces and word delimiters, and upper-casing
      twice is upper-casing once. */
  lemma UpperCharFacts(c: char)
    ensures UpperChar(UpperChar(c)) == UpperChar(c)
    ensures UpperChar(c) == '-' <==> c == '-'
    ensures UpperChar(c) == ' ' <==> c == ' '
    ensures IsWordDelimiter(UpperChar(c)) <==> IsWordDelimiter(c)
  {
  }

  /** For a name made of "-"-separated words without whitespace, the first
      character of every word is upper-cased and nothing else changes. */
  lemma CanonicalNameOfDashedWords(name: string)
    requires forall i :: 0 <= i < |name| ==> !IsWordDelimiter(name[i])
    ensures |CanonicalName(name)| == |name|
    ensures forall i :: 0 <= i < |name| ==>
      CanonicalName(name)[i] ==
        if i == 0 || name[i - 1] == '-' then UpperChar(name[i]) else name[i]
  {
    CanonicalNameChars(name);
    assert forall i :: 0 <= i < |name| && name[i] == '-' ==> UpperChar(name[i]) == '-';
  }

  /** Canonicalising twice gives the same as canonicalising once. */
  lemma CanonicalNameIdempotent(name: string)
    ensures CanonicalName(CanonicalName(name)) == CanonicalName(name)
  {
    var once := CanonicalName(name);
    var twice := CanonicalName(once);
    CanonicalNameChars(name);
    CanonicalNameChars(once);
    forall i | 0 <= i < |name|
      ensures twice[i] == once[i]
    {
      UpperCharFacts(name[i]);
      if i > 0 {
        UpperCharFacts(name[i - 1]);
        assert StartsWord(once, i) <==> StartsWord(name, i);
      }
    }
  }

  /** The header() calls for one header: one "Name: value" line per value,
      in value order, none of them replacing an earlier line. */
  function FieldCalls(f: HeaderField): (calls: seq<Call>)
    ensures |calls| == |f.values|
    ensures forall j :: 0 <= j < |calls| ==> calls[j].HeaderCall? && !calls[j].replace
  {
    ValueCalls(CanonicalName(f.name), f.values)
  }

  function ValueCalls(name: string, values: seq<string>): (calls: seq<Call>)
    ensures |calls| == |values|
    ensures forall j :: 0 <= j < |calls| ==> calls[j] == HeaderCall(name + ": " + values[j], false)
  {
    if values == [] then [] else ValueCalls(name, values[..|values| - 1]) + [HeaderCall(name + ": " + values[|values| - 1], false)]
  }

  /** The header() calls for all headers, in header-map order. */
  function HeaderCalls(hs: seq<HeaderField>): seq<Call> {
    if hs == [] then [] else HeaderCalls(hs[..|hs| - 1]) + FieldCalls(hs[|hs| - 1])
  }

  lemma LogAssoc(a: seq<Call>, b: seq<Call>, c: seq<Call>)
    ensures a + b + c == a + (b + c)
  {
  }

  lemma HeaderCallsPrefix(hs: seq<HeaderField>, i: nat)
    requires i < |hs|
    ensures HeaderCalls(hs[..i + 1]) == HeaderCalls(hs[..i]) + FieldCalls(hs[i])
  {
    assert hs[..i + 1][..i] == hs[..i];
  }

  /** One header line per header value, and none replaces another. */
  lemma {:induction false} HeaderCallsCount(hs: seq<HeaderField>)
    ensures |HeaderCalls(hs)| == ValueCount(hs)
    ensures forall j :: 0 <= j < |HeaderCalls(hs)| ==> HeaderCalls(hs)[j].HeaderCall? && !HeaderCalls(hs)[j].replace
  {
    if hs != [] {
      HeaderCallsCount(hs[..|hs| - 1]);
      ValueCountLast(hs);
    }
  }

  /** The number of values over all headers. */
  function ValueCount(hs: seq<HeaderField>): nat {
    if hs == [] then 0 else |hs[0].values| + ValueCount(hs[1..])
  }

  lemma {:induction false} ValueCountLast(hs: seq<HeaderField>)
    requires hs != []
    ensures ValueCount(hs) == ValueCount(hs[..|hs| - 1]) + |hs[|hs| - 1].values|
  {
    if |hs| > 1 {
      assert hs[1..][..|hs[1..]| - 1] == hs[..|hs| - 1][1..];
      ValueCountLast(hs[1..]);
    }
  }

  /** A header line splits at its first ":" into the canonical name and the
      value behind one space, when the name itself holds no ":". */
  lemma HeaderLineSplits(name: string, value: string)
    requires ':' !in name
    ensures BeforeFirst(CanonicalName(name) + ": " + value, ':') == CanonicalName(name)
    ensures AfterFirst(CanonicalName(name) + ": " + value, ':') == " " + value
  {
    var c := CanonicalName(name);
    CanonicalNameChars(name);
    assert forall i :: 0 <= i < |name| ==> c[i] != ':' by {
      forall i | 0 <= i < |name| ensures c[i] != ':' {
        assert name[i] != ':';
      }
    }
    assert c + ": " + value == c + [':'] + (" " + value);
    SplitAtFirst(c, ':', " " + value);
  }

  // ---------------------------------------------------------------------
  // Body chunks

  /** The successive reads of `s` in pieces of at most `size` bytes. */
  function Chunks(s: string, size: nat): seq<string>
    requires size > 0
    decreases |s|
  {
    if s == [] then []
    else if |s| <= size then [s]
    else [s[..size]] + Chunks(s[size..], size)
  }

  function Concat(parts: seq<string>): string {
    if parts == [] then [] else parts[0] + Concat(parts[1..])
  }

  /** The chunks put back together are the whole string. */
  lemma {:induction false} ChunksConcat(s: string, size: nat)
    requires size > 0
    ensures Concat(Chunks(s, size)) == s
    decreases |s|
  {
    if |s| > size {
      ChunksConcat(s[size..], size);
      assert Chunks(s, size)[1..] == Chunks(s[size..], size);
      assert s == s[..size] + s[size..];
    }
  }

  /** Each chunk is non-empty and at most `size` long, and all but the last
      are exactly `size` long. */
  lemma {:induction false} ChunksSizes(s: string, size: nat)
    requires size > 0
    ensures forall j :: 0 <= j < |Chunks(s, size)| ==> 0 < |Chunks(s, size)[j]| <= size
    ensures forall j :: 0 <= j < |Chunks(s, size)| - 1 ==> |Chunks(s, size)[j]| == size
    decreases |s|
  {
    if |s| > size {
      ChunksSizes(s[size..], size);
      var cs := Chunks(s, size);
      assert forall j :: 1 <= j < |cs| ==> cs[j] == Chunks(s[size..], size)[j - 1];
    }
  }

  /** The first echoed chunk is what one read of `size` bytes gives. */
  lemma BodyCallsStep(s: string, chunk: string, remaining: string)
    requires s != [] && chunk == s[..if |s| <= ChunkSize then |s| else ChunkSize]
    requires remaining == s[|chunk|..]
    ensures BodyCalls(s) == [EchoCall(chunk)] + BodyCalls(remaining)
  {
    ChunksStep(s, ChunkSize);
    assert EchoCalls([chunk] + Chunks(remaining, ChunkSize)) == [EchoCall(chunk)] + BodyCalls(remaining);
  }

  /** The first chunk is what one read of `size` bytes gives. */
  lemma ChunksStep(s: string, size: nat)
    requires size > 0 && s != []
    ensures var n := if |s| <= size then |s| else size;
      Chunks(s, size) == [s[..n]] + Chunks(s[n..], size)
  {
    if |s| <= size {
      assert s[..|s|] == s;
      assert s[|s|..] == [];
    }
  }

  function EchoCalls(chunks: seq<string>): (calls: seq<Call>)
    ensures |calls| == |chunks|
  {
    if chunks == [] then [] else [EchoCall(chunks[0])] + EchoCalls(chunks[1..])
  }

  /** The echo calls that send `body`. */
  function BodyCalls(body: string): seq<Call> {
    EchoCalls(Chunks(body, ChunkSize))
  }

  /** The text a log echoes, in order; header() calls add nothing. */
  function EchoedText(log: seq<Call>): string {
    if log == [] then []
    else (if log[0].EchoCall? then log[0].text else []) + EchoedText(log[1..])
  }

  lemma {:induction false} EchoedChunks(chunks: seq<string>)
    ensures EchoedText(EchoCalls(chunks)) == Concat(chunks)
  {
    if chunks != [] {
      assert EchoCalls(chunks)[1..] == EchoCalls(chunks[1..]);
      EchoedChunks(chunks[1..]);
    }
  }

  /** The text echoed by the body calls is the whole body, sent in chunks
      of 1 to 8192 bytes. */
  lemma BodyCallsSendBody(body: string)
    ensures EchoedText(BodyCalls(body)) == body
    ensures forall j :: 0 <= j < |BodyCalls(body)| ==>
      BodyCalls(body)[j].EchoCall? && 0 < |BodyCalls(body)[j].text| <= ChunkSize
  {
    ChunksConcat(body, ChunkSize);
    ChunksSizes(body, ChunkSize);
    EchoedChunks(Chunks(body, ChunkSize));
    EchoCallsAt(Chunks(body, ChunkSize));
  }

  lemma {:induction false} EchoCallsAt(chunks: seq<string>)
    ensures forall j :: 0 <= j < |chunks| ==> EchoCalls(chunks)[j] == EchoCall(chunks[j])
  {
    if chunks != [] {
      EchoCallsAt(chunks[1..]);
    }
  }

  /** Everything the stage sends for `r`, in order. */
  function SentCalls(r: Response, body: string): seq<Call> {
    [HeaderCall(StatusLine(r.version, r.status, r.phrase), true)] + HeaderCalls(r.headers) + BodyCalls(body)
  }

  // ---------------------------------------------------------------------
  // The stage

  /** sendStatus */
  method SendStatus(r: Response, out: Output)
    modifies out
    ensures out.log == old(out.log) + [HeaderCall(StatusLine(r.version, r.status, r.phrase), true)]
  {
    out.Header("HTTP/" + r.version + " " + IntToString(r.status) + " " + r.phrase, true);
  }

  /** sendHeader */
  method SendHeader(f: HeaderField, out: Output)
    modifies out
    ensures out.log == old(out.log) + FieldCalls(f)
  {
    var name := ReplaceChar(f.name, '-', ' ');
    name := UcWords(name);
    name := ReplaceChar(name, ' ', '-');
    var j := 0;
    while j < |f.values|
      invariant 0 <= j <= |f.values|
      invariant out.log == old(out.log) + ValueCalls(name, f.values[..j])
    {
      assert f.values[..j + 1][..j] == f.values[..j];
      out.Header(name + ": " + f.values[j], false);
      j := j + 1;
    }
    assert f.values[..j] == f.values;
  }

  /** sendHeaders */
  method SendHeaders(r: Response, out: Output)
    modifies out
    ensures out.log == old(out.log) + HeaderCalls(r.headers)
  {
    ghost var start := out.log;
    var i := 0;
    while i < |r.headers|
      invariant 0 <= i <= |r.headers|
      invariant out.log == start + HeaderCalls(r.headers[..i])
    {
      HeaderCallsPrefix(r.headers, i);
      LogAssoc(start, HeaderCalls(r.headers[..i]), FieldCalls(r.headers[i]));
      SendHeader(r.headers[i], out);
      i := i + 1;
    }
    assert r.headers[..i] == r.headers;
  }

  /** sendBody: rewind, then read and echo chunks until the end. */
  method SendBody(r: Response, out: Output)
    requires r.body.Valid()
    modifies out, r.body
    ensures r.body.Valid() && r.body.contents == old(r.body.contents) && r.body.Eof()
    ensures out.log == old(out.log) + BodyCalls(old(r.body.contents))
  {
    var stream := r.body;
    ghost var body := stream.contents;
    ghost var sent := out.log;
    stream.Rewind();
    assert body[stream.pos..] == body;
    while !stream.Eof()
      invariant stream.Valid() && stream.contents == body
      invariant out.log + BodyCalls(body[stream.pos..]) == sent + BodyCalls(body)
      decreases |body| - stream.pos
    {
      ghost var rest := body[stream.pos..];
      ghost var before := out.log;
      var chunk := stream.Read(ChunkSize);
      BodyCallsStep(rest, chunk, body[stream.pos..]);
      out.Echo(chunk);
      assert out.log + BodyCalls(body[stream.pos..]) == before + BodyCalls(rest);
    }
    assert body[stream.pos..] == [];
  }

  /** __invoke: `next` runs first. When it returns a response, the status
      line, the header lines and the body are sent in that order and the
      response is returned; when it throws, nothing is sent and the
      exception goes on up the chain. */
  method Invoke(request: Request, response: Response, next: Next, out: Output) returns (result: Outcome<Response>)
    requires next(request, response).Ok? ==>
      allocated(next(request, response).value.body) && next(request, response).value.body.Valid()
    modifies out, if next(request, response).Ok? then {next(request, response).value.body} else {}
    ensures result == next(request, response)
    ensures result.Throw? ==> out.log == old(out.log)
    ensures result.Ok? ==>
      out.log == old(out.log) + SentCalls(result.value, old(next(request, response).value.body.contents)) &&
      result.value.body.contents == old(next(request, response).value.body.contents) && result.value.body.Eof()
  {
    result := next(request, response);
    if result.Ok? {
      var r := result.value;
      ghost var start := out.log;
      ghost var body := r.body.contents;
      SendStatus(r, out);
      ghost var status := out.log;
      SendHeaders(r, out);
      ghost var headers := out.log;
      SendBody(r, out);
      SentCallsSplit(r, body, start, status, headers, out.log);
    }
  }

  /** The three sends put together make the calls of SentCalls. */
  lemma SentCallsSplit(r: Response, body: string, start: seq<Call>, status: seq<Call>, headers: seq<Call>,
                       sent: seq<Call>)
    requires status == start + [HeaderCall(StatusLine(r.version, r.status, r.phrase), true)]
    requires headers == status + HeaderCalls(r.headers)
    requires sent == headers + BodyCalls(body)
    ensures sent == start + SentCalls(r, body)
  {
    LogAssoc(start, [HeaderCall(StatusLine(r.version, r.status, r.phrase), true)], HeaderCalls(r.headers));
    LogAssoc(start + [HeaderCall(StatusLine(r.version, r.status, r.phrase), true)], HeaderCalls(r.headers), BodyCalls(body));
    LogAssoc(start, [HeaderCall(StatusLine(r.version, r.status, r.phrase), true)] + HeaderCalls(r.headers), BodyCalls(body));
  }
}
