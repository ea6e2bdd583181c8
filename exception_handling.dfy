/** ExceptionHandler and StatelessExceptionHandler: when the rest of the
    chain throws, the response becomes a held "exception response" with
    status 500, and the exception's class and message are written into its
    body. withStatus(500) copies the response with status 500 and the
    implementation's standard phrase for 500, but shares its body stream,
    so the write lands in the held response's own stream. */
module ExceptionHandling {
  import opened Php
  import opened Psr7

  /** What is written into the body for an exception. */
  function ExceptionText(className: string, message: string): (text: string)
    ensures |text| == |className| + 2 + |message|
    ensures text[..|className|] == className
    ensures text[|className|..|className| + 2] == ": "
    ensures text[|className| + 2..] == message
  {
    className + ": " + message
  }

  /** The class and message can be read back from the text when the class
      name holds no ':' (PHP class names never do). */
  lemma ExceptionTextRoundTrip(className: string, message: string)
    requires ':' !in className
    ensures BeforeFirst(ExceptionText(className, message), ':') == className
    ensures AfterFirst(ExceptionText(className, message), ':')[1..] == message
  {
    assert ExceptionText(className, message) == className + [':'] + (" " + message);
    SplitAtFirst(className, ':', " " + message);
  }

  /** The try/catch of ExceptionHandler::__invoke, given what `next` did:
      a returned response is passed on as it is; a thrown exception gives
      withStatus(500) of the held response (status 500, the standard phrase
      for 500, the same body stream), after the exception text has been
      written into that stream at its position. */
  method Catch(held: Response, outcome: Outcome<Response>, standard: StandardPhrases) returns (result: Response)
    requires held.body.Valid()
    modifies held.body
    ensures held.body.Valid()
    ensures outcome.Ok? ==> result == outcome.value && unchanged(held.body)
    ensures outcome.Throw? ==>
      result == WithStatus(held, 500, "", standard) &&
      result.status == 500 && result.phrase == standard(500) && result.body == held.body &&
      held.body.contents ==
        Overwritten(old(held.body.contents), old(held.body.pos), ExceptionText(outcome.className, outcome.message)) &&
      held.body.pos == old(held.body.pos) + |ExceptionText(outcome.className, outcome.message)|
  {
    match outcome
    case Ok(r) =>
      result := r;
    case Throw(className, message) =>
      result := WithStatus(held, 500, "", standard);
      result.body.Write(className + ": " + message);
  }

  /** A stream positioned at its end (how a freshly written stream is left). */
  ghost predicate AtEnd(s: Stream)
    reads s
  {
    s.pos == |s.contents|
  }

  class ExceptionHandler {
    /** Set by the constructor and never reassigned. */
    var exceptionResponse: Response

    constructor (exceptionResponse: Response)
      ensures this.exceptionResponse == exceptionResponse
    {
      this.exceptionResponse := exceptionResponse;
    }

    /** __invoke. The held response itself is never replaced: only its body
        stream is written. `standard` is the response implementation's
        table of standard reason phrases, which withStatus(500) consults. */
    method Invoke(request: Request, response: Response, next: Next, standard: StandardPhrases) returns (result: Response)
      requires exceptionResponse.body.Valid()
      modifies exceptionResponse.body
      ensures exceptionResponse.body.Valid()
      ensures next(request, response).Ok? ==>
        result == next(request, response).value && unchanged(exceptionResponse.body)
      ensures next(request, response).Throw? ==>
        var e := next(request, response);
        result == WithStatus(exceptionResponse, 500, "", standard) &&
        result.status == 500 && result.phrase == standard(500) && result.body == exceptionResponse.body &&
        exceptionResponse.body.contents ==
          Overwritten(old(exceptionResponse.body.contents), old(exceptionResponse.body.pos), ExceptionText(e.className, e.message)) &&
        exceptionResponse.body.pos == old(exceptionResponse.body.pos) + |ExceptionText(e.className, e.message)|
    {
      result := Catch(exceptionResponse, next(request, response), standard);
    }
  }

  /** Two exceptions caught by the same ExceptionHandler end up, one after
      the other, in the one held body. */
  method TwoExceptionsAccumulate(h: ExceptionHandler, request: Request, response: Response, first: Next, second: Next,
                                 standard: StandardPhrases)
    returns (r1: Response, r2: Response)
    requires h.exceptionResponse.body.Valid() && AtEnd(h.exceptionResponse.body)
    requires first(request, response).Throw? && second(request, response).Throw?
    modifies h.exceptionResponse.body
    ensures r1.body == r2.body == h.exceptionResponse.body && r1.status == r2.status == 500
    ensures h.exceptionResponse.body.contents ==
      old(h.exceptionResponse.body.contents) +
      ExceptionText(first(request, response).className, first(request, response).message) +
      ExceptionText(second(request, response).className, second(request, response).message)
  {
    var body := h.exceptionResponse.body;
    ghost var initial := body.contents;
    r1 := h.Invoke(request, response, first, standard);
    OverwrittenAtEnd(initial, ExceptionText(first(request, response).className, first(request, response).message));
    ghost var once := body.contents;
    r2 := h.Invoke(request, response, second, standard);
    OverwrittenAtEnd(once, ExceptionText(second(request, response).className, second(request, response).message));
  }

  /** What the response factory builds each time it is called: a response
      whose body stream (a fresh stream each call) holds `body` and is
      positioned at `pos` (a factory may leave its stream at the end of
      what it wrote, or rewound). */
  datatype ResponsePrototype = ResponsePrototype(
    status: int, version: string, phrase: string, headers: seq<HeaderField>, body: string, pos: nat)

  predicate WellFormed(factory: ResponsePrototype) {
    factory.pos <= |factory.body|
  }

  /** Calling the factory. */
  method Build(factory: ResponsePrototype) returns (r: Response)
    requires WellFormed(factory)
    ensures fresh(r.body) && r.body.Valid() && r.body.contents == factory.body && r.body.pos == factory.pos
    ensures r.status == factory.status && r.version == factory.version &&
            r.phrase == factory.phrase && r.headers == factory.headers
  {
    var stream := new Stream(factory.body);
    stream.Seek(factory.pos);
    r := Response(factory.status, factory.version, factory.phrase, factory.headers, stream);
  }

  class StatelessExceptionHandler {
    const responseFactory: ResponsePrototype
    /** The held response: present from construction until the end of the
        first __invoke, and absent after every __invoke. */
    var exceptionResponse: Option<Response>

    ghost predicate Valid()
      reads this, if exceptionResponse.Some? then {exceptionResponse.value.body} else {}
    {
      WellFormed(responseFactory) &&
      (exceptionResponse.Some? ==> exceptionResponse.value.body.Valid())
    }

    /** Stores the factory and holds a response freshly built by it. */
    constructor (responseFactory: ResponsePrototype)
      requires WellFormed(responseFactory)
      ensures this.responseFactory == responseFactory
      ensures Valid() && exceptionResponse.Some?
      ensures fresh(exceptionResponse.value.body)
      ensures exceptionResponse.value.body.contents == responseFactory.body
      ensures exceptionResponse.value.body.pos == responseFactory.pos
      ensures exceptionResponse.value.status == responseFactory.status
      ensures exceptionResponse.value.version == responseFactory.version &&
              exceptionResponse.value.phrase == responseFactory.phrase &&
              exceptionResponse.value.headers == responseFactory.headers
    {
      this.responseFactory := responseFactory;
      var built := Build(responseFactory);
      exceptionResponse := Some(built);
    }

    /** __invoke: a missing held response is first rebuilt by the factory;
        then the parent's try/catch runs on it; then the held response is
        dropped. */
    method Invoke(request: Request, response: Response, next: Next, standard: StandardPhrases) returns (result: Response)
      requires Valid()
      modifies this, if exceptionResponse.Some? then {exceptionResponse.value.body} else {}
      ensures exceptionResponse == None && Valid()
      ensures next(request, response).Ok? ==> result == next(request, response).value
      ensures next(request, response).Ok? && old(exceptionResponse).Some? ==>
        unchanged(old(exceptionResponse).value.body)
      ensures next(request, response).Throw? ==> result.status == 500 && result.phrase == standard(500)
      ensures next(request, response).Throw? && old(exceptionResponse).None? ==>
        var e := next(request, response);
        fresh(result.body) &&
        result.version == responseFactory.version && result.headers == responseFactory.headers &&
        result.body.contents == Overwritten(responseFactory.body, responseFactory.pos, ExceptionText(e.className, e.message))
      ensures next(request, response).Throw? && old(exceptionResponse).Some? ==>
        var e := next(request, response);
        var held := old(exceptionResponse.value);
        result == WithStatus(held, 500, "", standard) &&
        result.body.contents == Overwritten(old(held.body.contents), old(held.body.pos), ExceptionText(e.className, e.message))
    {
      if exceptionResponse.None? {
        var built := Build(responseFactory);
        exceptionResponse := Some(built);
      }
      var held := exceptionResponse.value;
      result := Catch(held, next(request, response), standard);
      exceptionResponse := None;
    }
  }

  /** Writing a text at least as long as a rewound factory body replaces
      that body entirely. */
  lemma RewoundBodyReplaced(body: string, text: string)
    requires |text| >= |body|
    ensures Overwritten(body, 0, text) == text
  {
  }

  /** Repeated exceptional calls after the first: every result has status
      500 with the standard phrase, and a stream of its own holding the
      factory's body with the exception text written at the factory's
      position: the body followed by the text when the factory leaves its
      stream at the end, just the text when the body is empty. Nothing
      accumulates. */
  method RepeatedExceptions(h: StatelessExceptionHandler, request: Request, response: Response, next: Next, n: nat,
                            standard: StandardPhrases)
    returns (results: seq<Response>)
    requires h.Valid() && h.exceptionResponse.None?
    requires next(request, response).Throw?
    modifies h
    ensures |results| == n
    ensures forall i :: 0 <= i < n ==>
      results[i].status == 500 && results[i].phrase == standard(500) &&
      results[i].body.contents ==
        Overwritten(h.responseFactory.body, h.responseFactory.pos,
                    ExceptionText(next(request, response).className, next(request, response).message))
    ensures h.responseFactory.pos == |h.responseFactory.body| ==> forall i :: 0 <= i < n ==>
      results[i].body.contents ==
        h.responseFactory.body + ExceptionText(next(request, response).className, next(request, response).message)
    ensures h.responseFactory.body == [] ==> forall i :: 0 <= i < n ==>
      results[i].body.contents == ExceptionText(next(request, response).className, next(request, response).message)
    ensures h.exceptionResponse.None?
  {
    var text := ExceptionText(next(request, response).className, next(request, response).message);
    var written := Overwritten(h.responseFactory.body, h.responseFactory.pos, text);
    results := [];
    var i := 0;
    while i < n
      invariant 0 <= i <= n && |results| == i
      invariant h.Valid() && h.exceptionResponse.None?
      invariant forall j :: 0 <= j < i ==>
        results[j].status == 500 && results[j].phrase == standard(500) && results[j].body.contents == written
    {
      var r := h.Invoke(request, response, next, standard);
      results := results + [r];
      i := i + 1;
    }
    if h.responseFactory.pos == |h.responseFactory.body| {
      OverwrittenAtEnd(h.responseFactory.body, text);
    }
    if h.responseFactory.body == [] {
      RewoundBodyReplaced(h.responseFactory.body, text);
    }
  }
}
