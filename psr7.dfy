/** The PSR-7 messages the middleware stages pass along, as values, and the
    body stream of a response, as the one object that is written in place.
    A middleware stage has the shape (request, response, next) -> response;
    `next` is the rest of the chain, and it either returns a response or
    throws. */
module Psr7 {
  import opened Php

  /** What a stage or a callable gives back: a value, or a thrown exception
      with the name of its class and its message. */
  datatype Outcome<+T> = Ok(value: T) | Throw(className: string, message: string)

  /** A server request. `headerLines` maps each lower-cased header name to
      its header line (its values joined by ","), as getHeaderLine sees
      them; the body is the string the body stream casts to. */
  datatype Request = Request(
    httpMethod: string,
    headerLines: map<string, string>,
    cookies: map<string, string>,
    parsedBody: Value,
    body: string)

  /** getHeaderLine: the comma-joined values of the header, or "" when the
      request has no such header. Names are looked up lower-cased, so the
      caller passes the lower-cased name. */
  function HeaderLine(r: Request, lowerName: string): string {
    if lowerName in r.headerLines then r.headerLines[lowerName] else ""
  }

  /** One entry of a response's ordered header map: the name as first
      given, and its values in the order they were added. */
  datatype HeaderField = HeaderField(name: string, values: seq<string>)

  datatype Response = Response(
    status: int,
    version: string,
    phrase: string,
    headers: seq<HeaderField>,
    body: Stream)

  /** The rest of the middleware chain. */
  type Next = (Request, Response) -> Outcome<Response>

  /** Header names are compared without regard to ASCII case. */
  predicate SameName(a: string, b: string) {
    StrToLower(a) == StrToLower(b)
  }

  /** The position of the first field named `name`, or -1 when there is none. */
  function FindHeader(hs: seq<HeaderField>, name: string): (k: int)
    ensures -1 <= k < |hs|
    ensures k >= 0 ==> SameName(hs[k].name, name)
    ensures forall j :: 0 <= j < |hs| && (k < 0 || j < k) ==> !SameName(hs[j].name, name)
  {
    if hs == [] then -1
    else if SameName(hs[0].name, name) then 0
    else
      var k := FindHeader(hs[1..], name);
      if k < 0 then -1 else k + 1
  }

  /** getHeader: the values of `name`, or [] when the response has none. */
  function GetHeader(hs: seq<HeaderField>, name: string): seq<string> {
    var k := FindHeader(hs, name);
    if k < 0 then [] else hs[k].values
  }

  /** The header names, in header-map order. */
  function Names(hs: seq<HeaderField>): (ns: seq<string>)
    ensures |ns| == |hs|
    ensures forall i :: 0 <= i < |hs| ==> ns[i] == hs[i].name
  {
    if hs == [] then [] else [hs[0].name] + Names(hs[1..])
  }

  /** `after` keeps every field of `before` in place, under the same name,
      with the old values as a prefix of the new ones. */
  predicate Extends(before: seq<HeaderField>, after: seq<HeaderField>) {
    |before| <= |after| &&
    forall i :: 0 <= i < |before| ==>
      after[i].name == before[i].name && before[i].values <= after[i].values
  }

  /** Two header sequences with the same names give the same first match. */
  lemma {:induction false} FindHeaderByNames(hs: seq<HeaderField>, gs: seq<HeaderField>, name: string)
    requires Names(hs) == Names(gs)
    ensures FindHeader(hs, name) == FindHeader(gs, name)
  {
    if hs != [] {
      assert hs[0].name == Names(hs)[0] == Names(gs)[0] == gs[0].name;
      assert Names(hs[1..]) == Names(hs)[1..];
      assert Names(gs[1..]) == Names(gs)[1..];
      FindHeaderByNames(hs[1..], gs[1..], name);
    }
  }

  /** Adding a field at the end changes the first match only for names
      that had none. */
  lemma {:induction false} FindHeaderAppend(hs: seq<HeaderField>, f: HeaderField, m: string)
    ensures FindHeader(hs + [f], m) ==
      if FindHeader(hs, m) >= 0 then FindHeader(hs, m)
      else if SameName(f.name, m) then |hs|
      else -1
  {
    if hs != [] {
      assert (hs + [f])[1..] == hs[1..] + [f];
      FindHeaderAppend(hs[1..], f, m);
    }
  }

  lemma {:induction false} NamesAppend(hs: seq<HeaderField>, f: HeaderField)
    ensures Names(hs + [f]) == Names(hs) + [f.name]
  {
    if hs != [] {
      assert (hs + [f])[1..] == hs[1..] + [f];
      NamesAppend(hs[1..], f);
    }
  }

  lemma {:induction false} NamesUpdate(hs: seq<HeaderField>, k: nat, f: HeaderField)
    requires k < |hs| && f.name == hs[k].name
    ensures Names(hs[k := f]) == Names(hs)
  {
    if k > 0 {
      assert hs[k := f][1..] == hs[1..][k - 1 := f];
      NamesUpdate(hs[1..], k - 1, f);
    }
  }

  /** withAddedHeader: the value is added after the existing values of the
      header when the response has it (under its first-given name), and as
      a new last field otherwise. Nothing but the headers changes, and the
      values of every other header stay as they were. */
  function WithAddedHeader(r: Response, name: string, value: string): (r': Response)
    ensures r' == r.(headers := r'.headers)
    ensures Extends(r.headers, r'.headers)
    ensures GetHeader(r'.headers, name) == GetHeader(r.headers, name) + [value]
    ensures forall m :: !SameName(m, name) ==> GetHeader(r'.headers, m) == GetHeader(r.headers, m)
    ensures Names(r'.headers) == Names(r.headers) ||
            (FindHeader(r.headers, name) < 0 && Names(r'.headers) == Names(r.headers) + [name])
  {
    r.(headers := AddedHeader(r.headers, name, value))
  }

  /** The header sequence after withAddedHeader. */
  function AddedHeader(hs: seq<HeaderField>, name: string, value: string): (hs': seq<HeaderField>)
    ensures Extends(hs, hs')
    ensures GetHeader(hs', name) == GetHeader(hs, name) + [value]
    ensures forall m :: !SameName(m, name) ==> GetHeader(hs', m) == GetHeader(hs, m)
    ensures Names(hs') == Names(hs) || (FindHeader(hs, name) < 0 && Names(hs') == Names(hs) + [name])
  {
    var k := FindHeader(hs, name);
    if k < 0 then
      AddedAsNewField(hs, name, value);
      hs + [HeaderField(name, [value])]
    else
      AddedToField(hs, k, name, value);
      hs[k := HeaderField(hs[k].name, hs[k].values + [value])]
  }

  lemma AddedAsNewField(hs: seq<HeaderField>, name: string, value: string)
    requires FindHeader(hs, name) < 0
    ensures var hs' := hs + [HeaderField(name, [value])];
      Extends(hs, hs') &&
      GetHeader(hs', name) == GetHeader(hs, name) + [value] &&
      (forall m :: !SameName(m, name) ==> GetHeader(hs', m) == GetHeader(hs, m)) &&
      Names(hs') == Names(hs) + [name]
  {
    var f := HeaderField(name, [value]);
    var hs' := hs + [f];
    NamesAppend(hs, f);
    FindHeaderAppend(hs, f, name);
    forall m | !SameName(m, name) ensures GetHeader(hs', m) == GetHeader(hs, m) {
      FindHeaderAppend(hs, f, m);
    }
  }

  lemma AddedToField(hs: seq<HeaderField>, k: nat, name: string, value: string)
    requires k == FindHeader(hs, name)
    ensures var hs' := hs[k := HeaderField(hs[k].name, hs[k].values + [value])];
      Extends(hs, hs') &&
      GetHeader(hs', name) == GetHeader(hs, name) + [value] &&
      (forall m :: !SameName(m, name) ==> GetHeader(hs', m) == GetHeader(hs, m)) &&
      Names(hs') == Names(hs)
  {
    var f := HeaderField(hs[k].name, hs[k].values + [value]);
    var hs' := hs[k := f];
    NamesUpdate(hs, k, f);
    FindHeaderByNames(hs', hs, name);
    assert GetHeader(hs', name) == f.values;
    forall m | !SameName(m, name) ensures GetHeader(hs', m) == GetHeader(hs, m) {
      FindHeaderByNames(hs', hs, m);
      var j := FindHeader(hs, m);
      if j >= 0 {
        assert j != k;
        assert hs'[j] == hs[j];
      }
    }
    assert Extends(hs, hs') by {
      forall i | 0 <= i < |hs| ensures hs'[i].name == hs[i].name && hs[i].values <= hs'[i].values {
        if i == k {
          assert hs'[i] == f;
        } else {
          assert hs'[i] == hs[i];
        }
      }
    }
  }

  /** The reason phrase a PSR-7 implementation gives a status code when
      none is passed ("" for a code it does not know). */
  type StandardPhrases = int -> string

  /** withStatus(code, reasonPhrase): a copy of the response with the new
      status and phrase. An empty phrase argument (the default) means the
      implementation's standard phrase for the code. The copy shares the
      body stream and keeps everything else. */
  function WithStatus(r: Response, code: int, reasonPhrase: string, standard: StandardPhrases): (r': Response)
    ensures r'.status == code
    ensures r'.phrase == if reasonPhrase != "" then reasonPhrase else standard(code)
    ensures r'.version == r.version && r'.headers == r.headers && r'.body == r.body
  {
    r.(status := code, phrase := if reasonPhrase != "" then reasonPhrase else standard(code))
  }

  /** The result of writing `data` at position `pos` of `s`: the bytes from
      `pos` on are overwritten, and `s` grows when the write runs past its end. */
  function Overwritten(s: string, pos: nat, data: string): (r: string)
    requires pos <= |s|
    ensures |r| == if pos + |data| <= |s| then |s| else pos + |data|
    ensures r[..pos] == s[..pos]
    ensures r[pos..pos + |data|] == data
    ensures r[pos + |data|..] == if pos + |data| <= |s| then s[pos + |data|..] else []
  {
    s[..pos] + data + (if pos + |data| <= |s| then s[pos + |data|..] else [])
  }

  /** Writing at the end of a stream appends. */
  lemma OverwrittenAtEnd(s: string, data: string)
    ensures Overwritten(s, |s|, data) == s + data
  {
  }

  /** A body stream held in memory: its bytes and its read/write position. */
  class Stream {
    var contents: string
    var pos: nat

    ghost predicate Valid()
      reads this
    {
      pos <= |contents|
    }

    /** A memory stream into which `initial` has been written. */
    constructor (initial: string)
      ensures Valid() && contents == initial && pos == |initial|
    {
      contents := initial;
      pos := |initial|;
    }

    method Rewind()
      modifies this
      ensures Valid() && contents == old(contents) && pos == 0
    {
      pos := 0;
    }

    /** Moves the position to `offset`. */
    method Seek(offset: nat)
      requires offset <= |contents|
      modifies this
      ensures Valid() && contents == old(contents) && pos == offset
    {
      pos := offset;
    }

    predicate Eof()
      reads this
    {
      pos >= |contents|
    }

    /** Reads up to `length` bytes from the current position. */
    method Read(length: nat) returns (chunk: string)
      requires Valid()
      modifies this
      ensures Valid() && contents == old(contents)
      ensures pos == if old(pos) + length <= |contents| then old(pos) + length else |contents|
      ensures chunk == contents[old(pos)..pos]
    {
      var end := if pos + length <= |contents| then pos + length else |contents|;
      chunk := contents[pos..end];
      pos := end;
    }

    /** Writes `data` at the current position and moves past it. */
    method Write(data: string)
      requires Valid()
      modifies this
      ensures Valid()
      ensures contents == Overwritten(old(contents), old(pos), data)
      ensures pos == old(pos) + |data|
    {
      contents := Overwritten(contents, pos, data);
      pos := pos + |data|;
    }
  }
}
