/** SessionHeadersHandler: the stage remembers the session id the request's
    cookie carried, runs `next`, and when the session id afterwards differs
    from it, adds one Set-Cookie value to `next`'s response. The PHP session
    runtime is read at two moments, and both readings are inputs here: the
    session name before `next`, and the session name, id and cookie
    parameters after it, together with the clock. */
module SessionHeaders {
  import opened Php
  import opened Psr7

  /** session_get_cookie_params(). */
  datatype CookieParams = CookieParams(lifetime: int, path: string, domain: string, secure: bool, httponly: bool)

  /** PHP's default cookie parameters. */
  const DefaultCookieParams := CookieParams(0, "/", "", false, false)

  /** The session as `next` leaves it. */
  datatype SessionState = SessionState(name: ByteString, id: ByteString, cookieParams: CookieParams)

  /** gmdate('D, d M Y H:i:s T', t): the date of a Unix time. */
  type DateFormatter = int -> string

  /** The incoming session id: the request's cookie under the session name,
      unless it is absent or empty in PHP's sense ("" or "0"), in which
      case it is "". */
  function OldId(cookies: map<string, string>, name: string): (id: string)
    ensures id == "" || (name in cookies && id == cookies[name])
    ensures StringTruthy(id) <==> name in cookies && StringTruthy(cookies[name])
    ensures !(name in cookies && StringTruthy(cookies[name])) ==> id == ""
  {
    if name in cookies && StringTruthy(cookies[name]) then cookies[name] else ""
  }

  // ---------------------------------------------------------------------
  // The cookie value

  /** The cookie attributes, in the order they are written. */
  datatype Attribute =
    | Expires(date: string)
    | MaxAge(seconds: int)
    | Domain(domain: string)
    | Path(path: string)
    | Secure
    | HttpOnly

  function Rank(a: Attribute): nat {
    match a
    case Expires(_) => 0
    case MaxAge(_) => 1
    case Domain(_) => 2
    case Path(_) => 3
    case Secure => 4
    case HttpOnly => 5
  }

  /** The attributes the parameters call for: expires and max-age when the
      lifetime is non-zero, domain and path when they are non-empty in
      PHP's sense, secure and httponly when set. */
  function Attributes(p: CookieParams, now: int, gmdate: DateFormatter): seq<Attribute> {
    LifetimeAttributes(p, now, gmdate) + DomainAttributes(p) + PathAttributes(p) +
    SecureAttributes(p) + HttpOnlyAttributes(p)
  }

  function LifetimeAttributes(p: CookieParams, now: int, gmdate: DateFormatter): seq<Attribute> {
    if p.lifetime != 0 then [Expires(gmdate(now + p.lifetime)), MaxAge(p.lifetime)] else []
  }

  function DomainAttributes(p: CookieParams): seq<Attribute> {
    if StringTruthy(p.domain) then [Domain(p.domain)] else []
  }

  function PathAttributes(p: CookieParams): seq<Attribute> {
    if StringTruthy(p.path) then [Path(p.path)] else []
  }

  function SecureAttributes(p: CookieParams): seq<Attribute> {
    if p.secure then [Secure] else []
  }

  function HttpOnlyAttributes(p: CookieParams): seq<Attribute> {
    if p.httponly then [HttpOnly] else []
  }

  /** "; name=value", or "; name" for a flag. */
  function Render(a: Attribute): (s: string)
    ensures |s| >= 2 && s[0] == ';' && s[1] == ' '
  {
    match a
    case Expires(date) => "; expires=" + date
    case MaxAge(seconds) => "; max-age=" + IntToString(seconds)
    case Domain(domain) => "; domain=" + domain
    case Path(path) => "; path=" + path
    case Secure => "; secure"
    case HttpOnly => "; httponly"
  }

  /** The attributes rendered one after the other. */
  function RenderAll(attrs: seq<Attribute>): (s: string)
    ensures attrs == [] <==> s == []
    ensures s != [] ==> s[0] == ';'
  {
    if attrs == [] then [] else Render(attrs[0]) + RenderAll(attrs[1..])
  }

  /** `cookie` with the attributes appended one at a time. */
  function Write(cookie: string, attrs: seq<Attribute>): string
    decreases |attrs|
  {
    if attrs == [] then cookie else Write(cookie + Render(attrs[0]), attrs[1..])
  }

  /** newSessionCookie, as a value: the url-encoded name and id joined by
      "=", then the attributes. */
  function SessionCookie(name: ByteString, id: ByteString, p: CookieParams, now: int, gmdate: DateFormatter): string {
    Write(UrlEncode(name) + "=" + UrlEncode(id), Attributes(p, now, gmdate))
  }

  /** Appending two lists of attributes is appending one, then the other. */
  lemma {:induction false} WriteAppend(cookie: string, attrs: seq<Attribute>, more: seq<Attribute>)
    ensures Write(cookie, attrs + more) == Write(Write(cookie, attrs), more)
    decreases |attrs|
  {
    if attrs == [] {
      assert attrs + more == more;
    } else {
      assert (attrs + more)[1..] == attrs[1..] + more;
      WriteAppend(cookie + Render(attrs[0]), attrs[1..], more);
    }
  }

  /** Appending attributes one at a time appends their rendering. */
  lemma {:induction false} WriteIsConcat(cookie: string, attrs: seq<Attribute>)
    ensures Write(cookie, attrs) == cookie + RenderAll(attrs)
    decreases |attrs|
  {
    if attrs != [] {
      WriteIsConcat(cookie + Render(attrs[0]), attrs[1..]);
      Assoc(cookie, Render(attrs[0]), RenderAll(attrs[1..]));
    }
  }

  lemma Assoc(a: string, b: string, c: string)
    ensures a + b + c == a + (b + c)
  {
  }

  lemma ConcatAssoc(c: string, a: string, b: string, d: string)
    ensures c + (a + b + d) == (c + a) + (b + d)
  {
  }

  /** The expires and max-age append as written at once. */
  lemma LifetimeStep(cookie: string, p: CookieParams, now: int, gmdate: DateFormatter)
    ensures (if p.lifetime != 0
             then cookie + ("; expires=" + gmdate(now + p.lifetime) + "; max-age=" + IntToString(p.lifetime))
             else cookie)
      == Write(cookie, LifetimeAttributes(p, now, gmdate))
  {
    if p.lifetime != 0 {
      ConcatAssoc(cookie, "; expires=", gmdate(now + p.lifetime), "; max-age=" + IntToString(p.lifetime));
      var e, m := Expires(gmdate(now + p.lifetime)), MaxAge(p.lifetime);
      assert LifetimeAttributes(p, now, gmdate)[1..] == [m];
      assert [m][1..] == [];
      assert Write(cookie, [e, m]) == Write(cookie + Render(e), [m]);
      assert Write(cookie + Render(e), [m]) == Write(cookie + Render(e) + Render(m), []);
    }
  }

  /** The append of one attribute that its parameter calls for. */
  lemma FlagStep(cookie: string, present: bool, a: Attribute, attrs: seq<Attribute>)
    requires attrs == if present then [a] else []
    ensures (if present then cookie + Render(a) else cookie) == Write(cookie, attrs)
  {
    if present {
      assert attrs[1..] == [];
    }
  }

  lemma WriteChain(c0: string, c1: string, c2: string, c3: string, c4: string, c5: string,
                   p: CookieParams, now: int, gmdate: DateFormatter)
    requires c1 == Write(c0, LifetimeAttributes(p, now, gmdate))
    requires c2 == Write(c1, DomainAttributes(p))
    requires c3 == Write(c2, PathAttributes(p))
    requires c4 == Write(c3, SecureAttributes(p))
    requires c5 == Write(c4, HttpOnlyAttributes(p))
    ensures c5 == Write(c0, Attributes(p, now, gmdate))
  {
    var l, d, q, s, h := LifetimeAttributes(p, now, gmdate), DomainAttributes(p), PathAttributes(p),
      SecureAttributes(p), HttpOnlyAttributes(p);
    WriteAppend(c0, l, d);
    WriteAppend(c0, l + d, q);
    WriteAppend(c0, l + d + q, s);
    WriteAppend(c0, l + d + q + s, h);
  }

  /** newSessionCookie: the cookie string built by successive appends. */
  method NewSessionCookie(newName: ByteString, newId: ByteString, p: CookieParams, now: int, gmdate: DateFormatter)
    returns (cookie: string)
    ensures cookie == SessionCookie(newName, newId, p, now, gmdate)
  {
    cookie := UrlEncode(newName) + "=" + UrlEncode(newId);
    ghost var c0 := cookie;
    if p.lifetime != 0 {
      var expires := gmdate(now + p.lifetime);
      cookie := cookie + ("; expires=" + expires + "; max-age=" + IntToString(p.lifetime));
    }
    ghost var c1 := cookie;
    if StringTruthy(p.domain) {
      cookie := cookie + ("; domain=" + p.domain);
    }
    ghost var c2 := cookie;
    if StringTruthy(p.path) {
      cookie := cookie + ("; path=" + p.path);
    }
    ghost var c3 := cookie;
    if p.secure {
      cookie := cookie + "; secure";
    }
    ghost var c4 := cookie;
    if p.httponly {
      cookie := cookie + "; httponly";
    }
    LifetimeStep(c0, p, now, gmdate);
    FlagStep(c1, StringTruthy(p.domain), Domain(p.domain), DomainAttributes(p));
    FlagStep(c2, StringTruthy(p.path), Path(p.path), PathAttributes(p));
    FlagStep(c3, p.secure, Secure, SecureAttributes(p));
    FlagStep(c4, p.httponly, HttpOnly, HttpOnlyAttributes(p));
    WriteChain(c0, c1, c2, c3, c4, cookie, p, now, gmdate);
  }

  // ---------------------------------------------------------------------
  // The stage

  /** __invoke. An exception from `next` goes on up the chain. */
  function Invoke(request: Request, response: Response, next: Next, nameBefore: string, after: SessionState,
                  now: int, gmdate: DateFormatter): (result: Outcome<Response>)
    ensures result.Throw? <==> next(request, response).Throw?
    ensures result.Ok? ==>
      var r := next(request, response).value;
      result.value == r.(headers := result.value.headers) && Extends(r.headers, result.value.headers) &&
      |GetHeader(result.value.headers, "Set-Cookie")| <= |GetHeader(r.headers, "Set-Cookie")| + 1
  {
    var oldId := OldId(request.cookies, nameBefore);
    match next(request, response)
    case Throw(c, m) => Throw(c, m)
    case Ok(r) =>
      if after.id != oldId then
        Ok(WithAddedHeader(r, "Set-Cookie", SessionCookie(after.name, after.id, after.cookieParams, now, gmdate)))
      else Ok(r)
  }

  // ---------------------------------------------------------------------
  // Properties

  /** Attributes in strictly increasing rank, so none appears twice. */
  predicate Ordered(attrs: seq<Attribute>) {
    forall i, j :: 0 <= i < j < |attrs| ==> Rank(attrs[i]) < Rank(attrs[j])
  }

  predicate RanksWithin(attrs: seq<Attribute>, low: nat, high: nat) {
    forall i :: 0 <= i < |attrs| ==> low <= Rank(attrs[i]) < high
  }

  /** Appending attributes all of higher rank keeps the order. */
  lemma OrderedAppend(attrs: seq<Attribute>, more: seq<Attribute>, low: nat, mid: nat, high: nat)
    requires low <= mid <= high
    requires Ordered(attrs) && RanksWithin(attrs, low, mid)
    requires Ordered(more) && RanksWithin(more, mid, high)
    ensures Ordered(attrs + more) && RanksWithin(attrs + more, low, high)
  {
    var all := attrs + more;
    forall i, j | 0 <= i < j < |all|
      ensures Rank(all[i]) < Rank(all[j])
    {
      if j < |attrs| {
        assert all[i] == attrs[i] && all[j] == attrs[j];
      } else if i >= |attrs| {
        assert all[i] == more[i - |attrs|] && all[j] == more[j - |attrs|];
      } else {
        assert all[i] == attrs[i] && all[j] == more[j - |attrs|];
      }
    }
  }

  lemma PieceOrdered(attrs: seq<Attribute>, rank: nat)
    requires |attrs| <= 1 && RanksWithin(attrs, rank, rank + 1)
    ensures Ordered(attrs)
  {
  }

  /** The attributes come in the fixed order expires, max-age, domain,
      path, secure, httponly, so each appears at most once. */
  lemma AttributesOrder(p: CookieParams, now: int, gmdate: DateFormatter)
    ensures Ordered(Attributes(p, now, gmdate))
  {
    var l, d, q, s, h := LifetimeAttributes(p, now, gmdate), DomainAttributes(p), PathAttributes(p),
      SecureAttributes(p), HttpOnlyAttributes(p);
    assert Ordered(l) && RanksWithin(l, 0, 2);
    PieceOrdered(d, 2);
    PieceOrdered(q, 3);
    PieceOrdered(s, 4);
    PieceOrdered(h, 5);
    OrderedAppend(l, d, 0, 2, 3);
    OrderedAppend(l + d, q, 0, 3, 4);
    OrderedAppend(l + d + q, s, 0, 4, 5);
    OrderedAppend(l + d + q + s, h, 0, 5, 6);
  }

  /** Each attribute is present exactly when its parameter is truthy, with
      the value the parameters give it. */
  lemma AttributesPresence(p: CookieParams, now: int, gmdate: DateFormatter)
    ensures var attrs := Attributes(p, now, gmdate);
      (Expires(gmdate(now + p.lifetime)) in attrs <==> p.lifetime != 0) &&
      (MaxAge(p.lifetime) in attrs <==> p.lifetime != 0) &&
      (Domain(p.domain) in attrs <==> StringTruthy(p.domain)) &&
      (Path(p.path) in attrs <==> StringTruthy(p.path)) &&
      (Secure in attrs <==> p.secure) &&
      (HttpOnly in attrs <==> p.httponly)
    ensures var attrs := Attributes(p, now, gmdate);
      forall a :: a in attrs ==>
        a == Expires(gmdate(now + p.lifetime)) || a == MaxAge(p.lifetime) || a == Domain(p.domain) ||
        a == Path(p.path) || a == Secure || a == HttpOnly
  {
    AttributesMembers(p, now, gmdate);
  }

  /** An attribute is in the list exactly when one of its five pieces has it. */
  lemma AttributesMembers(p: CookieParams, now: int, gmdate: DateFormatter)
    ensures forall a :: a in Attributes(p, now, gmdate) <==>
      a in LifetimeAttributes(p, now, gmdate) || a in DomainAttributes(p) || a in PathAttributes(p) ||
      a in SecureAttributes(p) || a in HttpOnlyAttributes(p)
  {
    var l, d, q, sc, h := LifetimeAttributes(p, now, gmdate), DomainAttributes(p), PathAttributes(p),
      SecureAttributes(p), HttpOnlyAttributes(p);
    InConcat(l, d);
    InConcat(l + d, q);
    InConcat(l + d + q, sc);
    InConcat(l + d + q + sc, h);
  }

  lemma InConcat(a: seq<Attribute>, b: seq<Attribute>)
    ensures forall x :: x in a + b <==> x in a || x in b
  {
  }

  /** expires, the date of now + lifetime, comes first exactly when the
      lifetime is non-zero, and max-age, the lifetime, right after it. */
  lemma ExpiresWithMaxAge(p: CookieParams, now: int, gmdate: DateFormatter)
    ensures var attrs := Attributes(p, now, gmdate);
      p.lifetime != 0 <==> |attrs| >= 2 && attrs[0] == Expires(gmdate(now + p.lifetime)) && attrs[1] == MaxAge(p.lifetime)
  {
  }

  /** A character urlencode never produces is not in its output. */
  lemma NotUrlEncoded(s: ByteString, c: char)
    requires !IsUrlEncodedChar(c)
    ensures c !in UrlEncode(s)
  {
  }

  /** A string without ";" followed by nothing, or by something that
      starts with ";", is what comes before the first ";". */
  lemma BeforeSemicolon(pair: string, rest: string)
    requires ';' !in pair
    requires rest == [] || rest[0] == ';'
    ensures BeforeFirst(pair + rest, ';') == pair
  {
    if rest == [] {
      assert pair + rest == pair;
      BeforeFirstNoSeparator(pair, ';');
    } else {
      assert pair + rest == pair + [';'] + rest[1..];
      SplitAtFirst(pair, ';', rest[1..]);
    }
  }

  /** The name=value pair holds no ";", and splits at its first "=" into the
      encoded name and the encoded id. */
  lemma PairSplits(name: ByteString, id: ByteString)
    ensures ';' !in UrlEncode(name) + "=" + UrlEncode(id)
    ensures BeforeFirst(UrlEncode(name) + "=" + UrlEncode(id), '=') == UrlEncode(name)
    ensures AfterFirst(UrlEncode(name) + "=" + UrlEncode(id), '=') == UrlEncode(id)
  {
    var n := UrlEncode(name);
    var v := UrlEncode(id);
    NotUrlEncoded(name, ';');
    NotUrlEncoded(id, ';');
    NotUrlEncoded(name, '=');
    assert n + "=" + v == n + ['='] + v;
    SplitAtFirst(n, '=', v);
  }

  /** The cookie begins with its name=value pair: the part before the first
      ";" is urlencode(name) "=" urlencode(id), and decoding its two sides
      gives back the session name and id. */
  lemma CookiePairRoundTrip(name: ByteString, id: ByteString, p: CookieParams, now: int, gmdate: DateFormatter)
    ensures var cookie := SessionCookie(name, id, p, now, gmdate);
      var pair := BeforeFirst(cookie, ';');
      pair == UrlEncode(name) + "=" + UrlEncode(id) &&
      UrlDecode(BeforeFirst(pair, '=')) == name &&
      UrlDecode(AfterFirst(pair, '=')) == id
  {
    var pair := UrlEncode(name) + "=" + UrlEncode(id);
    var attrs := Attributes(p, now, gmdate);
    WriteIsConcat(pair, attrs);
    PairSplits(name, id);
    BeforeSemicolon(pair, RenderAll(attrs));
    UrlDecodeEncode(name);
    UrlDecodeEncode(id);
  }

  /** RFC 6265 section 4.1.1: a cookie-octet is a visible US-ASCII character
      other than DQUOTE, comma, semicolon and backslash. */
  predicate IsCookieOctet(c: char) {
    c == '\U{0021}' || ('\U{0023}' <= c <= '\U{002B}') || ('\U{002D}' <= c <= '\U{003A}') ||
    ('\U{003C}' <= c <= '\U{005B}') || ('\U{005D}' <= c <= '\U{007E}')
  }

  /** RFC 2616 section 2.2 (which RFC 6265 uses for cookie-name): a token
      character is a visible US-ASCII character other than a separator. */
  predicate IsTokenChar(c: char) {
    '\U{0021}' <= c <= '\U{007E}' &&
    c != '(' && c != ')' && c != '<' && c != '>' && c != '@' && c != ',' && c != ';' && c != ':' &&
    c != '\\' && c != '"' && c != '/' && c != '[' && c != ']' && c != '?' && c != '=' && c != '{' && c != '}'
  }

  /** The encoded name is a cookie-name (a token, when the name is not
      empty) and the encoded id is a cookie-value, in the syntax of RFC 6265
      section 4.1.1. */
  lemma CookiePairSyntax(name: ByteString, id: ByteString)
    ensures name != [] ==> UrlEncode(name) != []
    ensures forall k :: 0 <= k < |UrlEncode(name)| ==> IsTokenChar(UrlEncode(name)[k])
    ensures forall k :: 0 <= k < |UrlEncode(id)| ==> IsCookieOctet(UrlEncode(id)[k])
  {
    assert forall c :: IsUrlEncodedChar(c) ==> IsTokenChar(c) && IsCookieOctet(c);
    if name != [] {
      assert UrlEncode(name) == EncodeByte(name[0]) + UrlEncode(name[1..]);
    }
  }

  /** A Set-Cookie value is added exactly when the id after `next` differs
      from the incoming one; otherwise `next`'s response is returned as it
      is. The value is added after any Set-Cookie values already there,
      and every other header keeps its values. A thrown exception passes
      through. */
  lemma SetCookieIffIdChanged(request: Request, response: Response, next: Next, nameBefore: string,
                              after: SessionState, now: int, gmdate: DateFormatter)
    ensures next(request, response).Throw? ==>
      Invoke(request, response, next, nameBefore, after, now, gmdate) == next(request, response)
    ensures next(request, response).Ok? && after.id == OldId(request.cookies, nameBefore) ==>
      Invoke(request, response, next, nameBefore, after, now, gmdate) == next(request, response)
    ensures next(request, response).Ok? && after.id != OldId(request.cookies, nameBefore) ==>
      var r := next(request, response).value;
      var result := Invoke(request, response, next, nameBefore, after, now, gmdate);
      result.Ok? && result.value == r.(headers := result.value.headers) &&
      Extends(r.headers, result.value.headers) &&
      GetHeader(result.value.headers, "Set-Cookie") ==
        GetHeader(r.headers, "Set-Cookie") + [SessionCookie(after.name, after.id, after.cookieParams, now, gmdate)] &&
      forall m :: !SameName(m, "Set-Cookie") ==> GetHeader(result.value.headers, m) == GetHeader(r.headers, m)
  {
  }

  /** When the request carried a session cookie and no session is active
      afterwards (the id is ""), a cookie is still added, with an empty
      value under the session name. */
  lemma DestroyedSessionSendsEmptyCookie(request: Request, response: Response, next: Next, nameBefore: string,
                                         after: SessionState, now: int, gmdate: DateFormatter)
    requires nameBefore in request.cookies && StringTruthy(request.cookies[nameBefore])
    requires next(request, response).Ok? && after.id == ""
    ensures var result := Invoke(request, response, next, nameBefore, after, now, gmdate);
      var cookie := SessionCookie(after.name, after.id, after.cookieParams, now, gmdate);
      result.Ok? &&
      GetHeader(result.value.headers, "Set-Cookie") == GetHeader(next(request, response).value.headers, "Set-Cookie") + [cookie] &&
      BeforeFirst(cookie, ';') == UrlEncode(after.name) + "="
  {
    CookiePairRoundTrip(after.name, after.id, after.cookieParams, now, gmdate);
  }

  /** The added cookie is named after the session name read after `next`,
      so a renaming downstream is reflected, and carries the id read then. */
  lemma CookieUsesStateAfterNext(request: Request, response: Response, next: Next, nameBefore: string,
                                 after: SessionState, now: int, gmdate: DateFormatter)
    requires next(request, response).Ok? && after.id != OldId(request.cookies, nameBefore)
    ensures var result := Invoke(request, response, next, nameBefore, after, now, gmdate);
      var added := GetHeader(result.value.headers, "Set-Cookie");
      result.Ok? && added != [] &&
      UrlDecode(BeforeFirst(BeforeFirst(added[|added| - 1], ';'), '=')) == after.name &&
      UrlDecode(AfterFirst(BeforeFirst(added[|added| - 1], ';'), '=')) == after.id
  {
    CookiePairRoundTrip(after.name, after.id, after.cookieParams, now, gmdate);
  }

  /** urlencode leaves a string of letters, digits, "-", "_" and "." as it is. */
  lemma {:induction false} UrlEncodeUnreserved(s: ByteString)
    requires forall c :: c in s ==> IsUnreserved(c)
    ensures UrlEncode(s) == s
  {
    if s != [] {
      assert s[0] in s;
      assert forall c :: c in s[1..] ==> c in s;
      UrlEncodeUnreserved(s[1..]);
    }
  }

  /** PHP's default cookie parameters call for the path attribute only. */
  lemma DefaultAttributes(now: int, gmdate: DateFormatter)
    ensures Attributes(DefaultCookieParams, now, gmdate) == [Path("/")]
  {
    assert StringTruthy("/");
    assert !StringTruthy("");
    assert [] + [] + [Path("/")] + [] + [] == [Path("/")];
  }

  /** With PHP's default cookie parameters the cookie is exactly
      PHPSESSID=<id>; path=/ for a session id made of letters, digits, "-",
      "_" and "." (the characters PHP session ids use, apart from ","). */
  lemma DefaultParamsCookie(id: ByteString, now: int, gmdate: DateFormatter)
    requires forall c :: c in id ==> IsUnreserved(c)
    ensures SessionCookie("PHPSESSID", id, DefaultCookieParams, now, gmdate) == "PHPSESSID" + "=" + id + "; path=" + "/"
  {
    assert forall c :: c in "PHPSESSID" ==> IsUnreserved(c);
    UrlEncodeUnreserved("PHPSESSID");
    UrlEncodeUnreserved(id);
    DefaultAttributes(now, gmdate);
    var pair := "PHPSESSID" + "=" + id;
    assert Write(pair, [Path("/")]) == Write(pair + Render(Path("/")), []);
    Assoc(pair, "; path=", "/");
  }
}
