/** The PHP built-ins the middleware relies on: truthiness of values, and the
    string functions strtolower, trim, explode (first piece), ucwords,
    str_replace on one character, integer-to-string conversion and
    urlencode/urldecode. Strings are sequences of characters; where the
    function works on bytes (urlencode) each character stands for one byte. */
module Php {

  /** A PHP string as the sequence of its bytes. */
  type ByteString = s: string | forall i :: 0 <= i < |s| ==> s[i] as int < 256

  datatype Option<T> = None | Some(value: T)

  /** Array keys are integers or strings. */
  datatype Key = IntKey(n: int) | StrKey(s: string)

  /** The PHP values a request's parsed body can hold. */
  datatype Value =
    | Null
    | Bool(b: bool)
    | Int(i: int)
    | Float(f: real)
    | Str(s: string)
    | Array(entries: seq<Entry>)
    | Object(properties: seq<Entry>)

  datatype Entry = Entry(key: Key, value: Value)

  /** PHP's conversion of a string to boolean: only "" and "0" are false. */
  predicate StringTruthy(s: string) {
    s != "" && s != "0"
  }

  /** PHP's conversion of a value to boolean (what `if ($v)`, `! $v` and
      `empty($v)` test). Objects are always true. */
  predicate Truthy(v: Value) {
    match v
    case Null => false
    case Bool(b) => b
    case Int(i) => i != 0
    case Float(f) => f != 0.0
    case Str(s) => StringTruthy(s)
    case Array(entries) => entries != []
    case Object(_) => true
  }

  // ---------------------------------------------------------------------
  // Case conversion (ASCII only, as strtolower/ucwords in PHP 8.2 and later)

  function LowerChar(c: char): char {
    if 'A' <= c <= 'Z' then (c as int + 32) as char else c
  }

  function UpperChar(c: char): char {
    if 'a' <= c <= 'z' then (c as int - 32) as char else c
  }

  /** strtolower */
  function StrToLower(s: string): (r: string)
    ensures |r| == |s|
    ensures forall i :: 0 <= i < |s| ==> r[i] == LowerChar(s[i])
    ensures forall i :: 0 <= i < |r| ==> !('A' <= r[i] <= 'Z')
  {
    if s == [] then [] else [LowerChar(s[0])] + StrToLower(s[1..])
  }

  /** Lowering twice is lowering once, and lowering keeps every character
      that is not an upper-case ASCII letter. */
  lemma LowerIdempotent(s: string)
    ensures StrToLower(StrToLower(s)) == StrToLower(s)
  {
    var once := StrToLower(s);
    assert forall i :: 0 <= i < |s| ==> LowerChar(once[i]) == once[i];
  }

  /** A string without upper-case ASCII letters is its own lower case. */
  lemma LowerOfLowercase(s: string)
    requires forall c :: c in s ==> !('A' <= c <= 'Z')
    ensures StrToLower(s) == s
  {
    assert forall i :: 0 <= i < |s| ==> s[i] in s;
  }

  // ---------------------------------------------------------------------
  // trim

  /** The characters trim() strips by default: " \t\n\r\0\x0B". */
  predicate IsTrimChar(c: char) {
    c == ' ' || c == '\t' || c == '\n' || c == '\r' || c == '\0' || c == '\U{000B}'
  }

  function TrimLeft(s: string): (r: string)
    ensures |r| <= |s| && r == s[|s| - |r|..]
    ensures forall i :: 0 <= i < |s| - |r| ==> IsTrimChar(s[i])
    ensures r == [] || !IsTrimChar(r[0])
  {
    if s != [] && IsTrimChar(s[0]) then TrimLeft(s[1..]) else s
  }

  function TrimRight(s: string): (r: string)
    ensures |r| <= |s| && r == s[..|r|]
    ensures forall i :: |r| <= i < |s| ==> IsTrimChar(s[i])
    ensures r == [] || !IsTrimChar(r[|r| - 1])
  {
    if s != [] && IsTrimChar(s[|s| - 1]) then TrimRight(s[..|s| - 1]) else s
  }

  /** `r` is the part of `s` from position `k` on, and only characters
      trim strips come before and after it. */
  predicate StripsTo(s: string, k: nat, r: string) {
    k + |r| <= |s| && r == s[k..k + |r|] &&
    (forall i :: 0 <= i < k ==> IsTrimChar(s[i])) &&
    (forall i :: k + |r| <= i < |s| ==> IsTrimChar(s[i]))
  }

  /** trim(): the part of `s` left after removing the characters trim
      strips from both ends, and only those: `s` is a run of such
      characters, then `r`, then another run of them, and `r` neither
      starts nor ends with one. */
  function Trim(s: string): (r: string)
    ensures r == [] || (!IsTrimChar(r[0]) && !IsTrimChar(r[|r| - 1]))
    ensures StripsTo(s, |s| - |TrimLeft(s)|, r)
  {
    TrimStrips(s);
    TrimRight(TrimLeft(s))
  }

  lemma TrimStrips(s: string)
    ensures StripsTo(s, |s| - |TrimLeft(s)|, TrimRight(TrimLeft(s)))
  {
    var left := TrimLeft(s);
    var k := |s| - |left|;
    var r := TrimRight(left);
    SliceOfSuffix(s, k, |r|);
    TrailingOfSuffix(s, k, |r|);
  }

  lemma SliceOfSuffix(s: string, k: nat, n: nat)
    requires k + n <= |s|
    ensures s[k..][..n] == s[k..k + n]
  {
  }

  /** What TrimRight strips from a suffix is trim characters of the whole. */
  lemma TrailingOfSuffix(s: string, k: nat, n: nat)
    requires k <= |s| && n == |TrimRight(s[k..])|
    ensures forall i :: k + n <= i < |s| ==> IsTrimChar(s[i])
  {
    var left := s[k..];
    forall i | k + n <= i < |s|
      ensures IsTrimChar(s[i])
    {
      assert s[i] == left[i - k];
    }
  }

  /** Trimming only removes characters. */
  lemma NotInTrim(s: string, c: char)
    requires c !in s
    ensures c !in Trim(s)
  {
    var left := TrimLeft(s);
    assert left == s[|s| - |left|..];
    assert c !in left;
    assert TrimRight(left) == left[..|TrimRight(left)|];
  }

  /** Trailing whitespace after a string that does not end in whitespace
      is exactly what TrimRight removes. */
  lemma {:induction false} TrimRightPadding(s: string, pad: string)
    requires s != [] && !IsTrimChar(s[|s| - 1])
    requires forall c :: c in pad ==> IsTrimChar(c)
    ensures TrimRight(s + pad) == s
  {
    if pad != [] {
      var p' := pad[..|pad| - 1];
      assert pad[|pad| - 1] in pad;
      assert (s + pad)[..|s + pad| - 1] == s + p';
      assert forall c :: c in p' ==> c in pad;
      TrimRightPadding(s, p');
    } else {
      assert s + pad == s;
    }
  }

  /** Leading whitespace before a string that does not start with
      whitespace is exactly what TrimLeft removes. */
  lemma {:induction false} TrimLeftPadding(pad: string, s: string)
    requires s != [] && !IsTrimChar(s[0])
    requires forall c :: c in pad ==> IsTrimChar(c)
    ensures TrimLeft(pad + s) == s
  {
    if pad != [] {
      assert pad[0] in pad;
      assert (pad + s)[1..] == pad[1..] + s;
      assert forall c :: c in pad[1..] ==> c in pad;
      TrimLeftPadding(pad[1..], s);
    } else {
      assert pad + s == s;
    }
  }

  /** A string that already neither starts nor ends with whitespace is
      its own trim. */
  lemma TrimOfTrimmed(s: string)
    requires s == [] || (!IsTrimChar(s[0]) && !IsTrimChar(s[|s| - 1]))
    ensures Trim(s) == s
  {
  }

  // ---------------------------------------------------------------------
  // explode(), first piece

  /** The first piece of explode(sep, s): everything before the first
      occurrence of `sep`, or all of `s` when there is none. */
  function BeforeFirst(s: string, sep: char): (r: string)
    ensures |r| <= |s| && r == s[..|r|]
    ensures sep !in r
    ensures |r| < |s| ==> s[|r|] == sep
  {
    if s == [] then []
    else if s[0] == sep then []
    else [s[0]] + BeforeFirst(s[1..], sep)
  }

  /** What follows the first occurrence of `sep` ("" when there is none). */
  function AfterFirst(s: string, sep: char): (r: string)
    ensures |BeforeFirst(s, sep)| < |s| ==> r == s[|BeforeFirst(s, sep)| + 1..]
    ensures |BeforeFirst(s, sep)| == |s| ==> r == []
  {
    var k := |BeforeFirst(s, sep)|;
    if k < |s| then s[k + 1..] else []
  }

  /** Splitting `a + [sep] + b` at the first `sep` gives back `a` and `b`
      exactly when `a` holds no `sep`. */
  lemma {:induction false} SplitAtFirst(a: string, sep: char, b: string)
    requires sep !in a
    ensures BeforeFirst(a + [sep] + b, sep) == a
    ensures AfterFirst(a + [sep] + b, sep) == b
  {
    if a != [] {
      assert (a + [sep] + b)[1..] == a[1..] + [sep] + b;
      SplitAtFirst(a[1..], sep, b);
    }
  }

  lemma {:induction false} BeforeFirstNoSeparator(a: string, sep: char)
    requires sep !in a
    ensures BeforeFirst(a, sep) == a
  {
    if a != [] {
      BeforeFirstNoSeparator(a[1..], sep);
    }
  }

  // ---------------------------------------------------------------------
  // ucwords and str_replace

  /** The characters after which ucwords starts a new word:
      space, tab, carriage return, line feed, form feed, vertical tab. */
  predicate IsWordDelimiter(c: char) {
    c == ' ' || c == '\t' || c == '\r' || c == '\n' || c == '\U{000C}' || c == '\U{000B}'
  }

  /** ucwords on `s`, where `atWordStart` says whether `s[0]` begins a word. */
  function UcWordsFrom(s: string, atWordStart: bool): (r: string)
    ensures |r| == |s|
    ensures |s| > 0 ==> r[0] == if atWordStart then UpperChar(s[0]) else s[0]
    ensures forall i :: 0 < i < |s| ==>
      r[i] == if IsWordDelimiter(s[i - 1]) then UpperChar(s[i]) else s[i]
  {
    if s == [] then []
    else [if atWordStart then UpperChar(s[0]) else s[0]] + UcWordsFrom(s[1..], IsWordDelimiter(s[0]))
  }

  /** ucwords: the first character, and every character following a word
      delimiter, is upper-cased; nothing else changes. */
  function UcWords(s: string): (r: string)
    ensures |r| == |s|
    ensures forall i :: 0 <= i < |s| ==>
      r[i] == if i == 0 || IsWordDelimiter(s[i - 1]) then UpperChar(s[i]) else s[i]
  {
    UcWordsFrom(s, true)
  }

  /** str_replace of one character by another. */
  function ReplaceChar(s: string, from: char, to: char): (r: string)
    ensures |r| == |s|
    ensures forall i :: 0 <= i < |s| ==> r[i] == if s[i] == from then to else s[i]
  {
    if s == [] then [] else [if s[0] == from then to else s[0]] + ReplaceChar(s[1..], from, to)
  }

  // ---------------------------------------------------------------------
  // Integers as decimal strings

  function DigitChar(d: nat): char
    requires d < 10
  {
    (d + '0' as int) as char
  }

  predicate IsDigit(c: char) {
    '0' <= c <= '9'
  }

  function DigitValue(c: char): nat
    requires IsDigit(c)
  {
    c as int - '0' as int
  }

  /** The decimal digits of `n`, without leading zeros. */
  function NatToString(n: nat): (r: string)
    ensures r != []
    ensures forall i :: 0 <= i < |r| ==> IsDigit(r[i])
    ensures |r| > 1 ==> r[0] != '0'
    ensures r[0] == '0' <==> n == 0
  {
    if n < 10 then [DigitChar(n)] else NatToString(n / 10) + [DigitChar(n % 10)]
  }

  /** An optional minus sign followed by at least one decimal digit. */
  predicate IsIntString(s: string) {
    if s != [] && s[0] == '-' then |s| > 1 && forall i :: 1 <= i < |s| ==> IsDigit(s[i])
    else s != [] && forall i :: 0 <= i < |s| ==> IsDigit(s[i])
  }

  /** PHP's conversion of an int to a string, as in "{$i}". */
  function IntToString(i: int): (r: string)
    ensures IsIntString(r)
    ensures r[0] == '-' <==> i < 0
    ensures |r| > 1 ==> r[0] != '0' && (r[0] == '-' ==> r[1] != '0')
    ensures r == "0" <==> i == 0
  {
    if i < 0 then "-" + NatToString(-i) else NatToString(i)
  }

  /** The value of a string of decimal digits. */
  function DigitsValue(s: string): nat
    requires forall i :: 0 <= i < |s| ==> IsDigit(s[i])
  {
    if s == [] then 0 else DigitsValue(s[..|s| - 1]) * 10 + DigitValue(s[|s| - 1])
  }

  /** The integer a string made by IntToString stands for: an optional
      minus sign followed by decimal digits. */
  function IntValue(s: string): int
    requires s != [] && s[0] == '-' ==> forall i :: 1 <= i < |s| ==> IsDigit(s[i])
    requires s != [] && s[0] != '-' ==> forall i :: 0 <= i < |s| ==> IsDigit(s[i])
  {
    if s == [] then 0
    else if s[0] == '-' then -(DigitsValue(s[1..]) as int)
    else DigitsValue(s)
  }

  lemma {:induction false} NatToStringRoundTrip(n: nat)
    ensures DigitsValue(NatToString(n)) == n
  {
    if n >= 10 {
      NatToStringRoundTrip(n / 10);
      var s := NatToString(n);
      assert s[..|s| - 1] == NatToString(n / 10);
    }
  }

  /** Reading back the decimal string of an integer yields the integer. */
  lemma IntToStringRoundTrip(i: int)
    ensures IntValue(IntToString(i)) == i
  {
    if i < 0 {
      NatToStringRoundTrip(-i);
      assert IntToString(i)[1..] == NatToString(-i);
    } else {
      NatToStringRoundTrip(i);
    }
  }

  // ---------------------------------------------------------------------
  // urlencode / urldecode

  /** The bytes urlencode leaves as they are: letters, digits, "-", "_", ".". */
  predicate IsUnreserved(c: char) {
    ('a' <= c <= 'z') || ('A' <= c <= 'Z') || ('0' <= c <= '9') || c == '-' || c == '_' || c == '.'
  }

  /** The characters urlencode can produce. */
  predicate IsUrlEncodedChar(c: char) {
    IsUnreserved(c) || c == '+' || c == '%'
  }

  function HexDigit(n: nat): (c: char)
    requires n < 16
    ensures IsUnreserved(c)
  {
    "0123456789ABCDEF"[n]
  }

  predicate IsHexDigit(c: char) {
    ('0' <= c <= '9') || ('A' <= c <= 'F') || ('a' <= c <= 'f')
  }

  function HexValue(c: char): (n: nat)
    requires IsHexDigit(c)
    ensures n < 16
  {
    if '0' <= c <= '9' then c as int - '0' as int
    else if 'A' <= c <= 'F' then c as int - 'A' as int + 10
    else c as int - 'a' as int + 10
  }

  lemma HexValueOfDigit(n: nat)
    requires n < 16
    ensures IsHexDigit(HexDigit(n)) && HexValue(HexDigit(n)) == n
  {
    var digits := "0123456789ABCDEF";
    assert digits[n] == if n < 10 then (n + '0' as int) as char else (n - 10 + 'A' as int) as char;
  }

  /** urlencode of one byte: kept, "+" for a space, or "%XX" in upper-case hex. */
  function EncodeByte(c: char): (r: string)
    requires c as int < 256
    ensures forall i :: 0 <= i < |r| ==> IsUrlEncodedChar(r[i])
  {
    if IsUnreserved(c) then [c]
    else if c == ' ' then "+"
    else ['%', HexDigit(c as int / 16), HexDigit(c as int % 16)]
  }

  /** urlencode: every byte mapped by EncodeByte. */
  function UrlEncode(s: ByteString): (r: string)
    ensures forall i :: 0 <= i < |r| ==> IsUrlEncodedChar(r[i])
  {
    if s == [] then [] else EncodeByte(s[0]) + UrlEncode(s[1..])
  }

  /** urldecode: "+" becomes a space and "%XX" (either case) the byte XX;
      every other character stands for itself. */
  function UrlDecode(s: string): string
  {
    if s == [] then []
    else if s[0] == '+' then " " + UrlDecode(s[1..])
    else if s[0] == '%' && |s| >= 3 && IsHexDigit(s[1]) && IsHexDigit(s[2]) then
      [(HexValue(s[1]) * 16 + HexValue(s[2])) as char] + UrlDecode(s[3..])
    else [s[0]] + UrlDecode(s[1..])
  }

  lemma DecodeEncodedByte(c: char, rest: string)
    requires c as int < 256
    ensures UrlDecode(EncodeByte(c) + rest) == [c] + UrlDecode(rest)
  {
    if !IsUnreserved(c) && c != ' ' {
      var n := c as int;
      HexValueOfDigit(n / 16);
      HexValueOfDigit(n % 16);
      var s := EncodeByte(c) + rest;
      assert s[0] == '%' && s[1] == HexDigit(n / 16) && s[2] == HexDigit(n % 16);
      assert s[3..] == rest;
    } else {
      assert (EncodeByte(c) + rest)[1..] == rest;
    }
  }

  /** urldecode undoes urlencode. */
  lemma {:induction false} UrlDecodeEncode(s: ByteString)
    ensures UrlDecode(UrlEncode(s)) == s
  {
    if s != [] {
      DecodeEncodedByte(s[0], UrlEncode(s[1..]));
      UrlDecodeEncode(s[1..]);
    }
  }
}
