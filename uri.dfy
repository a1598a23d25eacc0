/** ECMAScript's `encodeURIComponent` (ECMA-262, URI Handling Functions) and,
    as its partner, the reading of a URL's query parameter that a catalogue
    server performs (percent-decoding as in section 2.1 of RFC 3986, `+` read
    as a space as in application/x-www-form-urlencoded, then UTF-8 decoding as
    in RFC 3629). */
module Uri {
  import opened Wrappers
  import opened JsString

  /** The characters `encodeURIComponent` leaves unescaped. */
  predicate IsUnreserved(c: char) {
    || ('A' <= c <= 'Z') || ('a' <= c <= 'z') || ('0' <= c <= '9')
    || c == '-' || c == '_' || c == '.' || c == '!' || c == '~'
    || c == '*' || c == '\'' || c == '(' || c == ')'
  }

  predicate IsByte(b: int) { 0 <= b < 256 }

  predicate AllBytes(bs: seq<int>) {
    forall k :: 0 <= k < |bs| ==> IsByte(bs[k])
  }

  predicate IsContinuation(b: int) { 0x80 <= b < 0xC0 }

  /** The UTF-8 encoding of one Unicode scalar value. */
  function Utf8(c: char): (bs: seq<int>)
    ensures 1 <= |bs| <= 4 && AllBytes(bs)
    ensures (|bs| == 1) <==> (c as int < 0x80)
  {
    var v := c as int;
    if v < 0x80 then [v]
    else if v < 0x800 then [0xC0 + v / 64, 0x80 + v % 64]
    else if v < 0x10000 then [0xE0 + v / 4096, 0x80 + (v / 64) % 64, 0x80 + v % 64]
    else [0xF0 + v / 262144, 0x80 + (v / 4096) % 64, 0x80 + (v / 64) % 64, 0x80 + v % 64]
  }

  /** The UTF-8 encoding of a whole string. */
  function Utf8Encode(s: string): (bs: seq<int>)
    ensures AllBytes(bs)
  {
    if s == [] then [] else Utf8(s[0]) + Utf8Encode(s[1..])
  }

  /** `encodeURIComponent` writes hexadecimal digits in upper case. */
  function HexDigit(d: int): (c: char)
    requires 0 <= d < 16
  {
    if d < 10 then ('0' as int + d) as char else ('A' as int + d - 10) as char
  }

  predicate IsHex(c: char) {
    ('0' <= c <= '9') || ('A' <= c <= 'F') || ('a' <= c <= 'f')
  }

  function HexValue(c: char): (d: int)
    requires IsHex(c)
    ensures 0 <= d < 16
  {
    if '0' <= c <= '9' then c as int - '0' as int
    else if 'A' <= c <= 'F' then c as int - 'A' as int + 10
    else c as int - 'a' as int + 10
  }

  /** One byte written as `%` and two upper-case hexadecimal digits, the
      high half first. */
  function EscapeByte(b: int): string
    requires IsByte(b)
  {
    ['%', HexDigit(b / 16), HexDigit(b % 16)]
  }

  /** Each byte written as its escape. */
  function PercentEncode(bs: seq<int>): (r: string)
    requires AllBytes(bs)
    ensures |r| == 3 * |bs|
    ensures forall k :: 0 <= k < |r| ==> r[k] == '%' || ('0' <= r[k] <= '9') || ('A' <= r[k] <= 'F')
  {
    if bs == [] then [] else EscapeByte(bs[0]) + PercentEncode(bs[1..])
  }

  /** Percent-encoding works byte by byte: a single byte becomes its escape,
      and the encoding of two byte sequences one after the other is the one
      encoding after the other. */
  lemma {:induction false} PercentEncodeAppend(xs: seq<int>, ys: seq<int>)
    requires AllBytes(xs) && AllBytes(ys)
    ensures forall b :: IsByte(b) ==> PercentEncode([b]) == EscapeByte(b)
    ensures PercentEncode(xs + ys) == PercentEncode(xs) + PercentEncode(ys)
  {
    forall b | IsByte(b) ensures PercentEncode([b]) == EscapeByte(b) {
      assert [b][1..] == [];
    }
    if xs == [] {
      assert xs + ys == ys;
    } else {
      assert (xs + ys)[0] == xs[0] && (xs + ys)[1..] == xs[1..] + ys;
      PercentEncodeAppend(xs[1..], ys);
    }
  }

  function EncodeChar(c: char): (r: string)
    ensures |r| >= 1
  {
    if IsUnreserved(c) then [c] else PercentEncode(Utf8(c))
  }

  /** `encodeURIComponent(s)`. The result holds only unreserved characters and
      `%`, and is at least as long as `s`. */
  function EncodeUriComponent(s: string): (r: string)
    ensures forall k :: 0 <= k < |r| ==> IsUnreserved(r[k]) || r[k] == '%'
    ensures |r| >= |s|
  {
    if s == [] then []
    else
      var r := EncodeChar(s[0]) + EncodeUriComponent(s[1..]);
      assert forall k :: 0 <= k < |EncodeChar(s[0])| ==> IsUnreserved(r[k]) || r[k] == '%';
      r
  }

  /** The encoded component never holds a character that would end or split a
      query parameter or a URL: no space, `&`, `#`, `+`, `"`, `=`, `?` or `/`. */
  lemma EncodedHasNoDelimiters(s: string)
    ensures var r := EncodeUriComponent(s);
      ' ' !in r && '&' !in r && '#' !in r && '+' !in r && '"' !in r && '=' !in r && '?' !in r && '/' !in r
  {
    var r := EncodeUriComponent(s);
    forall k | 0 <= k < |r|
      ensures r[k] != ' ' && r[k] != '&' && r[k] != '#' && r[k] != '+'
      ensures r[k] != '"' && r[k] != '=' && r[k] != '?' && r[k] != '/'
    {
      assert IsUnreserved(r[k]) || r[k] == '%';
    }
  }

  /** A string comes out of `encodeURIComponent` unchanged exactly when every
      one of its characters is unreserved. */
  lemma {:induction false} EncodeIsIdentityIff(s: string)
    ensures EncodeUriComponent(s) == s <==> forall k :: 0 <= k < |s| ==> IsUnreserved(s[k])
  {
    if s != [] {
      EncodeIsIdentityIff(s[1..]);
      var tail := EncodeUriComponent(s[1..]);
      if IsUnreserved(s[0]) {
        assert EncodeUriComponent(s) == [s[0]] + tail;
        if tail == s[1..] {
          assert EncodeUriComponent(s) == s;
        } else {
          assert EncodeUriComponent(s)[1..] == tail;
        }
        assert forall k :: 1 <= k < |s| ==> s[k] == s[1..][k - 1];
      } else {
        assert |EncodeChar(s[0])| == 3 * |Utf8(s[0])| >= 3;
      }
    }
  }

  // ---------------------------------------------------------------------
  // Decoding: the server's reading of an encoded component.

  function PrependBytes(bs: seq<int>, rest: Option<seq<int>>): Option<seq<int>> {
    match rest
    case None => None
    case Some(t) => Some(bs + t)
  }

  /** The bytes a form-encoded string stands for: `%XY` is the byte XY, `+` a
      space, any other character its UTF-8 encoding; none when a `%` is not
      followed by two hexadecimal digits. */
  function FormBytes(s: string): Option<seq<int>>
  {
    if s == [] then Some([])
    else if s[0] == '%' then
      if |s| >= 3 && IsHex(s[1]) && IsHex(s[2])
      then PrependBytes([HexValue(s[1]) * 16 + HexValue(s[2])], FormBytes(s[3..]))
      else None
    else if s[0] == '+' then PrependBytes([0x20], FormBytes(s[1..]))
    else PrependBytes(Utf8(s[0]), FormBytes(s[1..]))
  }

  function PrependChar(c: char, rest: Option<string>): Option<string> {
    match rest
    case None => None
    case Some(t) => Some([c] + t)
  }

  predicate IsScalar(v: int) {
    (0 <= v < 0xD800) || (0xE000 <= v < 0x110000)
  }

  /** The first scalar value a UTF-8 byte sequence encodes, and how many
      bytes it takes; none on a malformed start (a stray continuation byte, a
      truncated sequence, an over-long form, a surrogate or a value beyond
      U+10FFFF). */
  function DecodeFirst(bs: seq<int>): (r: Option<(char, nat)>)
    requires bs != []
    ensures r.Some? ==> 1 <= r.value.1 <= 4 && r.value.1 <= |bs|
  {
    var b := bs[0];
    if 0 <= b < 0x80 then Some((b as char, 1))
    else if 0xC0 <= b < 0xE0 && |bs| >= 2 && IsContinuation(bs[1]) then
      var v := (b - 0xC0) * 64 + (bs[1] - 0x80);
      if 0x80 <= v then Some((v as char, 2)) else None
    else if 0xE0 <= b < 0xF0 && |bs| >= 3 && IsContinuation(bs[1]) && IsContinuation(bs[2]) then
      var v := ((b - 0xE0) * 64 + (bs[1] - 0x80)) * 64 + (bs[2] - 0x80);
      if 0x800 <= v && IsScalar(v) then Some((v as char, 3)) else None
    else if 0xF0 <= b < 0xF8 && |bs| >= 4 && IsContinuation(bs[1]) && IsContinuation(bs[2]) && IsContinuation(bs[3]) then
      var v := (((b - 0xF0) * 64 + (bs[1] - 0x80)) * 64 + (bs[2] - 0x80)) * 64 + (bs[3] - 0x80);
      if 0x10000 <= v && IsScalar(v) then Some((v as char, 4)) else None
    else None
  }

  /** UTF-8 decoding of a whole byte sequence; none if any part is malformed. */
  function Utf8Decode(bs: seq<int>): Option<string>
  {
    if bs == [] then Some([])
    else
      match DecodeFirst(bs)
      case None => None
      case Some((c, n)) => PrependChar(c, Utf8Decode(bs[n..]))
  }

  /** The text a form-encoded query value stands for. */
  function FormDecode(s: string): Option<string> {
    match FormBytes(s)
    case None => None
    case Some(bs) => Utf8Decode(bs)
  }

  // ---------------------------------------------------------------------
  // Round trip.

  lemma HexRoundTrip(b: int)
    requires IsByte(b)
    ensures IsHex(HexDigit(b / 16)) && IsHex(HexDigit(b % 16))
    ensures HexValue(HexDigit(b / 16)) * 16 + HexValue(HexDigit(b % 16)) == b
  {
  }

  lemma {:induction false} FormBytesOfPercentEncode(bs: seq<int>, t: string)
    requires AllBytes(bs)
    ensures FormBytes(PercentEncode(bs) + t) == PrependBytes(bs, FormBytes(t))
  {
    if bs == [] {
      assert PercentEncode(bs) + t == t;
      match FormBytes(t) {
        case None =>
        case Some(x) => assert bs + x == x;
      }
    } else {
      var e := EscapeByte(bs[0]);
      var rest := PercentEncode(bs[1..]) + t;
      assert PercentEncode(bs) + t == e + rest;
      FormBytesOfEscapedByte(bs[0], rest);
      FormBytesOfPercentEncode(bs[1..], t);
      PrependBytesTwice([bs[0]], bs[1..], FormBytes(t));
      assert [bs[0]] + bs[1..] == bs;
    }
  }

  lemma PrependBytesTwice(xs: seq<int>, ys: seq<int>, rest: Option<seq<int>>)
    ensures PrependBytes(xs, PrependBytes(ys, rest)) == PrependBytes(xs + ys, rest)
  {
    match rest {
      case None =>
      case Some(t) => assert xs + (ys + t) == (xs + ys) + t;
    }
  }

  /** One `%XY` escape reads back as its byte. */
  lemma FormBytesOfEscapedByte(b: int, t: string)
    requires IsByte(b)
    ensures FormBytes(EscapeByte(b) + t) == PrependBytes([b], FormBytes(t))
  {
    var s := EscapeByte(b) + t;
    HexRoundTrip(b);
    assert s[0] == '%' && s[1] == HexDigit(b / 16) && s[2] == HexDigit(b % 16);
    assert s[3..] == t;
  }

  lemma FormBytesOfEncodeChar(c: char, t: string)
    ensures FormBytes(EncodeChar(c) + t) == PrependBytes(Utf8(c), FormBytes(t))
  {
    if IsUnreserved(c) {
      var s := [c] + t;
      assert s[0] == c && s[1..] == t;
    } else {
      FormBytesOfPercentEncode(Utf8(c), t);
    }
  }

  /** Reading an encoded component back gives the UTF-8 bytes of the original. */
  lemma {:induction false} FormBytesOfEncode(s: string)
    ensures FormBytes(EncodeUriComponent(s)) == Some(Utf8Encode(s))
  {
    if s != [] {
      FormBytesOfEncode(s[1..]);
      FormBytesOfEncodeChar(s[0], EncodeUriComponent(s[1..]));
    }
  }

  lemma DivideBy64(v: int)
    requires 0 <= v
    ensures v / 4096 == (v / 64) / 64
    ensures v / 262144 == (v / 4096) / 64
  {
  }

  /** The first value decoded from an encoded scalar value followed by more
      bytes is that scalar value. */
  lemma DecodeFirstOfUtf8(c: char, rest: seq<int>)
    ensures DecodeFirst(Utf8(c) + rest) == Some((c, |Utf8(c)|))
  {
    var v := c as int;
    var bs := Utf8(c) + rest;
    if v < 0x80 {
    } else if v < 0x800 {
      assert ((0xC0 + v / 64) - 0xC0) * 64 + ((0x80 + v % 64) - 0x80) == v;
    } else if v < 0x10000 {
      DivideBy64(v);
      assert ((v / 4096) * 64 + (v / 64) % 64) == v / 64;
      assert (((0xE0 + v / 4096) - 0xE0) * 64 + ((0x80 + (v / 64) % 64) - 0x80)) * 64 + ((0x80 + v % 64) - 0x80) == v;
    } else {
      DivideBy64(v);
      assert v / 262144 < 5;
      assert ((v / 262144) * 64 + (v / 4096) % 64) == v / 4096;
      assert ((v / 4096) * 64 + (v / 64) % 64) == v / 64;
      assert ((((0xF0 + v / 262144) - 0xF0) * 64 + ((0x80 + (v / 4096) % 64) - 0x80)) * 64 + ((0x80 + (v / 64) % 64) - 0x80)) * 64 + ((0x80 + v % 64) - 0x80) == v;
    }
  }

  lemma Utf8DecodeChar(c: char, rest: seq<int>)
    ensures Utf8Decode(Utf8(c) + rest) == PrependChar(c, Utf8Decode(rest))
  {
    DecodeFirstOfUtf8(c, rest);
    assert (Utf8(c) + rest)[|Utf8(c)|..] == rest;
  }

  lemma {:induction false} Utf8RoundTrip(s: string)
    ensures Utf8Decode(Utf8Encode(s)) == Some(s)
  {
    if s != [] {
      Utf8RoundTrip(s[1..]);
      Utf8DecodeChar(s[0], Utf8Encode(s[1..]));
      assert [s[0]] + s[1..] == s;
    }
  }

  /** Reading back what `encodeURIComponent` wrote gives the original text,
      for every string. */
  lemma DecodeEncode(s: string)
    ensures FormDecode(EncodeUriComponent(s)) == Some(s)
  {
    FormBytesOfEncode(s);
    Utf8RoundTrip(s);
  }
}

module UriQuery {
  import opened Wrappers
  import opened JsString
  import opened Uri

  function ConcatText(x: Option<string>, y: Option<string>): Option<string> {
    if x.Some? && y.Some? then Some(x.value + y.value) else None
  }

  function ConcatBytes(x: Option<seq<int>>, y: Option<seq<int>>): Option<seq<int>> {
    if x.Some? && y.Some? then Some(x.value + y.value) else None
  }

  lemma {:induction false} FormBytesAppend(x: string, y: string)
    requires FormBytes(x).Some?
    ensures FormBytes(x + y) == ConcatBytes(FormBytes(x), FormBytes(y))
  {
    if x == [] {
      assert x + y == y;
      if FormBytes(y).Some? {
        assert [] + FormBytes(y).value == FormBytes(y).value;
      }
    } else {
      var n := if x[0] == '%' then 3 else 1;
      var b := if x[0] == '%' then [HexValue(x[1]) * 16 + HexValue(x[2])]
               else if x[0] == '+' then [0x20] else Utf8(x[0]);
      assert (x + y)[..n] == x[..n];
      assert (x + y)[n..] == x[n..] + y;
      FormBytesAppend(x[n..], y);
      assert FormBytes(x) == PrependBytes(b, FormBytes(x[n..]));
      assert FormBytes(x + y) == PrependBytes(b, FormBytes(x[n..] + y));
      if FormBytes(y).Some? {
        var u, w := FormBytes(x[n..]).value, FormBytes(y).value;
        assert b + (u + w) == (b + u) + w;
      }
    }
  }

  /** The first decoded value depends only on the bytes it takes. */
  lemma DecodeFirstAppend(a: seq<int>, b: seq<int>)
    requires a != [] && DecodeFirst(a).Some?
    ensures DecodeFirst(a + b) == DecodeFirst(a)
  {
    var n := DecodeFirst(a).value.1;
    assert forall k :: 0 <= k < n ==> (a + b)[k] == a[k];
  }

  lemma PrependCharConcat(c: char, x: Option<string>, y: Option<string>)
    ensures PrependChar(c, ConcatText(x, y)) == ConcatText(PrependChar(c, x), y)
  {
    if x.Some? && y.Some? {
      assert [c] + (x.value + y.value) == ([c] + x.value) + y.value;
    }
  }

  lemma {:induction false} Utf8DecodeAppend(a: seq<int>, b: seq<int>)
    requires Utf8Decode(a).Some?
    ensures Utf8Decode(a + b) == ConcatText(Utf8Decode(a), Utf8Decode(b))
  {
    if a != [] {
      DecodeFirstAppend(a, b);
      var (c, n) := DecodeFirst(a).value;
      assert (a + b)[n..] == a[n..] + b;
      Utf8DecodeAppend(a[n..], b);
      assert Utf8Decode(a) == PrependChar(c, Utf8Decode(a[n..]));
      assert Utf8Decode(a + b) == PrependChar(c, Utf8Decode(a[n..] + b));
      PrependCharConcat(c, Utf8Decode(a[n..]), Utf8Decode(b));
    } else {
      assert a + b == b;
      if Utf8Decode(b).Some? {
        assert [] + Utf8Decode(b).value == Utf8Decode(b).value;
      }
    }
  }

  /** Decoding distributes over concatenation of well-formed pieces. */
  lemma FormDecodeAppend(x: string, y: string)
    requires FormDecode(x).Some? && FormDecode(y).Some?
    ensures FormDecode(x + y) == Some(FormDecode(x).value + FormDecode(y).value)
  {
    FormBytesAppend(x, y);
    Utf8DecodeAppend(FormBytes(x).value, FormBytes(y).value);
  }

  /** Text made of unreserved characters reads back as itself. */
  lemma FormDecodePlain(x: string)
    requires forall k :: 0 <= k < |x| ==> IsUnreserved(x[k])
    ensures FormDecode(x) == Some(x)
  {
    EncodeIsIdentityIff(x);
    assert EncodeUriComponent(x) == x;
    DecodeEncode(x);
  }

  lemma Utf8DecodeAscii(b: int)
    requires 0 <= b < 0x80
    ensures Utf8Decode([b]) == Some([b as char])
  {
    assert [b][1..] == [];
    assert DecodeFirst([b]) == Some((b as char, 1));
    assert Utf8Decode([]) == Some([]);
    assert [b as char] + [] == [b as char];
  }

  lemma FormDecodePlus()
    ensures FormDecode("+") == Some(" ")
  {
    var s := "+";
    assert s[0] == '+' && s[1..] == [];
    assert FormBytes(s[1..]) == Some([]);
    assert [0x20] + [] == [0x20];
    assert FormBytes(s) == Some([0x20]);
    Utf8DecodeAscii(0x20);
  }

  /** A `%XY` escape of an ASCII character reads back as that character. */
  lemma FormDecodeEscape(h1: char, h2: char, c: char)
    requires IsHex(h1) && IsHex(h2) && c as int == HexValue(h1) * 16 + HexValue(h2) < 0x80
    ensures FormDecode(['%', h1, h2]) == Some([c])
  {
    var s := ['%', h1, h2];
    assert s[3..] == [];
    var b := [HexValue(h1) * 16 + HexValue(h2)];
    assert FormBytes(s[3..]) == Some([]);
    assert b + [] == b;
    assert FormBytes(s) == Some(b);
    Utf8DecodeAscii(b[0]);
  }

  // ---------------------------------------------------------------------
  // The query part of a URL and its parameters.

  /** The text between the first `?` of a URL and the first `#` after it. */
  function QueryOf(url: string): string {
    match IndexOf(url, "?")
    case None => []
    case Some(i) => Split(url[i + 1..], '#')[0]
  }

  /** The raw value of the first `name=value` entry called `name`. */
  function ParamValue(params: seq<string>, name: string): Option<string> {
    if params == [] then None
    else if StartsWith(params[0], name + "=") then Some(params[0][|name| + 1..])
    else ParamValue(params[1..], name)
  }

  /** The decoded value of a URL's first query parameter called `name`, as
      the server receiving the request reads it. */
  function QueryParameter(url: string, name: string): Option<string> {
    match ParamValue(Split(QueryOf(url), '&'), name)
    case None => None
    case Some(raw) => FormDecode(raw)
  }

  lemma IndexOfFirstChar(x: string, c: char, y: string)
    requires c !in x
    ensures IndexOf(x + [c] + y, [c]) == Some(|x|)
  {
    var s := x + [c] + y;
    assert s[|x|..|x| + 1] == [c];
    assert OccursAt(s, [c], |x|);
    forall j | 0 <= j < |x| ensures !OccursAt(s, [c], j) {
      assert s[j..j + 1][0] == s[j] == x[j];
    }
  }

  /** The query of `base?q` is `q` when `base` has no `?` and `q` no `#`. */
  lemma QueryOfUrl(base: string, q: string)
    requires '?' !in base && '#' !in q
    ensures QueryOf(base + "?" + q) == q
  {
    var url := base + "?" + q;
    assert url == base + ['?'] + q;
    IndexOfFirstChar(base, '?', q);
    assert url[|base| + 1..] == q;
    SplitNoSeparator(q, '#');
  }

  /** The first entry `name=v` of a parameter list `name=v&...` gives `v`. */
  lemma ParamValueOfFirst(name: string, v: string, more: string)
    requires '&' !in name && '&' !in v
    requires more == [] || more[0] == '&'
    ensures ParamValue(Split(name + "=" + v + more, '&'), name) == Some(v)
  {
    var first := name + "=" + v;
    if more == [] {
      assert name + "=" + v + more == first;
      SplitNoSeparator(first, '&');
    } else {
      assert name + "=" + v + more == first + ['&'] + more[1..];
      SplitAfterPiece(first, more[1..], '&');
    }
    assert first[..|name + "="|] == name + "=";
    assert first[|name| + 1..] == v;
  }

  /** A URL `base?name=v...` whose value `v` holds no `&` or `#` carries
      exactly `v`, decoded, as its parameter `name`. */
  lemma QueryParameterOfFirst(base: string, name: string, v: string, more: string)
    requires '?' !in base
    requires '&' !in name && '#' !in name && '&' !in v && '#' !in v && '#' !in more
    requires more == [] || more[0] == '&'
    ensures QueryParameter(base + "?" + name + "=" + v + more, name) == FormDecode(v)
  {
    var q := name + "=" + v + more;
    assert base + "?" + name + "=" + v + more == base + "?" + q;
    QueryOfUrl(base, q);
    ParamValueOfFirst(name, v, more);
  }
}
