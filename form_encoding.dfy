/**
 * `decodeFormEncodedString`: a form-encoded string has every `+` turned
 * into a space and is then percent-decoded as ECMAScript's
 * `decodeURIComponent` does (the URI handling functions of ECMA-262, percent-encoding
 * as in section 2.1 of RFC 3986): each `%XY` escape is a byte, and the bytes
 * of one escape run must form a well-formed UTF-8 encoding of one Unicode
 * scalar value, otherwise the call throws a URIError. A value that is not a
 * string gives `false`.
 *
 * Its partner is the application/x-www-form-urlencoded serializer of the
 * WHATWG URL Standard: a space becomes `+`, ASCII letters, digits and
 * `*-._` stay, every other character becomes the escapes of its UTF-8 bytes.
 */
module FormEncoding {
  import opened Wrappers
  import opened Json

  type Byte = b: int | 0 <= b < 256

  /** The URIError `decodeURIComponent` throws on a malformed escape. */
  datatype UriError = UriError

  // ---------------------------------------------------------------------
  // Hexadecimal digits

  predicate IsHexDigit(c: char) {
    ('0' <= c <= '9') || ('a' <= c <= 'f') || ('A' <= c <= 'F')
  }

  /**
   * The value of a hexadecimal digit of either case: the digit characters
   * are exactly the twenty-two of `0-9`, `a-f` and `A-F`, and each spells
   * the value whose upper-case digit it is, or the lower-case form of it.
   */
  function HexValue(c: char): (r: Option<int>)
    ensures r.Some? <==> IsHexDigit(c)
    ensures r.Some? ==> 0 <= r.value < 16
    ensures r.Some? && r.value < 10 ==> c as int == '0' as int + r.value
    ensures r.Some? && r.value >= 10 ==> c as int == 'A' as int + (r.value - 10) || c as int == 'a' as int + (r.value - 10)
  {
    if '0' <= c <= '9' then Some(c as int - '0' as int)
    else if 'a' <= c <= 'f' then Some(c as int - 'a' as int + 10)
    else if 'A' <= c <= 'F' then Some(c as int - 'A' as int + 10)
    else None
  }

  /** The upper-case hexadecimal digit for `n`. */
  function HexDigit(n: int): (c: char)
    requires 0 <= n < 16
    ensures HexValue(c) == Some(n)
    ensures c != '%' && c != '+'
  {
    if n < 10 then ('0' as int + n) as char else ('A' as int + n - 10) as char
  }

  // ---------------------------------------------------------------------
  // Decoding

  /** Every `+` replaced by a space; nothing else changes. */
  function PlusToSpace(s: string): (r: string)
    ensures |r| == |s|
    ensures forall i :: 0 <= i < |s| ==> r[i] == if s[i] == '+' then ' ' else s[i]
  {
    if s == [] then [] else [if s[0] == '+' then ' ' else s[0]] + PlusToSpace(s[1..])
  }

  /** The byte that the escape `%XY` at the start of `s` stands for. */
  function EscapedByte(s: string): (r: Option<Byte>)
    ensures r.Some? <==> |s| >= 3 && s[0] == '%' && HexValue(s[1]).Some? && HexValue(s[2]).Some?
    ensures r.Some? ==> r.value / 16 == HexValue(s[1]).value && r.value % 16 == HexValue(s[2]).value
  {
    if |s| >= 3 && s[0] == '%' && HexValue(s[1]).Some? && HexValue(s[2]).Some? then
      Some(16 * HexValue(s[1]).value + HexValue(s[2]).value)
    else None
  }

  /** The number of bytes in the UTF-8 sequence a lead byte starts, 0 for a byte that starts none. */
  function SequenceLength(lead: Byte): nat {
    if lead < 0x80 then 1
    else if 0xC0 <= lead < 0xE0 then 2
    else if 0xE0 <= lead < 0xF0 then 3
    else if 0xF0 <= lead < 0xF8 then 4
    else 0
  }

  predicate IsContinuation(b: Byte) {
    0x80 <= b < 0xC0
  }

  /** The smallest code point a sequence of `n` bytes may encode: anything below is an overlong form. */
  function MinCodePoint(n: nat): int {
    if n <= 1 then 0 else if n == 2 then 0x80 else if n == 3 then 0x800 else 0x10000
  }

  /** The code points a Dafny `char` can hold: the Unicode scalar values. */
  predicate IsScalarValue(cp: int) {
    (0 <= cp < 0xD800) || (0xE000 <= cp < 0x110000)
  }

  /** The code point that a lead byte and its continuation bytes encode. */
  function CodePoint(lead: Byte, tail: seq<Byte>): int
    requires |tail| == SequenceLength(lead) - 1
  {
    var b0: int := lead;
    match |tail|
    case 0 => b0
    case 1 => (b0 - 0xC0) * 64 + (tail[0] as int - 0x80)
    case 2 => (b0 - 0xE0) * 4096 + (tail[0] as int - 0x80) * 64 + (tail[1] as int - 0x80)
    case _ => (b0 - 0xF0) * 262144 + (tail[0] as int - 0x80) * 4096 + (tail[1] as int - 0x80) * 64 + (tail[2] as int - 0x80)
  }

  /** `count` further escapes of continuation bytes at the start of `s`. */
  function Continuations(s: string, count: nat): (r: Result<seq<Byte>, UriError>)
    ensures r.Ok? ==> |r.value| == count && 3 * count <= |s|
    ensures r.Ok? ==> forall i :: 0 <= i < count ==> IsContinuation(r.value[i])
    ensures r.Ok? ==> forall i :: 0 <= i < count ==> EscapedByte(s[3 * i..]) == Some(r.value[i])
    decreases count
  {
    if count == 0 then Ok([])
    else
      match EscapedByte(s)
      case None => Err(UriError)
      case Some(b) =>
        if !IsContinuation(b) then Err(UriError)
        else
          var rest :- Continuations(s[3..], count - 1);
          assert forall i :: 1 <= i < count ==> s[3..][3 * (i - 1)..] == s[3 * i..];
          Ok([b] + rest)
  }

  /**
   * The character that the escape run at the start of `s` encodes, and the
   * number of input characters the run takes.
   */
  function DecodeEscape(s: string): (r: Result<(char, nat), UriError>)
    requires |s| > 0 && s[0] == '%'
    ensures r.Ok? ==> 3 <= r.value.1 <= |s|
  {
    match EscapedByte(s)
    case None => Err(UriError)
    case Some(lead) =>
      if lead < 0x80 then Ok((lead as char, 3))
      else
        var n := SequenceLength(lead);
        if n == 0 then Err(UriError)
        else
          var tail :- Continuations(s[3..], n - 1);
          var cp := CodePoint(lead, tail);
          if IsScalarValue(cp) && cp >= MinCodePoint(n) then Ok((cp as char, 3 * n))
          else Err(UriError)
  }

  /** `decodeURIComponent`: every escape run decoded, every other character kept. */
  function PercentDecode(s: string): (r: Result<string, UriError>)
    decreases |s|
  {
    if s == [] then Ok([])
    else if s[0] != '%' then
      var rest :- PercentDecode(s[1..]);
      Ok([s[0]] + rest)
    else
      var (c, used) :- DecodeEscape(s);
      var rest :- PercentDecode(s[used..]);
      Ok([c] + rest)
  }

  /** `decodeFormEncodedString(value)`. */
  function DecodeFormEncodedString(v: Value): (r: Result<Value, UriError>)
    ensures !v.Str? ==> r == Ok(Bool(false))
    ensures r.Ok? && v.Str? ==> r.value.Str?
  {
    match v
    case Str(s) =>
      var decoded :- PercentDecode(PlusToSpace(s));
      Ok(Str(decoded))
    case _ => Ok(Bool(false))
  }

  // ---------------------------------------------------------------------
  // Encoding: the partner of the decoder

  /** The UTF-8 encoding of one character. */
  function Utf8Encode(c: char): (bs: seq<Byte>)
    ensures 1 <= |bs| <= 4
  {
    var cp := c as int;
    if cp < 0x80 then [cp]
    else if cp < 0x800 then [0xC0 + cp / 64, 0x80 + cp % 64]
    else if cp < 0x10000 then [0xE0 + cp / 64 / 64, 0x80 + cp / 64 % 64, 0x80 + cp % 64]
    else [0xF0 + cp / 64 / 64 / 64, 0x80 + cp / 64 / 64 % 64, 0x80 + cp / 64 % 64, 0x80 + cp % 64]
  }

  /** The escape `%XY` of one byte. */
  function Escape(b: Byte): string {
    ['%', HexDigit(b / 16), HexDigit(b % 16)]
  }

  function EscapeBytes(bs: seq<Byte>): (r: string)
    ensures |r| == 3 * |bs|
  {
    if bs == [] then [] else Escape(bs[0]) + EscapeBytes(bs[1..])
  }

  /** The characters the form serializer leaves as they are. */
  predicate Unescaped(c: char) {
    ('a' <= c <= 'z') || ('A' <= c <= 'Z') || ('0' <= c <= '9') || c == '*' || c == '-' || c == '.' || c == '_'
  }

  function EncodeChar(c: char): string {
    if c == ' ' then "+" else if Unescaped(c) then [c] else EscapeBytes(Utf8Encode(c))
  }

  /** The application/x-www-form-urlencoded serialization of a string. */
  function FormEncode(s: string): string {
    if s == [] then [] else EncodeChar(s[0]) + FormEncode(s[1..])
  }

  // ---------------------------------------------------------------------
  // Round trip

  lemma EscapedByteOfEscape(b: Byte, t: string)
    ensures EscapedByte(Escape(b) + t) == Some(b)
  {
    var s := Escape(b) + t;
    assert s[0] == '%' && s[1] == HexDigit(b / 16) && s[2] == HexDigit(b % 16);
  }

  lemma {:induction false} ContinuationsOfEscapes(bs: seq<Byte>, t: string)
    requires forall i :: 0 <= i < |bs| ==> IsContinuation(bs[i])
    ensures Continuations(EscapeBytes(bs) + t, |bs|) == Ok(bs)
    decreases bs
  {
    if bs != [] {
      var s := EscapeBytes(bs) + t;
      assert s == Escape(bs[0]) + (EscapeBytes(bs[1..]) + t);
      EscapedByteOfEscape(bs[0], EscapeBytes(bs[1..]) + t);
      assert s[3..] == EscapeBytes(bs[1..]) + t;
      ContinuationsOfEscapes(bs[1..], t);
      assert IsContinuation(bs[0]);
      assert Continuations(s[3..], |bs| - 1) == Ok(bs[1..]);
      assert [bs[0]] + bs[1..] == bs;
    }
  }

  /** The UTF-8 encoding of a character is a well-formed sequence that decodes to it. */
  lemma Utf8EncodeWellFormed(c: char)
    ensures var bs := Utf8Encode(c);
      && SequenceLength(bs[0]) == |bs|
      && (forall i :: 1 <= i < |bs| ==> IsContinuation(bs[i]))
      && CodePoint(bs[0], bs[1..]) == c as int
      && c as int >= MinCodePoint(|bs|)
      && IsScalarValue(c as int)
  {
    var cp := c as int;
    var q1, r0 := cp / 64, cp % 64;
    var q2, r1 := q1 / 64, q1 % 64;
    var q3, r2 := q2 / 64, q2 % 64;
    assert cp == 64 * q1 + r0 && q1 == 64 * q2 + r1 && q2 == 64 * q3 + r2;
  }

  /** The escapes of a character's UTF-8 bytes decode, as one run, to that character. */
  lemma DecodeEscapeOfChar(c: char, t: string)
    ensures var bs := Utf8Encode(c);
      DecodeEscape(EscapeBytes(bs) + t) == Ok((c, 3 * |bs|))
  {
    var bs := Utf8Encode(c);
    Utf8EncodeWellFormed(c);
    var s := EscapeBytes(bs) + t;
    assert s == Escape(bs[0]) + (EscapeBytes(bs[1..]) + t);
    EscapedByteOfEscape(bs[0], EscapeBytes(bs[1..]) + t);
    assert s[3..] == EscapeBytes(bs[1..]) + t;
    ContinuationsOfEscapes(bs[1..], t);
  }

  lemma PlusToSpaceConcat(a: string, b: string)
    ensures PlusToSpace(a + b) == PlusToSpace(a) + PlusToSpace(b)
  {
    assert forall i :: 0 <= i < |a| ==> (a + b)[i] == a[i];
    assert forall i :: |a| <= i < |a| + |b| ==> (a + b)[i] == b[i - |a|];
  }

  /** The escapes of a byte sequence hold no `+`. */
  lemma {:induction false} EscapeBytesHasNoPlus(bs: seq<Byte>)
    ensures PlusToSpace(EscapeBytes(bs)) == EscapeBytes(bs)
    decreases bs
  {
    if bs != [] {
      EscapeBytesHasNoPlus(bs[1..]);
      PlusToSpaceConcat(Escape(bs[0]), EscapeBytes(bs[1..]));
      assert PlusToSpace(Escape(bs[0])) == Escape(bs[0]);
    }
  }

  /** Once `+` is a space again, the encoding of `c` decodes to `c` in front of whatever follows. */
  lemma DecodeEncodedChar(c: char, t: string, x: string)
    requires PercentDecode(t) == Ok(x)
    ensures PercentDecode(PlusToSpace(EncodeChar(c)) + t) == Ok([c] + x)
  {
    if c == ' ' || Unescaped(c) {
      var s := PlusToSpace(EncodeChar(c)) + t;
      assert s[0] == c && s[1..] == t;
    } else {
      var bs := Utf8Encode(c);
      EscapeBytesHasNoPlus(bs);
      DecodeEscapeOfChar(c, t);
      var s := EscapeBytes(bs) + t;
      assert s[0] == '%';
      assert s[3 * |bs|..] == t;
    }
  }

  /** Decoding undoes the form serializer: `decodeFormEncodedString(FormEncode(s)) == s`. */
  lemma {:induction false} DecodeFormEncode(s: string)
    ensures DecodeFormEncodedString(Str(FormEncode(s))) == Ok(Str(s))
    decreases s
  {
    PercentDecodeFormEncode(s);
  }

  lemma {:induction false} PercentDecodeFormEncode(s: string)
    ensures PercentDecode(PlusToSpace(FormEncode(s))) == Ok(s)
    decreases s
  {
    if s != [] {
      PercentDecodeFormEncode(s[1..]);
      PlusToSpaceConcat(EncodeChar(s[0]), FormEncode(s[1..]));
      DecodeEncodedChar(s[0], PlusToSpace(FormEncode(s[1..])), s[1..]);
      assert [s[0]] + s[1..] == s;
    }
  }

  // ---------------------------------------------------------------------
  // What the decoder does on particular inputs

  /** A string without `%` decodes to itself. */
  lemma {:induction false} PercentDecodeWithoutEscapes(s: string)
    requires '%' !in s
    ensures PercentDecode(s) == Ok(s)
    decreases s
  {
    if s != [] {
      assert s[0] != '%' && '%' !in s[1..];
      PercentDecodeWithoutEscapes(s[1..]);
      assert [s[0]] + s[1..] == s;
    }
  }

  /** Without escapes, decoding only turns each `+` into a space. */
  lemma PlusBecomesSpace(s: string)
    requires '%' !in s
    ensures DecodeFormEncodedString(Str(s)) == Ok(Str(PlusToSpace(s)))
  {
    assert '%' !in PlusToSpace(s) by {
      forall i | 0 <= i < |s| ensures PlusToSpace(s)[i] != '%' {
        assert s[i] != '%';
      }
    }
    PercentDecodeWithoutEscapes(PlusToSpace(s));
  }

  lemma ExampleNotAString()
    ensures DecodeFormEncodedString(Obj([Member("foo", Str("bar"))])) == Ok(Bool(false))
  {
  }

  lemma ExamplePlus()
    ensures DecodeFormEncodedString(Str("foo+bar")) == Ok(Str("foo bar"))
  {
    PlusBecomesSpace("foo+bar");
    assert PlusToSpace("foo+bar") == "foo bar";
  }

  /**
   * An escape `%XY` of an ASCII byte, in either case of hexadecimal digit,
   * decodes to the character with that code (`%3A` to `:`, `%2F` to `/`).
   */
  lemma AsciiEscapeDecodes(hi: char, lo: char, t: string, x: string)
    requires HexValue(hi).Some? && HexValue(lo).Some?
    requires 16 * HexValue(hi).value + HexValue(lo).value < 0x80
    requires PercentDecode(t) == Ok(x)
    ensures PercentDecode(['%', hi, lo] + t) == Ok([(16 * HexValue(hi).value + HexValue(lo).value) as char] + x)
  {
    var s := ['%', hi, lo] + t;
    assert s[0] == '%' && s[1] == hi && s[2] == lo && s[3..] == t;
    assert EscapedByte(s) == Some(16 * HexValue(hi).value + HexValue(lo).value);
  }

  /** Characters before the first `%` are copied as they are. */
  lemma {:induction false} PercentDecodePrefixWithoutEscapes(a: string, t: string, x: string)
    requires '%' !in a && PercentDecode(t) == Ok(x)
    ensures PercentDecode(a + t) == Ok(a + x)
    decreases a
  {
    if a == [] {
      assert a + t == t && a + x == x;
    } else {
      assert (a + t)[0] == a[0] && (a + t)[1..] == a[1..] + t;
      assert '%' !in a[1..];
      PercentDecodePrefixWithoutEscapes(a[1..], t, x);
      assert [a[0]] + (a[1..] + x) == a + x;
    }
  }

  /** The `+` step leaves a string without `+` as it is. */
  lemma PlusToSpaceWithoutPlus(s: string)
    requires '+' !in s
    ensures PlusToSpace(s) == s
  {
    assert forall i :: 0 <= i < |s| ==> s[i] != '+';
  }

  lemma DecodeSlashTail()
    ensures PercentDecode("%2Ffoo.bar") == Ok("/foo.bar")
  {
    PercentDecodeWithoutEscapes("foo.bar");
    AsciiEscapeDecodes('2', 'F', "foo.bar", "foo.bar");
    assert ['%', '2', 'F'] + "foo.bar" == "%2Ffoo.bar";
    assert [(16 * 2 + 15) as char] + "foo.bar" == "/foo.bar";
  }

  lemma DecodeSlashesTail()
    ensures PercentDecode("%2F%2Ffoo.bar") == Ok("//foo.bar")
  {
    DecodeSlashTail();
    AsciiEscapeDecodes('2', 'F', "%2Ffoo.bar", "/foo.bar");
    assert ['%', '2', 'F'] + "%2Ffoo.bar" == "%2F%2Ffoo.bar";
    assert [(16 * 2 + 15) as char] + "/foo.bar" == "//foo.bar";
  }

  lemma DecodeColonTail()
    ensures PercentDecode("%3A%2F%2Ffoo.bar") == Ok("://foo.bar")
  {
    DecodeSlashesTail();
    AsciiEscapeDecodes('3', 'A', "%2F%2Ffoo.bar", "//foo.bar");
    assert ['%', '3', 'A'] + "%2F%2Ffoo.bar" == "%3A%2F%2Ffoo.bar";
    assert [(16 * 3 + 10) as char] + "//foo.bar" == "://foo.bar";
  }

  lemma DecodeEscapedUrl()
    ensures PercentDecode("http%3A%2F%2Ffoo.bar") == Ok("http://foo.bar")
  {
    DecodeColonTail();
    PercentDecodePrefixWithoutEscapes("http", "%3A%2F%2Ffoo.bar", "://foo.bar");
    assert "http" + "%3A%2F%2Ffoo.bar" == "http%3A%2F%2Ffoo.bar";
    assert "http" + "://foo.bar" == "http://foo.bar";
  }

  /** A string without `+` is only percent-decoded. */
  lemma DecodeWithoutPlus(s: string, x: string)
    requires '+' !in s && PercentDecode(s) == Ok(x)
    ensures DecodeFormEncodedString(Str(s)) == Ok(Str(x))
  {
    PlusToSpaceWithoutPlus(s);
  }

  /** The escaped URL of the test decodes to the URL. */
  lemma ExampleEscapedUrl()
    ensures DecodeFormEncodedString(Str("http%3A%2F%2Ffoo.bar")) == Ok(Str("http://foo.bar"))
  {
    EscapedUrlHasNoPlus();
    DecodeEscapedUrl();
    DecodeWithoutPlus("http%3A%2F%2Ffoo.bar", "http://foo.bar");
  }

  lemma EscapedUrlHasNoPlus()
    ensures '+' !in "http%3A%2F%2Ffoo.bar"
  {
  }

  /** A `%` not followed by two hexadecimal digits is a URIError. */
  lemma MalformedEscape(s: string)
    requires |s| > 0 && s[0] == '%' && EscapedByte(s).None?
    ensures PercentDecode(s).Err?
  {
  }

  /** `100%` ends in a bare `%`, and `%zz` has no hexadecimal digits: both are URIErrors. */
  lemma ExampleMalformedEscape()
    ensures DecodeFormEncodedString(Str("100%")).Err?
    ensures DecodeFormEncodedString(Str("%zz")).Err?
  {
    assert "100%"[3..] == "%";
    assert PercentDecode("100%"[3..]).Err?;
    assert PercentDecode("100%"[2..]).Err?;
    assert PercentDecode("100%"[1..]).Err?;
  }

  /**
   * A lead byte that starts no sequence (a continuation byte, or 0xF8 and
   * above) or that can only start an overlong form (0xC0, 0xC1) is a URIError.
   */
  lemma DecodeEscapeRejectsBadLead(s: string)
    requires |s| > 0 && s[0] == '%' && EscapedByte(s).Some?
    requires var b := EscapedByte(s).value; IsContinuation(b) || b >= 0xF8 || b == 0xC0 || b == 0xC1
    ensures DecodeEscape(s).Err?
  {
  }

  /**
   * UTF-8 decoding accepts only canonical encodings: bytes that decode to a
   * character are exactly that character's UTF-8 encoding (no overlong
   * forms, no surrogates, nothing above U+10FFFF).
   */
  lemma Utf8DecodeCanonical(lead: Byte, tail: seq<Byte>)
    requires SequenceLength(lead) >= 2 && |tail| == SequenceLength(lead) - 1
    requires forall i :: 0 <= i < |tail| ==> IsContinuation(tail[i])
    requires IsScalarValue(CodePoint(lead, tail)) && CodePoint(lead, tail) >= MinCodePoint(SequenceLength(lead))
    ensures Utf8Encode(CodePoint(lead, tail) as char) == [lead] + tail
  {
    var cp := CodePoint(lead, tail);
    var c := cp as char;
    if |tail| == 1 {
      var x, y := lead as int - 0xC0, tail[0] as int - 0x80;
      DivMod64(x, y);
      assert Utf8Encode(c) == [0xC0 + cp / 64, 0x80 + cp % 64];
    } else if |tail| == 2 {
      var x, y, z := lead as int - 0xE0, tail[0] as int - 0x80, tail[1] as int - 0x80;
      DivMod64(x * 64 + y, z);
      DivMod64(x, y);
      assert Utf8Encode(c) == [0xE0 + cp / 64 / 64, 0x80 + cp / 64 % 64, 0x80 + cp % 64];
    } else {
      var w, x, y, z := lead as int - 0xF0, tail[0] as int - 0x80, tail[1] as int - 0x80, tail[2] as int - 0x80;
      DivMod64((w * 64 + x) * 64 + y, z);
      DivMod64(w * 64 + x, y);
      DivMod64(w, x);
      assert Utf8Encode(c) == [0xF0 + cp / 64 / 64 / 64, 0x80 + cp / 64 / 64 % 64, 0x80 + cp / 64 % 64, 0x80 + cp % 64];
    }
  }

  /**
   * An escape run that decodes to a character is that character's UTF-8
   * encoding, escape by escape: it takes three characters per byte, and the
   * escape at position 3 * i spells byte i.
   */
  lemma DecodeEscapeCanonical(s: string)
    requires |s| > 0 && s[0] == '%' && DecodeEscape(s).Ok?
    ensures var (c, k) := DecodeEscape(s).value;
      k == 3 * |Utf8Encode(c)| &&
      forall i :: 0 <= i < |Utf8Encode(c)| ==> EscapedByte(s[3 * i..]) == Some(Utf8Encode(c)[i])
  {
    var lead := EscapedByte(s).value;
    if lead >= 0x80 {
      var n := SequenceLength(lead);
      var tail := Continuations(s[3..], n - 1).value;
      Utf8DecodeCanonical(lead, tail);
      assert forall i :: 1 <= i < n ==> s[3..][3 * (i - 1)..] == s[3 * i..];
    }
  }

  lemma DivMod64(q: int, r: int)
    requires 0 <= q && 0 <= r < 64
    ensures (q * 64 + r) / 64 == q && (q * 64 + r) % 64 == r
  {
  }
}
