/**
  Writing string literals: the escapes print_string_ptr chooses, and \u escapes for Unicode
  scalar values. Both are undone by the string parser.
 */
module Escaping {
  import opened Bytes
  import opened StringText

  function HexDigit(v: nat, upper: bool): (c: byte)
    requires v < 16
    ensures HexValue(c) == Some(v)
  {
    if v < 10 then DIGIT_0 + v else if upper then UPPER_A + v - 10 else LOWER_A + v - 10
  }

  /** `%04x` (or `%04X`) of a 16-bit code. */
  function HexText(code: nat, upper: bool): (h: Bytes)
    requires code < 0x10000
    ensures |h| == 4
  {
    var q1 := code / 16;
    var q2 := q1 / 16;
    [HexDigit(q2 / 16, upper), HexDigit(q2 % 16, upper), HexDigit(q1 % 16, upper), HexDigit(code % 16, upper)]
  }

  lemma HexTextRead(code: nat, upper: bool)
    requires code < 0x10000
    ensures Hex4(HexText(code, upper)) == code
  {
    var h := HexText(code, upper);
    assert AllHex(h);
    HexNumber4(h);
  }

  function UnicodeEscape(code: nat, upper: bool): (e: Bytes)
    requires code < 0x10000
    ensures |e| == 6
  {
    [BACKSLASH, LOWER_U] + HexText(code, upper)
  }

  // ----- print_string_ptr

  /** The letter of the two-byte escape of a byte, for the bytes that have one. */
  function ShortEscape(c: byte): (letter: Option<byte>)
  {
    if c == QUOTE || c == BACKSLASH then Some(c)
    else if c == BACKSPACE then Some(LOWER_B)
    else if c == FORM_FEED then Some(LOWER_F)
    else if c == NEWLINE then Some(LOWER_N)
    else if c == RETURN then Some(LOWER_R)
    else if c == TAB then Some(LOWER_T)
    else None
  }

  function EscapeByte(c: byte): (e: Bytes)
    ensures 1 <= |e| <= 6
  {
    match ShortEscape(c)
    case Some(letter) => [BACKSLASH, letter]
    case None => if c < 32 then UnicodeEscape(c, false) else [c]
  }

  function Escape(s: Bytes): (e: Bytes)
  {
    if s == [] then [] else EscapeByte(s[0]) + Escape(s[1..])
  }

  lemma {:induction false} EscapeJoin(s: Bytes, t: Bytes)
    ensures Escape(s + t) == Escape(s) + Escape(t)
  {
    if s == [] {
      assert s + t == t;
    } else {
      assert (s + t)[1..] == s[1..] + t;
      EscapeJoin(s[1..], t);
    }
  }

  /** The literal print_string_ptr writes for a C string. */
  function RenderString(s: Bytes): (r: Bytes)
    ensures r != [] && r[0] == QUOTE
  {
    [QUOTE] + Escape(s) + [QUOTE]
  }

  lemma EscapeByteRead(c: byte, more: Bytes)
    ensures DecodeStep(EscapeByte(c) + more) == Step([c], |EscapeByte(c)|)
    ensures ClosingQuote(EscapeByte(c) + more) == Shifted(ClosingQuote(more), |EscapeByte(c)|)
  {
    var e := EscapeByte(c);
    var b := e + more;
    assert b[|e|..] == more;
    if ShortEscape(c) == None && c < 32 {
      UnicodeEscapeRead(c, false, more);
    }
  }

  lemma UnicodeEscapeRead(code: nat, upper: bool, more: Bytes)
    requires code < 0x10000
    ensures var b := UnicodeEscape(code, upper) + more;
            && Hex4(b[2..6]) == code && b[6..] == more
            && b[0] == BACKSLASH && b[1] == LOWER_U
            && ClosingQuote(b) == Shifted(ClosingQuote(more), 6)
  {
    var h := HexText(code, upper);
    var b := UnicodeEscape(code, upper) + more;
    HexTextRead(code, upper);
    assert b[2..6] == h;
    DigitsOrdinary(h);
    SkipOrdinary(h, more);
    assert b[2..] == h + more;
  }

  /** No quote and no backslash. */
  predicate AllOrdinary(h: Bytes) {
    forall i :: 0 <= i < |h| ==> h[i] != QUOTE && h[i] != BACKSLASH
  }

  lemma {:induction false} SkipOrdinary(h: Bytes, more: Bytes)
    requires AllOrdinary(h)
    ensures ClosingQuote(h + more) == Shifted(ClosingQuote(more), |h|)
  {
    if h == [] {
      assert h + more == more;
    } else {
      assert (h + more)[1..] == h[1..] + more;
      SkipOrdinary(h[1..], more);
    }
  }

  lemma DigitsOrdinary(h: Bytes)
    requires AllHex(h)
    ensures AllOrdinary(h)
  {
    forall i | 0 <= i < |h| ensures h[i] != QUOTE && h[i] != BACKSLASH {
      assert HexValue(h[i]).Some?;
    }
  }

  lemma ClosedBehind(e: Bytes, body: Bytes, rest: Bytes)
    requires ClosingQuote(body + [QUOTE] + rest) == Some(|body|)
    requires ClosingQuote(e + (body + [QUOTE] + rest)) == Some(|body| + |e|)
    ensures ClosingQuote((e + body) + [QUOTE] + rest) == Some(|e + body|)
  {
    assert (e + body) + [QUOTE] + rest == e + (body + [QUOTE] + rest);
  }

  lemma DecodeChunk(e: Bytes, output: Bytes, more: Bytes)
    requires e != [] && DecodeStep(e + more) == Step(output, |e|)
    requires Decode(more).Some?
    ensures Decode(e + more) == Some(output + Decode(more).value)
  {
    assert After(e + more, |e|) == more;
  }

  lemma ParseStringBody(body: Bytes, output: Bytes, rest: Bytes)
    requires ClosingQuote(body + [QUOTE] + rest) == Some(|body|) && Decode(body) == Some(output)
    ensures ParseString([QUOTE] + body + [QUOTE] + rest) == Read(CString(output), rest)
  {
    var text := [QUOTE] + body + [QUOTE] + rest;
    assert text[1..] == body + [QUOTE] + rest;
    assert text[1..][..|body|] == body;
    assert text[|body| + 2..] == rest;
  }

  lemma {:induction false} EscapeClosed(s: Bytes, rest: Bytes)
    ensures ClosingQuote(Escape(s) + [QUOTE] + rest) == Some(|Escape(s)|)
  {
    hide EscapeByte, ClosingQuote, DecodeStep;
    if s == [] {
      QuoteFirst([] + [QUOTE] + rest);
    } else {
      var more := Escape(s[1..]) + [QUOTE] + rest;
      EscapeClosed(s[1..], rest);
      EscapeByteRead(s[0], more);
      ClosedBehind(EscapeByte(s[0]), Escape(s[1..]), rest);
    }
  }

  lemma {:induction false} EscapeDecoded(s: Bytes)
    ensures Decode(Escape(s)) == Some(s)
  {
    if s != [] {
      EscapeDecoded(s[1..]);
      EscapeByteRead(s[0], Escape(s[1..]));
      DecodeChunk(EscapeByte(s[0]), [s[0]], Escape(s[1..]));
      assert [s[0]] + s[1..] == s;
    }
  }

  /** Parsing what print_string_ptr writes gives the string back, whatever follows the literal. */
  lemma StringRoundTrip(s: Bytes, rest: Bytes)
    requires NUL !in s
    ensures ParseString(RenderString(s) + rest) == Read(s, rest)
  {
    EscapeClosed(s, rest);
    EscapeDecoded(s);
    CStringWhole(s);
    ParseStringBody(Escape(s), s, rest);
  }

  // ----- Unicode scalar values

  /** The values UTF-8 encodes: code points without the surrogates. */
  type Scalar = c: int | 0 <= c <= 0x10FFFF && !(0xD800 <= c <= 0xDFFF)

  function HighSurrogate(c: Scalar): (code: nat)
    requires 0x10000 <= c
    ensures 0xD800 <= code <= 0xDBFF
    ensures code % 0x400 == (c - 0x10000) / 0x400
  {
    0xD800 + (c - 0x10000) / 0x400
  }

  function LowSurrogate(c: Scalar): (code: nat)
    requires 0x10000 <= c
    ensures 0xDC00 <= code <= 0xDFFF
    ensures code % 0x400 == (c - 0x10000) % 0x400
  {
    0xDC00 + (c - 0x10000) % 0x400
  }

  /** A scalar value as \uXXXX or as a surrogate pair (section 7 of RFC 8259). */
  function EscapeScalar(c: Scalar, upper: bool): (e: Bytes)
    ensures |e| == 6 || |e| == 12
  {
    if c < 0x10000 then UnicodeEscape(c, upper)
    else
      UnicodeEscape(HighSurrogate(c), upper) + UnicodeEscape(LowSurrogate(c), upper)
  }

  function EscapeScalars(cs: seq<Scalar>, upper: bool): Bytes {
    if cs == [] then [] else EscapeScalar(cs[0], upper) + EscapeScalars(cs[1..], upper)
  }

  function Utf8Text(cs: seq<Scalar>): Bytes {
    if cs == [] then [] else Utf8(cs[0]) + Utf8Text(cs[1..])
  }

  /** The scalar values in front of the first zero. */
  function BeforeZero(cs: seq<Scalar>): seq<Scalar> {
    if cs == [] || cs[0] == 0 then [] else [cs[0]] + BeforeZero(cs[1..])
  }

  lemma EscapeScalarRead(c: Scalar, upper: bool, more: Bytes)
    ensures DecodeStep(EscapeScalar(c, upper) + more) == Step(Utf8(c), |EscapeScalar(c, upper)|)
    ensures ClosingQuote(EscapeScalar(c, upper) + more) == Shifted(ClosingQuote(more), |EscapeScalar(c, upper)|)
  {
    var e := EscapeScalar(c, upper);
    if c < 0x10000 {
      UnicodeEscapeRead(c, upper, more);
    } else {
      SurrogatesRead(c, upper, more);
    }
    LiteralStep(e + more, c, |e|);
  }

  lemma SurrogatesRead(c: Scalar, upper: bool, more: Bytes)
    requires 0x10000 <= c
    ensures var b := EscapeScalar(c, upper) + more;
            && b[0] == BACKSLASH && b[1] == LOWER_U && Utf16Literal(b) == Literal(c, 12)
            && ClosingQuote(b) == Shifted(ClosingQuote(more), 12)
  {
    hide UnicodeEscape, Hex4, ClosingQuote, Utf16Literal;
    var first := UnicodeEscape(HighSurrogate(c), upper);
    var second := UnicodeEscape(LowSurrogate(c), upper);
    var b := EscapeScalar(c, upper) + more;
    UnicodeEscapeRead(HighSurrogate(c), upper, second + more);
    UnicodeEscapeRead(LowSurrogate(c), upper, more);
    Joined(first, second, more);
    SurrogatePair(b, c);
  }

  lemma Joined(first: Bytes, second: Bytes, more: Bytes)
    requires |first| == 6 && |second| == 6
    ensures var b := (first + second) + more;
            && b == first + (second + more) && b[8..12] == (second + more)[2..6]
            && b[6] == (second + more)[0] && b[7] == (second + more)[1]
  {
  }

  lemma SurrogatePair(b: Bytes, c: Scalar)
    requires 0x10000 <= c && |b| >= 12 && b[6] == BACKSLASH && b[7] == LOWER_U
    requires Hex4(b[2..6]) == HighSurrogate(c) && Hex4(b[8..12]) == LowSurrogate(c)
    ensures Utf16Literal(b) == Literal(c, 12)
  {
  }

  lemma LiteralStep(b: Bytes, c: Scalar, length: nat)
    requires |b| >= 2 && b[0] == BACKSLASH && b[1] == LOWER_U && Utf16Literal(b) == Literal(c, length)
    ensures DecodeStep(b) == Step(Utf8(c), length)
  {
  }

  lemma {:induction false} ScalarsClosed(cs: seq<Scalar>, upper: bool, rest: Bytes)
    ensures ClosingQuote(EscapeScalars(cs, upper) + [QUOTE] + rest) == Some(|EscapeScalars(cs, upper)|)
  {
    if cs != [] {
      var more := EscapeScalars(cs[1..], upper) + [QUOTE] + rest;
      ScalarsClosed(cs[1..], upper, rest);
      EscapeScalarRead(cs[0], upper, more);
      ClosedBehind(EscapeScalar(cs[0], upper), EscapeScalars(cs[1..], upper), rest);
    }
  }

  lemma {:induction false} ScalarsDecoded(cs: seq<Scalar>, upper: bool)
    ensures Decode(EscapeScalars(cs, upper)) == Some(Utf8Text(cs))
  {
    if cs != [] {
      var more := EscapeScalars(cs[1..], upper);
      ScalarsDecoded(cs[1..], upper);
      EscapeScalarRead(cs[0], upper, more);
      DecodeChunk(EscapeScalar(cs[0], upper), Utf8(cs[0]), more);
    }
  }

  lemma {:induction false} Utf8CString(cs: seq<Scalar>)
    ensures CString(Utf8Text(cs)) == Utf8Text(BeforeZero(cs))
  {
    if cs != [] && cs[0] != 0 {
      Utf8CString(cs[1..]);
      CStringBehind(Utf8(cs[0]), Utf8Text(cs[1..]));
    }
  }

  lemma {:induction false} CStringBehind(a: Bytes, b: Bytes)
    requires NUL !in a
    ensures CString(a + b) == a + CString(b)
  {
    if a == [] {
      assert a + b == b && a + CString(b) == CString(b);
    } else {
      assert (a + b)[1..] == a[1..] + b;
      CStringBehind(a[1..], b);
    }
  }

  /**
    Any sequence of scalar values, escaped digit by digit and parsed, gives its UTF-8 encoding;
    an escaped zero ends the C string the caller sees.
   */
  lemma UnicodeRoundTrip(cs: seq<Scalar>, upper: bool, rest: Bytes)
    ensures ParseString([QUOTE] + EscapeScalars(cs, upper) + [QUOTE] + rest) == Read(Utf8Text(BeforeZero(cs)), rest)
  {
    ScalarsClosed(cs, upper, rest);
    ScalarsDecoded(cs, upper);
    Utf8CString(cs);
    ParseStringBody(EscapeScalars(cs, upper), Utf8Text(cs), rest);
  }
}
