/**
  JSON string literals as functions on bytes: finding the closing quote (the first pass of
  parse_string), decoding the escapes (its second pass), and escaping (print_string_ptr).

  parse_hex4 answers 0 for bad digits instead of failing, so the second pass can swallow a
  backslash that the first pass took as the start of an escape; from there on the two passes
  disagree about which backslashes start escapes. `Fits` is what survives of the first pass's
  count, and `StepFits` shows that every step of the second pass keeps it.
 */
module StringText {
  import opened Bytes

  // ----- hexadecimal digits and UTF-16 literals

  function HexValue(c: byte): (r: Option<nat>)
    ensures r.Some? ==> r.value < 16 && c != BACKSLASH && c != QUOTE
  {
    if DIGIT_0 <= c <= DIGIT_9 then Some(c - DIGIT_0)
    else if UPPER_A <= c <= UPPER_F then Some(10 + c - UPPER_A)
    else if LOWER_A <= c <= LOWER_F then Some(10 + c - LOWER_A)
    else None
  }

  predicate AllHex(h: Bytes) {
    forall i :: 0 <= i < |h| ==> HexValue(h[i]).Some?
  }

  /** The number spelled by hexadecimal digits, most significant first. */
  function HexNumber(h: Bytes): nat
    requires AllHex(h)
  {
    if h == [] then 0 else HexNumber(h[..|h| - 1]) * 16 + HexValue(h[|h| - 1]).value
  }

  /** parse_hex4: the number spelled by the digits, or 0 if one of them is not a digit. */
  function Hex4(h: Bytes): (r: nat)
    requires |h| == 4
    ensures r < 0x10000
    ensures r != 0 ==> AllHex(h)
  {
    if AllHex(h) then
      HexNumber4(h);
      HexNumber(h)
    else 0
  }

  lemma HexNumber4(h: Bytes)
    requires |h| == 4 && AllHex(h)
    ensures HexNumber(h) == HexValue(h[0]).value * 0x1000 + HexValue(h[1]).value * 0x100
                            + HexValue(h[2]).value * 0x10 + HexValue(h[3]).value
  {
    assert h[..3][..2] == h[..2] && h[..2][..1] == h[..1] && h[..1][..0] == [];
    assert HexNumber(h[..1]) == HexValue(h[0]).value;
    assert HexNumber(h[..2]) == HexNumber(h[..1]) * 16 + HexValue(h[1]).value;
    assert HexNumber(h[..3]) == HexNumber(h[..2]) * 16 + HexValue(h[2]).value;
  }

  datatype Literal = BadLiteral | Literal(codepoint: nat, length: nat)

  /** The code point of the one or two \uXXXX sequences in front of `b`, and their length. */
  function Utf16Literal(b: Bytes): (r: Literal)
    ensures r.Literal? ==> r.length <= |b| && (r.length == 6 || r.length == 12) && r.codepoint <= 0x10FFFF
  {
    if |b| < 6 then BadLiteral
    else
      var first := Hex4(b[2..6]);
      if 0xDC00 <= first <= 0xDFFF then BadLiteral
      else if 0xD800 <= first <= 0xDBFF then
        if |b| < 12 || b[6] != BACKSLASH || b[7] != LOWER_U then BadLiteral
        else
          var second := Hex4(b[8..12]);
          if 0xDC00 <= second <= 0xDFFF
          then Literal(0x10000 + (first % 0x400) * 0x400 + second % 0x400, 12)
          else BadLiteral
      else Literal(first, 6)
  }

  /** The UTF-8 encoding of a code point (section 3 of RFC 3629). */
  function Utf8(codepoint: nat): (r: Bytes)
    requires codepoint <= 0x10FFFF
    ensures 1 <= |r| <= 4
  {
    if codepoint < 0x80 then [codepoint]
    else if codepoint < 0x800 then [0xC0 + codepoint / 0x40, 0x80 + codepoint % 0x40]
    else if codepoint < 0x10000 then
      [0xE0 + codepoint / 0x1000, 0x80 + codepoint / 0x40 % 0x40, 0x80 + codepoint % 0x40]
    else
      [0xF0 + codepoint / 0x40000, 0x80 + codepoint / 0x1000 % 0x40,
       0x80 + codepoint / 0x40 % 0x40, 0x80 + codepoint % 0x40]
  }

  // ----- the first pass: the closing quote

  /** Index of the quote that closes a literal whose opening quote stands just before `s`. */
  function ClosingQuote(s: Bytes): (r: Option<nat>)
    ensures r.Some? ==> r.value < |s| && s[r.value] == QUOTE
  {
    if s == [] then None
    else if s[0] == QUOTE then Some(0)
    else
      var n := if s[0] == BACKSLASH then 2 else 1;
      if |s| < n then None
      else Shifted(ClosingQuote(s[n..]), n)
  }

  function Shifted(r: Option<nat>, n: nat): Option<nat> {
    match r
    case None => None
    case Some(k) => Some(k + n)
  }

  /** `b` is a run of whole tokens of the first pass: plain bytes and two-byte escapes. */
  predicate InStep(b: Bytes) {
    || b == []
    || (b[0] == BACKSLASH && 2 <= |b| && InStep(b[2..]))
    || (b[0] != BACKSLASH && b[0] != QUOTE && InStep(b[1..]))
  }

  /** How many tokens the first pass counts in `b`. */
  function Tokens(b: Bytes): (n: nat)
    requires InStep(b)
    ensures n <= |b| <= 2 * n
  {
    if b == [] then 0
    else if b[0] == BACKSLASH then 1 + Tokens(b[2..])
    else 1 + Tokens(b[1..])
  }

  lemma {:induction false} BodyInStep(s: Bytes)
    requires ClosingQuote(s).Some?
    ensures InStep(s[..ClosingQuote(s).value])
  {
    var k := ClosingQuote(s).value;
    if s[0] != QUOTE {
      var n := if s[0] == BACKSLASH then 2 else 1;
      BodyInStep(s[n..]);
      assert s[n..][..k - n] == s[..k][n..];
    }
  }

  // ----- the second pass: decoding

  datatype Step = BadStep | Step(output: Bytes, consumed: nat)

  /** One turn of the second pass at `b`, the bytes left in front of the closing quote. */
  function DecodeStep(b: Bytes): (r: Step)
    requires b != []
    ensures r.Step? ==> 1 <= r.consumed <= |b| + 1 && 1 <= |r.output| <= 4
  {
    if b[0] != BACKSLASH then Step([b[0]], 1)
    else
      // a backslash right before the closing quote is reached only out of step: it escapes that quote
      var e := if |b| == 1 then QUOTE else b[1];
      if e == LOWER_B then Step([BACKSPACE], 2)
      else if e == LOWER_F then Step([FORM_FEED], 2)
      else if e == LOWER_N then Step([NEWLINE], 2)
      else if e == LOWER_R then Step([RETURN], 2)
      else if e == LOWER_T then Step([TAB], 2)
      else if e == QUOTE || e == BACKSLASH || e == SLASH then Step([e], 2)
      else if e == LOWER_U then
        match Utf16Literal(b)
        case BadLiteral => BadStep
        case Literal(codepoint, length) => Step(Utf8(codepoint), length)
      else BadStep
  }

  /** The bytes behind the first `n`, none if there are not as many. */
  function After(b: Bytes, n: nat): Bytes {
    if n <= |b| then b[n..] else []
  }

  /** What the second pass writes for the body `b`; None if it gives up. */
  function Decode(b: Bytes): Option<Bytes>
    decreases |b|
  {
    if b == [] then Some([])
    else
      match DecodeStep(b)
      case BadStep => None
      case Step(output, consumed) => Behind(output, Decode(After(b, consumed)))
  }

  /** What is decoded in all when `more` is decoded behind `output`. */
  function Behind(output: Bytes, more: Option<Bytes>): Option<Bytes> {
    match more
    case None => None
    case Some(bytes) => Some(output + bytes)
  }

  lemma BehindBoth(a: Bytes, b: Bytes, more: Option<Bytes>)
    ensures Behind(a + b, more) == Behind(a, Behind(b, more))
  {
    if more.Some? {
      Associative(a, b, more.value);
    }
  }

  /** The string literal in front of `s`: its C-string value and the text behind the closing quote. */
  function ParseString(s: Bytes): (r: Parsed<Bytes>)
    ensures r.Read? ==> NUL !in r.value && |r.rest| < |s|
  {
    if s == [] || s[0] != QUOTE then Failed
    else
      match ClosingQuote(s[1..])
      case None => Failed
      case Some(k) =>
        match Decode(s[1..][..k])
        case None => Failed
        case Some(output) => Read(CString(output), s[k + 2..])
  }

  // ----- the first pass's count covers what the second pass writes

  /**
    With `b` left to decode and `written` bytes out, at most `total` bytes will ever be written.
    Either the passes are in step at `b`, or `b` starts inside an escape and a byte is to spare.
   */
  predicate Fits(b: Bytes, written: nat, total: nat) {
    || (InStep(b) && written + Tokens(b) <= total)
    || (b != [] && InStep(b[1..]) && written + 1 + Tokens(b[1..]) <= total)
  }

  /** Dropping `k` bytes of a run of tokens lands on a token or inside one. */
  lemma {:induction false} DropTokens(b: Bytes, k: nat)
    requires InStep(b) && k <= |b|
    ensures || (InStep(b[k..]) && (k + 1) / 2 + Tokens(b[k..]) <= Tokens(b))
            || (k < |b| && InStep(b[k + 1..]) && k / 2 + 1 + Tokens(b[k + 1..]) <= Tokens(b))
    decreases |b|
  {
    if k == 0 {
      assert b[0..] == b;
    } else {
      var n := if b[0] == BACKSLASH then 2 else 1;
      if n <= k {
        DropTokens(b[n..], k - n);
        assert b[n..][k - n..] == b[k..];
        if k < |b| {
          assert b[n..][k - n + 1..] == b[k + 1..];
        }
      }
    }
  }

  /** Hexadecimal digits are plain bytes, one token each. */
  lemma {:induction false} DigitTokens(b: Bytes, k: nat)
    requires k <= |b| && AllHex(b[..k]) && InStep(b)
    ensures InStep(b[k..]) && Tokens(b) == k + Tokens(b[k..])
    decreases k
  {
    if k == 0 {
      assert b[0..] == b;
    } else {
      assert HexValue(b[..k][0]).Some?;
      assert b[1..][..k - 1] == b[..k][1..];
      DigitTokens(b[1..], k - 1);
      assert b[1..][k - 1..] == b[k..];
    }
  }

  lemma PassQuote(s: Bytes)
    requires s != [] && s[0] != QUOTE
    ensures var n := if s[0] == BACKSLASH then 2 else 1;
            && (|s| < n ==> ClosingQuote(s) == None)
            && (n <= |s| ==> ClosingQuote(s) == Shifted(ClosingQuote(s[n..]), n))
  {
  }

  lemma FirstToken(b: Bytes)
    requires InStep(b) && b != []
    ensures var n := if b[0] == BACKSLASH then 2 else 1;
            n <= |b| && InStep(b[n..]) && Tokens(b) == 1 + Tokens(b[n..])
  {
  }

  /** A turn of the first pass: over one token of the body, or past the end of a text that does not close. */
  lemma PassToken(s: Bytes)
    requires s != [] && s[0] != QUOTE
    ensures var n := if s[0] == BACKSLASH then 2 else 1;
            && (|s| < n ==> ClosingQuote(s) == None)
            && (n <= |s| ==> ClosingQuote(s) == Shifted(ClosingQuote(s[n..]), n))
            && (n <= |s| && ClosingQuote(s).Some? ==> BodyTokens(s) == 1 + BodyTokens(s[n..]))
  {
    hide InStep, Tokens, ClosingQuote;
    PassQuote(s);
    var n := if s[0] == BACKSLASH then 2 else 1;
    if n <= |s| && ClosingQuote(s).Some? {
      var k := ClosingQuote(s).value;
      BodyInStep(s);
      FirstToken(s[..k]);
      Sliced(s, n, k);
    }
  }

  lemma Sliced(s: Bytes, n: nat, k: nat)
    requires n <= k <= |s|
    ensures s[..k][n..] == s[n..][..k - n]
  {
  }

  lemma QuoteFirst(s: Bytes)
    ensures s == [] ==> ClosingQuote(s) == None
    ensures s != [] && s[0] == QUOTE ==> ClosingQuote(s) == Some(0) && BodyTokens(s) == 0
  {
  }

  /** The tokens in front of the closing quote. */
  function BodyTokens(s: Bytes): nat
    requires ClosingQuote(s).Some?
  {
    BodyInStep(s);
    Tokens(s[..ClosingQuote(s).value])
  }

  lemma StepFits(b: Bytes, written: nat, total: nat)
    requires b != [] && Fits(b, written, total) && DecodeStep(b).Step?
    ensures var step := DecodeStep(b);
            && written + |step.output| <= total
            && Fits(After(b, step.consumed), written + |step.output|, total)
  {
    var step := DecodeStep(b);
    if b[0] != BACKSLASH {
      assert After(b, 1) == b[1..];
    } else if |b| == 1 || b[1] != LOWER_U {
      ShortStepFits(b, written, total);
    } else {
      LiteralFits(b, written, total);
    }
  }

  lemma ShortStepFits(b: Bytes, written: nat, total: nat)
    requires b != [] && Fits(b, written, total) && b[0] == BACKSLASH
    ensures Fits(After(b, 2), written + 1, total)
  {
    if InStep(b) && written + Tokens(b) <= total {
    } else if 2 <= |b| {
      assert b[1..][1..] == b[2..];
      if b[1] == BACKSLASH {
        assert b[1..][2..] == b[2..][1..];
      }
    }
  }

  lemma LiteralFits(b: Bytes, written: nat, total: nat)
    requires Fits(b, written, total) && Utf16Literal(b).Literal?
    requires b[0] == BACKSLASH && b[1] == LOWER_U
    ensures var u := Utf16Literal(b);
            && written + |Utf8(u.codepoint)| <= total
            && Fits(b[u.length..], written + |Utf8(u.codepoint)|, total)
  {
    var u := Utf16Literal(b);
    if u.codepoint == 0 {
      // the u behind the backslash is a plain byte, so the passes are in step at b
      assert b[1..][1..] == b[2..];
      DropTokens(b, 6);
    } else {
      GoodSequenceFits(b, written, total);
      if u.length == 12 {
        assert b[6..][2..6] == b[8..12];
        GoodSequenceFits(b[6..], written, total - 5);
        assert b[6..][6..] == b[12..];
      }
    }
  }

  /** A \uXXXX with four good digits uses up five tokens, in step or not, and ends in step. */
  lemma GoodSequenceFits(b: Bytes, written: nat, total: nat)
    requires |b| >= 6 && b[0] == BACKSLASH && b[1] == LOWER_U && AllHex(b[2..6])
    requires Fits(b, written, total)
    ensures 5 <= total && InStep(b[6..]) && written + 5 + Tokens(b[6..]) <= total
  {
    assert b[2..][..4] == b[2..6];
    assert b[1..][1..] == b[2..];
    DigitTokens(b[2..], 4);
    assert b[2..][4..] == b[6..];
  }

  lemma ParseStringParts(s: Bytes, k: nat, body: Bytes, rest: Bytes)
    requires s != [] && s[0] == QUOTE && ClosingQuote(s[1..]) == Some(k)
    requires body == s[1..][..k] && rest == s[k + 2..]
    ensures InStep(body) && Tokens(body) == BodyTokens(s[1..])
    ensures match Decode(body)
            case None => ParseString(s) == Failed
            case Some(bytes) => ParseString(s) == Read(CString(bytes), rest)
  {
    BodyInStep(s[1..]);
  }
}
