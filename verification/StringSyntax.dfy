/**
  The syntax of string literals in its own terms (section 7 of RFC 8259), next to which the two
  passes of the parser and the printer are checked: tokens, how each is spelled and what it
  means, with the escapes and digits as tables. The UTF-8 encoder has a table of its own to meet.
 */
module StringSyntax {
  import opened Bytes
  import opened StringText
  import opened Escaping

  /** The letters that may stand behind a backslash, and the bytes they stand for. */
  const ESCAPES: map<byte, byte> :=
    map[QUOTE := QUOTE, BACKSLASH := BACKSLASH, SLASH := SLASH, LOWER_B := BACKSPACE,
        LOWER_F := FORM_FEED, LOWER_N := NEWLINE, LOWER_R := RETURN, LOWER_T := TAB]

  const DIGITS: Bytes := [48, 49, 50, 51, 52, 53, 54, 55, 56, 57, 97, 98, 99, 100, 101, 102]

  const CAPITALS: Bytes := [48, 49, 50, 51, 52, 53, 54, 55, 56, 57, 65, 66, 67, 68, 69, 70]

  type nibble = v: int | 0 <= v < 16

  datatype Digit = Digit(value: nibble, capital: bool)

  /** The digits of a \u escape, most significant first. */
  datatype Code = Code(a: Digit, b: Digit, c: Digit, d: Digit)

  function DigitByte(d: Digit): byte {
    if d.capital then CAPITALS[d.value] else DIGITS[d.value]
  }

  function CodeValue(u: Code): (v: nat)
    ensures v < 0x10000
  {
    u.a.value * 0x1000 + u.b.value * 0x100 + u.c.value * 0x10 + u.d.value
  }

  function CodeBytes(u: Code): (h: Bytes)
    ensures |h| == 4
  {
    [DigitByte(u.a), DigitByte(u.b), DigitByte(u.c), DigitByte(u.d)]
  }

  /** BadDigits is the \u escape that parse_hex4 does not reject: it reads it as the code 0. */
  datatype Token =
    | Plain(c: byte)
    | Short(letter: byte)
    | Unicode(code: Code)
    | Pair(high: Code, low: Code)
    | BadDigits(h0: byte, h1: byte, h2: byte, h3: byte)

  predicate NoDigit(c: byte) {
    c !in DIGITS && c !in CAPITALS
  }

  predicate Valid(t: Token) {
    match t
    case Plain(c) => c != BACKSLASH
    case Short(letter) => letter in ESCAPES
    case Unicode(code) => !(0xD800 <= CodeValue(code) <= 0xDFFF)
    case Pair(high, low) => 0xD800 <= CodeValue(high) <= 0xDBFF && 0xDC00 <= CodeValue(low) <= 0xDFFF
    case BadDigits(h0, h1, h2, h3) => NoDigit(h0) || NoDigit(h1) || NoDigit(h2) || NoDigit(h3)
  }

  function Spell(t: Token): (s: Bytes)
    ensures s != []
  {
    match t
    case Plain(c) => [c]
    case Short(letter) => [BACKSLASH, letter]
    case Unicode(code) => [BACKSLASH, LOWER_U] + CodeBytes(code)
    case Pair(high, low) => ([BACKSLASH, LOWER_U] + CodeBytes(high)) + ([BACKSLASH, LOWER_U] + CodeBytes(low))
    case BadDigits(h0, h1, h2, h3) => [BACKSLASH, LOWER_U, h0, h1, h2, h3]
  }

  function Meaning(t: Token): Bytes
    requires Valid(t)
  {
    match t
    case Plain(c) => [c]
    case Short(letter) => [ESCAPES[letter]]
    case Unicode(code) => Utf8(CodeValue(code))
    case Pair(high, low) => Utf8(0x10000 + (CodeValue(high) - 0xD800) * 0x400 + (CodeValue(low) - 0xDC00))
    case BadDigits(_, _, _, _) => [NUL]
  }

  predicate AllValid(ts: seq<Token>) {
    ts == [] || (Valid(ts[0]) && AllValid(ts[1..]))
  }

  function SpellAll(ts: seq<Token>): Bytes {
    if ts == [] then [] else Spell(ts[0]) + SpellAll(ts[1..])
  }

  function MeaningAll(ts: seq<Token>): Bytes
    requires AllValid(ts)
  {
    if ts == [] then [] else Meaning(ts[0]) + MeaningAll(ts[1..])
  }

  // ----- digits

  /** The digits parse_hex4 knows are those of the two tables. */
  lemma HexValueIs(c: byte, v: nibble)
    ensures HexValue(c) == Some(v) <==> DIGITS[v] == c || CAPITALS[v] == c
    ensures HexValue(c) == None <==> NoDigit(c)
  {
    if c in DIGITS {
      var i :| 0 <= i < 16 && DIGITS[i] == c;
    } else if c in CAPITALS {
      var i :| 0 <= i < 16 && CAPITALS[i] == c;
    }
  }

  lemma CodeRead(u: Code)
    ensures AllHex(CodeBytes(u)) && Hex4(CodeBytes(u)) == CodeValue(u)
  {
    var h := CodeBytes(u);
    HexValueIs(h[0], u.a.value);
    HexValueIs(h[1], u.b.value);
    HexValueIs(h[2], u.c.value);
    HexValueIs(h[3], u.d.value);
    HexNumber4(h);
  }

  function DigitOf(c: byte): (d: Digit)
    requires HexValue(c).Some?
    ensures DigitByte(d) == c
  {
    HexValueIs(c, HexValue(c).value);
    Digit(HexValue(c).value, c in CAPITALS && c !in DIGITS)
  }

  /** Every run of four digits spells a code. */
  function CodeOf(h: Bytes): (u: Code)
    requires |h| == 4 && AllHex(h)
    ensures CodeBytes(u) == h
  {
    Code(DigitOf(h[0]), DigitOf(h[1]), DigitOf(h[2]), DigitOf(h[3]))
  }

  // ----- the two passes over a token

  /** The passes agree on where such a token ends. */
  predicate InPlace(t: Token) {
    match t
    case Plain(c) => c != QUOTE
    case BadDigits(h0, h1, h2, h3) => AllOrdinary([h0, h1, h2, h3])
    case _ => true
  }

  predicate AllInPlace(ts: seq<Token>) {
    ts == [] || (InPlace(ts[0]) && AllInPlace(ts[1..]))
  }

  lemma TokenPassed(t: Token, more: Bytes)
    requires Valid(t) && InPlace(t)
    ensures ClosingQuote(Spell(t) + more) == Shifted(ClosingQuote(more), |Spell(t)|)
  {
    hide ClosingQuote, CodeBytes, CodeValue, NoDigit, Shifted, AllOrdinary;
    match t
    case Plain(c) => OnePassed(c, more);
    case Short(letter) => TwoPassed(letter, more);
    case Unicode(code) =>
      CodeOrdinary(code);
      EscapePassed(CodeBytes(code), more);
    case Pair(high, low) => PairPassed(high, low, more);
    case BadDigits(h0, h1, h2, h3) =>
      EscapePassed([h0, h1, h2, h3], more);
      assert Spell(t) == [BACKSLASH, LOWER_U] + [h0, h1, h2, h3];
  }

  lemma OnePassed(c: byte, more: Bytes)
    requires c != QUOTE && c != BACKSLASH
    ensures ClosingQuote([c] + more) == Shifted(ClosingQuote(more), 1)
  {
    assert ([c] + more)[1..] == more;
  }

  lemma TwoPassed(c: byte, more: Bytes)
    ensures ClosingQuote([BACKSLASH, c] + more) == Shifted(ClosingQuote(more), 2)
  {
    assert ([BACKSLASH, c] + more)[2..] == more;
  }

  lemma PairPassed(high: Code, low: Code, more: Bytes)
    ensures ClosingQuote(Spell(Pair(high, low)) + more) == Shifted(ClosingQuote(more), 12)
  {
    hide ClosingQuote, CodeBytes;
    var first, second := [BACKSLASH, LOWER_U] + CodeBytes(high), [BACKSLASH, LOWER_U] + CodeBytes(low);
    CodeOrdinary(high);
    CodeOrdinary(low);
    EscapePassed(CodeBytes(high), second + more);
    EscapePassed(CodeBytes(low), more);
    Associative(first, second, more);
  }

  lemma CodeOrdinary(u: Code)
    ensures AllOrdinary(CodeBytes(u))
  {
    CodeRead(u);
    DigitsOrdinary(CodeBytes(u));
  }

  lemma EscapePassed(h: Bytes, more: Bytes)
    requires |h| == 4 && AllOrdinary(h)
    ensures ClosingQuote([BACKSLASH, LOWER_U] + h + more) == Shifted(ClosingQuote(more), 6)
  {
    hide ClosingQuote;
    SkipOrdinary(h, more);
    TwoPassed(LOWER_U, h + more);
    Associative([BACKSLASH, LOWER_U], h, more);
  }

  lemma ShortRead(letter: byte, more: Bytes)
    requires letter in ESCAPES
    ensures DecodeStep([BACKSLASH, letter] + more) == Step([ESCAPES[letter]], 2)
  {
  }

  lemma CodeAt(b: Bytes, u: Code, more: Bytes)
    requires b == [BACKSLASH, LOWER_U] + CodeBytes(u) + more
    ensures |b| >= 6 && b[0] == BACKSLASH && b[1] == LOWER_U && b[6..] == more && Hex4(b[2..6]) == CodeValue(u)
  {
    hide CodeBytes, Hex4, CodeValue;
    CodeRead(u);
    assert b[2..6] == CodeBytes(u);
  }

  lemma PairRead(high: Code, low: Code, more: Bytes)
    requires Valid(Pair(high, low))
    ensures DecodeStep(Spell(Pair(high, low)) + more) == Step(Meaning(Pair(high, low)), 12)
  {
    hide CodeBytes, Hex4, CodeValue, Utf8;
    var b, second := Spell(Pair(high, low)) + more, [BACKSLASH, LOWER_U] + CodeBytes(low) + more;
    assert b == [BACKSLASH, LOWER_U] + CodeBytes(high) + second;
    CodeAt(b, high, second);
    CodeAt(second, low, more);
    assert b[8..12] == second[2..6] && b[6] == second[0] && b[7] == second[1];
  }

  lemma TokenRead(t: Token, more: Bytes)
    requires Valid(t)
    ensures DecodeStep(Spell(t) + more) == Step(Meaning(t), |Spell(t)|)
  {
    hide CodeBytes, Hex4, CodeValue, Utf8;
    match t
    case Plain(_) =>
    case Short(letter) => ShortRead(letter, more);
    case Unicode(code) => CodeAt(Spell(t) + more, code, more);
    case Pair(high, low) => PairRead(high, low, more);
    case BadDigits(h0, h1, h2, h3) => BadDigitsStep(h0, h1, h2, h3, more);
  }

  lemma BadDigitsStep(h0: byte, h1: byte, h2: byte, h3: byte, more: Bytes)
    requires Valid(BadDigits(h0, h1, h2, h3))
    ensures DecodeStep([BACKSLASH, LOWER_U, h0, h1, h2, h3] + more) == Step([NUL], 6)
  {
    hide Hex4;
    var b := [BACKSLASH, LOWER_U, h0, h1, h2, h3] + more;
    BadDigitsRead(h0, h1, h2, h3);
    assert b[2..6] == [h0, h1, h2, h3];
  }

  lemma BadDigitsRead(h0: byte, h1: byte, h2: byte, h3: byte)
    requires Valid(BadDigits(h0, h1, h2, h3))
    ensures Hex4([h0, h1, h2, h3]) == 0
  {
    var h := [h0, h1, h2, h3];
    var i := if NoDigit(h0) then 0 else if NoDigit(h1) then 1 else if NoDigit(h2) then 2 else 3;
    HexValueIs(h[i], 0);
  }

  /** The token that a turn of the second pass reads, unless it reaches past the end of the body. */
  lemma StepToken(b: Bytes) returns (t: Token)
    requires b != [] && DecodeStep(b).Step? && DecodeStep(b).consumed <= |b|
    ensures Valid(t) && Spell(t) <= b && Meaning(t) == DecodeStep(b).output
  {
    hide Utf16Literal, Utf8;
    if b[0] != BACKSLASH {
      t := Plain(b[0]);
    } else if b[1] != LOWER_U {
      t := Short(b[1]);
    } else {
      t := LiteralToken(b);
    }
  }

  /** The code of the \u escape with good digits at index `i`. */
  lemma CodeIn(b: Bytes, i: nat) returns (u: Code)
    requires i + 6 <= |b| && b[i] == BACKSLASH && b[i + 1] == LOWER_U && AllHex(b[i + 2..i + 6])
    ensures b[i..i + 6] == [BACKSLASH, LOWER_U] + CodeBytes(u) && CodeValue(u) == Hex4(b[i + 2..i + 6])
  {
    hide CodeBytes, CodeValue, Hex4;
    u := CodeOf(b[i + 2..i + 6]);
    CodeRead(u);
  }

  /** The token of a \u escape. */
  lemma LiteralToken(b: Bytes) returns (t: Token)
    requires 2 <= |b| && b[0] == BACKSLASH && b[1] == LOWER_U && Utf16Literal(b).Literal?
    ensures Valid(t) && Spell(t) <= b && Meaning(t) == Utf8(Utf16Literal(b).codepoint)
  {
    hide CodeBytes, CodeValue, Utf8, AllHex;
    if !AllHex(b[2..6]) {
      t := BadToken(b);
      return;
    }
    var high := CodeIn(b, 0);
    if CodeValue(high) < 0xD800 || 0xDFFF < CodeValue(high) {
      t := Unicode(high);
      assert Spell(t) == b[..6];
    } else {
      var low := CodeIn(b, 6);
      t := Pair(high, low);
      assert Spell(t) == b[..6] + b[6..12] == b[..12];
    }
  }

  lemma BadToken(b: Bytes) returns (t: Token)
    requires 6 <= |b| && b[0] == BACKSLASH && b[1] == LOWER_U && !AllHex(b[2..6])
    ensures Valid(t) && Spell(t) <= b && Meaning(t) == [NUL] == Utf8(0)
  {
    t := BadDigits(b[2], b[3], b[4], b[5]);
    assert Spell(t) == b[..6];
    NotAllHex(b[2..6]);
  }

  lemma NotAllHex(h: Bytes)
    requires |h| == 4 && !AllHex(h)
    ensures NoDigit(h[0]) || NoDigit(h[1]) || NoDigit(h[2]) || NoDigit(h[3])
  {
    hide NoDigit, HexValue;
    var i :| 0 <= i < 4 && HexValue(h[i]) == None;
    HexValueIs(h[i], 0);
  }

  lemma {:induction false} TokensDecoded(ts: seq<Token>, tail: Bytes)
    requires AllValid(ts)
    ensures Decode(SpellAll(ts) + tail) == Behind(MeaningAll(ts), Decode(tail))
  {
    hide Spell, Meaning, Valid, DecodeStep;
    if ts == [] {
      assert SpellAll(ts) + tail == tail;
      BehindNone(Decode(tail));
    } else {
      var more := SpellAll(ts[1..]) + tail;
      TokensDecoded(ts[1..], tail);
      TokenRead(ts[0], more);
      assert SpellAll(ts) + tail == Spell(ts[0]) + more;
      assert After(Spell(ts[0]) + more, |Spell(ts[0])|) == more;
      BehindBoth(Meaning(ts[0]), MeaningAll(ts[1..]), Decode(tail));
    }
  }

  lemma BehindNone(more: Option<Bytes>)
    ensures Behind([], more) == more
  {
    if more.Some? {
      assert [] + more.value == more.value;
    }
  }

  // ----- the second pass, exactly

  /** The body is a run of tokens with that meaning; a backslash left over at its end escapes the closing quote. */
  ghost predicate SpelledBy(ts: seq<Token>, body: Bytes, bytes: Bytes) {
    && AllValid(ts)
    && ((body == SpellAll(ts) && bytes == MeaningAll(ts))
        || (body == SpellAll(ts) + [BACKSLASH] && bytes == MeaningAll(ts) + [QUOTE]))
  }

  ghost predicate Spelled(body: Bytes, bytes: Bytes) {
    exists ts :: SpelledBy(ts, body, bytes)
  }

  lemma {:induction false} DecodedTokens(body: Bytes) returns (ts: seq<Token>)
    requires Decode(body).Some?
    ensures SpelledBy(ts, body, Decode(body).value)
    decreases |body|
  {
    hide Spell, Meaning, Valid, DecodeStep, SpelledBy;
    if body == [] {
      ts := [];
      NothingSpelled();
    } else if DecodeStep(body).consumed > |body| {
      Overrun(body);
      BackslashDecoded();
      ts := [];
      NothingSpelled();
    } else {
      var t := StepToken(body);
      TokenAhead(t, body);
      var more := DecodedTokens(body[|Spell(t)|..]);
      ts := [t] + more;
      SpelledMore(t, more, body[|Spell(t)|..], Decode(body[|Spell(t)|..]).value);
      assert body == Spell(t) + body[|Spell(t)|..];
    }
  }

  lemma SpelledMore(t: Token, ts: seq<Token>, body: Bytes, bytes: Bytes)
    requires Valid(t) && SpelledBy(ts, body, bytes)
    ensures SpelledBy([t] + ts, Spell(t) + body, Meaning(t) + bytes)
  {
    hide Spell, Meaning, Valid;
    var all := [t] + ts;
    assert all[1..] == ts;
    Associative(Spell(t), SpellAll(ts), [BACKSLASH]);
    Associative(Meaning(t), MeaningAll(ts), [QUOTE]);
  }

  lemma NothingSpelled()
    ensures SpelledBy([], [], []) && SpelledBy([], [BACKSLASH], [QUOTE])
  {
  }

  lemma TokenAhead(t: Token, body: Bytes)
    requires Valid(t) && Spell(t) <= body
    ensures DecodeStep(body) == Step(Meaning(t), |Spell(t)|) && After(body, |Spell(t)|) == body[|Spell(t)|..]
  {
    TokenRead(t, body[|Spell(t)|..]);
    assert body == Spell(t) + body[|Spell(t)|..];
  }

  lemma Overrun(body: Bytes)
    requires body != [] && DecodeStep(body).Step? && DecodeStep(body).consumed > |body|
    ensures body == [BACKSLASH]
  {
    hide Utf16Literal, Utf8;
  }

  lemma BackslashDecoded()
    ensures Decode([BACKSLASH]) == Some([QUOTE])
  {
    hide Utf16Literal;
    var b: Bytes := [BACKSLASH];
    assert DecodeStep(b) == Step([QUOTE], 2);
    assert After(b, 2) == [] && Decode([]) == Some([]);
    assert [QUOTE] + [] == [QUOTE];
  }

  /** The second pass gives exactly the bytes that some spelling of the body means, and gives up if there is none. */
  lemma DecodeExactly(body: Bytes, bytes: Bytes)
    ensures Decode(body) == Some(bytes) <==> Spelled(body, bytes)
  {
    if Decode(body) == Some(bytes) {
      var ts := DecodedTokens(body);
    }
    if Spelled(body, bytes) {
      var ts :| SpelledBy(ts, body, bytes);
      BackslashDecoded();
      TokensDecoded(ts, []);
      TokensDecoded(ts, [BACKSLASH]);
      assert SpellAll(ts) + [] == SpellAll(ts) && MeaningAll(ts) + [] == MeaningAll(ts);
    }
  }

  // ----- string literals

  lemma {:induction false} BodyClosed(body: Bytes, rest: Bytes)
    requires InStep(body)
    ensures ClosingQuote(body + [QUOTE] + rest) == Some(|body|)
  {
    var s := body + [QUOTE] + rest;
    if body != [] {
      var n := if body[0] == BACKSLASH then 2 else 1;
      assert s[n..] == body[n..] + [QUOTE] + rest;
      BodyClosed(body[n..], rest);
    }
  }

  /** `s` is a literal with that body and the rest behind it: no byte of the body closes the literal. */
  predicate LiteralOf(s: Bytes, body: Bytes, rest: Bytes) {
    s == [QUOTE] + body + [QUOTE] + rest && InStep(body)
  }

  /** parse_string reads exactly the literals whose body spells something, and as what they spell. */
  lemma ParseStringExactly(s: Bytes, text: Bytes, rest: Bytes)
    ensures ParseString(s) == Read(text, rest) <==>
      exists body, bytes :: LiteralOf(s, body, rest) && Spelled(body, bytes) && text == CString(bytes)
  {
    hide Spelled, Decode;
    if ParseString(s) == Read(text, rest) {
      var k := ClosingQuote(s[1..]).value;
      var body := s[1..][..k];
      BodyInStep(s[1..]);
      DecodeExactly(body, Decode(body).value);
      assert s == [QUOTE] + body + [QUOTE] + rest;
      assert LiteralOf(s, body, rest) && Spelled(body, Decode(body).value);
    }
    forall body, bytes | LiteralOf(s, body, rest) && Spelled(body, bytes)
      ensures ParseString(s) == Read(CString(bytes), rest)
    {
      DecodeExactly(body, bytes);
      BodyClosed(body, rest);
      ParseStringBody(body, bytes, rest);
    }
  }

  lemma {:induction false} TokensPassed(ts: seq<Token>, more: Bytes)
    requires AllValid(ts) && AllInPlace(ts)
    ensures ClosingQuote(SpellAll(ts) + more) == Shifted(ClosingQuote(more), |SpellAll(ts)|)
  {
    hide Spell, Valid, InPlace, ClosingQuote;
    if ts == [] {
      assert SpellAll(ts) + more == more;
    } else {
      TokensPassed(ts[1..], more);
      TokenPassed(ts[0], SpellAll(ts[1..]) + more);
      assert SpellAll(ts) + more == Spell(ts[0]) + (SpellAll(ts[1..]) + more);
    }
  }

  /** Every sequence of tokens between two quotes is read as what it means, up to its first NUL. */
  lemma TokensRead(ts: seq<Token>, rest: Bytes)
    requires AllValid(ts) && AllInPlace(ts)
    ensures ParseString([QUOTE] + SpellAll(ts) + [QUOTE] + rest) == Read(CString(MeaningAll(ts)), rest)
  {
    hide SpellAll, MeaningAll, AllValid, AllInPlace, ParseString;
    var body := SpellAll(ts);
    TokensPassed(ts, [QUOTE] + rest);
    TokensDecoded(ts, []);
    assert body + [] == body && MeaningAll(ts) + [] == MeaningAll(ts);
    Associative(body, [QUOTE], rest);
    QuoteFirst([QUOTE] + rest);
    ParseStringBody(body, MeaningAll(ts), rest);
  }

  /** A literal whose tokens are followed by what is no token is rejected. */
  lemma Rejected(ts: seq<Token>, tail: Bytes)
    requires AllValid(ts) && AllInPlace(ts)
    requires ClosingQuote(tail).Some? ==>
      var k := ClosingQuote(tail).value; k > 0 && DecodeStep(tail[..k]) == BadStep
    ensures ParseString([QUOTE] + (SpellAll(ts) + tail)) == Failed
  {
    hide SpellAll, MeaningAll, AllValid, AllInPlace, ClosingQuote, DecodeStep;
    var s := [QUOTE] + (SpellAll(ts) + tail);
    assert s[1..] == SpellAll(ts) + tail;
    TokensPassed(ts, tail);
    if ClosingQuote(tail).Some? {
      var k := ClosingQuote(tail).value;
      TokensDecoded(ts, tail[..k]);
      assert s[1..][..|SpellAll(ts)| + k] == SpellAll(ts) + tail[..k];
    }
  }

  /** A literal that is not closed. */
  lemma UnclosedRejected(ts: seq<Token>)
    requires AllValid(ts) && AllInPlace(ts)
    ensures ParseString([QUOTE] + (SpellAll(ts) + [])) == Failed
    ensures ParseString([QUOTE] + (SpellAll(ts) + [BACKSLASH])) == Failed
  {
    Rejected(ts, []);
    Rejected(ts, [BACKSLASH]);
  }

  /** A backslash in front of a byte that cannot be escaped. */
  lemma BadEscapeRejected(ts: seq<Token>, c: byte, more: Bytes)
    requires AllValid(ts) && AllInPlace(ts) && c !in ESCAPES && c != LOWER_U
    ensures ParseString([QUOTE] + (SpellAll(ts) + ([BACKSLASH, c] + more))) == Failed
  {
    Rejected(ts, [BACKSLASH, c] + more);
  }

  predicate IsLow(u: Code) {
    0xDC00 <= CodeValue(u) <= 0xDFFF
  }

  /** Behind a high surrogate that is accepted stands a low one. */
  lemma LowBehind(b: Bytes, u: Code, more: Bytes) returns (low: Code)
    requires [BACKSLASH, LOWER_U] + CodeBytes(u) <= b && b <= [BACKSLASH, LOWER_U] + CodeBytes(u) + more
    requires 0xD800 <= CodeValue(u) <= 0xDBFF && Utf16Literal(b).Literal?
    ensures IsLow(low) && [BACKSLASH, LOWER_U] + CodeBytes(low) <= more
  {
    hide CodeBytes, CodeValue;
    CodeAt(b, u, b[6..]);
    low := CodeOf(b[8..12]);
    CodeRead(low);
    assert b[6..12] == [BACKSLASH, LOWER_U] + CodeBytes(low);
    assert more[..6] == b[6..12];
  }

  /** A low surrogate on its own, or a high one that no low one follows. */
  lemma UnpairedRejected(ts: seq<Token>, u: Code, more: Bytes)
    requires AllValid(ts) && AllInPlace(ts) && 0xD800 <= CodeValue(u) <= 0xDFFF
    requires forall low :: IsLow(low) && !IsLow(u) ==> !([BACKSLASH, LOWER_U] + CodeBytes(low) <= more)
    ensures ParseString([QUOTE] + (SpellAll(ts) + ([BACKSLASH, LOWER_U] + CodeBytes(u) + more))) == Failed
  {
    hide CodeBytes, Hex4, ClosingQuote, ParseString;
    var tail := [BACKSLASH, LOWER_U] + CodeBytes(u) + more;
    CodeOrdinary(u);
    EscapePassed(CodeBytes(u), more);
    if ClosingQuote(tail).Some? {
      var b := tail[..ClosingQuote(tail).value];
      assert b == [BACKSLASH, LOWER_U] + CodeBytes(u) + b[6..];
      CodeAt(b, u, b[6..]);
      if !IsLow(u) && Utf16Literal(b).Literal? {
        var low := LowBehind(b, u, more);
        assert false;
      }
    }
    Rejected(ts, tail);
  }

  // ----- UTF-8

  /** The six bits of an octet 10xxxxxx. */
  function Six(c: byte): Option<nat> {
    if 0x80 <= c < 0xC0 then Some(c - 0x80) else None
  }

  function Appended(bits: Option<nat>, more: Option<nat>): Option<nat> {
    if bits.None? || more.None? then None else Some(bits.value * 0x40 + more.value)
  }

  /** The bits of the first octet of two, three or four: 110xxxxx, 1110xxxx or 11110xxx. */
  function Lead(c: byte, octets: nat): Option<nat> {
    if octets == 2 && 0xC0 <= c < 0xE0 then Some(c - 0xC0)
    else if octets == 3 && 0xE0 <= c < 0xF0 then Some(c - 0xE0)
    else if octets == 4 && 0xF0 <= c < 0xF8 then Some(c - 0xF0)
    else None
  }

  /** The code point that a sequence of octets stands for (the table in section 3 of RFC 3629). */
  function CodePoint(b: Bytes): Option<nat> {
    if |b| == 1 && b[0] < 0x80 then Some(b[0])
    else if |b| == 2 then Appended(Lead(b[0], 2), Six(b[1]))
    else if |b| == 3 then Appended(Appended(Lead(b[0], 3), Six(b[1])), Six(b[2]))
    else if |b| == 4 then Appended(Appended(Appended(Lead(b[0], 4), Six(b[1])), Six(b[2])), Six(b[3]))
    else None
  }

  /** The encoder writes the code point. */
  lemma Utf8Encodes(codepoint: nat)
    requires codepoint <= 0x10FFFF
    ensures CodePoint(Utf8(codepoint)) == Some(codepoint)
  {
    var q := codepoint / 0x40;
    var r := q / 0x40;
    assert codepoint / 0x1000 == r && codepoint / 0x40000 == r / 0x40;
  }

  /** Nothing shorter, and nothing else of that length, stands for the code point. */
  lemma Utf8Shortest(codepoint: nat, b: Bytes)
    requires codepoint <= 0x10FFFF && CodePoint(b) == Some(codepoint)
    ensures |Utf8(codepoint)| <= |b| && (|b| == |Utf8(codepoint)| ==> b == Utf8(codepoint))
  {
    hide Utf8;
    Utf8Encodes(codepoint);
    Utf8Length(codepoint);
    if |b| == |Utf8(codepoint)| {
      SameOctets(b, Utf8(codepoint));
    }
  }

  lemma Utf8Length(codepoint: nat)
    requires codepoint <= 0x10FFFF
    ensures var n := |Utf8(codepoint)|;
            && (n > 1 ==> codepoint >= 0x80) && (n > 2 ==> codepoint >= 0x800) && (n > 3 ==> codepoint >= 0x10000)
  {
  }

  lemma SameOctets(a: Bytes, b: Bytes)
    requires CodePoint(a).Some? && CodePoint(a) == CodePoint(b) && |a| == |b|
    ensures a == b
  {
    hide Lead, Six, Appended;
    if |a| == 2 {
      SameLast(Lead(a[0], 2), a[1], Lead(b[0], 2), b[1]);
      SameLead(a[0], b[0], 2);
    } else if |a| == 3 {
      SameLast(Appended(Lead(a[0], 3), Six(a[1])), a[2], Appended(Lead(b[0], 3), Six(b[1])), b[2]);
      SameLast(Lead(a[0], 3), a[1], Lead(b[0], 3), b[1]);
      SameLead(a[0], b[0], 3);
    } else if |a| == 4 {
      var p, q := Appended(Lead(a[0], 4), Six(a[1])), Appended(Lead(b[0], 4), Six(b[1]));
      SameLast(Appended(p, Six(a[2])), a[3], Appended(q, Six(b[2])), b[3]);
      SameLast(p, a[2], q, b[2]);
      SameLast(Lead(a[0], 4), a[1], Lead(b[0], 4), b[1]);
      SameLead(a[0], b[0], 4);
    }
  }

  lemma SameLast(p: Option<nat>, x: byte, q: Option<nat>, y: byte)
    requires Appended(p, Six(x)).Some? && Appended(p, Six(x)) == Appended(q, Six(y))
    ensures p == q && p.Some? && x == y
  {
  }

  lemma SameLead(x: byte, y: byte, octets: nat)
    requires Lead(x, octets).Some? && Lead(x, octets) == Lead(y, octets)
    ensures x == y
  {
  }

  // ----- the printer

  /** A token as the standard has it: control characters are escaped, and digits are digits. */
  predicate Strict(t: Token) {
    && Valid(t) && InPlace(t) && !t.BadDigits?
    && (t.Plain? ==> 32 <= t.c)
  }

  predicate AllStrict(ts: seq<Token>) {
    ts == [] || (Strict(ts[0]) && AllStrict(ts[1..]))
  }

  predicate SmallDigits(t: Token) {
    t.Unicode? ==> !t.code.a.capital && !t.code.b.capital && !t.code.c.capital && !t.code.d.capital
  }

  predicate AllSmall(ts: seq<Token>) {
    ts == [] || (SmallDigits(ts[0]) && AllSmall(ts[1..]))
  }

  /** The token print_string_ptr writes for a byte. */
  lemma ByteToken(c: byte) returns (t: Token)
    ensures Strict(t) && SmallDigits(t) && Spell(t) == EscapeByte(c) && Meaning(t) == [c]
  {
    if ShortEscape(c).Some? {
      t := Short(ShortEscape(c).value);
    } else if c < 32 {
      var zero := Digit(0, false);
      t := Unicode(Code(zero, zero, Digit(c / 16, false), Digit(c % 16, false)));
      ControlDigits(c);
    } else {
      t := Plain(c);
    }
  }

  lemma ControlDigits(c: byte)
    requires c < 32
    ensures HexText(c, false) == [DIGITS[0], DIGITS[0], DIGITS[c / 16], DIGITS[c % 16]]
  {
  }

  lemma {:induction false} HighBytesPrinted(s: Bytes)
    requires forall i :: 0 <= i < |s| ==> s[i] >= 0x80
    ensures Escape(s) == s
  {
    if s != [] {
      HighBytesPrinted(s[1..]);
      assert [s[0]] + s[1..] == s;
    }
  }

  lemma Utf8High(codepoint: nat)
    requires 0x80 <= codepoint <= 0x10FFFF
    ensures forall i :: 0 <= i < |Utf8(codepoint)| ==> Utf8(codepoint)[i] >= 0x80
  {
  }

  lemma BytePrinted(c: byte)
    ensures Escape([c]) == EscapeByte(c)
  {
    assert EscapeByte(c) + Escape([]) == EscapeByte(c);
  }

  lemma CodePrinted(u: Code)
    requires CodeValue(u) < 0x80
    ensures var e := EscapeByte(CodeValue(u)); var s := [BACKSLASH, LOWER_U] + CodeBytes(u);
            |e| <= |s| && (|e| == |s| && SmallDigits(Unicode(u)) ==> e == s)
  {
    hide HexText;
    if CodeValue(u) < 32 {
      ControlDigits(CodeValue(u));
      assert u.a.value == 0 && u.b.value == 0;
    }
  }

  /** No token means the same bytes in less space, or in as much but otherwise. */
  lemma TokenPrinted(t: Token)
    requires Strict(t)
    ensures |Escape(Meaning(t))| <= |Spell(t)|
    ensures |Escape(Meaning(t))| == |Spell(t)| && SmallDigits(t) ==> Escape(Meaning(t)) == Spell(t)
  {
    hide Escape;
    match t
    case Plain(c) => BytePrinted(c);
    case Short(letter) => BytePrinted(ESCAPES[letter]);
    case Unicode(code) =>
      if CodeValue(code) < 0x80 {
        BytePrinted(CodeValue(code));
        CodePrinted(code);
      } else {
        Utf8High(CodeValue(code));
        HighBytesPrinted(Meaning(t));
      }
    case Pair(_, _) =>
      Utf8High(0x10000 + (CodeValue(t.high) - 0xD800) * 0x400 + (CodeValue(t.low) - 0xDC00));
      HighBytesPrinted(Meaning(t));
  }

  /**
    print_string_ptr writes the shortest literal the standard allows for a string, with small
    digits: every other spelling is longer, or has as many bytes and some capital digit.
   */
  lemma {:induction false} PrintedShortest(ts: seq<Token>)
    requires AllValid(ts) && AllStrict(ts)
    ensures |Escape(MeaningAll(ts))| <= |SpellAll(ts)|
    ensures |Escape(MeaningAll(ts))| == |SpellAll(ts)| && AllSmall(ts) ==> Escape(MeaningAll(ts)) == SpellAll(ts)
  {
    hide Escape, Spell, Meaning, Strict, Valid, SmallDigits;
    if ts == [] {
      NothingPrinted();
    } else {
      PrintedShortest(ts[1..]);
      TokenPrinted(ts[0]);
      EscapeJoin(Meaning(ts[0]), MeaningAll(ts[1..]));
    }
  }

  lemma NothingPrinted()
    ensures Escape([]) == []
  {
  }

  /** And it is such a literal. */
  lemma {:induction false} PrintedTokens(s: Bytes) returns (ts: seq<Token>)
    ensures AllValid(ts) && AllStrict(ts) && AllSmall(ts) && SpellAll(ts) == Escape(s) && MeaningAll(ts) == s
  {
    hide Strict, Valid, SmallDigits, Spell, Meaning, EscapeByte;
    if s == [] {
      ts := [];
    } else {
      var more := PrintedTokens(s[1..]);
      var t := ByteToken(s[0]);
      StrictValid(t);
      ts := [t] + more;
      assert ts[1..] == more && [s[0]] + s[1..] == s;
    }
  }

  lemma StrictValid(t: Token)
    ensures Strict(t) ==> Valid(t)
  {
  }
}
