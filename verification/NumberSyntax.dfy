/**
  The syntax of numbers in its own terms: sign, digits, point, fraction and exponent, and the
  number they stand for, digit by digit. The reader of `NumberText` is checked against it.
 */
module NumberSyntax {
  import opened Bytes
  import opened NumberText

  datatype Sign = Unsigned | Positive | Negative

  datatype Scale = NoScale | Scale(mark: byte, sign: Sign, digits: Bytes)

  datatype Decimal = Decimal(sign: Sign, whole: Bytes, point: bool, fraction: Bytes, scale: Scale)

  predicate ValidScale(scale: Scale) {
    match scale
    case NoScale => true
    case Scale(mark, _, digits) => (mark == LOWER_E || mark == UPPER_E) && AllDigits(digits) && digits != []
  }

  predicate Valid(d: Decimal) {
    && AllDigits(d.whole) && AllDigits(d.fraction) && d.whole + d.fraction != []
    && (!d.point ==> d.fraction == [])
    && ValidScale(d.scale)
  }

  function SignText(sign: Sign): (t: Bytes)
    ensures |t| <= 1
  {
    match sign
    case Unsigned => []
    case Positive => [PLUS]
    case Negative => [MINUS]
  }

  function ScaleText(scale: Scale): Bytes {
    match scale
    case NoScale => []
    case Scale(mark, sign, digits) => [mark] + (SignText(sign) + digits)
  }

  function PointText(point: bool): Bytes {
    if point then [POINT] else []
  }

  /** The digits and the point among them. */
  function DigitsText(d: Decimal): Bytes {
    d.whole + (PointText(d.point) + d.fraction)
  }

  function Text(d: Decimal): Bytes {
    SignText(d.sign) + (DigitsText(d) + ScaleText(d.scale))
  }

  /** The digits in front of the point, the first one counting most. */
  function Whole(digits: Bytes): int {
    if digits == [] then 0 else (digits[0] - DIGIT_0) * Ten(|digits| - 1) + Whole(digits[1..])
  }

  /** The digits behind the point: tenths, hundredths and so on. */
  function Fraction(digits: Bytes): real {
    if digits == [] then 0.0 else ((digits[0] - DIGIT_0) as real + Fraction(digits[1..])) / 10.0
  }

  /** 10^e */
  function PowerOfTen(e: int): real
    decreases if e < 0 then -e else e
  {
    if e == 0 then 1.0 else if e > 0 then PowerOfTen(e - 1) * 10.0 else PowerOfTen(e + 1) / 10.0
  }

  function SignedBy(sign: Sign, r: real): real {
    if sign == Negative then -r else r
  }

  function ScaleValue(scale: Scale): int {
    match scale
    case NoScale => 0
    case Scale(_, sign, digits) => if sign == Negative then -Whole(digits) else Whole(digits)
  }

  function Value(d: Decimal): real {
    SignedBy(d.sign, Whole(d.whole) as real + Fraction(d.fraction)) * PowerOfTen(ScaleValue(d.scale))
  }

  // ----- the arithmetic

  lemma {:induction false} WholeSnoc(digits: Bytes, c: byte)
    requires AllDigits(digits) && IsDigit(c)
    ensures AllDigits(digits + [c]) && Whole(digits + [c]) == Whole(digits) * 10 + (c - DIGIT_0)
  {
    var all := digits + [c];
    if digits != [] {
      WholeSnoc(digits[1..], c);
      assert all[1..] == digits[1..] + [c];
      TenTimes(digits[0] - DIGIT_0, |digits| - 1);
    } else {
      assert all[1..] == [] && Ten(0) == 1;
    }
  }

  lemma TenTimes(d: int, e: nat)
    ensures d * Ten(e + 1) == d * Ten(e) * 10
  {
  }

  lemma {:induction false} DigitsWhole(digits: Bytes)
    requires AllDigits(digits)
    ensures DigitsValue(digits) == Whole(digits)
  {
    if digits != [] {
      var n := |digits| - 1;
      DigitsWhole(digits[..n]);
      WholeSnoc(digits[..n], digits[n]);
      assert digits == digits[..n] + [digits[n]];
    }
  }

  lemma {:induction false} FractionWhole(digits: Bytes)
    requires AllDigits(digits)
    ensures Fraction(digits) * Ten(|digits|) as real == Whole(digits) as real
  {
    hide Ten;
    if digits != [] {
      FractionWhole(digits[1..]);
      TenthOf(digits[0] - DIGIT_0, Fraction(digits[1..]), |digits| - 1);
    }
  }

  lemma TenthOf(d: int, f: real, e: nat)
    ensures (d as real + f) / 10.0 * Ten(e + 1) as real == (d * Ten(e)) as real + f * Ten(e) as real
  {
    var t := Ten(e) as real;
    assert Ten(e + 1) as real == 10.0 * t;
    IntegersMultiply(d, Ten(e));
    assert (d as real + f) / 10.0 * (10.0 * t) == (d as real + f) * t == d as real * t + f * t;
  }

  lemma IntegersMultiply(m: int, n: int)
    ensures (m * n) as real == m as real * n as real
  {
  }

  /** One more power of ten, whatever the sign of the exponent. */
  lemma PowerStep(e: int)
    ensures PowerOfTen(e + 1) == PowerOfTen(e) * 10.0
  {
  }

  lemma {:induction false} PowerSum(e: int, n: nat)
    ensures PowerOfTen(e) == PowerOfTen(e - n) * Ten(n) as real
  {
    if n > 0 {
      PowerSum(e, n - 1);
      PowerStep(e - n);
      var p := PowerOfTen(e - n);
      assert (p * 10.0) * Ten(n - 1) as real == p * (10.0 * Ten(n - 1) as real);
      assert Ten(n) as real == 10.0 * Ten(n - 1) as real;
    }
  }

  lemma Reciprocal(m: real, p: real, t: real)
    requires p * t == 1.0
    ensures t != 0.0 && m / t == m * p
  {
    assert m == (m * p) * t by {
      assert (m * p) * t == m * (p * t);
    }
  }

  /** Scaling an integer is multiplying by a power of ten. */
  lemma ScaledIs(m: int, e: int)
    ensures Scaled(m, e) == m as real * PowerOfTen(e)
  {
    hide PowerOfTen, Ten;
    PowerZero();
    if e >= 0 {
      PowerSum(e, e);
      IntegersMultiply(m, Ten(e));
    } else {
      PowerSum(0, -e);
      Reciprocal(m as real, PowerOfTen(e), Ten(-e) as real);
    }
  }

  lemma PowerZero()
    ensures PowerOfTen(0) == 1.0
  {
  }

  lemma Collect(w: real, f: real, t: real, p: real)
    ensures (w * t + f * t) * p == (w + f) * (p * t)
  {
    assert (w + f) * t == w * t + f * t;
    assert (w + f) * (p * t) == ((w + f) * t) * p;
  }

  lemma Minus(m: real, p: real)
    ensures -m * p == -(m * p)
  {
  }

  lemma ScaledNegated(m: int, e: int)
    ensures Scaled(-m, e) == -Scaled(m, e)
  {
    hide PowerOfTen, Scaled;
    ScaledIs(m, e);
    ScaledIs(-m, e);
    Minus(m as real, PowerOfTen(e));
  }

  lemma MantissaScaled(whole: Bytes, fraction: Bytes, e: int)
    requires AllDigits(whole) && AllDigits(fraction)
    ensures Scaled(Mantissa(whole, fraction), e - |fraction|)
            == (Whole(whole) as real + Fraction(fraction)) * PowerOfTen(e)
  {
    hide PowerOfTen, Ten, Scaled, Fraction, Whole, DigitsValue;
    DigitsWhole(whole);
    DigitsWhole(fraction);
    FractionWhole(fraction);
    PowerSum(e, |fraction|);
    var t, w := Ten(|fraction|), Whole(whole);
    ScaledIs(Mantissa(whole, fraction), e - |fraction|);
    IntegersMultiply(w, t);
    Collect(w as real, Fraction(fraction), t as real, PowerOfTen(e - |fraction|));
  }

  lemma SignedScaled(whole: Bytes, fraction: Bytes, sign: Sign, e: int)
    requires AllDigits(whole) && AllDigits(fraction)
    ensures var m: int := Mantissa(whole, fraction);
            Scaled(if sign == Negative then -m else m, e - |fraction|)
            == SignedBy(sign, Whole(whole) as real + Fraction(fraction)) * PowerOfTen(e)
  {
    hide PowerOfTen, Scaled, Fraction, Whole, Mantissa;
    MantissaScaled(whole, fraction, e);
    ScaledNegated(Mantissa(whole, fraction), e - |fraction|);
    Minus(Whole(whole) as real + Fraction(fraction), PowerOfTen(e));
  }

  // ----- the text

  lemma RunExactly(digits: Bytes, behind: Bytes)
    requires AllDigits(digits)
    ensures digits <= DigitRun(digits + behind)
    ensures behind == [] || !IsDigit(behind[0]) ==> DigitRun(digits + behind) == digits
  {
    var s := digits + behind;
    var run := DigitRun(s);
    if |digits| < |run| {
      assert run[|digits|] == behind[0];
    }
  }

  /** A sign and what stands behind it, which is no sign. */
  lemma SignFront(sign: Sign, behind: Bytes)
    requires behind != [] && behind[0] != PLUS && behind[0] != MINUS
    ensures var s := SignText(sign) + behind;
            SignLength(s) == |SignText(sign)| && s[SignLength(s)..] == behind && (s[0] == MINUS <==> sign == Negative)
  {
  }

  lemma ExponentBehind(mark: byte, signed: Bytes)
    requires mark == LOWER_E || mark == UPPER_E
    requires signed != [] && DigitRun(signed[SignLength(signed)..]) != []
    ensures var digits := DigitRun(signed[SignLength(signed)..]); var m: int := DigitsValue(digits);
            Exponent([mark] + signed) ==
            (1 + SignLength(signed) + |digits|, if signed[0] == MINUS then -m else m)
  {
    hide DigitRun, DigitsValue, SignLength;
    var s := [mark] + signed;
    assert s[1..] == signed && s[1] == signed[0];
  }

  /** An exponent part in front of a text is found, and goes on at most over more digits. */
  lemma ScaleFront(scale: Scale, rest: Bytes)
    requires ValidScale(scale)
    ensures |ScaleText(scale)| <= Exponent(ScaleText(scale) + rest).0
    ensures rest == [] ==> Exponent(ScaleText(scale) + rest) == (|ScaleText(scale)|, ScaleValue(scale))
  {
    hide DigitRun, DigitsValue, Whole, SignText, SignLength, Exponent;
    if scale.NoScale? {
      NoExponent(rest);
      return;
    }
    var Scale(mark, sign, digits) := scale;
    var signed := SignText(sign) + (digits + rest);
    SignFront(sign, digits + rest);
    RunExactly(digits, rest);
    DigitsWhole(digits);
    ExponentBehind(mark, signed);
    Inside([mark], SignText(sign), digits, rest);
  }

  lemma Inside(a: Bytes, b: Bytes, c: Bytes, rest: Bytes)
    ensures (a + (b + c)) + rest == a + (b + (c + rest))
  {
  }

  lemma NoExponent(rest: Bytes)
    ensures rest == [] ==> Exponent([] + rest) == (0, 0)
  {
  }

  /** The sign in front of a text. */
  function SignOf(s: Bytes): (sign: Sign)
    ensures SignText(sign) == s[..SignLength(s)]
    ensures sign == Negative <==> s != [] && s[0] == MINUS
  {
    if s == [] || SignLength(s) == 0 then Unsigned else if s[0] == PLUS then Positive else Negative
  }

  lemma ScaleIn(s: Bytes) returns (scale: Scale)
    ensures ValidScale(scale)
    ensures ScaleText(scale) == s[..Exponent(s).0] && ScaleValue(scale) == Exponent(s).1
  {
    hide DigitRun, DigitsValue, Whole, SignText, SignLength, SignOf;
    if Exponent(s).0 == 0 {
      return NoScale;
    }
    var signed := s[1..];
    var digits := DigitRun(signed[SignLength(signed)..]);
    DigitsWhole(digits);
    scale := Scale(s[0], SignOf(signed), digits);
    assert s[..1 + SignLength(signed) + |digits|] == [s[0]] + (signed[..SignLength(signed)] + digits);
  }

  /** No digit and no point comes next. */
  predicate Stops(s: Bytes) {
    s == [] || (!IsDigit(s[0]) && s[0] != POINT)
  }

  lemma PartsFront(d: Decimal, tail: Bytes)
    requires Valid(d) && Stops(tail)
    ensures PartsOf(DigitsText(d) + tail) == Parts(d.whole, d.fraction, tail)
  {
    hide DigitRun;
    var behind := PointText(d.point) + (d.fraction + tail);
    assert DigitsText(d) + tail == d.whole + behind;
    RunExactly(d.whole, behind);
    RunExactly(d.fraction, tail);
    assert (d.whole + behind)[|d.whole|..] == behind;
    if d.point {
      assert behind[1..] == d.fraction + tail && (d.fraction + tail)[|d.fraction|..] == tail;
    }
  }

  lemma ScaleStops(scale: Scale, rest: Bytes)
    requires ValidScale(scale) && (scale.Scale? || rest == [])
    ensures Stops(ScaleText(scale) + rest)
  {
  }

  /** The part of strtod behind the sign. */
  lemma StrtodSigned(sign: Sign, s: Bytes)
    requires s != [] && s[0] != PLUS && s[0] != MINUS
    ensures var p := PartsOf(s); var w := SignText(sign) + s;
            if p.whole + p.fraction == [] then Strtod(w) == NoNumeral
            else
              var m: int := Mantissa(p.whole, p.fraction);
              Strtod(w) == Numeral(|w| - |p.tail| + Exponent(p.tail).0,
                                   Scaled(if sign == Negative then -m else m, Exponent(p.tail).1 - |p.fraction|))
  {
    hide PartsOf, SignText, SignLength, Exponent, Scaled, Mantissa;
    SignFront(sign, s);
  }

  lemma DigitsFirst(d: Decimal)
    requires Valid(d)
    ensures DigitsText(d) != [] && DigitsText(d)[0] != PLUS && DigitsText(d)[0] != MINUS
  {
  }

  /** strtod reads every numeral as the number it stands for. */
  lemma StrtodReads(d: Decimal)
    requires Valid(d)
    ensures Strtod(Text(d)) == Numeral(|Text(d)|, Value(d))
  {
    hide Exponent, Strtod, Scaled, Mantissa, ScaleText, PowerOfTen, DigitsText, SignText, PartsOf;
    hide Stops, Whole, Fraction;
    var tail := ScaleText(d.scale);
    assert tail + [] == tail;
    ScaleStops(d.scale, []);
    DigitsFirst(d);
    StrtodSigned(d.sign, DigitsText(d) + tail);
    PartsFront(d, tail);
    ScaleFront(d.scale, []);
    SignedScaled(d.whole, d.fraction, d.sign, ScaleValue(d.scale));
  }

  lemma PartsIn(s: Bytes) returns (point: bool)
    ensures var p := PartsOf(s);
            && (!point ==> p.fraction == [])
            && s == p.whole + (PointText(point) + p.fraction) + p.tail
  {
    hide DigitRun;
    var p := PartsOf(s);
    var behind := s[|p.whole|..];
    point := behind != [] && behind[0] == POINT;
    assert behind == if point then [POINT] + (p.fraction + p.tail) else p.tail;
    Joined(s, p.whole, behind, PointText(point), p.fraction, p.tail);
  }

  lemma Joined(s: Bytes, whole: Bytes, behind: Bytes, point: Bytes, fraction: Bytes, tail: Bytes)
    requires whole <= s && behind == s[|whole|..] && behind == point + (fraction + tail)
    ensures s == whole + (point + fraction) + tail
  {
  }

  /** What strtod reads is a decimal. */
  lemma StrtodDecimal(w: Bytes) returns (d: Decimal)
    requires Strtod(w).Numeral?
    ensures Valid(d) && Text(d) == w[..Strtod(w).length] && Value(d) == Strtod(w).value
  {
    hide Exponent, Scaled, Mantissa, ScaleText, PowerOfTen, SignText, SignLength, SignOf, PartsOf, Whole, Fraction;
    hide ScaleValue;
    var s := w[SignLength(w)..];
    var p := PartsOf(s);
    var point := PartsIn(s);
    var scale := ScaleIn(p.tail);
    d := Decimal(SignOf(w), p.whole, point, p.fraction, scale);
    SignedScaled(d.whole, d.fraction, d.sign, ScaleValue(scale));
    Cut(w, SignText(d.sign), DigitsText(d), p.tail, Exponent(p.tail).0);
  }

  lemma Cut(w: Bytes, sign: Bytes, digits: Bytes, tail: Bytes, n: nat)
    requires w == sign + (digits + tail) && n <= |tail|
    ensures w[..|w| - |tail| + n] == sign + (digits + tail[..n])
  {
  }

  lemma PartsFurther(d: Decimal, rest: Bytes)
    requires Valid(d)
    ensures var p := PartsOf(DigitsText(d) + rest); p.whole + p.fraction != [] && |p.tail| <= |rest|
  {
    hide DigitRun;
    var behind := PointText(d.point) + (d.fraction + rest);
    assert DigitsText(d) + rest == d.whole + behind;
    RunExactly(d.whole, behind);
    RunExactly(d.fraction, rest);
    if d.point {
      assert behind[1..] == d.fraction + rest;
      assert (d.whole + behind)[|d.whole|..] == behind;
    }
  }

  /** And no longer part in front of the text is a decimal. */
  lemma StrtodLongest(d: Decimal, rest: Bytes)
    requires Valid(d)
    ensures var r := Strtod(Text(d) + rest); r.Numeral? && |Text(d)| <= r.length
  {
    hide Exponent, Strtod, Scaled, Mantissa, ScaleText, DigitsText, SignText, PartsOf, Stops;
    var tail := ScaleText(d.scale) + rest;
    var s := DigitsText(d) + tail;
    assert Text(d) + rest == SignText(d.sign) + s;
    DigitsFirst(d);
    StrtodSigned(d.sign, s);
    PartsFurther(d, tail);
    if d.scale.Scale? {
      ScaleStops(d.scale, rest);
      PartsFront(d, tail);
      ScaleFront(d.scale, rest);
    } else {
      NoScaleText();
    }
  }

  lemma NoScaleText()
    ensures ScaleText(NoScale) == []
  {
  }

  // ----- parse_number

  predicate AllNumberBytes(t: Bytes) {
    forall i :: 0 <= i < |t| ==> IsNumberByte(t[i])
  }

  lemma DecimalBytes(d: Decimal)
    requires Valid(d)
    ensures AllNumberBytes(Text(d)) && Text(d) != []
  {
    hide IsNumberByte;
    DigitBytes(d.whole);
    DigitBytes(d.fraction);
    SignBytes(d.sign);
    if d.scale.Scale? {
      DigitBytes(d.scale.digits);
      SignBytes(d.scale.sign);
    }
    MarkBytes();
  }

  lemma DigitBytes(t: Bytes)
    requires AllDigits(t)
    ensures AllNumberBytes(t)
  {
  }

  lemma SignBytes(sign: Sign)
    ensures AllNumberBytes(SignText(sign))
  {
  }

  lemma MarkBytes()
    ensures IsNumberByte(LOWER_E) && IsNumberByte(UPPER_E) && IsNumberByte(POINT)
  {
  }

  lemma {:induction false} InWindow(t: Bytes, s: Bytes, limit: nat)
    requires t <= s && |t| <= limit && AllNumberBytes(t)
    ensures t <= Window(s, limit)
  {
    if t != [] {
      InWindow(t[1..], s[1..], limit - 1);
      assert t == [t[0]] + t[1..];
    }
  }

  /** A decimal in front of the text that fits the buffer of parse_number. */
  ghost predicate InFront(d: Decimal, s: Bytes) {
    Valid(d) && |Text(d)| <= NUMBER_WINDOW && Text(d) <= s
  }

  ghost predicate Longest(d: Decimal, s: Bytes) {
    forall other :: InFront(other, s) ==> |Text(other)| <= |Text(d)|
  }

  lemma InFrontFound(d: Decimal, s: Bytes)
    requires InFront(d, s)
    ensures var r := Strtod(Window(s, NUMBER_WINDOW)); r.Numeral? && |Text(d)| <= r.length
  {
    hide Text, Strtod;
    DecimalBytes(d);
    InWindow(Text(d), s, NUMBER_WINDOW);
    var w := Window(s, NUMBER_WINDOW);
    StrtodLongest(d, w[|Text(d)|..]);
    assert Text(d) + w[|Text(d)|..] == w;
  }

  /** parse_number reads the longest decimal of at most 63 bytes in front of the text, as what it stands for. */
  lemma ParseNumberReads(s: Bytes) returns (d: Decimal)
    requires ParseNumber(s).Read?
    ensures InFront(d, s) && Longest(d, s) && ParseNumber(s) == Read(Value(d), s[|Text(d)|..])
  {
    hide Strtod, Text, Value, Valid;
    var w := Window(s, NUMBER_WINDOW);
    d := StrtodDecimal(w);
    forall other | InFront(other, s) ensures |Text(other)| <= |Text(d)| {
      InFrontFound(other, s);
    }
  }

  /** It fails exactly if there is none. */
  lemma ParseNumberFails(s: Bytes)
    ensures ParseNumber(s).Failed? <==> !exists d :: InFront(d, s)
  {
    if ParseNumber(s).Read? {
      var d := ParseNumberReads(s);
    }
    if d :| InFront(d, s) {
      InFrontFound(d, s);
    }
  }

  /** A decimal that fits the buffer is read whole, if no number byte follows. */
  lemma DecimalRead(d: Decimal, rest: Bytes)
    requires Valid(d) && |Text(d)| <= NUMBER_WINDOW && (rest == [] || !IsNumberByte(rest[0]))
    ensures ParseNumber(Text(d) + rest) == Read(Value(d), rest)
  {
    hide Strtod, Text, Value;
    DecimalBytes(d);
    WindowOf(Text(d), rest, NUMBER_WINDOW);
    StrtodReads(d);
    assert (Text(d) + rest)[|Text(d)|..] == rest;
  }

  // ----- print_number

  /** What is printed for an integer: its sign if it is negative, and its digits without a leading zero. */
  lemma {:induction false} IntTextIs(n: int)
    ensures var digits := NatText(if n < 0 then -n else n);
            && IntText(n) == SignText(if n < 0 then Negative else Unsigned) + digits
            && Whole(digits) == (if n < 0 then -n else n) && (|digits| > 1 ==> digits[0] != DIGIT_0)
  {
    var m := if n < 0 then -n else n;
    NatTextValue(m);
    DigitsWhole(NatText(m));
    NoLeadingZero(m);
    assert [] + NatText(m) == NatText(m);
  }

  lemma {:induction false} NoLeadingZero(n: nat)
    ensures NatText(n)[0] == DIGIT_0 ==> n == 0
  {
    if n >= 10 {
      NoLeadingZero(n / 10);
    }
  }
}
