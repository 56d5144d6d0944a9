/**
  Numbers as text. Values are exact: the rounding of strtod to a double is not modelled, and
  printing is spelled out for the integers that %1.15g writes with plain digits.
 */
module NumberText {
  import opened Bytes

  predicate IsDigit(c: byte) {
    DIGIT_0 <= c <= DIGIT_9
  }

  /** The bytes parse_number copies for strtod. */
  predicate IsNumberByte(c: byte) {
    IsDigit(c) || c == PLUS || c == MINUS || c == LOWER_E || c == UPPER_E || c == POINT
  }

  predicate AllDigits(s: Bytes) {
    forall i :: 0 <= i < |s| ==> IsDigit(s[i])
  }

  function Ten(e: nat): (r: nat)
    ensures r > 0
  {
    if e == 0 then 1 else 10 * Ten(e - 1)
  }

  // ----- reading

  /** The longest run of number bytes in front of `s`, cut off at `limit`. */
  function Window(s: Bytes, limit: nat): (w: Bytes)
    ensures w <= s && |w| <= limit
    ensures forall i :: 0 <= i < |w| ==> IsNumberByte(w[i])
  {
    if limit == 0 || s == [] || !IsNumberByte(s[0]) then []
    else
      var more := Window(s[1..], limit - 1);
      [s[0]] + more
  }

  /** The window grows as long as the next byte is a number byte and the limit is not reached. */
  lemma {:induction false} WindowGrows(s: Bytes, limit: nat, i: nat)
    requires i <= |Window(s, limit)|
    ensures i < |Window(s, limit)| <==> i < limit && i < |s| && IsNumberByte(s[i])
    ensures i < |Window(s, limit)| ==> Window(s, limit)[i] == s[i]
  {
    if i > 0 {
      WindowGrows(s[1..], limit - 1, i - 1);
    }
  }

  /** The digits that `s` starts with. */
  function DigitRun(s: Bytes): (d: Bytes)
    ensures d <= s && AllDigits(d)
    ensures |d| < |s| ==> !IsDigit(s[|d|])
  {
    if s == [] || !IsDigit(s[0]) then []
    else
      var more := DigitRun(s[1..]);
      [s[0]] + more
  }

  function DigitsValue(s: Bytes): nat
    requires AllDigits(s)
  {
    if s == [] then 0 else DigitsValue(s[..|s| - 1]) * 10 + (s[|s| - 1] - DIGIT_0)
  }

  /** mantissa * 10^exponent */
  function Scaled(mantissa: int, exponent: int): real {
    if exponent >= 0 then (mantissa * Ten(exponent)) as real
    else mantissa as real / Ten(-exponent) as real
  }

  function SignLength(s: Bytes): (n: nat)
    ensures n <= |s| && n <= 1
  {
    if s != [] && (s[0] == PLUS || s[0] == MINUS) then 1 else 0
  }

  /** The exponent part in front of `s`: its length (0 if there is none) and its value. */
  function Exponent(s: Bytes): (r: (nat, int))
    ensures r.0 <= |s|
  {
    if s == [] || (s[0] != LOWER_E && s[0] != UPPER_E) then (0, 0)
    else
      var sign := SignLength(s[1..]);
      var digits := DigitRun(s[1..][sign..]);
      if digits == [] then (0, 0)
      else
        var magnitude: int := DigitsValue(digits);
        (1 + sign + |digits|, if s[1] == MINUS then -magnitude else magnitude)
  }

  /** The integer made of the digits on both sides of the point. */
  function Mantissa(whole: Bytes, fraction: Bytes): nat
    requires AllDigits(whole) && AllDigits(fraction)
  {
    DigitsValue(whole) * Ten(|fraction|) + DigitsValue(fraction)
  }

  /** The digits in front of a point and behind it, and what follows. */
  datatype Parts = Parts(whole: Bytes, fraction: Bytes, tail: Bytes)

  function PartsOf(s: Bytes): (p: Parts)
    ensures AllDigits(p.whole) && AllDigits(p.fraction)
    ensures |p.whole| + |p.fraction| + |p.tail| <= |s|
  {
    var whole := DigitRun(s);
    var behind := s[|whole|..];
    if behind != [] && behind[0] == POINT then
      var fraction := DigitRun(behind[1..]);
      Parts(whole, fraction, behind[1..][|fraction|..])
    else Parts(whole, [], behind)
  }

  datatype Numeral = NoNumeral | Numeral(length: nat, value: real)

  /** strtod on a run of number bytes: the longest numeral in front, with its exact value. */
  function Strtod(w: Bytes): (r: Numeral)
    ensures r.Numeral? ==> 1 <= r.length <= |w|
  {
    var Parts(whole, fraction, tail) := PartsOf(w[SignLength(w)..]);
    if whole + fraction == [] then NoNumeral
    else
      var (length, exponent) := Exponent(tail);
      var m: int := Mantissa(whole, fraction);
      Numeral(|w| - |tail| + length, Scaled(if w[0] == MINUS then -m else m, exponent - |fraction|))
  }

  /** parse_number: number_c_string has room for 63 bytes. */
  const NUMBER_WINDOW: nat := 63

  function ParseNumber(s: Bytes): (r: Parsed<real>)
    ensures r.Read? ==> |r.rest| < |s|
  {
    match Strtod(Window(s, NUMBER_WINDOW))
    case NoNumeral => Failed
    case Numeral(length, value) => Read(value, s[length..])
  }

  // ----- writing

  function NatText(n: nat): (t: Bytes)
    ensures t != [] && AllDigits(t)
  {
    if n < 10 then [DIGIT_0 + n] else NatText(n / 10) + [DIGIT_0 + n % 10]
  }

  /** %1.15g of an integer below 10^15 in magnitude. */
  function IntText(n: int): (t: Bytes)
    ensures t != [] && (t[0] == MINUS || IsDigit(t[0]))
  {
    if n < 0 then [MINUS] + NatText(-n) else NatText(n)
  }

  lemma {:induction false} NatTextLength(n: nat, k: nat)
    requires 0 < k && n < Ten(k)
    ensures |NatText(n)| <= k
  {
    if n >= 10 {
      NatTextLength(n / 10, k - 1);
    }
  }

  lemma {:induction false} NatTextValue(n: nat)
    ensures DigitsValue(NatText(n)) == n
  {
    if n >= 10 {
      NatTextValue(n / 10);
      var t := NatText(n);
      assert t[..|t| - 1] == NatText(n / 10);
    } else {
      assert DigitsValue([]) == 0;
    }
  }

  lemma {:induction false} DigitRunWhole(s: Bytes)
    requires AllDigits(s)
    ensures DigitRun(s) == s
  {
    if s != [] {
      DigitRunWhole(s[1..]);
    }
  }

  lemma StrtodInteger(n: int)
    ensures Strtod(IntText(n)) == Numeral(|IntText(n)|, n as real)
  {
    hide NatText, DigitsValue, DigitRun;
    var m := if n < 0 then -n else n;
    var digits := NatText(m);
    assert IntText(n)[SignLength(IntText(n))..] == digits;
    DigitRunWhole(digits);
    NatTextValue(m);
    assert digits[|digits|..] == [] && digits + [] == digits;
    NoFraction();
  }

  lemma NoFraction()
    ensures DigitsValue([]) == 0 && Ten(0) == 1
  {
  }

  lemma {:induction false} WindowOf(t: Bytes, rest: Bytes, limit: nat)
    requires |t| <= limit && forall i :: 0 <= i < |t| ==> IsNumberByte(t[i])
    requires rest == [] || !IsNumberByte(rest[0])
    ensures Window(t + rest, limit) == t
  {
    if t == [] {
      assert t + rest == rest;
    } else {
      assert (t + rest)[1..] == t[1..] + rest;
      WindowOf(t[1..], rest, limit - 1);
    }
  }

  /** Reading a printed integer gives it back, if no number byte follows. */
  lemma NumberRoundTrip(n: int, rest: Bytes)
    requires -1_000_000_000_000_000 < n < 1_000_000_000_000_000
    requires rest == [] || !IsNumberByte(rest[0])
    ensures ParseNumber(IntText(n) + rest) == Read(n as real, rest)
    ensures |IntText(n)| <= 16
  {
    TenFifteen();
    NatTextLength(if n < 0 then -n else n, 15);
    WindowOf(IntText(n), rest, NUMBER_WINDOW);
    StrtodInteger(n);
    assert (IntText(n) + rest)[|IntText(n)|..] == rest;
  }

  lemma TenFifteen()
    ensures Ten(15) == 1_000_000_000_000_000
  {
    assert Ten(3) == 1_000;
    assert Ten(6) == 1_000_000;
    assert Ten(9) == 1_000_000_000;
    assert Ten(12) == 1_000_000_000_000;
  }
}
