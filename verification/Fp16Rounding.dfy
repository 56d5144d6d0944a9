/**
  The conversion to binary16 against the requirements of IEEE 754-2008: the result is the best
  binary16 number the mode allows, overflow happens exactly beyond the thresholds, the
  conversion is monotone, and widening is undone by narrowing.
 */
module Fp16Rounding {
  import opened Arithmetic
  import opened Fp16

  /** How large the step between binary16 numbers is at exponent field `e` of binary32. */
  function Step(e: nat): (u: nat)
    ensures u > 0
  {
    Power2(e + 12)
  }

  lemma Power2Grows(a: nat, b: nat)
    requires a <= b
    ensures Power2(a) <= Power2(b)
    ensures a < b ==> 2 * Power2(a) <= Power2(b)
    decreases b
  {
    if a < b {
      Power2Grows(a, b - 1);
    }
  }

  lemma StepIs(e: nat)
    requires e >= 1
    ensures Step(e) == 0x2000 * Power2(e - 1)
  {
    Power2Sum(13, e - 1);
    assert Power2(4) == 16;
    assert Power2(8) == 256;
    assert Power2(13) == 0x2000;
  }

  /** Every binary16 magnitude that is large enough lies on the grid of the step. */
  lemma Grid(h: word16, e: nat) returns (k: nat)
    requires Finite16(h) && e >= 113 && Magnitude16(h) >= 0x400 * Step(e)
    ensures Magnitude16(h) == k * Step(e)
  {
    var e', f := h / 0x400 % 0x20, h % 0x400;
    if e' == 0 {
      Power2Grows(125, e + 12);
      Smaller(f, Power2(125), 0x400, Step(e));
      assert false;
    } else if e' + 124 < e + 12 {
      Power2Grows(e' + 124, e + 12);
      Smaller2(0x400 + f, Power2(e' + 124), 0x400, Step(e));
      assert false;
    } else {
      var n := e' + 124 - (e + 12);
      Power2Sum(n, e + 12);
      k := (0x400 + f) * Power2(n);
      Regroup(0x400 + f, Power2(n), Step(e));
    }
  }

  lemma Smaller(a: nat, p: nat, b: nat, q: nat)
    requires a < b && 0 < p <= q
    ensures a * p < b * q
  {
    Scale(a, b - 1, p);
    Scale2(b - 1, p, q);
    Distribute(b - 1, 1, q);
  }

  lemma Smaller2(a: nat, p: nat, b: nat, q: nat)
    requires a < 2 * b && 0 < 2 * p <= q
    ensures a * p < b * q
  {
    Smaller(a, p, 2 * b, p);
    Regroup(2, b, p);
    Regroup(b, 2, p);
    Scale2(b, 2 * p, q);
  }

  lemma Scale(a: int, b: int, p: nat)
    requires a <= b
    ensures a * p <= b * p
  {
    Distribute(b, -a, p);
  }

  lemma Scale2(b: nat, p: int, q: int)
    requires p <= q
    ensures b * p <= b * q
  {
    assert b * (q - p) >= 0;
    assert b * (q - p) == b * q - b * p;
  }

  function Abs(a: int): nat {
    if a < 0 then -a else a
  }

  lemma OrderScales(a: int, b: int, p: nat)
    requires p > 0
    ensures a <= b <==> a * p <= b * p
    ensures a == b <==> a * p == b * p
  {
    if a < b {
      Scale(a, b - 1, p);
      Distribute(b - 1, 1, p);
    } else if b < a {
      Scale(b, a - 1, p);
      Distribute(a - 1, 1, p);
    }
  }

  /** A significand rounded by the rule, and the value with it. */
  lemma ScaledRounding(f: nat, d: int, p: nat, g: nat, mode: Mode, s: nat)
    requires IsRounded(f, d, g, mode, s) && p > 0
    ensures IsRounded(f * p, d * p, g, mode, s)
  {
    var rest := f - g * d;
    Regroup(g, d, p);
    Distribute(f, -(g * d), p);
    Negated(g * d, p);
    Negated(d, p);
    assert rest * p == f * p - g * (d * p);
    ScaledRest(rest, d, p, g, mode, s);
  }

  lemma Negated(a: int, p: int)
    ensures (-a) * p == -(a * p)
  {
  }

  lemma ScaledRest(rest: int, d: int, p: nat, g: int, mode: Mode, s: nat)
    requires p > 0 && IsRounded(rest + g * d, d, g, mode, s)
    ensures IsRounded(rest * p + g * (d * p), d * p, g, mode, s)
  {
    Regroup(2, rest, p);
    Negated(d, p);
    OrderScales(2 * rest, d, p);
    OrderScales(-d, 2 * rest, p);
    OrderScales(d, rest, p);
    OrderScales(rest, -d, p);
    OrderScales(rest, 0, p);
    OrderScales(0, rest, p);
  }

  /** A correctly rounded number is the best on its grid, and nothing below the grid is better. */
  lemma BestOnGrid(v: nat, u: nat, g: nat, k: nat, w: nat, mode: Mode, s: nat)
    requires u > 0 && IsRounded(v, u, g, mode, s) && v >= 0x400 * u && g >= 0x400
    requires w == k * u || (w < k * u && k == 0x400)
    ensures mode == NearestEven ==>
      Abs(v - g * u) <= Abs(v - w) && (w != g * u && Abs(v - g * u) == Abs(v - w) ==> g % 2 == 0)
    ensures mode != NearestEven && !Away(mode, s) ==> g * u <= v && (w <= v ==> w <= g * u)
    ensures Away(mode, s) ==> g * u >= v && (w >= v ==> w >= g * u)
  {
    if k > g {
      Scale(g + 1, k, u);
      Distribute(g, 1, u);
    } else if k < g {
      Scale(k + 1, g, u);
      Distribute(k, 1, u);
    }
  }

  // ----- the result for the numbers that are not below the normal halves

  /** The packed magnitude stands for the rounded multiple of the step. */
  lemma PackedValue(s: nat, e: nat, g: nat, mode: Mode)
    requires s < 2 && 113 <= e && 0x400 <= g <= 0x800 && !Overflowed(e, g)
    ensures Packed(e, g, mode, s) < F16_INFINITY && Packed(e, g, mode, s) % 2 == g % 2
    ensures Magnitude16(s * 0x8000 + Packed(e, g, mode, s)) == g * Step(e)
  {
    var h := s * 0x8000 + Packed(e, g, mode, s);
    if g == 0x800 {
      assert h / 0x400 % 0x20 == e - 111 && h % 0x400 == 0;
      assert Step(e + 1) == 2 * Step(e);
      Regroup(0x400, 2, Step(e));
    } else {
      assert h / 0x400 % 0x20 == e - 112 && h % 0x400 == g - 0x400;
    }
  }

  /** `a` is as good a result for `v` as `b`; `even` says that the significand of `a` is even. */
  predicate AsGood(v: int, a: int, b: int, even: bool, mode: Mode) {
    match mode
    case NearestEven => Abs(v - a) <= Abs(v - b) && (b != a && Abs(v - a) == Abs(v - b) ==> even)
    case ToZero => Abs(a) <= Abs(v) && (Abs(b) <= Abs(v) ==> Abs(b) <= Abs(a))
    case PlusInf => a >= v && (b >= v ==> b >= a)
    case MinusInf => a <= v && (b <= v ==> b <= a)
  }

  /** The result is the best the mode allows among all finite binary16 numbers (section 4.3 of IEEE 754-2008). */
  ghost predicate Best(v: int, h: word16, mode: Mode) {
    forall k: word16 :: Finite16(k) ==> AsGood(v, Value16(h), Value16(k), h % 2 == 0, mode)
  }

  function Sign32(x: word32): nat {
    x / 0x8000_0000
  }

  function Magnitude32(x: word32): nat {
    Size32(Exponent32(x), x % 0x80_0000)
  }

  /** Everything the rounding of a number gives that its magnitude decides. */
  lemma RoundedMagnitude(x: word32, mode: Mode)
    requires 113 <= Exponent32(x) < 0xFF
    ensures var u, g := Step(Exponent32(x)), Significand(x, mode);
            Magnitude32(x) >= 0x400 * u && IsRounded(Magnitude32(x), u, g, mode, Sign32(x))
  {
    var e, f := Exponent32(x), 0x80_0000 + x % 0x80_0000;
    RoundedIsCorrect(f, 0x1000, mode, Sign32(x));
    StepIs(e);
    ScaledRounding(f, 0x2000, Power2(e - 1), Significand(x, mode), mode, Sign32(x));
    Regroup(0x400, 0x2000, Power2(e - 1));
    Scale(0x80_0000, f, Power2(e - 1));
  }

  /** The comparison with one other binary16 number. */
  lemma BetterThan(x: word32, mode: Mode, k: word16)
    requires 113 <= Exponent32(x) < 0xFF && Finite16(k)
    ensures var v, w, m, s := Magnitude32(x), Magnitude16(k), Significand(x, mode) * Step(Exponent32(x)), Sign32(x);
            && (mode == NearestEven ==>
                  Abs(v - m) <= Abs(v - w) && (w != m && Abs(v - m) == Abs(v - w) ==> Significand(x, mode) % 2 == 0))
            && (mode != NearestEven && !Away(mode, s) ==> m <= v && (w <= v ==> w <= m))
            && (Away(mode, s) ==> m >= v && (w >= v ==> w >= m))
            && (mode == NearestEven ==> Abs(v - m) < v)
  {
    hide IsRounded, Significand, Magnitude32, Magnitude16, Step, Exponent32;
    var e := Exponent32(x);
    RoundedMagnitude(x, mode);
    var v, w, u, g := Magnitude32(x), Magnitude16(k), Step(e), Significand(x, mode);
    var n := 0x400;
    if w >= 0x400 * u {
      n := Grid(k, e);
    }
    BestOnGrid(v, u, g, n, w, mode, Sign32(x));
    NearestIsClose(v, u, g, mode, Sign32(x));
  }

  lemma NearestIsClose(v: nat, u: nat, g: nat, mode: Mode, s: nat)
    requires IsRounded(v, u, g, mode, s) && u > 0 && v >= 0x400 * u
    ensures mode == NearestEven ==> Abs(v - g * u) < v
  {
  }

  /** From magnitudes to signed values. */
  lemma SignedGood(v: nat, m: nat, w: nat, s: nat, t: nat, even: bool, mode: Mode)
    requires s < 2 && t < 2
    requires mode == NearestEven ==>
      Abs(v - m) < v && Abs(v - m) <= Abs(v - w) && (w != m && Abs(v - m) == Abs(v - w) ==> even)
    requires mode != NearestEven && !Away(mode, s) ==> m <= v && (w <= v ==> w <= m)
    requires Away(mode, s) ==> m >= v && (w >= v ==> w >= m)
    ensures AsGood(Signed(s, v), Signed(s, m), Signed(t, w), even, mode)
  {
  }

  /** The parts of the result, and the values on both sides. */
  lemma NarrowParts(x: word32, mode: Mode)
    requires 113 <= Exponent32(x) < 0xFF && !Overflowed(Exponent32(x), Significand(x, mode))
    ensures var h, g := Narrow(x, mode), Significand(x, mode);
            && Finite16(h) && h / 0x8000 == Sign32(x) && h % 2 == g % 2
            && Magnitude16(h) == g * Step(Exponent32(x)) && Value16(h) == Signed(Sign32(x), Magnitude16(h))
    ensures Value32(x) == Signed(Sign32(x), Magnitude32(x))
    ensures Magnitude32(x) == (0x80_0000 + x % 0x80_0000) * Power2(Exponent32(x) - 1)
  {
    hide Significand, Packed, Overflowed, Magnitude16, Power2, Step, Signed, Narrow, Exponent32, Value16;
    var s, e, g := Sign32(x), Exponent32(x), Significand(x, mode);
    NarrowPacked(x, mode);
    PackedValue(s, e, g, mode);
    HalfParts(s, Packed(e, g, mode, s));
    ValueParts(Narrow(x, mode));
    Value32Parts(x);
  }

  lemma NarrowPacked(x: word32, mode: Mode)
    requires 113 <= Exponent32(x) < 0xFF
    ensures Narrow(x, mode) == Sign32(x) * 0x8000 + Packed(Exponent32(x), Significand(x, mode), mode, Sign32(x))
  {
    hide Significand, Packed;
  }

  lemma HalfParts(s: nat, magnitude: nat)
    requires magnitude < 0x8000
    ensures var h := s * 0x8000 + magnitude; h / 0x8000 == s && h % 0x8000 == magnitude && h % 2 == magnitude % 2
  {
  }

  lemma Value32Parts(x: word32)
    requires Exponent32(x) > 0
    ensures Value32(x) == Signed(Sign32(x), Magnitude32(x))
    ensures Magnitude32(x) == (0x80_0000 + x % 0x80_0000) * Power2(Exponent32(x) - 1)
  {
    hide Power2, Signed;
  }

  lemma NarrowIsBest(x: word32, mode: Mode)
    requires 113 <= Exponent32(x) < 0xFF && !Overflowed(Exponent32(x), Significand(x, mode))
    ensures var h := Narrow(x, mode); Finite16(h) && h / 0x8000 == Sign32(x) && Best(Value32(x), h, mode)
  {
    hide Significand, Magnitude16, Magnitude32, Step, Narrow, Overflowed, AsGood, Signed;
    hide Value16, Value32, Exponent32;
    var s, e, g := Sign32(x), Exponent32(x), Significand(x, mode);
    var h := Narrow(x, mode);
    NarrowParts(x, mode);
    forall k: word16 | Finite16(k) ensures AsGood(Value32(x), Value16(h), Value16(k), h % 2 == 0, mode) {
      BetterThan(x, mode, k);
      SignedGood(Magnitude32(x), g * Step(e), Magnitude16(k), s, k / 0x8000, g % 2 == 0, mode);
      ValueParts(k);
    }
  }

  lemma ValueParts(h: word16)
    ensures Value16(h) == Signed(h / 0x8000, Magnitude16(h))
  {
  }

  // ----- overflow

  /** The magnitudes that round to 2^16 or more, were there room for it. */
  predicate TooLarge(v: nat, mode: Mode, s: nat) {
    if mode == NearestEven then v >= 0xFFF * Power2(153)
    else if Away(mode, s) then v > 0x7FF * Power2(154)
    else v >= Power2(165)
  }

  lemma PowersAt(e: nat)
    ensures Power2(e + 12) == 0x1000 * Power2(e) && Power2(e + 13) == 0x2000 * Power2(e)
    ensures Power2(e + 23) == 0x80_0000 * Power2(e) && Power2(e + 24) == 0x100_0000 * Power2(e)
  {
    Sixteen(e);
    Sixteen(e + 4);
    Sixteen(e + 8);
    Sixteen(e + 12);
    Sixteen(e + 16);
    Sixteen(e + 20);
    assert Power2(e + 13) == 2 * Power2(e + 12);
    assert Power2(e + 24) == 2 * Power2(e + 23);
  }

  lemma Sixteen(e: nat)
    ensures Power2(e + 4) == 16 * Power2(e)
  {
    assert Power2(e + 2) == 2 * Power2(e + 1) == 4 * Power2(e);
    assert Power2(e + 4) == 2 * Power2(e + 3) == 4 * Power2(e + 2);
  }

  /** The binade of a number whose exponent field is not 0. */
  lemma Binade(e: nat, f: nat)
    requires e >= 1 && f < 0x80_0000
    ensures Power2(e + 22) <= Size32(e, f) < Power2(e + 23)
  {
    PowersAt(e - 1);
    Scale(0x80_0000, 0x80_0000 + f, Power2(e - 1));
    Ordered(0x80_0000 + f, 0x100_0000, Power2(e - 1));
  }

  /** In the top binade, the significands that are rounded up out of it. */
  lemma CarryExactly(f: nat, mode: Mode, s: nat)
    requires 0x80_0000 <= f < 0x100_0000
    ensures Rounded(f, 0x1000, mode, s) == 0x800 <==>
      (mode == NearestEven && f >= 0xFFF * 0x1000) || (Away(mode, s) && f > 0x7FF * 0x2000)
  {
  }

  lemma OverflowedExactly(x: word32, mode: Mode)
    requires 113 <= Exponent32(x) < 0xFF
    ensures Overflowed(Exponent32(x), Significand(x, mode)) <==> TooLarge(Magnitude32(x), mode, Sign32(x))
  {
    hide Rounded, Power2, Size32, RoundsUp;
    var e, f := Exponent32(x), x % 0x80_0000;
    Binade(e, f);
    CarryExactly(0x80_0000 + f, mode, Sign32(x));
    if e == 142 {
      TopBinade(f, mode, Sign32(x));
    } else if e > 142 {
      Power2Grows(165, e + 22);
      Thresholds();
    } else {
      Power2Grows(e + 23, 164);
      Thresholds();
    }
  }

  /** All thresholds lie in the top binade. */
  lemma Thresholds()
    ensures Power2(164) < 0xFFF * Power2(153) < Power2(165) && Power2(164) <= 0x7FF * Power2(154) < Power2(165)
  {
    PowersAt(141);
    PowersAt(140);
    assert Power2(141) == 2 * Power2(140);
  }

  lemma TopBinade(f: nat, mode: Mode, s: nat)
    requires f < 0x80_0000
    ensures TooLarge(Size32(142, f), mode, s) <==>
      (mode == NearestEven && 0x80_0000 + f >= 0xFFF * 0x1000) || (Away(mode, s) && 0x80_0000 + f > 0x7FF * 0x2000)
  {
    hide Power2;
    PowersAt(141);
    var p := Power2(141);
    Regroup(0xFFF, 0x1000, p);
    Regroup(0x7FF, 0x2000, p);
    OrderScales(0xFFF * 0x1000, 0x80_0000 + f, p);
    OrderScales(0x80_0000 + f, 0x7FF * 0x2000, p);
    OrderScales(0x100_0000, 0x80_0000 + f, p);
  }

  lemma NormalExactly(x: word32)
    requires Finite32(x)
    ensures Abs(Value32(x)) == Magnitude32(x)
    ensures Exponent32(x) < 0xFF && (Exponent32(x) >= 113 <==> Magnitude32(x) >= Power2(135))
  {
    hide Power2, Size32;
    var e, f := Exponent32(x), x % 0x80_0000;
    if e >= 113 {
      Binade(e, f);
      Power2Grows(135, e + 22);
    } else if e >= 1 {
      Binade(e, f);
      Power2Grows(e + 23, 135);
    } else {
      SubnormalSmall(f);
    }
  }

  lemma SubnormalSmall(f: nat)
    requires f < 0x80_0000
    ensures Size32(0, f) < Power2(135)
  {
    PowersAt(0);
    Power2Grows(23, 135);
  }

  lemma Ordered(a: int, b: int, p: nat)
    requires a < b && p > 0
    ensures a * p < b * p
  {
    OrderScales(b, a, p);
  }

  /**
    f32_to_f16 on every finite number of magnitude 2^-14 or more, in every mode: the overflow
    result exactly beyond the thresholds, and otherwise the best finite binary16 number.
   */
  lemma NarrowIsCorrect(x: word32, mode: Mode)
    requires Finite32(x) && Abs(Value32(x)) >= Power2(135)
    ensures var h := Narrow(x, mode);
            && h / 0x8000 == Sign32(x)
            && (if TooLarge(Abs(Value32(x)), mode, Sign32(x)) then h % 0x8000 == OverflowMagnitude(mode, Sign32(x))
                else Finite16(h) && Best(Value32(x), h, mode))
  {
    hide Best, TooLarge, Significand, Magnitude32;
    NormalExactly(x);
    OverflowedExactly(x, mode);
    if !Overflowed(Exponent32(x), Significand(x, mode)) {
      NarrowIsBest(x, mode);
    }
  }

  /** Smaller numbers are flushed to zero of their sign. */
  lemma NarrowFlushes(x: word32, mode: Mode)
    requires Finite32(x) && Abs(Value32(x)) < Power2(135)
    ensures Narrow(x, mode) == Sign32(x) * 0x8000
  {
    hide Significand, Magnitude32;
    NormalExactly(x);
  }

  // ----- monotony

  /** The place of a pattern in the order of the numbers; the infinities are at the ends. */
  function Rank16(h: word16): int {
    Signed(h / 0x8000, h % 0x8000)
  }

  /** The magnitude pattern of the conversion as one rounding of the whole magnitude pattern. */
  function NarrowMagnitude(m: nat, mode: Mode, s: nat): nat {
    if m < 113 * 0x80_0000 then 0
    else
      var r := Rounded(m - 112 * 0x80_0000, 0x1000, mode, s);
      if r >= F16_INFINITY then OverflowMagnitude(mode, s) else r
  }

  /** A carry out of the significand moves on to the exponent. */
  lemma NarrowAtOnce(x: word32, mode: Mode)
    requires Finite32(x)
    ensures Narrow(x, mode) == Sign32(x) * 0x8000 + NarrowMagnitude(x % 0x8000_0000, mode, Sign32(x))
  {
    hide Rounded;
    var e, f, m := Exponent32(x), x % 0x80_0000, x % 0x8000_0000;
    assert m == e * 0x80_0000 + f;
    if e >= 113 {
      RoundedShifted(0x80_0000 + f, (e - 113) * 0x200, mode, Sign32(x));
      assert m - 112 * 0x80_0000 == 0x80_0000 + f + (e - 113) * 0x200 * 0x4000;
    }
  }

  lemma RoundedShifted(f: nat, c: nat, mode: Mode, s: nat)
    ensures Rounded(f + c * 0x4000, 0x1000, mode, s) == Rounded(f, 0x1000, mode, s) + 2 * c
  {
    hide RoundsUp, Quotient;
    QuotientsShifted(f, c);
  }

  lemma QuotientsShifted(f: nat, c: nat)
    ensures var g := f + c * 0x4000;
            && Quotient(g, 0x2000) == Quotient(f, 0x2000) + 2 * c && Quotient(g, 0x2000) % 2 == Quotient(f, 0x2000) % 2
            && Quotient(g, 0x1000) % 2 == Quotient(f, 0x1000) % 2 && g % 0x1000 == f % 0x1000
  {
    assert Quotient(f + c * 0x4000, 0x1000) == Quotient(f, 0x1000) + 4 * c;
  }

  lemma RoundedMonotone(f: nat, g: nat, mode: Mode, s: nat)
    requires f <= g
    ensures Rounded(f, 0x1000, mode, s) <= Rounded(g, 0x1000, mode, s)
  {
    hide Quotient;
    QuotientsOrdered(f, g);
  }

  /** With the same quotient, the larger number has the larger round bit, or the same and the larger rest. */
  lemma QuotientsOrdered(f: nat, g: nat)
    requires f <= g
    ensures Quotient(f, 0x2000) <= Quotient(g, 0x2000)
    ensures Quotient(f, 0x2000) == Quotient(g, 0x2000) ==>
      var a, b := Quotient(f, 0x1000) % 2, Quotient(g, 0x1000) % 2;
      a < b || (a == b && f % 0x1000 <= g % 0x1000)
  {
    var q, t := Quotient(f, 0x1000), Quotient(g, 0x1000);
    assert f == q * 0x1000 + f % 0x1000 && g == t * 0x1000 + g % 0x1000;
    assert Quotient(f, 0x2000) == q / 2 && Quotient(g, 0x2000) == t / 2;
  }

  lemma NarrowMagnitudeMonotone(m: nat, n: nat, mode: Mode, s: nat)
    requires m <= n
    ensures NarrowMagnitude(m, mode, s) <= NarrowMagnitude(n, mode, s)
  {
    hide Rounded;
    if m >= 113 * 0x80_0000 {
      RoundedMonotone(m - 112 * 0x80_0000, n - 112 * 0x80_0000, mode, s);
    }
  }

  /** Values are ordered like patterns. */
  lemma PatternOrder(m: nat, n: nat)
    requires m < n < F32_INFINITY
    ensures Size32(m / 0x80_0000, m % 0x80_0000) < Size32(n / 0x80_0000, n % 0x80_0000)
  {
    hide Power2;
    var e, f, e', f' := m / 0x80_0000, m % 0x80_0000, n / 0x80_0000, n % 0x80_0000;
    if e == e' {
      if e > 0 {
        Ordered(0x80_0000 + f, 0x80_0000 + f', Power2(e - 1));
      }
    } else {
      Binade(e', f');
      if e == 0 {
        PowersAt(0);
        Power2Grows(23, e' + 22);
        PowerZero();
      } else {
        Binade(e, f);
        Power2Grows(e + 23, e' + 22);
      }
    }
  }

  lemma PowerZero()
    ensures Power2(0) == 1
  {
  }

  lemma RankParts(x: word32, mode: Mode)
    requires Finite32(x)
    ensures Rank16(Narrow(x, mode)) == Signed(Sign32(x), NarrowMagnitude(x % 0x8000_0000, mode, Sign32(x)))
    ensures var m := x % 0x8000_0000;
            Value32(x) == Signed(Sign32(x), Size32(m / 0x80_0000, m % 0x80_0000)) && m < F32_INFINITY && Sign32(x) < 2
  {
    hide Rounded, Narrow, Size32;
    NarrowAtOnce(x, mode);
  }

  /** The conversion is monotone over all pairs of finite numbers, in every mode. */
  lemma NarrowMonotone(x: word32, y: word32, mode: Mode)
    requires Finite32(x) && Finite32(y) && Value32(x) <= Value32(y)
    ensures Rank16(Narrow(x, mode)) <= Rank16(Narrow(y, mode))
  {
    hide NarrowMagnitude, Narrow, Value32, Rank16, Size32;
    RankParts(x, mode);
    RankParts(y, mode);
    var m, n, s, t := x % 0x8000_0000, y % 0x8000_0000, Sign32(x), Sign32(y);
    if s == 0 && t == 0 {
      if n < m {
        PatternOrder(n, m);
      }
      NarrowMagnitudeMonotone(m, n, mode, 0);
    } else if s == 1 && t == 1 {
      if m < n {
        PatternOrder(m, n);
      }
      NarrowMagnitudeMonotone(n, m, mode, 1);
    } else if s == 0 {
      OnlyZeroIsZero(m);
      OnlyZeroIsZero(n);
      ZeroStays(mode);
    }
  }

  lemma OnlyZeroIsZero(m: nat)
    requires m < F32_INFINITY
    ensures Size32(m / 0x80_0000, m % 0x80_0000) == 0 ==> m == 0
  {
    if m > 0 {
      PatternOrder(0, m);
    }
  }

  lemma ZeroStays(mode: Mode)
    ensures NarrowMagnitude(0, mode, 0) == NarrowMagnitude(0, mode, 1) == 0
  {
  }

  /** The order of the patterns is the order of the values of finite binary16 numbers. */
  lemma RankIsOrder(h: word16, k: word16)
    requires Finite16(h) && Finite16(k)
    ensures Rank16(h) <= Rank16(k) <==> Value16(h) <= Value16(k)
  {
    hide Size16, Power2;
    var m, n := h % 0x8000, k % 0x8000;
    Pattern16(h);
    Pattern16(k);
    if m < n {
      Order16(m, n);
    } else if n < m {
      Order16(n, m);
    }
    if m > 0 {
      Order16(0, m);
    }
    if n > 0 {
      Order16(0, n);
    }
    ZeroSizes();
  }

  lemma Pattern16(h: word16)
    ensures Value16(h) == Signed(h / 0x8000, Size16(h % 0x8000 / 0x400, h % 0x8000 % 0x400))
  {
    hide Size16;
    assert h % 0x8000 / 0x400 == h / 0x400 % 0x20 && h % 0x8000 % 0x400 == h % 0x400;
  }

  lemma Order16(m: nat, n: nat)
    requires m < n < F16_INFINITY
    ensures Size16(m / 0x400, m % 0x400) < Size16(n / 0x400, n % 0x400)
  {
    hide Power2;
    var e, f, e', f' := m / 0x400, m % 0x400, n / 0x400, n % 0x400;
    if e == e' {
      var (hidden, k) := if e == 0 then (0, 125) else (0x400, e + 124);
      Ordered(hidden + f, hidden + f', Power2(k));
    } else {
      Power2Grows(if e == 0 then 125 else e + 125, e' + 124);
      Binade16(e, f);
      Binade16(e', f');
    }
  }

  lemma Binade16(e: nat, f: nat)
    requires f < 0x400
    ensures e > 0 ==> 0x400 * Power2(e + 124) <= Size16(e, f) < 0x400 * Power2(e + 125)
    ensures e == 0 ==> Size16(e, f) < 0x400 * Power2(125)
  {
    if e == 0 {
      Ordered(f, 0x400, Power2(125));
    } else {
      Scale(0x400, 0x400 + f, Power2(e + 124));
      Ordered(0x400 + f, 0x800, Power2(e + 124));
    }
  }

  // ----- narrowing undoes widening

  lemma WidenedFields(h: word16)
    requires 0 < h / 0x400 % 0x20 < 0x1F
    ensures var x, e, f := Widen(h), h / 0x400 % 0x20, h % 0x400;
            Exponent32(x) == e + 112 && x % 0x80_0000 == f * 0x2000 && Sign32(x) == h / 0x8000 && Finite32(x)
  {
    hide ShiftLeft;
    ShiftBy13(h % 0x400);
    var s, e, f := h / 0x8000, h / 0x400 % 0x20, h % 0x400;
    assert Widen(h) == (s * 0x100 + e + 112) * 0x80_0000 + f * 0x2000;
  }

  /** A significand with nothing below the last bit stays what it is. */
  lemma RoundedExactly(f: nat, mode: Mode, s: nat)
    requires f < 0x400
    ensures Rounded(0x80_0000 + f * 0x2000, 0x1000, mode, s) == 0x400 + f
  {
    var g := 0x80_0000 + f * 0x2000;
    assert Quotient(g, 0x2000) == 0x400 + f && Quotient(g, 0x1000) == 0x800 + 2 * f && g % 0x1000 == 0;
  }

  lemma NarrowWidenNormal(h: word16, mode: Mode)
    requires 0 < h / 0x400 % 0x20 < 0x1F
    ensures Narrow(Widen(h), mode) == h
  {
    hide Widen, Rounded, Packed;
    var s, e, f := h / 0x8000, h / 0x400 % 0x20, h % 0x400;
    WidenedFields(h);
    RoundedExactly(f, mode, s);
    PackedExactly(e, f, mode, s);
    assert h == s * 0x8000 + (e * 0x400 + f);
  }

  lemma PackedExactly(e: nat, f: nat, mode: Mode, s: nat)
    requires 0 < e < 0x1F && f < 0x400
    ensures Packed(e + 112, 0x400 + f, mode, s) == e * 0x400 + f
  {
  }

  lemma WidenKeepsValue(h: word16)
    requires 0 < h / 0x400 % 0x20 < 0x1F
    ensures Value32(Widen(h)) == Value16(h)
  {
    hide Widen, Power2;
    var e, f := h / 0x400 % 0x20, h % 0x400;
    WidenedFields(h);
    StepIs(e + 112);
    Regroup(0x400 + f, 0x2000, Power2(e + 111));
  }

  /** Normal numbers, zeros and infinities survive the way there and back, in every mode; so do their values. */
  lemma NarrowWiden(h: word16, mode: Mode)
    requires var e := h / 0x400 % 0x20; (0 < e < 0x1F) || h % 0x400 == 0
    ensures Narrow(Widen(h), mode) == h
    ensures Finite16(h) ==> Finite32(Widen(h)) && Value32(Widen(h)) == Value16(h)
  {
    hide Widen, Narrow, Value32, Value16;
    if 0 < h / 0x400 % 0x20 < 0x1F {
      NarrowWidenNormal(h, mode);
      WidenKeepsValue(h);
      WidenedFields(h);
    } else {
      NarrowWidenSpecial(h, mode);
    }
  }

  lemma NarrowWidenSpecial(h: word16, mode: Mode)
    requires h / 0x400 % 0x20 == 0 || h / 0x400 % 0x20 == 0x1F
    requires h % 0x400 == 0
    ensures Narrow(Widen(h), mode) == h
    ensures Finite16(h) ==> Finite32(Widen(h)) && Value32(Widen(h)) == Value16(h)
  {
    hide Significand, Packed, Size32, Size16;
    SpecialFields(h);
    ZeroSizes();
  }

  lemma SpecialFields(h: word16)
    requires h / 0x400 % 0x20 == 0 || h / 0x400 % 0x20 == 0x1F
    requires h % 0x400 == 0
    ensures var x := Widen(h);
            && Sign32(x) == h / 0x8000 && x % 0x80_0000 == 0
            && Exponent32(x) == (if h / 0x400 % 0x20 == 0 then 0 else 0xFF)
            && (Finite16(h) ==> Finite32(x) && h / 0x400 % 0x20 == 0)
  {
    hide ShiftLeft;
  }

  lemma ZeroSizes()
    ensures Size32(0, 0) == 0 && Size16(0, 0) == 0
  {
  }

  // ----- exactness, flushed numbers and special values

  lemma RoundedIsExact(f: nat, mode: Mode, s: nat)
    ensures f == Rounded(f, 0x1000, mode, s) * 0x2000 <==> f % 0x2000 == 0
  {
    var q := Quotient(f, 0x2000);
    assert f == q * 0x2000 + f % 0x2000;
    if f % 0x2000 == 0 {
      assert Quotient(f, 0x1000) == 2 * q && f % 0x1000 == 0;
    }
  }

  /** Where the inexact flag depends on the lost bits, they are lost exactly if the value changes. */
  lemma InexactExactly(x: word32, mode: Mode)
    requires 113 <= Exponent32(x) < 0xFF && !Overflowed(Exponent32(x), Significand(x, mode))
    ensures x % 0x2000 == 0 <==> Value16(Narrow(x, mode)) == Value32(x)
  {
    hide Significand, Rounded, Overflowed, Power2, Narrow, Value16, Value32, Exponent32, Sign32;
    hide Magnitude16, Magnitude32;
    var s, e, f, g := Sign32(x), Exponent32(x), 0x80_0000 + x % 0x80_0000, Significand(x, mode);
    SignificandIs(x, mode);
    NarrowParts(x, mode);
    StepIs(e);
    Regroup(g, 0x2000, Power2(e - 1));
    OrderScales(f, g * 0x2000, Power2(e - 1));
    RoundedIsExact(f, mode, s);
    SameLowBits(x);
  }

  lemma SameLowBits(x: nat)
    ensures (0x80_0000 + x % 0x80_0000) % 0x2000 == x % 0x2000
  {
  }

  lemma SignificandIs(x: word32, mode: Mode)
    ensures Significand(x, mode) == Rounded(0x80_0000 + x % 0x80_0000, 0x1000, mode, Sign32(x))
  {
  }

  /** Subnormal halves widen to zero of their sign. */
  lemma WidenFlushes(h: word16)
    requires Finite16(h) && Abs(Value16(h)) < Power2(135)
    ensures var x := Widen(h); Sign32(x) == h / 0x8000 && Finite32(x) && Value32(x) == 0
  {
    hide Power2, Size16, Size32, ShiftLeft;
    var e, f := h / 0x400 % 0x20, h % 0x400;
    Binade16(e, f);
    if e > 0 {
      Power2Grows(125, e + 124);
      Power2Sum(10, 125);
      TenthPower();
      Scale2(0x400, Power2(125), Power2(e + 124));
      assert false;
    }
    ZeroSizes();
  }

  lemma TenthPower()
    ensures Power2(10) == 0x400
  {
    assert Power2(5) == 32;
  }

  predicate NaN32(x: word32) {
    x % 0x8000_0000 > F32_INFINITY
  }

  predicate NaN16(h: word16) {
    h % 0x8000 > F16_INFINITY
  }

  /** A NaN is quiet if the first bit of its fraction is set (section 6.2.1 of IEEE 754-2008). */
  predicate Quiet32(x: word32) {
    x / 0x40_0000 % 2 == 1
  }

  predicate Quiet16(h: word16) {
    h / 0x200 % 2 == 1
  }

  /** Infinities stay infinities of their sign, and NaNs become quiet NaNs of their sign. */
  lemma SpecialsWidened(h: word16)
    ensures Sign32(Widen(h)) == h / 0x8000
    ensures h % 0x8000 == F16_INFINITY <==> Widen(h) % 0x8000_0000 == F32_INFINITY
    ensures NaN16(h) <==> NaN32(Widen(h))
    ensures NaN16(h) ==> Quiet32(Widen(h))
  {
    hide ShiftLeft;
    ShiftBy13(h % 0x400);
  }

  /** In the other direction too, but the sign of a NaN is lost. */
  lemma SpecialsNarrowed(x: word32, mode: Mode)
    ensures x % 0x8000_0000 == F32_INFINITY ==> Narrow(x, mode) == Sign32(x) * 0x8000 + F16_INFINITY
    ensures NaN32(x) <==> NaN16(Narrow(x, mode))
    ensures NaN32(x) ==> Quiet16(Narrow(x, mode)) && Narrow(x, mode) / 0x8000 == 0
  {
    hide Significand;
  }
}
