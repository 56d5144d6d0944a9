/**
  Conversion between binary32 and binary16 patterns, in the MOVIDIUS_FP32 variant: subnormal
  halves are flushed to zero. Values are integers in units of 2^-149, the smallest binary32 step,
  so rounding is compared with the exact value.
 */
module Fp16 {
  import opened Arithmetic

  datatype Mode = NearestEven | MinusInf | PlusInf | ToZero

  /** Whether a mode rounds magnitudes of the sign up. */
  predicate Away(mode: Mode, s: nat) {
    (mode == PlusInf && s == 0) || (mode == MinusInf && s == 1)
  }

  // ----- the round and sticky rule

  /** Whether a truncated quotient is incremented, from the round bit, the sticky bit and its lowest bit. */
  predicate RoundsUp(round: nat, sticky: bool, lowest: nat, mode: Mode, s: nat) {
    match mode
    case NearestEven => round == 1 && (lowest == 1 || sticky)
    case ToZero => false
    case _ => Away(mode, s) && (round == 1 || sticky)
  }

  function Incremented(q: nat, up: bool): nat {
    if up then q + 1 else q
  }

  function Quotient(f: nat, d: nat): nat
    requires d > 0
  {
    f / d
  }

  function Rounded(f: nat, half: nat, mode: Mode, s: nat): nat
    requires half > 0
  {
    var q := Quotient(f, 2 * half);
    Incremented(q, RoundsUp(Quotient(f, half) % 2, f % half != 0, q % 2, mode, s))
  }

  /** `g` is `f / d` rounded as the mode demands, the magnitude of a number of sign `s`. */
  predicate IsRounded(f: int, d: int, g: int, mode: Mode, s: nat) {
    var rest := f - g * d;
    if mode == NearestEven then -d <= 2 * rest <= d && (2 * rest == d || 2 * rest == -d ==> g % 2 == 0)
    else if Away(mode, s) then -d < rest <= 0
    else 0 <= rest < d
  }

  /** The rule rounds correctly, for every significand and every even divisor. */
  lemma RoundedIsCorrect(f: nat, half: nat, mode: Mode, s: nat)
    requires half > 0
    ensures IsRounded(f, 2 * half, Rounded(f, half, mode, s), mode, s)
  {
    var d := 2 * half;
    var q, r := Quotient(f, d), f % d;
    assert f == q * d + r;
    HalfBits(f, half, q, r);
    Distribute(q, 1, d);
    RuleIsCorrect(f, half, q, r, q * d, (q + 1) * d, mode, s);
  }

  lemma RuleIsCorrect(f: nat, half: nat, q: nat, r: nat, below: nat, above: nat, mode: Mode, s: nat)
    requires half > 0 && f == below + r && r < 2 * half && below == q * (2 * half) && above == (q + 1) * (2 * half)
    requires above == below + 2 * half
    ensures var up := RoundsUp(if r >= half then 1 else 0, (if r >= half then r - half else r) != 0, q % 2, mode, s);
            IsRounded(f, 2 * half, Incremented(q, up), mode, s)
  {
    var up := RoundsUp(if r >= half then 1 else 0, (if r >= half then r - half else r) != 0, q % 2, mode, s);
    if up {
      assert f - Incremented(q, up) * (2 * half) == f - above;
    } else {
      assert f - Incremented(q, up) * (2 * half) == r;
    }
  }

  /** The round bit says whether the remainder reaches a half, the sticky bit whether it lies off the half. */
  lemma HalfBits(f: nat, half: nat, q: nat, r: nat)
    requires half > 0 && f == q * (2 * half) + r && r < 2 * half
    ensures f / half % 2 == (if r >= half then 1 else 0)
    ensures f % half == if r >= half then r - half else r
  {
    var t := if r >= half then 1 else 0;
    assert q * (2 * half) == (2 * q) * half;
    assert f == (2 * q + t) * half + (r - t * half);
    DivisionIs(f, half, 2 * q + t, r - t * half);
  }

  /** No other number is rounded correctly. */
  lemma RoundedUniquely(f: int, d: int, g: int, h: int, mode: Mode, s: nat)
    requires d > 0 && IsRounded(f, d, g, mode, s) && IsRounded(f, d, h, mode, s)
    ensures g == h
  {
    Distribute(g, -h, d);
    Multiples(g - h, d);
    Multiples2(g - h, d);
    CloseMultiples(f, d, g, h, g * d, h * d, mode, s);
  }

  lemma CloseMultiples(f: int, d: int, g: int, h: int, gd: int, hd: int, mode: Mode, s: nat)
    requires d > 0 && gd == g * d && hd == h * d && IsRounded(f, d, g, mode, s) && IsRounded(f, d, h, mode, s)
    requires g - h >= 1 ==> gd - hd >= d
    requires g - h <= -1 ==> gd - hd <= -d
    requires g - h >= 2 ==> gd - hd >= 2 * d
    requires g - h <= -2 ==> gd - hd <= -2 * d
    ensures g == h
  {
    assert f - g * d == f - gd && f - h * d == f - hd;
  }

  lemma Multiples2(d: int, n: int)
    requires n >= 0
    ensures d >= 2 ==> d * n >= 2 * n
    ensures d <= -2 ==> d * n <= -2 * n
  {
    if d >= 2 {
      Multiples(d - 1, n);
      Distribute(d - 1, 1, n);
    } else if d <= -2 {
      Multiples(d + 1, n);
      Distribute(d + 1, -1, n);
    }
  }

  // ----- patterns and their values

  const F32_INFINITY: nat := 0x7F80_0000
  const F16_INFINITY: nat := 0x7C00
  const F16_LARGEST: nat := 0x7BFF
  const F16_NAN: nat := 0x7E00

  type word32 = x: int | 0 <= x < 0x1_0000_0000
  type word16 = x: int | 0 <= x < 0x1_0000

  /** The value of the binary32 magnitude with exponent field `e` and fraction `f`. */
  function Size32(e: nat, f: nat): nat {
    if e == 0 then f else (0x80_0000 + f) * Power2(e - 1)
  }

  /** The value of the binary16 magnitude with exponent field `e` and fraction `f`. */
  function Size16(e: nat, f: nat): nat {
    if e == 0 then f * Power2(125) else (0x400 + f) * Power2(e + 124)
  }

  predicate Finite32(x: word32) {
    x % 0x8000_0000 < F32_INFINITY
  }

  predicate Finite16(h: word16) {
    h % 0x8000 < F16_INFINITY
  }

  function Signed(s: nat, size: nat): int {
    if s == 0 then size else -(size as int)
  }

  /** The value of a finite binary32 pattern, in units of 2^-149. */
  function Value32(x: word32): int {
    Signed(x / 0x8000_0000, Size32(x / 0x80_0000 % 0x100, x % 0x80_0000))
  }

  /** The value of a finite binary16 pattern, in the same units. */
  function Value16(h: word16): int {
    Signed(h / 0x8000, Size16(h / 0x400 % 0x20, h % 0x400))
  }

  /** The magnitude of a finite binary16 pattern. */
  function Magnitude16(h: word16): nat {
    Size16(h / 0x400 % 0x20, h % 0x400)
  }

  // ----- f32_to_f16

  /** What takes the place of a number too large for binary16 (section 7.4 of IEEE 754-2008). */
  function OverflowMagnitude(mode: Mode, s: nat): nat {
    if mode == NearestEven || Away(mode, s) then F16_INFINITY else F16_LARGEST
  }

  /** Whether a significand rounded to eleven bits, or to one more by a carry, is beyond binary16. */
  predicate Overflowed(e: nat, g: nat) {
    e >= 143 || (e == 142 && g == 0x800)
  }

  /** The magnitude pattern of a rounded significand. */
  function Packed(e: nat, g: nat, mode: Mode, s: nat): nat
    requires e >= 113 && 0x400 <= g <= 0x800
  {
    if Overflowed(e, g) then OverflowMagnitude(mode, s)
    else if g == 0x800 then (e - 111) * 0x400
    else (e - 112) * 0x400 + (g - 0x400)
  }

  lemma SignificandRange(f: nat, mode: Mode, s: nat)
    requires 0x80_0000 <= f < 0x100_0000
    ensures 0x400 <= Rounded(f, 0x1000, mode, s) <= 0x800
  {
    hide RoundsUp;
  }

  /** The rounded significand of a pattern whose exponent field is not 0. */
  function Significand(x: word32, mode: Mode): (g: nat)
    ensures 0x400 <= g <= 0x800
  {
    var f := 0x80_0000 + x % 0x80_0000;
    SignificandRange(f, mode, x / 0x8000_0000);
    Rounded(f, 0x1000, mode, x / 0x8000_0000)
  }

  function Exponent32(x: word32): nat {
    x / 0x80_0000 % 0x100
  }

  /** The binary16 pattern of a binary32 pattern; the sign of a NaN is ignored. */
  function Narrow(x: word32, mode: Mode): (h: word16)
  {
    var s, e := x / 0x8000_0000, Exponent32(x);
    if e == 0xFF then if x % 0x80_0000 == 0 then s * 0x8000 + F16_INFINITY else F16_NAN
    else if e < 113 then s * 0x8000
    else s * 0x8000 + Packed(e, Significand(x, mode), mode, s)
  }

  /** f32_to_f16, with the inexact and overflow flags of the exceptions register. */
  method F32ToF16(x: word32, mode: Mode) returns (result: word16, inexact: bool, overflow: bool)
    ensures result == Narrow(x, mode)
    ensures overflow <==> 113 <= Exponent32(x) < 0xFF && Overflowed(Exponent32(x), Significand(x, mode))
    ensures inexact <==> 113 <= Exponent32(x) < 0xFF && (x % 0x2000 != 0 || overflow)
  {
    hide Rounded, Packed, Overflowed;
    inexact, overflow := false, false;
    var s: int, e: int, f: int := x / 0x8000_0000, x / 0x80_0000 % 0x100, x % 0x80_0000;
    if e == 0 && f == 0 {
      return s * 0x8000, false, false;
    } else if e == 255 {
      if f == 0 {
        return s * 0x8000 + 0x7C00, false, false;
      }
      return 0x7E00, false, false;
    }
    if e != 0 {
      f := f + 0x80_0000;
    }
    e := e - 127;
    if e < -14 {
      return s * 0x8000, false, false;
    }
    result, inexact, overflow := RoundAndPack(s, e, f, mode);
  }

  /** The part of f32_to_f16 for numbers that are not below the normal halves: rounding the significand. */
  method RoundAndPack(s: nat, exponent: int, significand: nat, mode: Mode)
    returns (result: word16, inexact: bool, overflow: bool)
    requires s < 2 && -14 <= exponent < 128 && 0x80_0000 <= significand < 0x100_0000
    ensures 0x400 <= Rounded(significand, 0x1000, mode, s) <= 0x800
    ensures result == s * 0x8000 + Packed(exponent + 127, Rounded(significand, 0x1000, mode, s), mode, s)
    ensures overflow <==> Overflowed(exponent + 127, Rounded(significand, 0x1000, mode, s))
    ensures inexact <==> significand % 0x2000 != 0 || overflow
  {
    hide Rounded, Packed, Overflowed;
    SignificandRange(significand, mode, s);
    var f;
    f, inexact := RoundSignificand(s, significand, mode);
    result, overflow := Pack(s, exponent, f, mode);
    inexact := inexact || overflow;
  }

  /** The truncation of the significand to eleven bits, and its increment. */
  method RoundSignificand(s: nat, significand: nat, mode: Mode) returns (f: nat, inexact: bool)
    requires s < 2
    ensures f == Rounded(significand, 0x1000, mode, s)
    ensures inexact <==> significand % 0x2000 != 0
  {
    var round, sticky := significand / 0x1000 % 2, if significand % 0x1000 == 0 then 0 else 1;
    f := significand / 0x2000;
    var flsb := f % 2;
    match mode {
      case NearestEven =>
        if (round == 1 && flsb == 1) || (round == 1 && sticky == 1) {
          f := f + 1;
        }
      case ToZero =>
      case PlusInf =>
        if s == 0 && (round == 1 || sticky == 1) {
          f := f + 1;
        }
      case MinusInf =>
        if s == 1 && (round == 1 || sticky == 1) {
          f := f + 1;
        }
    }
    inexact := round == 1 || sticky == 1;
  }

  /** The part of f32_to_f16 behind the rounding: the carry, the bias and the overflow. */
  method Pack(s: nat, exponent: int, significand: nat, mode: Mode) returns (result: word16, overflow: bool)
    requires s < 2 && -14 <= exponent < 128 && 0x400 <= significand <= 0x800
    ensures result == s * 0x8000 + Packed(exponent + 127, significand, mode, s)
    ensures overflow <==> Overflowed(exponent + 127, significand)
  {
    var e, f := exponent, significand;
    if f / 0x800 % 2 == 1 {
      f := f / 2;
      e := e + 1;
    }
    e := e + 15;
    overflow := e > 30;
    if overflow {
      match mode {
        case NearestEven => result := s * 0x8000 + 0x7C00;
        case ToZero => result := s * 0x8000 + 0x7BFF;
        case PlusInf => result := if s == 0 then 0x7C00 else 0xFBFF;
        case MinusInf => result := if s == 1 then 0xFC00 else 0x7BFF;
      }
    } else {
      f := f % 0x400;
      result := s * 0x8000 + e * 0x400 + f;
    }
  }

  // ----- f16_to_f32

  /** f16_shift_left */
  function ShiftLeft(op: word32, count: nat): word32 {
    if count < 32 then op * Power2(count) % 0x1_0000_0000 else 0
  }

  lemma ShiftBy13(f: nat)
    requires f < 0x400
    ensures ShiftLeft(f, 13) == f * 0x2000
  {
    assert Power2(4) == 16;
    assert Power2(8) == 256;
    assert Power2(13) == 0x2000;
  }

  /** f16_to_f32: subnormal halves are zero, and NaNs are quiet. */
  function Widen(h: word16): (x: word32) {
    var s, e, f := h / 0x8000, h / 0x400 % 0x20, h % 0x400;
    if e == 0x1F then s * 0x8000_0000 + if f == 0 then F32_INFINITY else 0x7FC0_0000
    else if e == 0 then s * 0x8000_0000
    else
      ShiftBy13(f);
      s * 0x8000_0000 + (e + 112) * 0x80_0000 + ShiftLeft(f, 13)
  }
}
