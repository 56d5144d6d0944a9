/**
  Powers of two, and division with remainder for divisors that are not constants.
 */
module Arithmetic {

  function Power2(k: nat): (r: nat)
    ensures r > 0
  {
    if k == 0 then 1 else 2 * Power2(k - 1)
  }

  lemma {:induction false} Power2Sum(a: nat, b: nat)
    ensures Power2(a + b) == Power2(a) * Power2(b)
    decreases a
  {
    if a > 0 {
      Power2Sum(a - 1, b);
      Regroup(2, Power2(a - 1), Power2(b));
    }
  }

  /** Quotient and remainder are unique. */
  lemma DivisionIs(a: int, n: int, q: int, r: int)
    requires a == q * n + r && 0 <= r < n
    ensures a / n == q && a % n == r
  {
    var p, s := a / n, a % n;
    assert a == p * n + s;
    Distribute(p, -q, n);
    Multiples(p - q, n);
  }

  lemma Distribute(p: int, q: int, n: int)
    ensures (p + q) * n == p * n + q * n
  {
  }

  lemma Regroup(a: int, b: int, c: int)
    ensures (a * b) * c == a * (b * c) == b * (a * c)
  {
  }

  lemma Multiples(d: int, n: int)
    requires n >= 0
    ensures d >= 1 ==> d * n >= n
    ensures d <= -1 ==> d * n <= -n
  {
    if d >= 1 {
      Grows(d - 1, n);
    } else if d <= -1 {
      Grows(-d - 1, n);
    }
  }

  lemma Grows(d: nat, n: nat)
    ensures (d + 1) * n >= n
  {
  }
}
