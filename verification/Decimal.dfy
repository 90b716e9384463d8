/**
 Exact decimal arithmetic in the manner of java.math.BigDecimal.

 Every decimal value is a `real`; addition, subtraction, multiplication and
 `pow` are exact, and the only loss of precision is an explicit rounding to a
 fixed number of fractional digits with the HALF_EVEN rounding mode (as done by
 `divide(divisor, scale, HALF_EVEN)` and `setScale(scale, HALF_EVEN)`).
 */
module Decimal {

  /** 10 raised to `d`. */
  function Pow10(d: nat): (r: nat)
    ensures r >= 1
  {
    if d == 0 then 1 else 10 * Pow10(d - 1)
  }

  /** `x` with the decimal point moved `d` places to the right. */
  function Shift(x: real, d: nat): real {
    x * Pow10(d) as real
  }

  function Abs(x: real): real {
    if x < 0.0 then -x else x
  }

  /** `x` has at most `digits` fractional decimal digits: `x * 10^digits` is an integer. */
  predicate HasScale(x: real, digits: nat) {
    Shift(x, digits) == Shift(x, digits).Floor as real
  }

  /** The integer nearest to `y`; a tie goes to the even neighbour. */
  function RoundToEven(y: real): (n: int)
    ensures Abs(n as real - y) < 0.5 || (Abs(n as real - y) == 0.5 && n % 2 == 0)
  {
    var f := y.Floor;
    var frac := y - f as real;
    if frac < 0.5 then f
    else if frac > 0.5 then f + 1
    else if f % 2 == 0 then f
    else f + 1
  }

  /** No integer lies closer to `y` than `RoundToEven(y)`. */
  lemma RoundToEvenIsNearest(y: real, m: int)
    ensures Abs(RoundToEven(y) as real - y) <= Abs(m as real - y)
  {
    var n := RoundToEven(y);
    if m != n {
      if m < n {
        assert m as real <= n as real - 1.0;
      } else {
        assert m as real >= n as real + 1.0;
      }
    }
  }

  /** The half-even property determines the rounded integer uniquely. */
  lemma RoundToEvenUnique(y: real, m: int)
    requires Abs(m as real - y) < 0.5 || (Abs(m as real - y) == 0.5 && m % 2 == 0)
    ensures m == RoundToEven(y)
  {
  }

  /** The decimal `n / 10^digits`, which has the scale `digits`. */
  function Unshift(n: int, digits: nat): (r: real)
    ensures Shift(r, digits) == n as real
    ensures HasScale(r, digits)
  {
    var r := n as real / Pow10(digits) as real;
    assert Shift(r, digits) == n as real;
    assert (n as real).Floor == n;
    r
  }

  /** `x` rounded to `digits` fractional digits, HALF_EVEN. */
  function RoundHalfEven(x: real, digits: nat): (r: real)
    ensures HasScale(r, digits)
    ensures Shift(r, digits) == RoundToEven(Shift(x, digits)) as real
    ensures Abs(Shift(r, digits) - Shift(x, digits)) <= 0.5
    ensures Abs(r - x) * (Pow10(digits) as real) <= 0.5
  {
    var n := RoundToEven(Shift(x, digits));
    var r := Unshift(n, digits);
    ScaledHalfUnit(r, x, Pow10(digits) as real, n as real, Shift(x, digits));
    r
  }

  /** Rounding leaves a value that already has the scale unchanged. */
  lemma RoundHalfEvenKeepsScaled(x: real, digits: nat)
    requires HasScale(x, digits)
    ensures RoundHalfEven(x, digits) == x
  {
    var k := Shift(x, digits).Floor;
    assert Abs(k as real - Shift(x, digits)) == 0.0;
    RoundToEvenUnique(Shift(x, digits), k);
    var r := RoundHalfEven(x, digits);
    assert Shift(r, digits) == Shift(x, digits);
    assert r * Pow10(digits) as real == x * Pow10(digits) as real;
  }

  /** Rounding twice at the same scale is rounding once. */
  lemma RoundHalfEvenIdempotent(x: real, digits: nat)
    ensures RoundHalfEven(RoundHalfEven(x, digits), digits) == RoundHalfEven(x, digits)
  {
    RoundHalfEvenKeepsScaled(RoundHalfEven(x, digits), digits);
  }

  /** A value of at least one unit in the last place rounds to something positive. */
  lemma RoundHalfEvenPositive(x: real, digits: nat)
    requires Shift(x, digits) >= 1.0
    ensures RoundHalfEven(x, digits) > 0.0
  {
    var r := RoundHalfEven(x, digits);
    assert Shift(r, digits) > 0.0;
    assert r * Pow10(digits) as real > 0.0;
  }

  /** Two values whose images under a positive scaling lie within half a unit of each
      other lie within half a unit, scaled back. */
  lemma ScaledHalfUnit(a: real, b: real, p: real, sa: real, sb: real)
    requires p > 0.0 && sa == a * p && sb == b * p
    requires Abs(sa - sb) <= 0.5
    ensures Abs(a - b) * p <= 0.5
  {
    var d := a - b;
    assert d * p == sa - sb;
    if d >= 0.0 {
      assert d * p >= 0.0;
      assert Abs(d) * p == sa - sb;
    } else {
      assert (-d) * p > 0.0;
      assert Abs(d) * p == sb - sa;
    }
  }

  /** Rounding keeps the sign of a non-negative value. */
  lemma RoundHalfEvenNonNegative(x: real, digits: nat)
    requires x >= 0.0
    ensures RoundHalfEven(x, digits) >= 0.0
  {
    var r := RoundHalfEven(x, digits);
    assert Shift(x, digits) >= 0.0;
    assert Shift(r, digits) >= 0.0;
    assert r * Pow10(digits) as real >= 0.0;
  }

  lemma {:induction false} Pow10Add(a: nat, b: nat)
    ensures Pow10(a + b) == Pow10(a) * Pow10(b)
  {
    if a > 0 {
      Pow10Add(a - 1, b);
    }
  }

  /** The two scales the calculator rounds to. */
  lemma Pow10Values()
    ensures Pow10(2) == 100
    ensures Pow10(20) == 100000000000000000000
  {
    assert Pow10(5) == 100000;
    Pow10Add(5, 5);
    Pow10Add(10, 10);
  }

  /** Rounding to 20 digits moves a value by at most half a unit of the 20th digit. */
  lemma RoundHalfEvenNear20(x: real)
    ensures Abs(RoundHalfEven(x, 20) - x) <= 0.000000000000000000005
  {
    Pow10Values();
    assert Abs(RoundHalfEven(x, 20) - x) * 100000000000000000000.0 <= 0.5;
  }

  /** `x` raised to the natural power `n`, exactly (BigDecimal.pow). */
  function Power(x: real, n: nat): real {
    if n == 0 then 1.0 else x * Power(x, n - 1)
  }

  lemma {:induction false} PowerOfOne(n: nat)
    ensures Power(1.0, n) == 1.0
  {
    if n > 0 {
      PowerOfOne(n - 1);
    }
  }

  lemma {:induction false} PowerAboveOne(x: real, n: nat)
    requires x > 1.0 && n >= 1
    ensures Power(x, n) > 1.0
  {
    if n > 1 {
      PowerAboveOne(x, n - 1);
      assert x * Power(x, n - 1) > Power(x, n - 1);
    }
  }
}
