/**
 The annuity calculation shared by the offer and the credit builders:
 monthly rate, annuity coefficient and the level monthly payment.
 */
module Annuity {
  import opened Decimal
  import opened Domain

  /** Java's `Integer.MAX_VALUE`, the largest scale a `BigDecimal` can carry. */
  const IntMax: int := 0x7fff_ffff

  /** The largest exponent `BigDecimal.pow` accepts; a larger or negative one throws. */
  const MaxPowExponent: int := 999999999

  /** The most 32-bit words a Java `BigInteger` may hold. `BigInteger.pow` refuses, before
      computing, any power whose estimated length (bit length of the base times the
      exponent, over 32) is larger. */
  const MaxMagLength: int := 0x400_0000

  /** The largest term the annuity computation survives, whatever the rate. */
  const MaxTerm: int := 26843545

  /** `rate / (12 * 100)` to 20 fractional digits: the rate per month as a fraction,
      within half a unit of the 20th digit of the exact quotient. */
  function MonthlyRate(rate: real): (r: real)
    ensures HasScale(r, 20)
    ensures Abs(r - rate / 1200.0) <= 0.000000000000000000005
  {
    RoundHalfEvenNear20(rate / 1200.0);
    RoundHalfEven(rate / 1200.0, 20)
  }

  /** The Java limits the annuity computation meets for a term, whatever the rate. The
      base `1 + monthlyRate` has scale 20, so:
      - `pow(term)` checks its exponent and gives the power scale `20 * term`, which must
        fit an `int`;
      - the numerator `monthlyRate * power` has scale `20 + 20 * term`, which must fit too;
      - the divisor `power - 1` rescales the `1` to `20 * term` digits, which computes
        `10^(20 * term)` with `BigInteger.pow`; ten has bit length 4, so the estimated
        length is `4 * 20 * term / 32` words. */
  predicate TermInRange(term: int) {
    && 0 <= term <= MaxPowExponent
    && 20 * term <= IntMax
    && 20 + 20 * term <= IntMax
    && 4 * (20 * term) / 32 <= MaxMagLength
  }

  /** The last of the limits is the one that binds: the terms that survive them all are
      exactly `0..MaxTerm`. */
  lemma TermInRangeIff(term: int)
    ensures TermInRange(term) <==> 0 <= term <= MaxTerm
    ensures TermInRange(MaxTerm) && !TermInRange(MaxTerm + 1)
  {
  }

  /** The annuity coefficient can be computed: the term is within Java's limits and
      `(1 + monthlyRate)^term - 1`, the divisor, is not zero. */
  predicate AnnuityDefined(rate: real, term: int) {
    TermInRange(term) && Power(1.0 + MonthlyRate(rate), term) != 1.0
  }

  /** `r (1+r)^n / ((1+r)^n - 1)` before rounding. */
  function ExactCoefficient(r: real, n: nat): real
    requires Power(1.0 + r, n) != 1.0
  {
    var q := Power(1.0 + r, n);
    r * q / (q - 1.0)
  }

  /** The annuity coefficient, rounded to 20 fractional digits. */
  function AnnuityCoefficient(rate: real, term: int): (c: real)
    requires AnnuityDefined(rate, term)
    ensures HasScale(c, 20)
    ensures Abs(Shift(c, 20) - Shift(ExactCoefficient(MonthlyRate(rate), term), 20)) <= 0.5
  {
    RoundHalfEven(ExactCoefficient(MonthlyRate(rate), term), 20)
  }

  /** The level monthly payment for `amount` over `term` months: the amount times
      the coefficient, rounded to cents; absent exactly when the service throws. */
  function MonthlyPayment(amount: real, rate: real, term: int): (r: Option<real>)
    ensures r.Some? <==> AnnuityDefined(rate, term)
    ensures r.Some? ==> HasScale(r.value, 2)
    ensures r.Some? ==> Abs(Shift(r.value, 2) - Shift(amount * AnnuityCoefficient(rate, term), 2)) <= 0.5
  {
    if AnnuityDefined(rate, term) then Some(RoundHalfEven(amount * AnnuityCoefficient(rate, term), 2))
    else None
  }

  /** A zero monthly rate (for instance a zero annual rate) or a zero term makes
      the divisor zero, and a negative term or one above `MaxTerm` breaks a Java
      limit; a positive monthly rate with a term in `1..MaxTerm` does neither. */
  lemma AnnuityDefinedIff(rate: real, term: int)
    ensures MonthlyRate(rate) == 0.0 ==> !AnnuityDefined(rate, term)
    ensures term == 0 ==> !AnnuityDefined(rate, term)
    ensures term < 0 || term > MaxTerm ==> !AnnuityDefined(rate, term)
    ensures MonthlyRate(rate) > 0.0 && 1 <= term <= MaxTerm ==> AnnuityDefined(rate, term)
  {
    TermInRangeIff(term);
    if term >= 0 {
      if MonthlyRate(rate) == 0.0 {
        PowerOfOne(term);
      }
      if MonthlyRate(rate) > 0.0 && term >= 1 {
        PowerAboveOne(1.0 + MonthlyRate(rate), term);
      }
    }
  }

  /** A rate of at least one percent a year gives a positive monthly rate even after rounding. */
  lemma MonthlyRatePositive(rate: real)
    requires rate >= 1.0
    ensures MonthlyRate(rate) > 0.0
  {
    Pow10Values();
    assert Shift(rate / 1200.0, 20) >= 1.0;
    RoundHalfEvenPositive(rate / 1200.0, 20);
  }

  /** The debt left after `k` months when `debt` grows by the rate `r` each month
      and `payment` is paid at the end of each month. */
  function Balance(debt: real, r: real, payment: real, k: nat): real {
    if k == 0 then debt else Balance(debt, r, payment, k - 1) * (1.0 + r) - payment
  }

  /** The exact annuity payment times the divisor `(1+r)^n - 1`. */
  lemma ExactPaymentScaled(debt: real, r: real, n: nat)
    requires Power(1.0 + r, n) != 1.0
    ensures debt * ExactCoefficient(r, n) * (Power(1.0 + r, n) - 1.0) == debt * r * Power(1.0 + r, n)
  {
    var q := Power(1.0 + r, n);
    var d := q - 1.0;
    var c := ExactCoefficient(r, n);
    assert c == r * q / d;
    assert c * d == r * q;
    assert debt * c * d == debt * (c * d);
  }

  /** One month of the closed-form induction, as plain polynomial algebra:
      `b`, `p` are the balance and the power before the month, `b'`, `p'` after it. */
  lemma BalanceStep(b: real, b': real, p: real, p': real, d: real, debt: real, q: real, r: real, payment: real)
    requires b * d == debt * (q - p)
    requires payment * d == debt * r * q
    requires b' == b * (1.0 + r) - payment && p' == (1.0 + r) * p
    ensures b' * d == debt * (q - p')
  {
    assert b' * d == (b * d) * (1.0 + r) - payment * d;
  }

  /** One month of the closed form, in terms of `Balance` and `Power`. */
  lemma BalanceClosedFormStep(debt: real, r: real, payment: real, q: real, k: nat)
    requires k > 0
    requires payment * (q - 1.0) == debt * r * q
    requires Balance(debt, r, payment, k - 1) * (q - 1.0) == debt * (q - Power(1.0 + r, k - 1))
    ensures Balance(debt, r, payment, k) * (q - 1.0) == debt * (q - Power(1.0 + r, k))
  {
    var b, p := Balance(debt, r, payment, k - 1), Power(1.0 + r, k - 1);
    var b', p' := Balance(debt, r, payment, k), Power(1.0 + r, k);
    assert b' == b * (1.0 + r) - payment;
    assert p' == (1.0 + r) * p;
    var d := q - 1.0;
    assert b * d == debt * (q - p);
    assert payment * d == debt * r * q;
    BalanceStep(b, b', p, p', d, debt, q, r, payment);
  }

  /** Closed form of the balance under any payment `payment` with
      `payment * (q - 1) == debt * r * q`, scaled by `q - 1`. */
  lemma {:induction false} BalanceClosedFormFor(debt: real, r: real, payment: real, q: real, k: nat)
    requires payment * (q - 1.0) == debt * r * q
    ensures Balance(debt, r, payment, k) * (q - 1.0) == debt * (q - Power(1.0 + r, k))
  {
    if k == 0 {
      assert Balance(debt, r, payment, 0) == debt && Power(1.0 + r, 0) == 1.0;
    } else {
      BalanceClosedFormFor(debt, r, payment, q, k - 1);
      BalanceClosedFormStep(debt, r, payment, q, k);
    }
  }

  /** Closed form of the balance under the exact annuity payment, scaled by the divisor. */
  lemma BalanceClosedForm(debt: real, r: real, n: nat, k: nat)
    requires Power(1.0 + r, n) != 1.0
    ensures Balance(debt, r, debt * ExactCoefficient(r, n), k) * (Power(1.0 + r, n) - 1.0)
      == debt * (Power(1.0 + r, n) - Power(1.0 + r, k))
  {
    ExactPaymentScaled(debt, r, n);
    BalanceClosedFormFor(debt, r, debt * ExactCoefficient(r, n), Power(1.0 + r, n), k);
  }

  /** The exact annuity coefficient is the one that repays the debt: paying
      `debt * coefficient` every month clears it after exactly `n` months. */
  lemma AnnuityRepaysDebt(debt: real, r: real, n: nat)
    requires Power(1.0 + r, n) != 1.0
    ensures Balance(debt, r, debt * ExactCoefficient(r, n), n) == 0.0
  {
    BalanceClosedForm(debt, r, n, n);
    var b := Balance(debt, r, debt * ExactCoefficient(r, n), n);
    assert b * (Power(1.0 + r, n) - 1.0) == 0.0;
  }
}
