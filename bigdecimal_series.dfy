/**
 * The series for e that `BigDecimal.E` sums: starting from 2.5, add
 * 1 / d! for d = 3, 4, ... up to a maximal denominator, each term divided
 * at the division precision and the sum kept exact.
 */
module BigDecimalSeries {

  import opened Integers
  import opened BigDecimals
  import opened BigDecimalOperators
  import BigDecimalExtensions
  import BigIntegerExtensions

  /**
   * The starting value 2.5 = 1/0! + 1/1! + 1/2!. The source writes it as a
   * `double`, whose conversion yields the decimal 25E-1.
   */
  const Seed: BigDecimal := BigDecimal(25, -1)

  /** d! as a real number. */
  function FactorialReal(d: nat): (r: real)
    ensures r >= 1.0
  {
    BigIntegerExtensions.Factorial(d) as real
  }

  /** The factorial of d as the `BigDecimal` that `Factoral` returns. */
  function FactorialDecimal(d: nat): (f: BigDecimal)
    ensures Canonical(f) && Value(f) == FactorialReal(d)
    ensures f.mantissa > 0
  {
    var f := Normalized(BigIntegerExtensions.Factorial(d), 0);
    assert Value(BigDecimal(BigIntegerExtensions.Factorial(d), 0)) == BigIntegerExtensions.Factorial(d) as real;
    ValueSign(f);
    ValueZero(f);
    f
  }

  /** The term added for denominator d: 1 / d! at the given precision. */
  function Term(d: nat, precision: int): BigDecimal
  {
    Divide(FromInt(1), FactorialDecimal(d), precision)
  }

  /** The sum once the terms for the denominators 3 up to n have been added. */
  function Partial(n: int, precision: int): BigDecimal
    decreases n
  {
    if n < 3 then Seed else Add(Partial(n - 1, precision), Term(n, precision))
  }

  /**
   * `E(int maxDenominator)` (BigDecimal.cs:471-481). The counter is itself a
   * `BigDecimal`, compared with the converted bound by `<=` and advanced by
   * `++`; each term is `numerator / denominator.Factoral()`.
   */
  method E(maxDenominator: int, precision: int) returns (e: BigDecimal)
    requires InInt32(maxDenominator)
    ensures e == Partial(maxDenominator, precision)
  {
    e := Seed;
    var numerator := FromInt(1);
    var denominator := FromInt(3);
    ghost var k: int := 3;
    while LessOrEqual(denominator, FromInt(maxDenominator))
      invariant 3 <= k <= Max(maxDenominator, 2) + 1
      invariant Value(denominator) == k as real
      invariant e == Partial(k - 1, precision)
      decreases maxDenominator - k
    {
      var f := BigDecimalExtensions.Factoral(denominator);
      CountOfCounter(denominator, k);
      assert f == FactorialDecimal(k);
      var fraction := Divide(numerator, f, precision);
      e := Add(e, fraction);
      denominator := Increment(denominator);
      k := k + 1;
    }
  }

  /** `E()` (BigDecimal.cs:466-469): the series up to the denominator `Precision`. */
  method EAtPrecision(precision: int) returns (e: BigDecimal)
    requires InInt32(precision)
    ensures e == Partial(precision, precision)
  {
    e := E(precision, precision);
  }

  /** A counter worth k makes `Factoral` run k rounds. */
  lemma CountOfCounter(denominator: BigDecimal, k: int)
    requires k >= 0 && Value(denominator) == k as real
    ensures BigDecimalExtensions.FactorCount(denominator) == k
  {
  }

  /** The quotient of 1 by a positive mantissa is not negative. */
  lemma TermNonNegative(d: nat, precision: int)
    ensures 0.0 <= Value(Term(d, precision))
  {
    var one, f := FromInt(1), FactorialDecimal(d);
    var raw := RawQuotient(one, f, precision);
    var k := DivisionScale(one, f, precision);
    assert one.mantissa == 1;
    PositivePower(k);
    TruncDivSpec(Pow10(k), f.mantissa);
    assert raw.mantissa >= 0;
    ValueSign(raw);
  }

  /** 10^k is positive. */
  lemma PositivePower(k: nat)
    ensures Pow10(k) > 0 && 1 * Pow10(k) == Pow10(k)
  {
  }

  /**
   * The remainder 1 - term · d! is zero or positive, so term · d! is at
   * most 1: the truncating division never overshoots 1 / d!.
   */
  lemma TermTimesFactorial(d: nat, precision: int)
    ensures Value(Term(d, precision)) * Value(FactorialDecimal(d)) <= 1.0
  {
    var one, f, q := FromInt(1), FactorialDecimal(d), Term(d, precision);
    var k := DivisionScale(one, f, precision);
    DivisionRemainder(one, f, precision);
    QuotientBelow(one, f, q, k);
  }

  /** For a positive dividend the truncated quotient times the divisor does not exceed the dividend. */
  lemma QuotientBelow(dividend: BigDecimal, divisor: BigDecimal, q: BigDecimal, k: int)
    requires Value(dividend) > 0.0 && TruncatedQuotient(dividend, divisor, q, k)
    ensures Value(q) * Value(divisor) <= Value(dividend)
  {
  }

  /** Every partial sum is canonical and at least 2.5. */
  lemma {:induction false} PartialBounds(n: int, precision: int)
    ensures Canonical(Partial(n, precision))
    ensures 2.5 <= Value(Partial(n, precision))
    decreases n
  {
    if n < 3 {
      assert Value(Seed) == 2.5 by {
        ValueNext(25, -1, 0);
      }
    } else {
      PartialBounds(n - 1, precision);
      TermNonNegative(n, precision);
    }
  }

  /** Adding more terms never makes the sum smaller. */
  lemma {:induction false} PartialMonotone(m: int, n: int, precision: int)
    requires m <= n
    ensures Value(Partial(m, precision)) <= Value(Partial(n, precision))
    decreases n - m
  {
    if m < n {
      PartialMonotone(m, n - 1, precision);
      if n >= 3 {
        TermNonNegative(n, precision);
      } else {
        assert Partial(n - 1, precision) == Partial(n, precision);
      }
    }
  }

  /** Up to denominator 3 at precision 2: 2.5 + 1/6 cut to two digits, 0.16, gives 2.66. */
  lemma SeriesToThree(n: int, precision: int)
    requires n == 3 && precision == 2
    ensures Partial(n, precision) == BigDecimal(266, -2)
  {
    var f := FactorialDecimal(3);
    assert BigIntegerExtensions.Factorial(3) == 6;
    NormalizedUnique(6, 0, BigDecimal(6, 0));
    assert f == BigDecimal(6, 0);
    NormalizedUnique(1, 0, BigDecimal(1, 0));
    assert DivisionScale(FromInt(1), f, precision) == 2;
    assert Term(3, precision) == Normalized(16, -2);
    NormalizedUnique(16, -2, BigDecimal(16, -2));
    NormalizedUnique(266, -2, Add(Seed, BigDecimal(16, -2)));
  }
}
