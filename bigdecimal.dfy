/**
 * The `BigDecimal` value of ken.Spikes.Math: an arbitrary-precision integer
 * mantissa and an integer exponent, denoting mantissa × 10^exponent.
 * This module holds the value type, its meaning as an exact real number, the
 * normalising constructor and truncation to a number of significant digits.
 */
module BigDecimals {
  import opened Integers
  import opened NumberText

  /** C#'s `struct BigDecimal`: copied on assignment, so a plain value here. */
  datatype BigDecimal = BigDecimal(mantissa: int, exponent: int)

  /** x × 10^e as an exact real, one factor of ten at a time. */
  function Scaled(x: real, e: int): real
    decreases Abs(e)
  {
    if e == 0 then x
    else if e > 0 then Scaled(x, e - 1) * 10.0
    else Scaled(x, e + 1) / 10.0
  }

  /** The number a `BigDecimal` denotes: mantissa × 10^exponent. */
  function Value(d: BigDecimal): real
  {
    Scaled(d.mantissa as real, d.exponent)
  }

  /** The form the constructor produces: no trailing zero digit, and zero is (0, 0). */
  predicate Canonical(d: BigDecimal)
  {
    if d.mantissa == 0 then d.exponent == 0 else d.mantissa % 10 != 0
  }

  // ---------------------------------------------------------------------
  // Scaling by powers of ten

  lemma ScaledStep(x: real, e: int)
    ensures Scaled(x, e + 1) == Scaled(x, e) * 10.0
  {
  }

  lemma {:induction false} ScaledAdd(x: real, y: real, e: int)
    decreases Abs(e)
    ensures Scaled(x + y, e) == Scaled(x, e) + Scaled(y, e)
  {
    if e > 0 {
      ScaledAdd(x, y, e - 1);
    } else if e < 0 {
      ScaledAdd(x, y, e + 1);
    }
  }

  lemma {:induction false} ScaledSign(x: real, e: int)
    decreases Abs(e)
    ensures x > 0.0 ==> Scaled(x, e) > 0.0
    ensures x == 0.0 ==> Scaled(x, e) == 0.0
    ensures x < 0.0 ==> Scaled(x, e) < 0.0
  {
    if e > 0 {
      ScaledSign(x, e - 1);
    } else if e < 0 {
      ScaledSign(x, e + 1);
    }
  }

  lemma {:induction false} ScaledCompose(x: real, a: int, b: int)
    decreases Abs(a)
    ensures Scaled(Scaled(x, b), a) == Scaled(x, a + b)
  {
    if a > 0 {
      ScaledCompose(x, a - 1, b);
      ScaledStep(x, a - 1 + b);
    } else if a < 0 {
      ScaledCompose(x, a + 1, b);
      ScaledStep(x, a + b);
    }
  }

  lemma {:induction false} ScaledPow10(x: real, k: nat)
    ensures Scaled(x, k) == x * Pow10(k) as real
  {
    if k > 0 {
      ScaledPow10(x, k - 1);
      Regroup(x, Pow10(k - 1) as real);
    }
  }

  lemma Regroup(x: real, y: real)
    ensures x * y * 10.0 == x * (10.0 * y)
  {
  }

  /** Multiplying the mantissa by 10^k is the same number as raising the exponent by k. */
  lemma ValueShift(m: int, e: int, k: nat)
    ensures Value(BigDecimal(m * Pow10(k), e)) == Value(BigDecimal(m, e + k))
  {
    ShiftToReal(m, k);
    ShiftReal(m as real, e, k);
  }

  lemma ShiftReal(x: real, e: int, k: nat)
    ensures Scaled(x * Pow10(k) as real, e) == Scaled(x, e + k)
  {
    ScaledPow10(x, k);
    ScaledCompose(x, e, k);
  }

  /** An integer product with a power of ten is the product of the two reals. */
  lemma ShiftToReal(m: int, k: nat)
    ensures (m * Pow10(k)) as real == m as real * Pow10(k) as real
  {
  }

  lemma IntProduct(a: int, b: int)
    ensures (a * b) as real == a as real * b as real
  {
  }

  /** At a common exponent, numbers compare as their mantissas do. */
  lemma SameExponentOrder(x: int, y: int, e: int)
    ensures Value(BigDecimal(x, e)) < Value(BigDecimal(y, e)) <==> x < y
    ensures Value(BigDecimal(x, e)) == Value(BigDecimal(y, e)) <==> x == y
  {
    ScaledAdd((y - x) as real, x as real, e);
    ScaledSign((y - x) as real, e);
  }

  /** At a common exponent, numbers add as their mantissas do. */
  lemma SameExponentSum(x: int, y: int, e: int)
    ensures Value(BigDecimal(x + y, e)) == Value(BigDecimal(x, e)) + Value(BigDecimal(y, e))
  {
    ScaledAdd(x as real, y as real, e);
  }

  /** Mantissas multiply and exponents add. */
  lemma {:induction false} ValueProduct(a: BigDecimal, b: BigDecimal)
    decreases Abs(a.exponent)
    ensures Value(BigDecimal(a.mantissa * b.mantissa, a.exponent + b.exponent)) == Value(a) * Value(b)
  {
    if a.exponent == 0 {
      ProductBase(a, b);
    } else if a.exponent > 0 {
      ValueProduct(BigDecimal(a.mantissa, a.exponent - 1), b);
      ProductUp(a, b);
      ValueNext(a.mantissa * b.mantissa, a.exponent - 1 + b.exponent, a.exponent + b.exponent);
    } else {
      ValueProduct(BigDecimal(a.mantissa, a.exponent + 1), b);
      ProductDown(a, b);
      ValueNext(a.mantissa * b.mantissa, a.exponent + b.exponent, a.exponent + 1 + b.exponent);
    }
  }

  lemma ProductBase(a: BigDecimal, b: BigDecimal)
    requires a.exponent == 0
    ensures Value(BigDecimal(a.mantissa * b.mantissa, a.exponent + b.exponent)) == Value(a) * Value(b)
  {
    ProductAtZero(a, b);
    MantissaTimes(a.mantissa, b);
  }

  lemma ProductAtZero(a: BigDecimal, b: BigDecimal)
    requires a.exponent == 0
    ensures Value(a) * Value(b) == a.mantissa as real * Value(b)
  {
  }

  /** Multiplying the mantissa by an integer multiplies the value by it. */
  lemma {:induction false} MantissaTimes(c: int, b: BigDecimal)
    decreases Abs(b.exponent)
    ensures Value(BigDecimal(c * b.mantissa, b.exponent)) == c as real * Value(b)
  {
    if b.exponent == 0 {
      IntProduct(c, b.mantissa);
    } else if b.exponent > 0 {
      MantissaTimes(c, BigDecimal(b.mantissa, b.exponent - 1));
      TimesUp(c, b);
      ValueNext(c * b.mantissa, b.exponent - 1, b.exponent);
    } else {
      MantissaTimes(c, BigDecimal(b.mantissa, b.exponent + 1));
      TimesDown(c, b);
      ValueNext(c * b.mantissa, b.exponent, b.exponent + 1);
    }
  }

  lemma TimesUp(c: int, b: BigDecimal)
    requires b.exponent > 0
    ensures c as real * Value(b) == c as real * Value(BigDecimal(b.mantissa, b.exponent - 1)) * 10.0
  {
  }

  lemma TimesDown(c: int, b: BigDecimal)
    requires b.exponent < 0
    ensures c as real * Value(b) == c as real * Value(BigDecimal(b.mantissa, b.exponent + 1)) / 10.0
  {
  }

  lemma ValueNext(m: int, e: int, f: int)
    requires f == e + 1
    ensures Value(BigDecimal(m, f)) == Value(BigDecimal(m, e)) * 10.0
  {
  }

  lemma ProductUp(a: BigDecimal, b: BigDecimal)
    requires a.exponent > 0
    ensures Value(a) * Value(b) == Value(BigDecimal(a.mantissa, a.exponent - 1)) * Value(b) * 10.0
  {
  }

  lemma ProductDown(a: BigDecimal, b: BigDecimal)
    requires a.exponent < 0
    ensures Value(a) * Value(b) == Value(BigDecimal(a.mantissa, a.exponent + 1)) * Value(b) / 10.0
  {
  }

  lemma ValueZero(d: BigDecimal)
    ensures Value(d) == 0.0 <==> d.mantissa == 0
  {
    ScaledSign(d.mantissa as real, d.exponent);
  }

  // ---------------------------------------------------------------------
  // Digits

  /** The number of decimal digits of `v`, sign not counted (BigDecimal.cs:232-236). */
  function NumberOfDigits(v: int): (n: nat)
    ensures n >= 1
  {
    |NatToString(Abs(v))|
  }

  /** `NumberOfDigits(v)` is the n with 10^(n-1) <= |v| < 10^n; zero has one digit. */
  lemma DigitsBounds(v: int)
    ensures Abs(v) < Pow10(NumberOfDigits(v))
    ensures v != 0 ==> Pow10(NumberOfDigits(v) - 1) <= Abs(v)
    ensures v == 0 ==> NumberOfDigits(v) == 1
  {
    NatToStringLength(Abs(v));
  }

  /** Dividing by 10^k, truncating, removes exactly k digits (while any remain). */
  lemma DigitsOfQuotient(v: int, k: nat)
    requires k < NumberOfDigits(v)
    ensures NumberOfDigits(TruncDiv(v, Pow10(k))) == NumberOfDigits(v) - k
  {
    var n := NumberOfDigits(v);
    var q := TruncDiv(v, Pow10(k));
    DigitsBounds(v);
    if v == 0 {
      assert q == 0;
    } else {
      Pow10Add(n - 1 - k, k);
      Pow10Add(n - k, k);
      DivAtLeast(Abs(v), Pow10(k), Pow10(n - 1 - k));
      DivBelow(Abs(v), Pow10(k), Pow10(n - k));
      LengthAtLeast(Abs(q), n - k);
      LengthBelow(Abs(q), n - k);
    }
  }

  // ---------------------------------------------------------------------
  // Normalisation

  /**
   * The canonical representation of m × 10^e: trailing zero digits moved from
   * the mantissa into the exponent, and zero as (0, 0).
   */
  function Normalized(m: int, e: int): (r: BigDecimal)
    decreases Abs(m)
    ensures Canonical(r)
    ensures Value(r) == Value(BigDecimal(m, e))
    ensures m != 0 ==> r.exponent >= e
  {
    if m == 0 then
      ValueZero(BigDecimal(0, 0));
      ValueZero(BigDecimal(m, e));
      BigDecimal(0, 0)
    else if m % 10 == 0 then
      TenDivides(m);
      ValueShift(m / 10, e, 1);
      Normalized(m / 10, e + 1)
    else BigDecimal(m, e)
  }

  /** Normalising never adds digits to the mantissa. */
  lemma {:induction false} NormalizedDigits(m: int, e: int)
    ensures NumberOfDigits(Normalized(m, e).mantissa) <= NumberOfDigits(m)
    decreases Abs(m)
  {
    if m != 0 && m % 10 == 0 {
      TenDivides(m);
      NormalizedDigits(m / 10, e + 1);
    }
  }

  /** A nonzero multiple of ten loses one digit when divided by ten. */
  lemma TenDivides(m: int)
    requires m != 0 && m % 10 == 0
    ensures m == m / 10 * 10 && m / 10 != 0
    ensures Abs(m / 10) < Abs(m)
    ensures NumberOfDigits(m / 10) == NumberOfDigits(m) - 1
  {
    TruncRemZero(m, 10);
    DigitsBounds(m);
    DigitsOfQuotient(m, 1);
  }

  /** Canonical representations of the same number are the same representation. */
  lemma CanonicalUnique(a: BigDecimal, b: BigDecimal)
    requires Canonical(a) && Canonical(b) && Value(a) == Value(b)
    ensures a == b
  {
    ValueZero(a);
    ValueZero(b);
    if a.mantissa != 0 {
      if a.exponent <= b.exponent {
        CanonicalUniqueOrdered(a, b);
      } else {
        CanonicalUniqueOrdered(b, a);
      }
    }
  }

  lemma CanonicalUniqueOrdered(a: BigDecimal, b: BigDecimal)
    requires Canonical(a) && Canonical(b) && Value(a) == Value(b)
    requires a.mantissa != 0 && b.mantissa != 0 && a.exponent <= b.exponent
    ensures a == b
  {
    var k := b.exponent - a.exponent;
    ValueShift(b.mantissa, a.exponent, k);
    SameExponentOrder(a.mantissa, b.mantissa * Pow10(k), a.exponent);
    MultipleOfTen(b.mantissa, k);
  }

  lemma MultipleOfTen(m: int, k: nat)
    ensures k > 0 ==> (m * Pow10(k)) % 10 == 0
  {
    if k > 0 {
      assert m * Pow10(k) == (m * Pow10(k - 1)) * 10;
    }
  }

  /** `Normalized(m, e)` is the one canonical representation of m × 10^e. */
  lemma NormalizedUnique(m: int, e: int, d: BigDecimal)
    requires Canonical(d) && Value(d) == Value(BigDecimal(m, e))
    ensures d == Normalized(m, e)
  {
    CanonicalUnique(d, Normalized(m, e));
  }

  /** Normalising a normalised value changes nothing. */
  lemma NormalizedIdempotent(m: int, e: int)
    ensures var n := Normalized(m, e); Normalized(n.mantissa, n.exponent) == n
  {
    var n := Normalized(m, e);
    NormalizedUnique(n.mantissa, n.exponent, n);
  }

  /**
   * `Normalize` (BigDecimal.cs:187-206): divides by ten with `DivRem` while the
   * remainder is zero, counting the divisions into the exponent.
   */
  method Normalize(d: BigDecimal) returns (r: BigDecimal)
    ensures r == Normalized(d.mantissa, d.exponent)
  {
    var mantissa, exponent := d.mantissa, d.exponent;
    if mantissa == 0 {
      exponent := 0;
    } else {
      var remainder := 0;
      while remainder == 0
        invariant mantissa != 0
        invariant Normalized(mantissa, exponent) == Normalized(d.mantissa, d.exponent)
        invariant remainder != 0 ==> mantissa % 10 != 0
        decreases Abs(mantissa), if remainder == 0 then 1 else 0
      {
        var shortened := TruncDiv(mantissa, 10);
        remainder := TruncRem(mantissa, 10);
        TruncRemZero(mantissa, 10);
        if remainder == 0 {
          TenDivides(mantissa);
          mantissa := shortened;
          exponent := exponent + 1;
        }
      }
    }
    r := BigDecimal(mantissa, exponent);
  }

  /**
   * The constructor `BigDecimal(mantissa, exponent)` (BigDecimal.cs:173-182)
   * with the static `AlwaysTruncate` and `Precision` passed in. When
   * `alwaysTruncate` holds it calls `Truncate`, which returns a new value that
   * the constructor drops: the result is only normalised. `Truncate` would not
   * terminate for a precision below one, hence the precondition.
   */
  method New(mantissa: int, exponent: int, alwaysTruncate: bool, precision: int) returns (r: BigDecimal)
    requires alwaysTruncate ==> precision >= 1
    ensures r == Normalized(mantissa, exponent)
  {
    r := Normalize(BigDecimal(mantissa, exponent));
    if alwaysTruncate {
      var discarded := Truncate(r, precision);
    }
  }

  // ---------------------------------------------------------------------
  // Truncation

  /**
   * What `Truncate(precision)` returns: the normalised value with as many
   * least significant digits dropped (dividing toward zero) as exceed
   * `precision`, the exponent raised by the number dropped. The result is not
   * normalised again.
   */
  function Truncated(d: BigDecimal, precision: int): BigDecimal
    requires precision >= 1
  {
    var n := Normalized(d.mantissa, d.exponent);
    var k := Max(0, NumberOfDigits(n.mantissa) - precision);
    BigDecimal(TruncDiv(n.mantissa, Pow10(k)), n.exponent + k)
  }

  /**
   * `Truncate(precision)` (BigDecimal.cs:212-225): normalises a copy, then
   * divides its mantissa by ten while it has more than `precision` digits.
   */
  method Truncate(d: BigDecimal, precision: int) returns (r: BigDecimal)
    requires precision >= 1
    ensures r == Truncated(d, precision)
  {
    var shortened := Normalize(d);
    ghost var n := shortened;
    ghost var dropped: nat := 0;
    while NumberOfDigits(shortened.mantissa) > precision
      invariant Shortened(n, shortened, dropped, precision)
      decreases NumberOfDigits(shortened.mantissa)
    {
      ShortenStep(n, shortened, dropped, precision);
      shortened := BigDecimal(TruncDiv(shortened.mantissa, 10), shortened.exponent + 1);
      dropped := dropped + 1;
    }
    ShortenDone(d, n, shortened, dropped, precision);
    r := shortened;
  }

  /**
   * The loop state of `Truncate`: `s` is `n` with its `dropped` least
   * significant digits divided away, and digits were dropped only while more
   * than `precision` remained.
   */
  ghost predicate Shortened(n: BigDecimal, s: BigDecimal, dropped: nat, precision: int)
  {
    && dropped < NumberOfDigits(n.mantissa)
    && s == BigDecimal(TruncDiv(n.mantissa, Pow10(dropped)), n.exponent + dropped)
    && NumberOfDigits(s.mantissa) == NumberOfDigits(n.mantissa) - dropped
    && (dropped == 0 || NumberOfDigits(n.mantissa) - dropped >= precision)
  }

  lemma ShortenStep(n: BigDecimal, s: BigDecimal, dropped: nat, precision: int)
    requires precision >= 1 && Shortened(n, s, dropped, precision) && NumberOfDigits(s.mantissa) > precision
    ensures Shortened(n, BigDecimal(TruncDiv(s.mantissa, 10), s.exponent + 1), dropped + 1, precision)
  {
    DropOneDigit(n.mantissa, dropped);
    DigitsOfQuotient(n.mantissa, dropped + 1);
  }

  lemma ShortenDone(d: BigDecimal, n: BigDecimal, s: BigDecimal, dropped: nat, precision: int)
    requires precision >= 1 && n == Normalized(d.mantissa, d.exponent)
    requires Shortened(n, s, dropped, precision) && NumberOfDigits(s.mantissa) <= precision
    ensures s == Truncated(d, precision)
  {
  }

  /** One more division by ten is one more power of ten in the divisor. */
  lemma DropOneDigit(m: int, k: nat)
    ensures TruncDiv(TruncDiv(m, Pow10(k)), 10) == TruncDiv(m, Pow10(k + 1))
  {
    TruncDivTwice(m, Pow10(k), 10);
  }

  /**
   * The digits kept: at most `precision`, exactly `precision` when any were
   * dropped, and the exponent rises by the number of digits dropped.
   */
  lemma TruncatedDigits(d: BigDecimal, precision: int)
    requires precision >= 1
    ensures var n, r := Normalized(d.mantissa, d.exponent), Truncated(d, precision);
      && NumberOfDigits(r.mantissa) <= precision
      && (NumberOfDigits(n.mantissa) > precision ==> NumberOfDigits(r.mantissa) == precision)
      && (NumberOfDigits(n.mantissa) <= precision ==> r == n)
      && r.exponent - n.exponent == NumberOfDigits(n.mantissa) - NumberOfDigits(r.mantissa)
  {
    var n := Normalized(d.mantissa, d.exponent);
    if NumberOfDigits(n.mantissa) <= precision {
      TruncDivOne(n.mantissa);
    } else {
      DigitsOfQuotient(n.mantissa, NumberOfDigits(n.mantissa) - precision);
    }
  }

  lemma TruncDivOne(m: int)
    ensures TruncDiv(m, Pow10(0)) == m
  {
  }

  /**
   * Truncation moves toward zero by less than one unit of the last digit kept:
   * the result lies between zero and the value, within 10^exponent of it.
   */
  lemma TruncatedValue(d: BigDecimal, precision: int)
    requires precision >= 1
    ensures var r := Truncated(d, precision);
      && (Value(d) >= 0.0 ==> 0.0 <= Value(r) <= Value(d))
      && (Value(d) <= 0.0 ==> Value(d) <= Value(r) <= 0.0)
      && Value(d) - Value(r) < Value(BigDecimal(1, r.exponent))
      && Value(r) - Value(d) < Value(BigDecimal(1, r.exponent))
  {
    var n := Normalized(d.mantissa, d.exponent);
    var k := Max(0, NumberOfDigits(n.mantissa) - precision);
    var q := TruncDiv(n.mantissa, Pow10(k));
    assert d == BigDecimal(d.mantissa, d.exponent);
    TruncatedMagnitude(n.mantissa, Pow10(k));
    ValueBetween(n.mantissa, q * Pow10(k), Pow10(k), n.exponent);
    ValueShift(q, n.exponent, k);
    ValueShift(1, n.exponent, k);
  }

  /** Dividing toward zero and multiplying back lands between zero and `n`, within `p` of it. */
  lemma TruncatedMagnitude(n: int, p: int)
    requires p > 0
    ensures var t := TruncDiv(n, p) * p;
      && (n >= 0 ==> 0 <= t <= n)
      && (n <= 0 ==> n <= t <= 0)
      && n - t < p && t - n < p
  {
    var q := TruncDiv(n, p);
    TruncDivSpec(n, p);
    assert TruncDivFacts(n, p, q);
    if q >= 0 {
      MulMonotone(p, 0, q);
    } else {
      MulMonotone(p, q, 0);
    }
  }

  /** The order facts of `TruncatedMagnitude`, carried to the values at a common exponent. */
  lemma ValueBetween(n: int, t: int, p: int, e: int)
    requires n >= 0 ==> 0 <= t <= n
    requires n <= 0 ==> n <= t <= 0
    requires n - t < p && t - n < p
    ensures var vn, vt, vp := Value(BigDecimal(n, e)), Value(BigDecimal(t, e)), Value(BigDecimal(p, e));
      && (vn >= 0.0 ==> 0.0 <= vt <= vn)
      && (vn <= 0.0 ==> vn <= vt <= 0.0)
      && vn - vt < vp && vt - vn < vp
  {
    ValueZero(BigDecimal(0, e));
    SameExponentOrder(n, 0, e);
    SameExponentOrder(t, 0, e);
    SameExponentOrder(t, n, e);
    SameExponentOrder(n, t, e);
    SameExponentOrder(n - t, p, e);
    SameExponentOrder(t - n, p, e);
    SameExponentDifference(n, t, e);
    SameExponentDifference(t, n, e);
  }

  lemma SameExponentDifference(x: int, y: int, e: int)
    ensures Value(BigDecimal(x - y, e)) == Value(BigDecimal(x, e)) - Value(BigDecimal(y, e))
  {
    ScaledAdd((x - y) as real, y as real, e);
  }

  /** Truncation does not normalise again: 101 to two digits keeps a trailing zero. */
  lemma TruncatedNotNormalized()
    ensures Truncated(BigDecimal(101, 0), 2) == BigDecimal(10, 1)
    ensures !Canonical(Truncated(BigDecimal(101, 0), 2))
  {
    assert NatToString(101) == "101";
  }
}
