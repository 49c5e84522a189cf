/**
 * The operators of `BigDecimal` (BigDecimal.cs:288-393, 430-464): exact
 * addition, subtraction and multiplication, division to a precision,
 * comparison after aligning exponents, structural equality, and the
 * conversions from and to C# `int`/`uint`.
 *
 * Every operator that builds its result with the constructor returns the
 * normalised value (the constructor's `AlwaysTruncate` branch has no effect,
 * see `BigDecimals.New`). The static `Precision` is the parameter `precision`.
 */
module BigDecimalOperators {
  import opened Integers
  import opened NumberText
  import opened Wrappers
  import opened BigDecimals

  /**
   * `AlignExponent` (BigDecimal.cs:390-393): the mantissa of `value`
   * expressed at the (smaller) exponent of `reference`.
   */
  function AlignExponent(value: BigDecimal, reference: BigDecimal): (r: int)
    requires value.exponent >= reference.exponent
    ensures Value(BigDecimal(r, reference.exponent)) == Value(value)
  {
    AlignValue(value, reference);
    value.mantissa * Pow10(value.exponent - reference.exponent)
  }

  lemma AlignValue(value: BigDecimal, reference: BigDecimal)
    requires value.exponent >= reference.exponent
    ensures Value(BigDecimal(value.mantissa * Pow10(value.exponent - reference.exponent), reference.exponent)) == Value(value)
  {
    ValueShift(value.mantissa, reference.exponent, value.exponent - reference.exponent);
    assert value == BigDecimal(value.mantissa, reference.exponent + (value.exponent - reference.exponent));
  }

  /** The implicit conversion from `int` (BigDecimal.cs:240-243): `new BigDecimal(value, 0)`. */
  function FromInt(value: int): (r: BigDecimal)
    requires InInt32(value)
    ensures Canonical(r) && Value(r) == value as real
  {
    Normalized(value, 0)
  }

  /** Unary minus (BigDecimal.cs:307-311): flips the mantissa's sign and nothing else. */
  function Negate(d: BigDecimal): (r: BigDecimal)
    ensures r.exponent == d.exponent && Value(r) == -Value(d)
    ensures Canonical(d) ==> Canonical(r)
  {
    NegateValue(d.mantissa, d.exponent);
    NegateDigit(d.mantissa);
    BigDecimal(-d.mantissa, d.exponent)
  }

  lemma NegateValue(m: int, e: int)
    ensures Value(BigDecimal(-m, e)) == -Value(BigDecimal(m, e))
  {
    SameExponentSum(m, -m, e);
    ValueZero(BigDecimal(0, e));
  }

  lemma NegateDigit(m: int)
    ensures (-m) % 10 == 0 <==> m % 10 == 0
  {
    var q := m / 10;
    assert m == 10 * q + m % 10;
    if m % 10 == 0 {
      assert -m == 10 * (-q);
    }
    if (-m) % 10 == 0 {
      assert m == 10 * (-((-m) / 10));
    }
  }

  /**
   * Addition (BigDecimal.cs:323-326, 333-338): the operand with the larger exponent is
   * aligned to the other one, the mantissas are added, and the constructor
   * normalises the sum. Exact.
   */
  function Add(left: BigDecimal, right: BigDecimal): (r: BigDecimal)
    ensures Canonical(r) && Value(r) == Value(left) + Value(right)
  {
    if left.exponent > right.exponent then
      AlignedSum(left, right);
      Normalized(AlignExponent(left, right) + right.mantissa, right.exponent)
    else
      AlignedSum(right, left);
      Normalized(AlignExponent(right, left) + left.mantissa, left.exponent)
  }

  lemma AlignedSum(value: BigDecimal, reference: BigDecimal)
    requires value.exponent >= reference.exponent
    ensures Value(BigDecimal(AlignExponent(value, reference) + reference.mantissa, reference.exponent))
      == Value(value) + Value(reference)
  {
    SameExponentSum(AlignExponent(value, reference), reference.mantissa, reference.exponent);
    assert reference == BigDecimal(reference.mantissa, reference.exponent);
  }

  /** Subtraction (BigDecimal.cs:328-331): adding the negated right operand. Exact. */
  function Subtract(left: BigDecimal, right: BigDecimal): (r: BigDecimal)
    ensures Canonical(r) && Value(r) == Value(left) - Value(right)
  {
    Add(left, Negate(right))
  }

  /** `++` (BigDecimal.cs:313-316): adds the integer 1. */
  function Increment(d: BigDecimal): (r: BigDecimal)
    ensures Canonical(r) && Value(r) == Value(d) + 1.0
  {
    Add(d, FromInt(1))
  }

  /** `--` (BigDecimal.cs:318-321): subtracts the integer 1. */
  function Decrement(d: BigDecimal): (r: BigDecimal)
    ensures Canonical(r) && Value(r) == Value(d) - 1.0
  {
    Subtract(d, FromInt(1))
  }

  /** Multiplication (BigDecimal.cs:340-343): mantissas multiply, exponents add. Exact. */
  function Multiply(left: BigDecimal, right: BigDecimal): (r: BigDecimal)
    ensures Canonical(r) && Value(r) == Value(left) * Value(right)
  {
    ValueProduct(left, right);
    Normalized(left.mantissa * right.mantissa, left.exponent + right.exponent)
  }

  // ---------------------------------------------------------------------
  // Division

  /**
   * The number of powers of ten the dividend is scaled up by before the
   * integer division: `Precision` minus the difference in digit counts, and
   * never negative (BigDecimal.cs:347-351).
   */
  function DivisionScale(dividend: BigDecimal, divisor: BigDecimal, precision: int): nat
  {
    Max(0, precision - (NumberOfDigits(dividend.mantissa) - NumberOfDigits(divisor.mantissa)))
  }

  /** The quotient before the constructor normalises it. */
  function RawQuotient(dividend: BigDecimal, divisor: BigDecimal, precision: int): BigDecimal
    requires divisor.mantissa != 0
  {
    var k := DivisionScale(dividend, divisor, precision);
    BigDecimal(TruncDiv(dividend.mantissa * Pow10(k), divisor.mantissa), dividend.exponent - divisor.exponent - k)
  }

  /**
   * Division (BigDecimal.cs:345-354): the scaled dividend mantissa divided by
   * the divisor mantissa, truncating toward zero. A zero divisor mantissa
   * throws `DivideByZeroException` in C#, hence the precondition.
   */
  function Divide(dividend: BigDecimal, divisor: BigDecimal, precision: int): (r: BigDecimal)
    requires divisor.mantissa != 0
    ensures Canonical(r) && Value(r) == Value(RawQuotient(dividend, divisor, precision))
  {
    var k := DivisionScale(dividend, divisor, precision);
    Normalized(TruncDiv(dividend.mantissa * Pow10(k), divisor.mantissa), dividend.exponent - divisor.exponent - k)
  }

  /**
   * `q` is `dividend / divisor` truncated toward zero at the exponent
   * `dividend.exponent - k`: the remainder `dividend - q * divisor` is zero or
   * has the dividend's sign, and is smaller in magnitude than
   * |divisor mantissa| × 10^(dividend exponent - k).
   */
  predicate TruncatedQuotient(dividend: BigDecimal, divisor: BigDecimal, q: BigDecimal, k: int)
  {
    RemainderWithin(Value(dividend) - Value(q) * Value(divisor), Value(dividend),
      Value(BigDecimal(Abs(divisor.mantissa), dividend.exponent - k)))
  }

  /** `rem` is smaller than `bound` in magnitude and is zero or has the sign of `x`. */
  predicate RemainderWithin(rem: real, x: real, bound: real)
  {
    && -bound < rem < bound
    && (rem == 0.0 || (rem < 0.0 <==> x < 0.0))
  }

  /** The quotient `Divide` returns is the truncated exact quotient. */
  lemma DivisionRemainder(dividend: BigDecimal, divisor: BigDecimal, precision: int)
    requires divisor.mantissa != 0
    ensures TruncatedQuotient(dividend, divisor, Divide(dividend, divisor, precision), DivisionScale(dividend, divisor, precision))
  {
    var k := DivisionScale(dividend, divisor, precision);
    var q := Divide(dividend, divisor, precision);
    var raw := RawQuotient(dividend, divisor, precision);
    var e := dividend.exponent - k;
    QuotientTimesDivisor(q, raw, divisor, e);
    ScaledDividend(dividend, k);
    IntegerRemainder(dividend.mantissa, k, divisor.mantissa);
    var n := dividend.mantissa * Pow10(k);
    var t := raw.mantissa * divisor.mantissa;
    assert raw.mantissa == TruncDiv(n, divisor.mantissa);
    RemainderAtExponent(n, t, Abs(divisor.mantissa), e);
    ValueSign(dividend);
    assert Value(dividend) - Value(q) * Value(divisor) == Value(BigDecimal(n, e)) - Value(BigDecimal(t, e));
    assert RemainderWithin(Value(BigDecimal(n, e)) - Value(BigDecimal(t, e)), Value(dividend),
      Value(BigDecimal(Abs(divisor.mantissa), e)));
    assert TruncatedQuotient(dividend, divisor, q, k);
  }

  /** The dividend is unchanged in value by scaling its mantissa up by 10^k. */
  lemma ScaledDividend(dividend: BigDecimal, k: nat)
    ensures Value(BigDecimal(dividend.mantissa * Pow10(k), dividend.exponent - k)) == Value(dividend)
  {
    ValueShift(dividend.mantissa, dividend.exponent - k, k);
    assert dividend == BigDecimal(dividend.mantissa, dividend.exponent - k + k);
  }

  /** The remainder of the scaled mantissa division, at the integer level. */
  lemma IntegerRemainder(m: int, k: nat, d: int)
    requires d != 0
    ensures var n := m * Pow10(k);
      var t := TruncDiv(n, d) * d;
      && -(Abs(d) as int) < n - t < Abs(d)
      && (n - t == 0 || (n - t < 0 <==> m < 0))
  {
    var n := m * Pow10(k);
    TruncDivSpec(n, d);
    assert TruncDivFacts(n, d, TruncDiv(n, d));
    SignOfScaled(m, k);
  }

  /** The normalised quotient times the divisor is the raw quotient's mantissa times the divisor's, at `e`. */
  lemma QuotientTimesDivisor(q: BigDecimal, raw: BigDecimal, divisor: BigDecimal, e: int)
    requires Value(q) == Value(raw) && raw.exponent + divisor.exponent == e
    ensures Value(q) * Value(divisor) == Value(BigDecimal(raw.mantissa * divisor.mantissa, e))
  {
    ValueProduct(raw, divisor);
    EqualFactor(Value(q), Value(raw), Value(divisor));
  }

  lemma EqualFactor(x: real, y: real, z: real)
    requires x == y
    ensures x * z == y * z
  {
  }

  /** The integer remainder facts, carried to values at exponent `e`. */
  lemma RemainderAtExponent(n: int, t: int, bound: int, e: int)
    requires -bound < n - t < bound
    ensures var rem := Value(BigDecimal(n, e)) - Value(BigDecimal(t, e));
      && -Value(BigDecimal(bound, e)) < rem < Value(BigDecimal(bound, e))
      && (rem == 0.0 <==> n - t == 0)
      && (rem < 0.0 <==> n - t < 0)
  {
    SameExponentDifference(n, t, e);
    SameExponentOrder(n - t, bound, e);
    SameExponentOrder(-bound, n - t, e);
    NegateValue(bound, e);
    SameExponentOrder(n - t, 0, e);
    ValueZero(BigDecimal(0, e));
  }

  lemma SignOfScaled(m: int, k: nat)
    ensures m * Pow10(k) < 0 <==> m < 0
  {
    if m < 0 {
      MulMonotone(Pow10(k), m, -1);
    } else {
      MulMonotone(Pow10(k), 0, m);
    }
  }

  /** The value has the sign of the mantissa. */
  lemma ValueSign(d: BigDecimal)
    ensures Value(d) < 0.0 <==> d.mantissa < 0
  {
    ScaledSign(d.mantissa as real, d.exponent);
  }

  /**
   * The raw quotient has at most `digits(dividend) + k - digits(divisor) + 1`
   * digits (and at least one); when the dividend was scaled (k > 0) that is
   * `precision + 1`, one more than the class's documentation promises.
   */
  lemma DivisionDigits(dividend: BigDecimal, divisor: BigDecimal, precision: int)
    requires divisor.mantissa != 0
    ensures var k := DivisionScale(dividend, divisor, precision);
      var q := Divide(dividend, divisor, precision);
      && NumberOfDigits(q.mantissa) <= NumberOfDigits(RawQuotient(dividend, divisor, precision).mantissa)
      && NumberOfDigits(RawQuotient(dividend, divisor, precision).mantissa)
         <= Max(1, NumberOfDigits(dividend.mantissa) + k - NumberOfDigits(divisor.mantissa) + 1)
      && (k > 0 ==> NumberOfDigits(RawQuotient(dividend, divisor, precision).mantissa) <= Max(1, precision + 1))
  {
    var k := DivisionScale(dividend, divisor, precision);
    var raw := RawQuotient(dividend, divisor, precision);
    NormalizedDigits(raw.mantissa, raw.exponent);
    QuotientDigits(dividend.mantissa, divisor.mantissa, k);
  }

  lemma QuotientDigits(m1: int, m2: int, k: nat)
    requires m2 != 0
    ensures NumberOfDigits(TruncDiv(m1 * Pow10(k), m2)) <= Max(1, NumberOfDigits(m1) + k - NumberOfDigits(m2) + 1)
  {
    var d1, d2 := NumberOfDigits(m1), NumberOfDigits(m2);
    var n := m1 * Pow10(k);
    var q := TruncDiv(n, m2);
    TruncDivSpec(n, m2);
    assert Abs(q) == Abs(n) / Abs(m2);
    DigitsBounds(m1);
    DigitsBounds(m2);
    ScaledMagnitude(m1, k, d1);
    // |n| < 10^(d1 + k) and |m2| >= 10^(d2 - 1)
    if d1 + k + 1 <= d2 {
      Pow10Monotone(d1 + k, d2 - 1);
      DivBelow(Abs(n), Abs(m2), 1);
      DigitsBounds(q);
    } else {
      var c := d1 + k - d2 + 1;
      Pow10Add(c, d2 - 1);
      MulMonotone(Pow10(c), Pow10(d2 - 1), Abs(m2));
      DivBelow(Abs(n), Abs(m2), Pow10(c));
      LengthBelow(Abs(q), c);
    }
  }

  /** |m·10^k| < 10^(d + k) when |m| < 10^d. */
  lemma ScaledMagnitude(m: int, k: nat, d: nat)
    requires Abs(m) < Pow10(d)
    ensures Abs(m * Pow10(k)) < Pow10(d + k)
  {
    Pow10Add(d, k);
    AbsProduct(m, Pow10(k));
    MulStrict(Pow10(k), Abs(m), Pow10(d));
  }

  lemma AbsProduct(m: int, p: nat)
    ensures Abs(m * p) == Abs(m) * p
  {
    if m < 0 {
      assert m * p == -(Abs(m) * p);
      MulMonotone(p, 0, Abs(m));
    }
  }

  /** Nine divided by two to one digit of precision is 4.5: two digits. */
  lemma DivisionExample()
    ensures Divide(FromInt(9), FromInt(2), 1) == BigDecimal(45, -1)
    ensures NumberOfDigits(Divide(FromInt(9), FromInt(2), 1).mantissa) == 2
  {
    assert FromInt(9) == BigDecimal(9, 0);
    assert FromInt(2) == BigDecimal(2, 0);
    assert NumberOfDigits(9) == 1 && NumberOfDigits(2) == 1;
    assert DivisionScale(BigDecimal(9, 0), BigDecimal(2, 0), 1) == 1;
    assert Pow10(1) == 10;
    assert TruncDiv(90, 2) == 45;
    assert Normalized(45, -1) == BigDecimal(45, -1);
    assert NatToString(45) == NatToString(4) + [DigitChar(5)];
  }

  // ---------------------------------------------------------------------
  // Comparison

  /** `<` (BigDecimal.cs:366-369): compares the mantissas at the smaller exponent. */
  function Less(left: BigDecimal, right: BigDecimal): (r: bool)
    ensures r <==> Value(left) < Value(right)
  {
    if left.exponent > right.exponent then
      AlignedOrder(left, right);
      AlignExponent(left, right) < right.mantissa
    else
      AlignedOrder(right, left);
      left.mantissa < AlignExponent(right, left)
  }

  /** `>` (BigDecimal.cs:371-374). */
  function Greater(left: BigDecimal, right: BigDecimal): (r: bool)
    ensures r <==> Value(left) > Value(right)
  {
    if left.exponent > right.exponent then
      AlignedOrder(left, right);
      AlignExponent(left, right) > right.mantissa
    else
      AlignedOrder(right, left);
      left.mantissa > AlignExponent(right, left)
  }

  /** `<=` (BigDecimal.cs:376-379). */
  function LessOrEqual(left: BigDecimal, right: BigDecimal): (r: bool)
    ensures r <==> Value(left) <= Value(right)
  {
    if left.exponent > right.exponent then
      AlignedOrder(left, right);
      AlignExponent(left, right) <= right.mantissa
    else
      AlignedOrder(right, left);
      left.mantissa <= AlignExponent(right, left)
  }

  /** `>=` (BigDecimal.cs:381-384). */
  function GreaterOrEqual(left: BigDecimal, right: BigDecimal): (r: bool)
    ensures r <==> Value(left) >= Value(right)
  {
    if left.exponent > right.exponent then
      AlignedOrder(left, right);
      AlignExponent(left, right) >= right.mantissa
    else
      AlignedOrder(right, left);
      left.mantissa >= AlignExponent(right, left)
  }

  /** At the reference's exponent, the aligned mantissa orders as the values do. */
  lemma AlignedOrder(value: BigDecimal, reference: BigDecimal)
    requires value.exponent >= reference.exponent
    ensures AlignExponent(value, reference) < reference.mantissa <==> Value(value) < Value(reference)
    ensures AlignExponent(value, reference) > reference.mantissa <==> Value(value) > Value(reference)
    ensures AlignExponent(value, reference) == reference.mantissa <==> Value(value) == Value(reference)
  {
    var a := AlignExponent(value, reference);
    SameExponentOrder(a, reference.mantissa, reference.exponent);
    SameExponentOrder(reference.mantissa, a, reference.exponent);
    assert reference == BigDecimal(reference.mantissa, reference.exponent);
  }

  /** `==` (BigDecimal.cs:356-359), and `Equals(BigDecimal)` (BigDecimal.cs:430-433): field by field. */
  function Equal(left: BigDecimal, right: BigDecimal): (r: bool)
    ensures r <==> left == right
  {
    left.exponent == right.exponent && left.mantissa == right.mantissa
  }

  /** `!=` (BigDecimal.cs:361-364): some field differs. */
  function NotEqual(left: BigDecimal, right: BigDecimal): (r: bool)
    ensures r <==> !Equal(left, right)
  {
    left.exponent != right.exponent || left.mantissa != right.mantissa
  }

  /** On normalised values, structural equality is equality of the numbers. */
  lemma EqualOnCanonical(left: BigDecimal, right: BigDecimal)
    requires Canonical(left) && Canonical(right)
    ensures Equal(left, right) <==> Value(left) == Value(right)
  {
    if Value(left) == Value(right) {
      CanonicalUnique(left, right);
    }
  }

  /** Off normalised values it is not: (10, 0) and (1, 1) are both ten. */
  lemma EqualIsStructural()
    ensures Value(BigDecimal(10, 0)) == Value(BigDecimal(1, 1))
    ensures !Equal(BigDecimal(10, 0), BigDecimal(1, 1))
  {
  }

  /** `CompareTo(BigDecimal)` (BigDecimal.cs:461-464): -1, 0 or 1 by `<` and `>`. */
  function CompareTo(self: BigDecimal, other: BigDecimal): (r: int)
    ensures r == -1 <==> Value(self) < Value(other)
    ensures r == 0 <==> Value(self) == Value(other)
    ensures r == 1 <==> Value(self) > Value(other)
  {
    if Less(self, other) then -1 else if Greater(self, other) then 1 else 0
  }

  /** A C# `object` argument: null, a boxed `BigDecimal`, or anything else. */
  datatype Object = Null | Boxed(decimal: BigDecimal) | OtherObject

  /** `Equals(object)` (BigDecimal.cs:435-442): false for null and for non-`BigDecimal` objects. */
  function EqualsObject(self: BigDecimal, obj: Object): (r: bool)
    ensures r <==> obj == Boxed(self)
  {
    match obj
    case Null => false
    case OtherObject => false
    case Boxed(other) => Equal(other, self)
  }

  datatype ArgumentException = ArgumentException

  /** `CompareTo(object)` (BigDecimal.cs:452-459): throws for null and non-`BigDecimal` objects. */
  function CompareToObject(self: BigDecimal, obj: Object): (r: Result<int, ArgumentException>)
    ensures r.Failure? <==> !obj.Boxed?
    ensures obj.Boxed? ==> r == Success(CompareTo(self, obj.decimal))
  {
    match obj
    case Boxed(other) => Success(CompareTo(self, other))
    case _ => Failure(ArgumentException)
  }

  // ---------------------------------------------------------------------
  // Conversions to int and uint

  /** Why an explicit conversion throws. */
  datatype ConversionError =
    | NegativePower   // BigInteger.Pow(10, exponent) with exponent < 0
    | Overflow        // the integer does not fit the target type

  /**
   * The explicit conversion to `int` (BigDecimal.cs:288-291):
   * mantissa × 10^exponent as a `BigInteger`, then narrowed.
   */
  function ToInt(d: BigDecimal): (r: Result<int, ConversionError>)
    ensures d.exponent < 0 ==> r == Failure(NegativePower)
    ensures d.exponent >= 0 ==>
      (r.Success? <==> INT32_MIN as real <= Value(d) <= INT32_MAX as real)
    ensures r.Success? ==> InInt32(r.value) && r.value as real == Value(d)
  {
    if d.exponent < 0 then Failure(NegativePower)
    else
      var v := d.mantissa * Pow10(d.exponent);
      IntegerValue(d);
      if InInt32(v) then Success(v) else Failure(Overflow)
  }

  /** The explicit conversion to `uint` (BigDecimal.cs:293-296). */
  function ToUInt(d: BigDecimal): (r: Result<int, ConversionError>)
    ensures d.exponent < 0 ==> r == Failure(NegativePower)
    ensures d.exponent >= 0 ==>
      (r.Success? <==> 0.0 <= Value(d) <= UINT32_MAX as real)
    ensures r.Success? ==> 0 <= r.value <= UINT32_MAX && r.value as real == Value(d)
  {
    if d.exponent < 0 then Failure(NegativePower)
    else
      var v := d.mantissa * Pow10(d.exponent);
      IntegerValue(d);
      if 0 <= v <= UINT32_MAX then Success(v) else Failure(Overflow)
  }

  /** With a non-negative exponent, the value is the integer mantissa × 10^exponent. */
  lemma IntegerValue(d: BigDecimal)
    requires d.exponent >= 0
    ensures (d.mantissa * Pow10(d.exponent)) as real == Value(d)
  {
    ValueShift(d.mantissa, 0, d.exponent);
    assert d == BigDecimal(d.mantissa, 0 + d.exponent);
  }

  // ---------------------------------------------------------------------
  // Properties relating several operators

  /** Subtracting what was added gives the same number back. */
  lemma AddThenSubtract(a: BigDecimal, b: BigDecimal)
    requires Canonical(a)
    ensures Subtract(Add(a, b), b) == a
  {
    CanonicalUnique(Subtract(Add(a, b), b), a);
  }

  /** Increment and decrement undo each other on normalised values. */
  lemma IncrementDecrement(d: BigDecimal)
    requires Canonical(d)
    ensures Decrement(Increment(d)) == d && Increment(Decrement(d)) == d
  {
    CanonicalUnique(Decrement(Increment(d)), d);
    CanonicalUnique(Increment(Decrement(d)), d);
  }

  /** Addition and multiplication commute. */
  lemma Commutative(a: BigDecimal, b: BigDecimal)
    ensures Add(a, b) == Add(b, a)
    ensures Multiply(a, b) == Multiply(b, a)
  {
    CanonicalUnique(Add(a, b), Add(b, a));
    CanonicalUnique(Multiply(a, b), Multiply(b, a));
  }

  /** `CompareTo` is antisymmetric. */
  lemma CompareToAntisymmetric(a: BigDecimal, b: BigDecimal)
    ensures CompareTo(a, b) == -CompareTo(b, a)
  {
  }

  /** The test of BigDecimalTests.cs:57-63: 18446744073709551615 + 1 == 18446744073709551616. */
  lemma AddCarriesIntoNewDigit()
    ensures Add(BigDecimal(18446744073709551615, 0), FromInt(1)) == BigDecimal(18446744073709551616, 0)
  {
    assert FromInt(1) == BigDecimal(1, 0);
    assert AlignExponent(BigDecimal(1, 0), BigDecimal(18446744073709551615, 0)) == 1;
    assert 18446744073709551616 % 10 == 6;
    NormalizedUnique(18446744073709551616, 0, BigDecimal(18446744073709551616, 0));
  }
}
