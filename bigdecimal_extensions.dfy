/**
 * The factorial of a `BigDecimal`: multiply 1, 2, 3, ... into the product
 * while the counter is at most the argument, using the type's own `<=`,
 * `*` and `++`.
 */
module BigDecimalExtensions {

  import opened Integers
  import opened Wrappers
  import opened BigDecimals
  import opened BigDecimalOperators
  import opened NumberText
  import BigDecimalText
  import BigIntegerExtensions

  /**
   * How many times the loop body runs: the counter takes the values
   * 1, 2, ... as long as they are at most the argument, so this is the
   * number of positive integers not above `Value(number)`.
   */
  function FactorCount(number: BigDecimal): (n: nat)
    ensures n == 0 || n as real <= Value(number)
    ensures Value(number) < (n + 1) as real
  {
    if Value(number) < 1.0 then 0 else Value(number).Floor
  }

  /** `Factoral` (BigDecimalExtensions.cs:8-18). */
  method Factoral(number: BigDecimal) returns (fact: BigDecimal)
    ensures fact == Normalized(BigIntegerExtensions.Factorial(FactorCount(number)), 0)
  {
    fact := FromInt(1);
    var i := FromInt(1);
    ghost var k: nat := 0;
    while LessOrEqual(i, number)
      invariant Value(i) == (k + 1) as real
      invariant fact == Normalized(BigIntegerExtensions.Factorial(k), 0)
      invariant k <= FactorCount(number)
      decreases FactorCount(number) - k
    {
      MultiplyNext(fact, i, k);
      fact := Multiply(fact, i);
      i := Increment(i);
      k := k + 1;
    }
  }

  /** Multiplying k! by a decimal worth k + 1 gives (k + 1)! in canonical form. */
  lemma MultiplyNext(fact: BigDecimal, i: BigDecimal, k: nat)
    requires Value(i) == (k + 1) as real
    requires fact == Normalized(BigIntegerExtensions.Factorial(k), 0)
    ensures Multiply(fact, i) == Normalized(BigIntegerExtensions.Factorial(k + 1), 0)
  {
    var f := BigIntegerExtensions.Factorial(k);
    var g := BigIntegerExtensions.Factorial(k + 1);
    assert Value(fact) == f as real by {
      assert Value(BigDecimal(f, 0)) == f as real;
    }
    assert g == f * (k + 1);
    IntProduct(f, k + 1);
    assert Value(BigDecimal(g, 0)) == g as real;
    NormalizedUnique(g, 0, Multiply(fact, i));
  }

  /**
   * On a whole number the loop runs exactly that many times, and not at
   * all below 1: the same count as the arbitrary-precision integer
   * `Factoral`, so the two agree.
   */
  lemma FactorCountOfInteger(x: int)
    ensures FactorCount(Normalized(x, 0)) == if x < 1 then 0 else x
  {
    assert Value(BigDecimal(x, 0)) == x as real;
  }

  /** The values the factorial tests expect for 0 to 5 (BigDecimalExtensionsTests.cs:11-22). */
  lemma FactoralSmall()
    ensures Normalized(BigIntegerExtensions.Factorial(FactorCount(FromInt(0))), 0) == FromInt(1)
    ensures Normalized(BigIntegerExtensions.Factorial(FactorCount(FromInt(1))), 0) == FromInt(1)
    ensures Normalized(BigIntegerExtensions.Factorial(FactorCount(FromInt(2))), 0) == FromInt(2)
    ensures Normalized(BigIntegerExtensions.Factorial(FactorCount(FromInt(3))), 0) == FromInt(6)
    ensures Normalized(BigIntegerExtensions.Factorial(FactorCount(FromInt(4))), 0) == FromInt(24)
    ensures Normalized(BigIntegerExtensions.Factorial(FactorCount(FromInt(5))), 0) == FromInt(120)
  {
    FactorCountOfInteger(0);
    FactorCountOfInteger(1);
    FactorCountOfInteger(2);
    FactorCountOfInteger(3);
    FactorCountOfInteger(4);
    FactorCountOfInteger(5);
    BigIntegerExtensions.FactorialSmall();
  }

  /**
   * The large factorial test (BigDecimalExtensionsTests.cs:24-32): parsing
   * the text of 100 and taking the factorial gives the parsed text of 100!.
   */
  lemma FactoralHundred()
    ensures BigDecimalText.ParseText(Some(NatToString(100))) == Success(Normalized(100, 0))
    ensures var f := BigIntegerExtensions.Factorial(FactorCount(Normalized(100, 0)));
      BigDecimalText.ParseText(Some(NatToString(f))) == Success(Normalized(f, 0))
    ensures BigIntegerExtensions.Factorial(FactorCount(Normalized(100, 0))) == BigIntegerExtensions.Factorial(100)
  {
    BigDecimalText.ParseThenAdd(100);
    FactorCountOfInteger(100);
    BigDecimalText.ParseThenAdd(BigIntegerExtensions.Factorial(100));
  }
}
