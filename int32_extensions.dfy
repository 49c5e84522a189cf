/**
 * Primality of 32-bit integers by trial division with odd numbers up to
 * the square root.
 */
module Int32Extensions {

  import opened Integers
  import opened Primes

  /**
   * `IsPrime` (Int32Extensions.cs:12-22). `(int)Math.Sqrt(number)` is the
   * exact integer square root here: for a positive 32-bit number the
   * rounded double square root never crosses an integer.
   */
  method IsPrime(number: int) returns (r: bool)
    requires InInt32(number)
    ensures r <==> Prime(number)
  {
    if number < 2 {
      return false;
    }
    if number % 2 == 0 {
      if number != 2 {
        assert Divides(2, number);
      }
      return number == 2;
    }
    var root: int := FloorSqrt(number);
    var i: int := 3;
    ghost var k: nat := 0;
    OddHasNoEvenDivisor(number, 1);
    while i <= root
      invariant i == 2 * k + 3 && i <= Max(root + 2, 3)
      invariant forall d :: 2 <= d < i ==> !Divides(d, number)
      decreases root + 2 - i
    {
      if number % i == 0 {
        BelowRoot(number, root, i);
        assert Divides(i, number);
        return false;
      }
      OddHasNoEvenDivisor(number, k + 2);
      i := i + 2;
      k := k + 1;
    }
    NoDivisorUpToRoot(number, root, i);
    return true;
  }

  /** A candidate no greater than the root lies strictly below the number. */
  lemma BelowRoot(number: int, root: int, i: int)
    requires number >= 2 && root * root <= number && 3 <= i <= root
    ensures i < number
  {
    MulMonotone(root, 1, root);
  }

  /** Without a divisor up to the square root, the number is prime. */
  lemma NoDivisorUpToRoot(number: int, root: nat, i: int)
    requires number >= 2 && number < (root + 1) * (root + 1) && i > root
    requires forall d :: 2 <= d < i ==> !Divides(d, number)
    ensures Prime(number)
  {
    if !Prime(number) {
      var d := SmallDivisor(number);
      if d > root {
        SquareMonotone(root + 1, d);
      }
      assert false;
    }
  }
}
