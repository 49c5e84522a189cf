/**
 * Divisibility, primality and the integer square root, the mathematical
 * notions the primality tests and `Sqrt` are proved against.
 */
module Primes {

  import opened Integers

  /** `d` divides `n`. */
  predicate Divides(d: int, n: int)
    requires d != 0
  {
    n % d == 0
  }

  /** A prime: at least 2 and no divisor strictly between 1 and itself. */
  predicate Prime(n: int)
  {
    n >= 2 && forall d :: 2 <= d < n ==> !Divides(d, n)
  }

  /** The largest r with r·r <= n, by counting up from 0. */
  function FloorSqrt(n: nat): (r: nat)
    ensures r * r <= n < (r + 1) * (r + 1)
  {
    if n == 0 then 0
    else
      var s := FloorSqrt(n - 1);
      if (s + 1) * (s + 1) <= n then
        assert (s + 2) * (s + 2) == (s + 1) * (s + 1) + 2 * s + 3;
        s + 1
      else s
  }

  /** Only one r has r·r <= n < (r+1)·(r+1). */
  lemma RootUnique(n: nat, r: nat, t: nat)
    requires r * r <= n < (r + 1) * (r + 1)
    requires t * t <= n < (t + 1) * (t + 1)
    ensures r == t
  {
    if r < t {
      SquareMonotone(r + 1, t);
    } else if t < r {
      SquareMonotone(t + 1, r);
    }
  }

  lemma SquareMonotone(a: nat, b: nat)
    requires a <= b
    ensures a * a <= b * b
  {
    assert a * a <= a * b <= b * b;
  }

  /**
   * A number that is not prime has a divisor no greater than its square
   * root, which is why trial division can stop there.
   */
  lemma SmallDivisor(n: int) returns (d: int)
    requires n >= 2 && !Prime(n)
    ensures 2 <= d && d * d <= n && Divides(d, n)
  {
    var e :| 2 <= e < n && Divides(e, n);
    var q := n / e;
    DivisionOfMagnitudes(n, e);
    assert n == e * q;
    assert q >= 2 by {
      MulMonotone(e, q, 1);
    }
    assert Divides(q, n) by {
      DivUnique(n, q, e, 0);
    }
    if e <= q {
      d := e;
      MulMonotone(e, e, q);
    } else {
      d := q;
      MulMonotone(q, q, e);
    }
  }

  /** An odd number has no even divisor 2·h. */
  lemma OddHasNoEvenDivisor(n: int, h: int)
    requires n % 2 == 1 && h > 0
    ensures !Divides(2 * h, n)
  {
    if Divides(2 * h, n) {
      var q := n / (2 * h);
      assert n == (2 * h) * q;
      assert (2 * h) * q == 2 * (h * q) by {
        MulByTwo(q, h, 2 * h);
      }
      DivUnique(n, 2, h * q, 0);
    }
  }
}
