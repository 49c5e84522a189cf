/**
 * Primality of 64-bit integers: a guard for small and even numbers in front
 * of a deterministic Miller-Rabin test over fixed bases, with its own
 * shift-and-add modular multiplication and square-and-multiply power on
 * unsigned 64-bit words.
 */
module Int64Extensions {

  import opened Integers
  import opened Primes

  const INT64_MIN: int := -TWO_63
  const INT64_MAX: int := TWO_63 - 1

  // ---------------------------------------------------------------------
  // Residues

  /** Adding a multiple of m does not change the residue. */
  lemma ModAddMultiple(k: int, c: int, m: int)
    requires m > 0
    ensures (m * k + c) % m == c % m
  {
    var q := c / m;
    assert c == m * q + c % m;
    MulDistributes(m, k, q);
    DivUnique(m * k + c, m, k + q, c % m);
  }

  lemma ProductSplit(x: int, y: int, m: int, q: int, r: int, qy: int, s: int)
    requires x == m * q + r && y == m * qy + s
    ensures x * y == m * (q * y + r * qy) + r * s
  {
    assert x * y == m * q * y + r * y;
    assert r * y == r * (m * qy) + r * s;
    assert r * (m * qy) == m * (r * qy);
    MulDistributes(m, q * y, r * qy);
  }

  /** The residue of a product is that of the product of the residues. */
  lemma ProductMod(x: int, y: int, m: int)
    requires m > 0
    ensures (x * y) % m == ((x % m) * (y % m)) % m
  {
    var q, r, qy, s := x / m, x % m, y / m, y % m;
    ProductSplit(x, y, m, q, r, qy, s);
    ModAddMultiple(q * y + r * qy, r * s, m);
  }

  /** Residues of products depend only on the residues of the factors. */
  lemma ProductResidue(x: int, x': int, y: int, y': int, m: int)
    requires m > 0 && x % m == x' % m && y % m == y' % m
    ensures (x * y) % m == (x' * y') % m
  {
    ProductMod(x, y, m);
    ProductMod(x', y', m);
  }

  /** a to the power p. */
  function Power(a: int, p: nat): int
  {
    if p == 0 then 1 else a * Power(a, p - 1)
  }

  lemma {:induction false} PowerAdd(a: int, p: nat, q: nat)
    ensures Power(a, p + q) == Power(a, p) * Power(a, q)
    decreases p
  {
    if p > 0 {
      PowerAdd(a, p - 1, q);
      assert Power(a, p + q) == a * Power(a, p - 1 + q);
    }
  }

  lemma {:induction false} PowerOfSquare(a: int, k: nat)
    ensures Power(a * a, k) == Power(a, 2 * k)
    decreases k
  {
    if k > 0 {
      PowerOfSquare(a, k - 1);
      assert Power(a, 2 * k) == a * (a * Power(a, 2 * (k - 1)));
    }
  }

  lemma {:induction false} PowerResidue(x: int, y: int, p: nat, m: int)
    requires m > 0 && x % m == y % m
    ensures Power(x, p) % m == Power(y, p) % m
    decreases p
  {
    if p > 0 {
      PowerResidue(x, y, p - 1, m);
      ProductResidue(x, y, Power(x, p - 1), Power(y, p - 1), m);
    }
  }

  // ---------------------------------------------------------------------
  // MillerRabin_Mul

  /**
   * What the loop `while (now > mod) now -= mod` leaves behind: zero stays
   * zero and a positive value lands in 1..mod, so a multiple of `mod`
   * comes out as `mod` itself rather than 0.
   */
  function Reduce(x: nat, mod: nat): (r: nat)
    requires mod > 0
    ensures r <= mod && (r == 0 <==> x == 0) && r % mod == x % mod
  {
    if x == 0 then 0
    else
      ModAddMultiple((x - 1) / mod, (x - 1) % mod + 1, mod);
      (x - 1) % mod + 1
  }

  lemma ReduceSmall(x: nat, mod: nat)
    requires 0 < mod && x <= mod
    ensures Reduce(x, mod) == x
  {
    if x > 0 {
      DivUnique(x - 1, mod, 0, x - 1);
    }
  }

  lemma ReduceShift(z: int, k: int, mod: nat)
    requires mod > 0 && z > 0 && z - k * mod > 0
    ensures Reduce(z - k * mod, mod) == Reduce(z, mod)
  {
    assert z - k * mod - 1 == mod * (-k) + (z - 1);
    ModAddMultiple(-k, z - 1, mod);
  }

  /** One pass of the subtraction loop keeps the reduced value. */
  lemma ReduceSubtract(x: nat, mod: nat)
    requires 0 < mod < x
    ensures Reduce(x - mod, mod) == Reduce(x, mod)
  {
    ReduceShift(x, 1, mod);
  }

  lemma ReduceForm(x: nat, mod: nat)
    requires mod > 0 && x > 0
    ensures Reduce(x, mod) == x - (x - 1) / mod * mod && (x - 1) / mod >= 0
  {
    DivNonNegative(x - 1, mod);
  }

  /** Reducing before adding y changes nothing. */
  lemma ReduceAdd(x: nat, y: nat, mod: nat)
    requires mod > 0
    ensures Reduce(Reduce(x, mod) + y, mod) == Reduce(x + y, mod)
  {
    if x > 0 {
      ReduceForm(x, mod);
      ReduceShift(x + y, (x - 1) / mod, mod);
    }
  }

  /** Reducing before doubling changes nothing. */
  lemma ReduceDouble(x: nat, mod: nat)
    requires mod > 0
    ensures Reduce(2 * Reduce(x, mod), mod) == Reduce(2 * x, mod)
  {
    if x > 0 {
      ReduceForm(x, mod);
      var k := (x - 1) / mod;
      assert 2 * Reduce(x, mod) == 2 * x - (2 * k) * mod;
      ReduceShift(2 * x, 2 * k, mod);
    }
  }

  /** `(a >> i) & 1` on a nonnegative word. */
  function Bit(a: nat, i: nat): nat
  {
    (a / Pow2(i)) % 2
  }

  /** (a >> i) · b: the bits of a from position i up, times b. */
  function HighTimes(a: nat, b: nat, i: nat): nat
  {
    DivNonNegative(a, Pow2(i));
    Times(a / Pow2(i), b)
  }

  /** The product of two naturals, as a natural. */
  function Times(x: nat, y: nat): nat
  {
    x * y
  }

  lemma DoubleTimes(p: int, c: int, b: int)
    ensures (2 * p + c) * b == 2 * (p * b) + c * b
  {
  }

  /** The bits of a from position i up are twice those from i + 1 up, plus bit i. */
  lemma HighBits(a: nat, i: nat)
    ensures a / Pow2(i) == 2 * (a / Pow2(i + 1)) + Bit(a, i)
  {
    DivDiv(a, Pow2(i), 2);
    assert Pow2(i + 1) == Pow2(i) * 2;
  }

  lemma Pow2Of8()
    ensures Pow2(8) == 256
  {
  }

  lemma Pow2Of16()
    ensures Pow2(16) == 0x1_0000
  {
    Pow2Of8();
    Pow2Add(8, 8);
  }

  lemma Pow2Of32()
    ensures Pow2(32) == 0x1_0000_0000
  {
    Pow2Of16();
    Pow2Add(16, 16);
  }

  lemma Pow2Of64()
    ensures Pow2(64) == TWO_64
  {
    Pow2Of32();
    Pow2Add(32, 32);
  }

  /** The loop `while (now > mod) now -= mod`, which appears twice in `MillerRabin_Mul`. */
  method SubtractWhileAbove(x: nat, mod: nat) returns (now: nat)
    requires mod > 0
    ensures now == Reduce(x, mod)
  {
    now := x;
    while now > mod
      invariant Reduce(now, mod) == Reduce(x, mod)
      decreases now
    {
      ReduceSubtract(now, mod);
      now := now - mod;
    }
    ReduceSmall(now, mod);
  }

  /**
   * `MillerRabin_Mul` (Int64Extensions.cs:50-63): a·b reduced into 0..mod
   * by shifting in the bits of a from the highest set bit down. Unsigned
   * 64-bit shifts and additions wrap modulo 2^64; in the range the
   * precondition allows they never do.
   */
  method Mul(a: nat, b: nat, mod: nat) returns (now: nat)
    requires a < TWO_64 && 0 < mod < TWO_63 && b <= mod
    ensures now == Reduce(Times(a, b), mod)
  {
    var i := 63;
    Pow2Of64();
    DivBelow(a, Pow2(64), 1);
    while i >= 0
      invariant -1 <= i <= 63
      invariant a / Pow2(i + 1) == 0
      decreases i + 1
    {
      if Bit(a, i) == 1 {
        break;
      }
      HighBits(a, i);
      i := i - 1;
    }
    now := 0;
    while i >= 0
      invariant -1 <= i <= 63
      invariant now == Reduce(HighTimes(a, b, i + 1), mod)
      decreases i + 1
    {
      DivUnique(now * 2, TWO_64, 0, now * 2);
      var doubled := (now * 2) % TWO_64;
      var reduced := SubtractWhileAbove(doubled, mod);
      var added := reduced;
      if Bit(a, i) == 1 {
        DivUnique(reduced + b, TWO_64, 0, reduced + b);
        added := (reduced + b) % TWO_64;
      }
      MulStep(a, b, mod, i, now, reduced, added);
      now := SubtractWhileAbove(added, mod);
      i := i - 1;
    }
    assert Pow2(0) == 1;
  }

  /** One round of the shift-and-add loop brings in bit i of a. */
  lemma MulStep(a: nat, b: nat, mod: nat, i: nat, now: nat, reduced: nat, added: nat)
    requires mod > 0
    requires now == Reduce(HighTimes(a, b, i + 1), mod)
    requires reduced == Reduce(now * 2, mod)
    requires added == reduced + Bit(a, i) * b
    ensures Reduce(added, mod) == Reduce(HighTimes(a, b, i), mod)
  {
    var high := HighTimes(a, b, i + 1);
    ReduceDouble(high, mod);
    ReduceAdd(2 * high, Bit(a, i) * b, mod);
    HighBits(a, i);
    DoubleTimes(a / Pow2(i + 1), Bit(a, i), b);
  }

  // ---------------------------------------------------------------------
  // MillerRabin_Pow

  /** The square-and-multiply recursion of `MillerRabin_Pow`, on the reduced products `Mul` returns. */
  function PowMod(a: nat, p: nat, mod: nat): nat
    requires mod > 0
    decreases p
  {
    if p == 0 then 1
    else if p % 2 == 0 then PowMod(Reduce(Times(a, a), mod), p / 2, mod)
    else Reduce(Times(PowMod(a, p - 1, mod), a), mod)
  }

  /** The recursion computes a^p up to a multiple of mod, and stays within 0..mod. */
  lemma {:induction false} PowModResidue(a: nat, p: nat, mod: nat)
    requires mod > 0
    ensures PowMod(a, p, mod) <= mod
    ensures PowMod(a, p, mod) % mod == Power(a, p) % mod
    decreases p
  {
    if p == 0 {
    } else if p % 2 == 0 {
      var sq := Reduce(Times(a, a), mod);
      PowModResidue(sq, p / 2, mod);
      PowerResidue(sq, a * a, p / 2, mod);
      PowerOfSquare(a, p / 2);
    } else {
      var t := PowMod(a, p - 1, mod);
      PowModResidue(a, p - 1, mod);
      ProductResidue(t, Power(a, p - 1), a, a, mod);
      assert Power(a, p) == Power(a, p - 1) * a;
    }
  }

  /** `MillerRabin_Pow` (Int64Extensions.cs:65-70). */
  method Pow(a: nat, p: nat, mod: nat) returns (r: nat)
    requires 0 < mod < TWO_63 && a <= mod
    ensures r == PowMod(a, p, mod) && r <= mod
    decreases p
  {
    if p == 0 {
      return 1;
    }
    if p % 2 == 0 {
      var sq := Mul(a, a, mod);
      r := Pow(sq, p / 2, mod);
      return;
    }
    var t := Pow(a, p - 1, mod);
    r := Mul(t, a, mod);
  }

  // ---------------------------------------------------------------------
  // MillerRabin

  /**
   * The fixed bases: {2, 7, 61} below 4759123141, the first seven primes
   * below 341550071728321, the first nine primes above.
   */
  function Bases(n: nat): seq<nat>
  {
    if n < 4759123141 then [2, 7, 61]
    else if n < 341550071728321 then [2, 3, 5, 7, 11, 13, 17]
    else [2, 3, 5, 7, 11, 13, 17, 19, 23]
  }

  /** The odd part of x > 0. */
  function OddPart(x: nat): nat
    requires x > 0
    decreases x
  {
    if x % 2 == 1 then x else OddPart(x / 2)
  }

  /** How often 2 divides x > 0. */
  function Valuation(x: nat): nat
    requires x > 0
    decreases x
  {
    if x % 2 == 1 then 0 else 1 + Valuation(x / 2)
  }

  /** x = OddPart(x) · 2^Valuation(x), and the odd part is odd. */
  lemma {:induction false} OddPartValuation(x: nat)
    requires x > 0
    ensures OddPart(x) % 2 == 1
    ensures OddPart(x) * Pow2(Valuation(x)) == x
    decreases x
  {
    if x % 2 == 0 {
      OddPartValuation(x / 2);
      MulByTwo(OddPart(x), Pow2(Valuation(x / 2)), Pow2(Valuation(x)));
    }
  }

  /** a^(d·2^j): the value after j squarings of a^d. */
  function Squared(a: nat, d: nat, j: nat): int
  {
    Power(a, d * Pow2(j))
  }

  lemma SquaredStep(a: nat, d: nat, j: nat)
    requires j >= 1
    ensures Squared(a, d, j) == Squared(a, d, j - 1) * Squared(a, d, j - 1)
  {
    var h := d * Pow2(j - 1);
    MulByTwo(d, Pow2(j - 1), Pow2(j));
    PowerAdd(a, h, h);
  }

  /**
   * Base a passes the strong probable-prime test for n - 1 = d·2^s:
   * a^d is 1 or -1 modulo n, or one of the squarings 1..s-1 reaches -1.
   * With s = 0 (n even) every base passes, as the code's `j == s` test never
   * fires then.
   */
  predicate StrongProbablePrime(n: nat, a: nat, d: nat, s: nat)
    requires n >= 2
  {
    || Power(a, d) % n == 1
    || Power(a, d) % n == n - 1
    || s == 0
    || exists j :: 1 <= j < s && Squared(a, d, j) % n == n - 1
  }

  /** `Math.Min(n - 2, b)`: a base never above n - 2. */
  function Capped(n: nat, b: nat): nat
    requires n >= 2
  {
    if n - 2 < b then n - 2 else b
  }

  /** Every base, capped at n - 2, passes the test for n - 1 = OddPart · 2^Valuation. */
  predicate MillerRabinAccepts(n: nat)
    requires n >= 2
  {
    forall i :: 0 <= i < |Bases(n)| ==>
      StrongProbablePrime(n, Capped(n, Bases(n)[i]), OddPart(n - 1), Valuation(n - 1))
  }

  /** A value in 0..n congruent to x is c exactly when x is, modulo n (for 1 <= c < n). */
  lemma ResidueTest(now: nat, x: int, n: nat, c: nat)
    requires n >= 2 && now <= n && now % n == x % n && 1 <= c < n
    ensures now == c <==> x % n == c
  {
    if now == n {
      DivUnique(now, n, 1, 0);
    } else {
      DivUnique(now, n, 0, now);
    }
    DivUnique(c, n, 0, c);
  }

  /** The halving loop leaves the odd part of n - 1 and the number of halvings. */
  lemma OddPartDone(x: nat, d: nat, s: nat)
    requires x > 0 && d >= 1 && d % 2 == 1
    requires OddPart(d) == OddPart(x) && s + Valuation(d) == Valuation(x)
    ensures d == OddPart(x) && s == Valuation(x)
  {
  }

  /** A base whose power a^d is 1 or -1 modulo n passes. */
  lemma PassesAtStart(n: nat, a: nat, d: nat, s: nat, now: nat)
    requires n >= 2 && now <= n && now % n == Power(a, d) % n
    requires now == 1 || now == n - 1
    ensures StrongProbablePrime(n, a, d, s)
  {
    ResidueTest(now, Power(a, d), n, 1);
    ResidueTest(now, Power(a, d), n, n - 1);
  }

  /** A base whose j-th squaring is -1 modulo n, j < s, passes. */
  lemma PassesAtSquaring(n: nat, a: nat, d: nat, s: nat, j: nat)
    requires n >= 2 && 1 <= j < s && Squared(a, d, j) % n == n - 1
    ensures StrongProbablePrime(n, a, d, s)
  {
  }

  /** A base that is not 1 or -1 at first and never -1 on squarings 1..s-1 fails. */
  lemma FailsAfterSquarings(n: nat, a: nat, d: nat, s: nat, now: nat)
    requires n >= 2 && s >= 1 && now <= n && now % n == Power(a, d) % n
    requires now != 1 && now != n - 1
    requires forall k :: 1 <= k < s ==> Squared(a, d, k) % n != n - 1
    ensures !StrongProbablePrime(n, a, d, s)
  {
    ResidueTest(now, Power(a, d), n, 1);
    ResidueTest(now, Power(a, d), n, n - 1);
  }

  /** Squaring a value congruent to the (j-1)-th square gives one congruent to the j-th. */
  lemma SquaringResidue(n: nat, a: nat, d: nat, j: nat, before: nat, now: nat)
    requires n >= 2 && j >= 1 && before % n == Squared(a, d, j - 1) % n
    requires now == Reduce(Times(before, before), n)
    ensures now % n == Squared(a, d, j) % n
  {
    SquaredStep(a, d, j);
    ProductResidue(before, Squared(a, d, j - 1), before, Squared(a, d, j - 1), n);
  }

  lemma SquaredZero(a: nat, d: nat)
    ensures Squared(a, d, 0) == Power(a, d)
  {
    assert Pow2(0) == 1;
  }

  /** `MillerRabin` (Int64Extensions.cs:24-48). */
  method MillerRabin(n: nat) returns (r: bool)
    requires 2 <= n < TWO_63
    ensures r <==> MillerRabinAccepts(n)
  {
    var ar := Bases(n);
    var d: nat := n - 1;
    var s: nat := 0;
    while d % 2 == 0
      invariant d >= 1 && OddPart(d) == OddPart(n - 1)
      invariant s + Valuation(d) == Valuation(n - 1)
      decreases d
    {
      d := d / 2;
      s := s + 1;
    }
    OddPartDone(n - 1, d, s);
    var i := 0;
    while i < |ar|
      invariant 0 <= i <= |ar|
      invariant forall k :: 0 <= k < i ==> StrongProbablePrime(n, Capped(n, ar[k]), d, s)
    {
      var a: nat := Capped(n, ar[i]);
      var passes := TestBase(n, a, d, s);
      if !passes {
        return false;
      }
      i := i + 1;
    }
    return true;
  }

  /**
   * One round of the outer loop of `MillerRabin` (Int64Extensions.cs:36-45):
   * a^d modulo n, then up to s - 1 squarings looking for n - 1. The round
   * fails exactly when the inner loop runs out, `j == s`.
   */
  method TestBase(n: nat, a: nat, d: nat, s: nat) returns (passes: bool)
    requires 2 <= n < TWO_63 && a <= n
    ensures passes <==> StrongProbablePrime(n, a, d, s)
  {
    var now: nat := Pow(a, d, n);
    PowModResidue(a, d, n);
    if now == 1 || now == n - 1 {
      PassesAtStart(n, a, d, s, now);
      return true;
    }
    ghost var first := now;
    var j: nat := 1;
    SquaredZero(a, d);
    while j < s
      invariant 1 <= j && (s >= 1 ==> j <= s)
      invariant now <= n && now % n == Squared(a, d, j - 1) % n
      invariant forall k :: 1 <= k < j ==> Squared(a, d, k) % n != n - 1
      decreases s - j
    {
      ghost var before := now;
      now := Mul(now, now, n);
      SquaringResidue(n, a, d, j, before, now);
      ResidueTest(now, Squared(a, d, j), n, n - 1);
      if now == n - 1 {
        break;
      }
      j := j + 1;
    }
    if j == s {
      FailsAfterSquarings(n, a, d, s, first);
      return false;
    }
    if s >= 1 {
      PassesAtSquaring(n, a, d, s, j);
    }
    return true;
  }

  /**
   * `IsPrime` (Int64Extensions.cs:7-18): below 2 is not prime, an even
   * number is prime only when it is 2, and an odd number from 3 up goes to
   * the Miller-Rabin test, where the cast to an unsigned word changes
   * nothing.
   */
  method IsPrime(number: int) returns (r: bool)
    requires INT64_MIN <= number <= INT64_MAX
    ensures number < 2 ==> !r
    ensures number >= 2 && number % 2 == 0 ==> (r <==> Prime(number))
    ensures number >= 3 && number % 2 == 1 ==> (r <==> MillerRabinAccepts(number))
  {
    if number < 2 {
      return false;
    }
    if number % 2 == 0 {
      if number != 2 {
        assert Divides(2, number);
      }
      return number == 2;
    }
    r := MillerRabin(number);
  }

  // ---------------------------------------------------------------------
  // Properties

  /**
   * `MillerRabin_Mul` returns the residue of a·b, except that a positive
   * multiple of mod comes out as mod rather than 0.
   */
  lemma ReduceIsResidue(x: nat, mod: nat)
    requires mod > 0
    ensures Reduce(x, mod) == if x == 0 then 0 else if x % mod == 0 then mod else x % mod
  {
    if x > 0 {
      var q := (x - 1) / mod;
      var r := (x - 1) % mod;
      if r == mod - 1 {
        DivUnique(x, mod, q + 1, 0);
      } else {
        DivUnique(x, mod, q, r + 1);
      }
    }
  }

  /** For instance 2·3 modulo 3 comes out as 3. */
  lemma MulReturnsModulus()
    ensures Reduce(Times(2, 3), 3) == 3
  {
    ReduceIsResidue(6, 3);
  }

  /**
   * An even n has an odd n - 1, so there are no squarings and every base
   * passes: `MillerRabin` on its own accepts every even number; `IsPrime`
   * never calls it with one.
   */
  lemma MillerRabinAcceptsEven(n: nat)
    requires n >= 2 && n % 2 == 0
    ensures MillerRabinAccepts(n)
  {
    assert Valuation(n - 1) == 0;
  }

  /** Below 4759123141 the test runs on the bases 2, 7 and 61. */
  lemma AcceptsBelow(n: nat, d: nat, s: nat)
    requires 2 <= n < 4759123141 && d == OddPart(n - 1) && s == Valuation(n - 1)
    ensures MillerRabinAccepts(n) <==>
      && StrongProbablePrime(n, Capped(n, 2), d, s)
      && StrongProbablePrime(n, Capped(n, 7), d, s)
      && StrongProbablePrime(n, Capped(n, 61), d, s)
  {
    var ar := Bases(n);
    assert ar == [2, 7, 61];
    if
      && StrongProbablePrime(n, Capped(n, 2), d, s)
      && StrongProbablePrime(n, Capped(n, 7), d, s)
      && StrongProbablePrime(n, Capped(n, 61), d, s)
    {
      forall i | 0 <= i < |ar|
        ensures StrongProbablePrime(n, Capped(n, ar[i]), d, s)
      {
        if i == 0 {
        } else if i == 1 {
        } else {
          assert ar[i] == 61;
        }
      }
    }
    if MillerRabinAccepts(n) {
      assert ar[0] == 2 && ar[1] == 7 && ar[2] == 61;
    }
  }

  /** A base that is 1 modulo n at once passes. */
  lemma PassesWithOne(n: nat, a: nat, d: nat, s: nat)
    requires n >= 2 && Power(a, d) % n == 1
    ensures StrongProbablePrime(n, a, d, s)
  {
  }

  lemma SmallOddParts()
    ensures OddPart(2) == 1 && Valuation(2) == 1
    ensures OddPart(4) == 1 && Valuation(4) == 2
    ensures OddPart(6) == 3 && Valuation(6) == 1
    ensures OddPart(8) == 1 && Valuation(8) == 3
  {
  }

  lemma SmallSquares()
    ensures Squared(2, 1, 1) == 4 && Squared(3, 1, 1) == 9
  {
    assert Pow2(1) == 2;
  }

  lemma SquaredTwoTwice()
    ensures Squared(2, 1, 2) == 16
  {
    assert Pow2(2) == 4;
    assert Power(2, 4) == 16;
  }

  lemma SmallPowers()
    ensures Power(1, 1) == 1 && Power(2, 1) == 2 && Power(2, 3) == 8 && Power(5, 3) == 125
  {
  }

  /** The small cases of the primality tests (Int64ExtensionsTests.cs:20-62). */
  lemma MillerRabinThree(n: nat)
    requires n == 3
    ensures MillerRabinAccepts(n)
  {
    SmallOddParts();
    SmallPowers();
    AcceptsBelow(n, 1, 1);
    PassesWithOne(n, 1, 1, 1);
  }

  lemma MillerRabinFive(n: nat)
    requires n == 5
    ensures MillerRabinAccepts(n)
  {
    SmallOddParts();
    SmallSquares();
    AcceptsBelow(n, 1, 2);
    PassesAtSquaring(n, 2, 1, 2, 1);
    PassesAtSquaring(n, 3, 1, 2, 1);
  }

  lemma MillerRabinSeven(n: nat)
    requires n == 7
    ensures MillerRabinAccepts(n)
  {
    SmallOddParts();
    SmallPowers();
    AcceptsBelow(n, 3, 1);
    PassesWithOne(n, 2, 3, 1);
    PassesAtStart(n, 5, 3, 1, 6);
  }

  /** 9 = 3 · 3 is rejected by base 2: 2, 4 and 7 are never 8 modulo 9. */
  lemma MillerRabinNine(n: nat)
    requires n == 9
    ensures !MillerRabinAccepts(n)
  {
    SmallOddParts();
    SmallPowers();
    SmallSquares();
    SquaredTwoTwice();
    AcceptsBelow(n, 1, 3);
    FailsAfterSquarings(n, 2, 1, 3, 2);
  }
}
