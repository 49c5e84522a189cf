/**
 * Integer helpers shared by the model: powers of ten and two, magnitude,
 * the truncating division of C#'s `BigInteger` and the wrap-around of
 * C#'s unchecked 32-bit `int` arithmetic.
 */
module Integers {

  const INT32_MIN: int := -0x8000_0000
  const INT32_MAX: int := 0x7FFF_FFFF
  const UINT32_MAX: int := 0xFFFF_FFFF
  /** `ushort.MaxValue` */
  const USHORT_MAX: int := 0xFFFF
  const TWO_63: int := 0x8000_0000_0000_0000
  const TWO_64: int := 0x1_0000_0000_0000_0000

  predicate InInt32(x: int) { INT32_MIN <= x <= INT32_MAX }

  function Abs(x: int): nat { if x < 0 then -x else x }

  function Max(a: int, b: int): int { if a < b then b else a }

  function Pow10(n: nat): (r: nat)
    ensures r >= 1
  {
    if n == 0 then 1 else 10 * Pow10(n - 1)
  }

  function Pow2(n: nat): (r: nat)
    ensures r >= 1
  {
    if n == 0 then 1 else 2 * Pow2(n - 1)
  }

  lemma {:induction false} Pow10Add(a: nat, b: nat)
    ensures Pow10(a + b) == Pow10(a) * Pow10(b)
  {
    if b > 0 {
      Pow10Add(a, b - 1);
      MulByTen(Pow10(a), Pow10(b - 1), Pow10(b));
    }
  }

  /** x·z == 10·(x·y) when z == 10·y: one factor of ten moved out of a product. */
  lemma MulByTen(x: int, y: int, z: int)
    requires z == 10 * y
    ensures x * z == 10 * (x * y)
  {
  }

  lemma {:induction false} Pow10Monotone(a: nat, b: nat)
    requires a <= b
    ensures Pow10(a) <= Pow10(b)
  {
    if a < b {
      Pow10Monotone(a, b - 1);
    }
  }

  lemma {:induction false} Pow2Add(a: nat, b: nat)
    ensures Pow2(a + b) == Pow2(a) * Pow2(b)
  {
    if b > 0 {
      Pow2Add(a, b - 1);
      MulByTwo(Pow2(a), Pow2(b - 1), Pow2(b));
    }
  }

  lemma MulByTwo(x: int, y: int, z: int)
    requires z == 2 * y
    ensures x * z == 2 * (x * y)
  {
  }

  /** Multiplying by a non-negative factor keeps the order. */
  lemma MulMonotone(d: nat, a: int, b: int)
    ensures a <= b ==> d * a <= d * b
  {
  }

  /** Multiplying by a positive factor turns a gap of one into a gap of the factor. */
  lemma MulStrict(d: int, a: int, b: int)
    requires d > 0
    ensures a < b ==> d * a + d <= d * b
  {
    MulMonotone(d, a + 1, b);
    MulDistributes(d, a, 1);
  }

  lemma MulDistributes(d: int, a: int, b: int)
    ensures d * (a + b) == d * a + d * b
  {
  }

  /** The quotient and remainder of floor division are the only ones in range. */
  lemma DivUnique(x: int, d: int, q: int, r: int)
    requires d > 0 && x == d * q + r && 0 <= r < d
    ensures x / d == q && x % d == r
  {
    var q0, r0 := x / d, x % d;
    assert x == d * q0 + r0;
    MulStrict(d, q0, q);
    MulStrict(d, q, q0);
  }

  /** Dividing twice is dividing by the product (non-negative operands, floor division). */
  lemma DivDiv(x: nat, a: nat, b: nat)
    requires a > 0 && b > 0
    ensures x / a / b == x / (a * b)
  {
    var q, r := x / a, x % a;
    var q2, r2 := q / b, q % b;
    assert x == a * q + r;
    assert q == b * q2 + r2;
    SplitProduct(a, q, b, q2, r2);
    MulMonotone(a, r2, b - 1);
    MulDistributes(a, b, -1);
    DivUnique(x, a * b, q2, a * r2 + r);
  }

  /** a·q == (a·b)·q2 + a·r2 when q == b·q2 + r2. */
  lemma SplitProduct(a: int, q: int, b: int, q2: int, r2: int)
    requires q == b * q2 + r2
    ensures a * q == (a * b) * q2 + a * r2
  {
  }

  /** Floor division by a larger divisor gives a smaller quotient. */
  lemma DivAntiMonotone(x: nat, a: nat, b: nat)
    requires 0 < a <= b
    ensures x / b <= x / a
  {
    var qa, qb := x / a, x / b;
    assert x == a * qa + x % a && x == b * qb + x % b;
    MulMonotone(qb, a, b);
    MulStrict(a, qa, qb);
  }

  /** A quotient is below `c` whenever the dividend is below `c` times the divisor. */
  lemma DivBelow(x: nat, d: nat, c: nat)
    requires d > 0 && x < c * d
    ensures x / d < c
  {
    assert x == d * (x / d) + x % d;
    MulMonotone(d, c, x / d);
  }

  /** A quotient is at least `c` whenever the dividend is at least `c` times the divisor. */
  lemma DivAtLeast(x: nat, d: nat, c: nat)
    requires d > 0 && x >= c * d
    ensures x / d >= c
  {
    assert x == d * (x / d) + x % d;
    MulStrict(d, x / d, c);
  }

  /** Division truncated toward zero, as C#'s `BigInteger` `/` does. */
  function TruncDiv(a: int, b: int): int
    requires b != 0
  {
    if (a < 0) == (b < 0) then Abs(a) / Abs(b) else -(Abs(a) / Abs(b))
  }

  /**
   * What truncating division promises: the remainder is smaller than the
   * divisor in magnitude and carries the sign of the dividend (or is zero);
   * the quotient's magnitude is the quotient of the magnitudes, and its sign
   * is the product of the signs.
   */
  lemma TruncDivSpec(a: int, b: int)
    requires b != 0
    ensures TruncDivFacts(a, b, TruncDiv(a, b))
  {
    var n, d := Abs(a), Abs(b);
    DivisionOfMagnitudes(n, d);
    if a >= 0 && b > 0 {
      TruncDivCase(a, b, TruncDiv(a, b), n / d, n % d, 1, 1);
    } else if a >= 0 {
      TruncDivCase(a, b, TruncDiv(a, b), n / d, n % d, 1, -1);
    } else if b > 0 {
      TruncDivCase(a, b, TruncDiv(a, b), n / d, n % d, -1, 1);
    } else {
      TruncDivCase(a, b, TruncDiv(a, b), n / d, n % d, -1, -1);
    }
  }

  /**
   * The remainder is smaller than the divisor in magnitude and carries the
   * sign of the dividend (or is zero); the quotient's magnitude is the
   * quotient of the magnitudes, its sign the product of the signs.
   */
  predicate TruncDivFacts(a: int, b: int, q: int)
    requires b != 0
  {
    && Abs(a - q * b) < Abs(b)
    && (a - q * b == 0 || (a - q * b < 0 <==> a < 0))
    && Abs(q) == Abs(a) / Abs(b)
    && (q == 0 || (q < 0 <==> (a < 0) != (b < 0)))
  }

  /** One sign combination: a == sa·|a|, b == sb·|b|, q == sa·sb·m. */
  lemma TruncDivCase(a: int, b: int, q: int, m: int, r: int, sa: int, sb: int)
    requires b != 0 && (sa == 1 || sa == -1) && (sb == 1 || sb == -1)
    requires a == sa * Abs(a) && b == sb * Abs(b) && (a < 0 <==> sa == -1) && (b < 0 <==> sb == -1)
    requires Abs(a) == Abs(b) * m + r && 0 <= r < Abs(b) && m >= 0 && m == Abs(a) / Abs(b)
    requires q == sa * sb * m
    ensures TruncDivFacts(a, b, q)
  {
    SignedRemainder(sa, sb, Abs(a), Abs(b), m, r);
  }

  lemma SignedRemainder(sa: int, sb: int, n: int, d: int, m: int, r: int)
    requires sa == 1 || sa == -1
    requires sb == 1 || sb == -1
    requires n == d * m + r
    ensures sa * n - (sa * sb * m) * (sb * d) == sa * r
  {
    assert sb * sb == 1;
    calc {
      (sa * sb * m) * (sb * d);
      sa * (sb * sb) * (m * d);
      sa * (m * d);
    }
  }

  lemma DivisionOfMagnitudes(n: nat, d: int)
    requires d > 0
    ensures n == d * (n / d) + n % d && 0 <= n % d < d && n / d >= 0
  {
  }

  /** The remainder left by `TruncDiv`, as C#'s `BigInteger.DivRem` reports it. */
  function TruncRem(a: int, b: int): int
    requires b != 0
  {
    a - TruncDiv(a, b) * b
  }

  /**
   * By a positive divisor, the truncated remainder is zero exactly when the
   * floor remainder is, and then both quotients agree.
   */
  lemma TruncRemZero(a: int, b: int)
    requires b > 0
    ensures TruncRem(a, b) == 0 <==> a % b == 0
    ensures a % b == 0 ==> TruncDiv(a, b) == a / b
  {
    var q := TruncDiv(a, b);
    var k := a / b;
    TruncDivSpec(a, b);
    if TruncRem(a, b) == 0 {
      DivUnique(a, b, q, 0);
    }
    if a % b == 0 {
      assert a - q * b == b * (k - q);
      MulMonotone(b, 1, k - q);
      MulMonotone(b, k - q, -1);
    }
  }

  /** Truncating division twice is truncating division by the product. */
  lemma TruncDivTwice(a: int, b: nat, c: nat)
    requires b > 0 && c > 0
    ensures TruncDiv(TruncDiv(a, b), c) == TruncDiv(a, b * c)
  {
    PositiveProduct(b, c);
    if a < 0 {
      TruncDivOdd(-a, b);
      TruncDivOdd(TruncDiv(-a, b), c);
      TruncDivTwiceNat(-a, b, c);
      TruncDivOdd(-a, b * c);
    } else {
      TruncDivTwiceNat(a, b, c);
    }
  }

  lemma TruncDivTwiceNat(a: nat, b: int, c: int)
    requires b > 0 && c > 0
    ensures TruncDiv(TruncDiv(a, b), c) == TruncDiv(a, b * c)
  {
    PositiveProduct(b, c);
    DivDiv(a, b, c);
    DivNonNegative(a, b);
    assert TruncDiv(a, b) == a / b;
  }

  lemma DivNonNegative(a: int, b: int)
    requires a >= 0 && b > 0
    ensures a / b >= 0
  {
  }

  /** Truncating division is odd in the dividend. */
  lemma TruncDivOdd(a: int, b: int)
    requires b > 0
    ensures TruncDiv(-a, b) == -TruncDiv(a, b)
  {
    ZeroDiv(b);
  }

  lemma PositiveProduct(b: int, c: int)
    requires b > 0 && c > 0
    ensures b * c > 0
  {
  }

  lemma ZeroDiv(c: int)
    requires c > 0
    ensures 0 / c == 0
  {
  }

  /**
   * C#'s unchecked `int` arithmetic: the value congruent to `x` modulo 2^32
   * that lies in the `int` range.
   */
  function Wrap32(x: int): (r: int)
    ensures InInt32(r)
    ensures (x - r) % 0x1_0000_0000 == 0
    ensures InInt32(x) ==> r == x
  {
    var r := (x - INT32_MIN) % 0x1_0000_0000 + INT32_MIN;
    assert InInt32(x) ==> r == x by {
      if InInt32(x) {
        DivUnique(x - INT32_MIN, 0x1_0000_0000, 0, x - INT32_MIN);
      }
    }
    r
  }

  /** The C# narrowing cast `(ushort)x`: the low 16 bits. */
  function LowUShort(x: int): (r: int)
    ensures 0 <= r <= USHORT_MAX
    ensures (x - r) % 0x1_0000 == 0
    ensures 0 <= x <= USHORT_MAX ==> r == x
  {
    var r := x % 0x1_0000;
    assert 0 <= x <= USHORT_MAX ==> r == x by {
      if 0 <= x <= USHORT_MAX {
        DivUnique(x, 0x1_0000, 0, x);
      }
    }
    r
  }
}
