/**
 * Extension operations on arbitrary-precision integers: the integer square
 * root by Newton's method, the primality guard in front of a Miller-Rabin
 * test, and the factorial by repeated multiplication.
 */
module BigIntegerExtensions {

  import opened Integers
  import opened Primes

  /** n! as a mathematical function. */
  function Factorial(n: nat): (r: nat)
    ensures r >= 1
  {
    if n == 0 then 1 else n * Factorial(n - 1)
  }

  /**
   * Newton's iteration for the square root: start just above number/2 and
   * step to the mean of n1 and number/n1 while that still decreases.
   * `x >> 1` on a big integer rounds toward minus infinity, which is what
   * Dafny's `x / 2` does.
   */
  method Sqrt(number: int) returns (root: int)
    requires number >= 0
    ensures root >= 0 && root * root <= number < (root + 1) * (root + 1)
    ensures root == FloorSqrt(number)
  {
    if number == 0 {
      return 0;
    }
    var n1 := number / 2 + 1;
    var n2 := (n1 + number / n1) / 2;
    StartAboveRoot(number, n1);
    while n2 < n1
      invariant n1 >= 1 && number < (n1 + 1) * (n1 + 1)
      invariant n2 == (n1 + number / n1) / 2
      decreases n1
    {
      NewtonStep(number, n1, n2);
      n1 := n2;
      n2 := (n1 + number / n1) / 2;
    }
    NewtonStops(number, n1, n2);
    root := n1;
    RootUnique(number, root, FloorSqrt(number));
  }

  /** The starting point number/2 + 1 lies above the root. */
  lemma StartAboveRoot(number: int, n1: int)
    requires number >= 1 && n1 == number / 2 + 1
    ensures number < (n1 + 1) * (n1 + 1)
  {
    var h := number / 2;
    assert number <= 2 * h + 1;
    assert (h + 2) * (h + 2) == h * h + 4 * h + 4;
  }

  /**
   * One Newton step keeps the estimate above the root: by the mean
   * inequality 4·n1·(q+1) <= (n1+q+1)² <= 4·(n2+1)², and number < n1·(q+1).
   */
  lemma NewtonStep(number: int, n1: int, n2: int)
    requires number >= 1 && n1 >= 1 && n2 == (n1 + number / n1) / 2
    ensures n2 >= 1 && number < (n2 + 1) * (n2 + 1)
  {
    var t := number / n1 + 1;
    DivisionOfMagnitudes(number, n1);
    assert number < n1 * t by {
      MulDistributes(n1, number / n1, 1);
    }
    var u := n2 + 1;
    assert n1 + t <= 2 * u;
    MeanInequality(n1, t);
    SquareMonotone(n1 + t, 2 * u);
    TimesFour(number, n1 * t, u);
  }

  /** 4·a·b <= (a+b)², the mean inequality. */
  lemma MeanInequality(a: int, b: int)
    ensures 4 * (a * b) <= (a + b) * (a + b)
  {
    var d := a - b;
    assert (a + b) * (a + b) == 4 * (a * b) + d * d by {
      assert (a + b) * (a + b) == a * a + 2 * (a * b) + b * b;
      assert d * d == a * a - 2 * (a * b) + b * b;
    }
    assert d * d >= 0;
  }

  lemma TimesFour(x: int, p: int, u: int)
    requires x < p && 4 * p <= (2 * u) * (2 * u)
    ensures x < u * u
  {
    assert (2 * u) * (2 * u) == 4 * (u * u);
  }

  /** When the step no longer decreases, n1 is at or below the root. */
  lemma NewtonStops(number: int, n1: int, n2: int)
    requires number >= 1 && n1 >= 1 && n2 == (n1 + number / n1) / 2 && n2 >= n1
    ensures n1 * n1 <= number
  {
    var q := number / n1;
    DivisionOfMagnitudes(number, n1);
    assert q >= n1;
    MulMonotone(n1, n1, q);
  }

  /**
   * The guards in front of the Miller-Rabin test: below 2 is not prime,
   * an even number is prime only when it is 2, and every other number is
   * decided by `isPrimeMillerRabin`, which lives in a class outside this
   * model and is taken as a parameter.
   */
  function IsPrime(number: int, isPrimeMillerRabin: int -> bool): (r: bool)
    ensures r ==> number >= 2
    ensures r && number % 2 == 0 ==> number == 2
  {
    if number < 2 then false
    else if number % 2 == 0 then number == 2
    else isPrimeMillerRabin(number)
  }

  /**
   * Whatever the Miller-Rabin test answers, 0 and 1 are not prime, 2 is
   * prime and no other even number is.
   */
  lemma IsPrimeGuards(number: int, isPrimeMillerRabin: int -> bool)
    ensures number < 2 ==> !IsPrime(number, isPrimeMillerRabin)
    ensures number % 2 == 0 ==> (IsPrime(number, isPrimeMillerRabin) <==> Prime(number))
  {
    if number % 2 == 0 && number > 2 {
      assert Divides(2, number);
    }
  }

  /**
   * With a Miller-Rabin test that is right on odd numbers from 3 up, the
   * guard gives exactly primality.
   */
  lemma IsPrimeIsPrimality(number: int, isPrimeMillerRabin: int -> bool)
    requires forall m :: m >= 3 && m % 2 == 1 ==> (isPrimeMillerRabin(m) <==> Prime(m))
    ensures IsPrime(number, isPrimeMillerRabin) <==> Prime(number)
  {
    IsPrimeGuards(number, isPrimeMillerRabin);
  }

  /** The factorial loop: multiply by 1, 2, ..., x; below 1 the result is 1. */
  method Factoral(x: int) returns (fact: int)
    ensures fact == Factorial(if x < 1 then 0 else x)
  {
    fact := 1;
    var i := 1;
    while i <= x
      invariant 1 <= i <= Max(x, 0) + 1
      invariant fact == Factorial(i - 1)
      decreases x - i
    {
      fact := fact * i;
      i := i + 1;
    }
  }

  /** Every k from 1 to n divides n!. */
  lemma {:induction false} FactorialDivisible(n: nat, k: nat)
    requires 1 <= k <= n
    ensures Factorial(n) % k == 0
  {
    if k == n {
      DivUnique(Factorial(n), k, Factorial(n - 1), 0);
    } else {
      FactorialDivisible(n - 1, k);
      var q := Factorial(n - 1) / k;
      assert Factorial(n - 1) == k * q;
      assert Factorial(n) == k * (n * q);
      DivUnique(Factorial(n), k, n * q, 0);
    }
  }

  /** The values the factorial tests expect for 0 to 5. */
  lemma FactorialSmall()
    ensures Factorial(0) == 1 && Factorial(1) == 1 && Factorial(2) == 2
    ensures Factorial(3) == 6 && Factorial(4) == 24 && Factorial(5) == 120
  {
  }

  /** The value the factorial test expects for 100, reached in steps of ten. */
  lemma FactorialHundred()
    ensures Factorial(100) == 93326215443944152681699238856266700490715968264381621468592963895217599993229915608941463976156518286253697920827223758251185210916864000000000000000000000000
  {
    FactorialNinety();
  }

  lemma FactorialTen()
    ensures Factorial(10) == 3628800
  {}

  lemma FactorialTwenty()
    ensures Factorial(20) == 2432902008176640000
  {
    FactorialTen();
  }

  lemma FactorialThirty()
    ensures Factorial(30) == 265252859812191058636308480000000
  {
    FactorialTwenty();
  }

  lemma FactorialForty()
    ensures Factorial(40) == 815915283247897734345611269596115894272000000000
  {
    FactorialThirty();
  }

  lemma FactorialFifty()
    ensures Factorial(50) == 30414093201713378043612608166064768844377641568960512000000000000
  {
    FactorialForty();
  }

  lemma FactorialSixty()
    ensures Factorial(60) == 8320987112741390144276341183223364380754172606361245952449277696409600000000000000
  {
    FactorialFifty();
  }

  lemma FactorialSeventy()
    ensures Factorial(70) == 11978571669969891796072783721689098736458938142546425857555362864628009582789845319680000000000000000
  {
    FactorialSixty();
  }

  lemma FactorialEighty()
    ensures Factorial(80) == 71569457046263802294811533723186532165584657342365752577109445058227039255480148842668944867280814080000000000000000000
  {
    FactorialSeventy();
  }

  lemma FactorialNinety()
    ensures Factorial(90) == 1485715964481761497309522733620825737885569961284688766942216863704985393094065876545992131370884059645617234469978112000000000000000000000
  {
    FactorialEighty();
  }
}
