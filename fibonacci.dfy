/**
 * The staircase question: in how many ways can one climb n steps taking
 * one or two at a time? The answer is a Fibonacci number, computed by a
 * recursive method and by an equivalent recursive lambda on 32-bit `int`.
 */
module Fibonacci {

  import opened Integers

  /** The program prints the first Max + 1 values. */
  const Max: int := 15

  /** C#'s unchecked `int` addition. */
  function Add32(a: int, b: int): (r: int)
    ensures InInt32(r)
  {
    Wrap32(a + b)
  }

  /** The Fibonacci numbers, with unbounded integers. */
  function Fib(n: nat): nat
  {
    if n <= 1 then n else Fib(n - 1) + Fib(n - 2)
  }

  /**
   * `Fibonacci` (Program.cs:35-39): the argument itself up to 1, negatives
   * included, and otherwise the sum of the two previous values, an
   * unchecked 32-bit addition.
   */
  function Fibonacci(x: int): (r: int)
    requires InInt32(x)
    ensures InInt32(r)
    decreases x
  {
    if x <= 1 then x else Add32(Fibonacci(x - 1), Fibonacci(x - 2))
  }

  /** The lambda `fib` (Program.cs:21-22), which tests `n > 1` instead. */
  function FibLambda(n: int): (r: int)
    requires InInt32(n)
    ensures InInt32(r)
    decreases n
  {
    if n > 1 then Add32(FibLambda(n - 1), FibLambda(n - 2)) else n
  }

  /** The lambda and the method compute the same function. */
  lemma {:induction false} LambdaIsFibonacci(n: int)
    requires InInt32(n)
    ensures FibLambda(n) == Fibonacci(n)
    decreases n
  {
    if n > 1 {
      LambdaIsFibonacci(n - 1);
      LambdaIsFibonacci(n - 2);
    }
  }

  lemma {:induction false} FibMonotone(a: nat, b: nat)
    requires a <= b
    ensures Fib(a) <= Fib(b)
    decreases b - a
  {
    if a < b {
      FibMonotone(a + 1, b);
      if a >= 1 {
        assert Fib(a + 1) == Fib(a) + Fib(a - 1);
      }
    }
  }

  lemma FibFifteen()
    ensures Fib(14) == 377 && Fib(15) == 610
  {
    assert Fib(8) == 21;
  }

  lemma FibThirty()
    ensures Fib(29) == 514229 && Fib(30) == 832040
  {
    FibFifteen();
    assert Fib(22) == 17711;
  }

  lemma FibFortySix()
    ensures Fib(45) == 1134903170 && Fib(46) == 1836311903
  {
    FibThirty();
    assert Fib(38) == 39088169;
  }

  /**
   * Up to 46 the 32-bit additions do not wrap and the method gives the
   * true Fibonacci numbers; Fib(46) = 1836311903 is the last that fits.
   */
  lemma {:induction false} FibonacciExact(x: int)
    requires 0 <= x <= 46
    ensures Fibonacci(x) == Fib(x)
    decreases x
  {
    if x > 1 {
      FibonacciExact(x - 1);
      FibonacciExact(x - 2);
      FibMonotone(x, 46);
      FibFortySix();
    }
  }

  lemma FibFortySeven()
    ensures Fib(47) == 2971215073
  {
    FibFortySix();
  }

  /**
   * At 47 the true value no longer fits in an `int`, so the method's
   * result, which always does, is wrong there.
   */
  lemma FibonacciOverflows(x: int)
    requires x == 47
    ensures Fib(x) == 2971215073 > INT32_MAX
    ensures Fibonacci(x) != Fib(x)
  {
    FibFortySeven();
  }

  /**
   * For the values the program prints (0 to Max): the results are what
   * the unbounded definition gives, non-negative, non-decreasing from 1
   * on, and the last is 610.
   */
  lemma PrintedValues(x: int, y: int)
    requires 0 <= x <= Max && 0 <= y <= Max
    ensures Fibonacci(x) == Fib(x) && Fibonacci(x) >= 0
    ensures 1 <= x <= y ==> Fibonacci(x) <= Fibonacci(y)
    ensures x == Max ==> Fibonacci(x) == 610
  {
    FibonacciExact(x);
    FibonacciExact(y);
    FibFifteen();
    if 1 <= x <= y {
      FibMonotone(x, y);
    }
  }

  // ---------------------------------------------------------------------
  // The staircase

  function Sum(steps: seq<int>): int
  {
    if |steps| == 0 then 0 else steps[0] + Sum(steps[1..])
  }

  /** A way up n stairs: steps of one or two that add up to n. */
  predicate IsClimb(steps: seq<int>, n: int)
  {
    (forall i :: 0 <= i < |steps| ==> steps[i] == 1 || steps[i] == 2) && Sum(steps) == n
  }

  /** Every climb in `climbs`, with a first step of `k` put in front. */
  function StartWith(k: int, climbs: seq<seq<int>>): (r: seq<seq<int>>)
    ensures |r| == |climbs|
  {
    seq(|climbs|, i requires 0 <= i < |climbs| => [k] + climbs[i])
  }

  /** All ways up n stairs: first a single step, then first a double step. */
  function Climbs(n: nat): seq<seq<int>>
  {
    if n == 0 then [[]]
    else if n == 1 then [[1]]
    else StartWith(1, Climbs(n - 1)) + StartWith(2, Climbs(n - 2))
  }

  /** No climb is listed twice. */
  predicate NoDuplicates(climbs: seq<seq<int>>)
  {
    forall i, j :: 0 <= i < j < |climbs| ==> climbs[i] != climbs[j]
  }

  lemma SumCons(k: int, rest: seq<int>)
    ensures Sum([k] + rest) == k + Sum(rest)
  {
    assert ([k] + rest)[1..] == rest;
  }

  /** A climb is a first step of one or two followed by a climb of the rest. */
  lemma IsClimbCons(k: int, rest: seq<int>, n: int)
    ensures IsClimb([k] + rest, n) <==> (k == 1 || k == 2) && IsClimb(rest, n - k)
  {
    SumCons(k, rest);
    var c := [k] + rest;
    if IsClimb(c, n) {
      forall i | 0 <= i < |rest|
        ensures rest[i] == 1 || rest[i] == 2
      {
        assert rest[i] == c[i + 1];
      }
      assert c[0] == k;
    }
  }

  /** The members of `StartWith(k, climbs)`. */
  lemma InStartWith(k: int, climbs: seq<seq<int>>, c: seq<int>)
    ensures c in StartWith(k, climbs) <==> |c| >= 1 && c[0] == k && c[1..] in climbs
  {
    var r := StartWith(k, climbs);
    if c in r {
      var i :| 0 <= i < |r| && r[i] == c;
      assert c[1..] == climbs[i];
    }
    if |c| >= 1 && c[0] == k && c[1..] in climbs {
      var i :| 0 <= i < |climbs| && climbs[i] == c[1..];
      assert c == [k] + c[1..];
      assert r[i] == c;
    }
  }

  lemma SumNonEmpty(steps: seq<int>, n: int)
    requires IsClimb(steps, n)
    ensures steps == [] <==> n == 0
    ensures steps != [] ==> n >= 1
    decreases |steps|
  {
    if steps != [] {
      SumCons(steps[0], steps[1..]);
      assert steps == [steps[0]] + steps[1..];
      IsClimbCons(steps[0], steps[1..], n);
      SumNonEmpty(steps[1..], n - steps[0]);
    }
  }

  /** Up zero stairs there is only the empty climb, up one only a single step. */
  lemma ClimbsBase(n: nat, c: seq<int>)
    requires n < 2
    ensures c in Climbs(n) <==> IsClimb(c, n)
  {
    if c != [] && IsClimb(c, n) {
      var rest := c[1..];
      assert c == [c[0]] + rest;
      IsClimbCons(c[0], rest, n);
      SumNonEmpty(rest, n - c[0]);
      assert c == [1];
    }
    SumCons(1, []);
    assert [1] == [1] + [];
  }

  /** The members of the list for two or more stairs, by their first step. */
  lemma InClimbs(n: nat, c: seq<int>)
    requires n >= 2
    ensures c in Climbs(n) <==> |c| >= 1 && ((c[0] == 1 && c[1..] in Climbs(n - 1)) || (c[0] == 2 && c[1..] in Climbs(n - 2)))
  {
    InStartWith(1, Climbs(n - 1), c);
    InStartWith(2, Climbs(n - 2), c);
  }

  /** The list holds every way up n stairs and nothing else. */
  lemma {:induction false} ClimbsExactly(n: nat, c: seq<int>)
    ensures c in Climbs(n) <==> IsClimb(c, n)
    decreases n
  {
    if n < 2 {
      ClimbsBase(n, c);
    } else if c == [] {
      InClimbs(n, c);
    } else {
      var rest := c[1..];
      assert c == [c[0]] + rest;
      IsClimbCons(c[0], rest, n);
      InClimbs(n, c);
      if c[0] == 1 {
        ClimbsExactly(n - 1, rest);
      } else if c[0] == 2 {
        ClimbsExactly(n - 2, rest);
      }
    }
  }

  /** Putting the same first step in front keeps the climbs apart. */
  lemma StartWithDistinct(k: int, climbs: seq<seq<int>>)
    requires NoDuplicates(climbs)
    ensures NoDuplicates(StartWith(k, climbs))
  {
    var r := StartWith(k, climbs);
    forall i, j | 0 <= i < j < |r|
      ensures r[i] != r[j]
    {
      assert r[i][1..] == climbs[i];
      assert r[j][1..] == climbs[j];
    }
  }

  /** Climbs that start with a single step differ from those that start with a double step. */
  lemma ConcatDistinct(ones: seq<seq<int>>, twos: seq<seq<int>>)
    requires NoDuplicates(ones) && NoDuplicates(twos)
    requires forall i :: 0 <= i < |ones| ==> |ones[i]| >= 1 && ones[i][0] == 1
    requires forall j :: 0 <= j < |twos| ==> |twos[j]| >= 1 && twos[j][0] == 2
    ensures NoDuplicates(ones + twos)
  {
    var all := ones + twos;
    forall i, j | 0 <= i < j < |all|
      ensures all[i] != all[j]
    {
      if j < |ones| {
        assert all[i] == ones[i] && all[j] == ones[j];
      } else if i >= |ones| {
        assert all[i] == twos[i - |ones|] && all[j] == twos[j - |ones|];
      } else {
        assert all[i][0] == 1 && all[j][0] == 2;
      }
    }
  }

  /** The list has no repeats. */
  lemma {:induction false} ClimbsDistinct(n: nat)
    ensures NoDuplicates(Climbs(n))
    decreases n
  {
    if n >= 2 {
      ClimbsDistinct(n - 1);
      ClimbsDistinct(n - 2);
      StartWithDistinct(1, Climbs(n - 1));
      StartWithDistinct(2, Climbs(n - 2));
      ConcatDistinct(StartWith(1, Climbs(n - 1)), StartWith(2, Climbs(n - 2)));
    }
  }

  /** There are Fib(n + 1) ways up n stairs. */
  lemma {:induction false} ClimbsCount(n: nat)
    ensures |Climbs(n)| == Fib(n + 1)
    decreases n
  {
    if n >= 2 {
      ClimbsCount(n - 1);
      ClimbsCount(n - 2);
      ClimbsLength(n);
      FibStep(n + 1);
    } else {
      ClimbsFew(n);
    }
  }

  lemma FibStep(n: nat)
    requires n >= 2
    ensures Fib(n) == Fib(n - 1) + Fib(n - 2)
  {
  }

  lemma ClimbsFew(n: nat)
    requires n < 2
    ensures |Climbs(n)| == 1 == Fib(n + 1)
  {
    assert Fib(2) == Fib(1) + Fib(0);
  }

  lemma ClimbsLength(n: nat)
    requires n >= 2
    ensures |Climbs(n)| == |Climbs(n - 1)| + |Climbs(n - 2)|
  {
  }

  /**
   * The staircase question (Program.cs:5-13): the distinct ways up n
   * stairs, every one of them listed, number Fibonacci(n + 1); for one to
   * four steps that is 1, 2, 3 and 5.
   */
  lemma StaircaseWays(n: nat)
    requires n <= 45
    ensures NoDuplicates(Climbs(n))
    ensures forall c :: IsClimb(c, n) <==> c in Climbs(n)
    ensures |Climbs(n)| == Fibonacci(n + 1)
  {
    ClimbsDistinct(n);
    forall c
      ensures IsClimb(c, n) <==> c in Climbs(n)
    {
      ClimbsExactly(n, c);
    }
    ClimbsCount(n);
    FibonacciExact(n + 1);
  }

  lemma StaircaseExamples()
    ensures |Climbs(1)| == 1 && |Climbs(2)| == 2 && |Climbs(3)| == 3 && |Climbs(4)| == 5
  {
    ClimbsCount(1);
    ClimbsCount(2);
    ClimbsCount(3);
    ClimbsCount(4);
  }
}
