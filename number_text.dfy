/**
 * Decimal text of integers, as .NET writes and reads it: `BigInteger.ToString()`
 * and `int.ToString()` (an optional `-` and the digits, no leading zeros),
 * and `BigInteger.Parse` of an optionally signed digit string.
 * Digits are the ASCII digits '0'..'9'.
 */
module NumberText {
  import opened Integers

  predicate IsDigit(c: char) { '0' <= c <= '9' }

  predicate IsSign(c: char) { c == '-' || c == '+' }

  predicate AllDigits(s: string) { forall i :: 0 <= i < |s| ==> IsDigit(s[i]) }

  function DigitChar(d: nat): (c: char)
    requires d < 10
    ensures IsDigit(c) && c as int - '0' as int == d
  {
    ('0' as int + d) as char
  }

  function DigitOf(c: char): (d: nat)
    requires IsDigit(c)
    ensures d < 10
  {
    c as int - '0' as int
  }

  /** The decimal digits of `n`, most significant first; "0" for zero. */
  function NatToString(n: nat): (s: string)
    ensures |s| >= 1 && AllDigits(s)
    ensures |s| > 1 ==> s[0] != '0'
  {
    if n < 10 then [DigitChar(n)] else NatToString(n / 10) + [DigitChar(n % 10)]
  }

  /** `ToString()` of a signed integer: a `-` before the magnitude of a negative value. */
  function IntToString(x: int): string
  {
    if x < 0 then "-" + NatToString(-x) else NatToString(x)
  }

  /** The number a digit string denotes. */
  function DigitsValue(s: string): nat
    requires AllDigits(s)
  {
    if s == [] then 0 else DigitsValue(s[..|s| - 1]) * 10 + DigitOf(s[|s| - 1])
  }

  /** `BigInteger.Parse` of a string made of an optional sign and digits. */
  function SignedValue(s: string): int
    requires |s| >= 1 && AllDigits(s[1..]) && (IsDigit(s[0]) || IsSign(s[0]))
  {
    if s[0] == '-' then -(DigitsValue(s[1..]) as int)
    else if s[0] == '+' then DigitsValue(s[1..])
    else DigitsValue(s)
  }

  lemma {:induction false} NatToStringRoundTrip(n: nat)
    ensures DigitsValue(NatToString(n)) == n
  {
    var s := NatToString(n);
    if n >= 10 {
      NatToStringRoundTrip(n / 10);
      assert s[..|s| - 1] == NatToString(n / 10);
    }
  }

  lemma {:induction false} IntToStringRoundTrip(x: int)
    ensures var s := IntToString(x);
      |s| >= 1 && AllDigits(s[1..]) && (IsDigit(s[0]) || IsSign(s[0])) && SignedValue(s) == x
  {
    var s := IntToString(x);
    if x < 0 {
      NatToStringRoundTrip(-x);
      assert s[1..] == NatToString(-x);
    } else {
      NatToStringRoundTrip(x);
      var t := NatToString(x);
      assert AllDigits(t[1..]) by {
        forall i | 0 <= i < |t| - 1 ensures IsDigit(t[1..][i]) {
          assert t[1..][i] == t[i + 1];
        }
      }
    }
  }

  /**
   * The length of the decimal text of `n` is its number of digits:
   * `n` lies below 10^length and, unless it is a single digit, at or above
   * 10^(length - 1).
   */
  lemma {:induction false} NatToStringLength(n: nat)
    ensures n < Pow10(|NatToString(n)|)
    ensures |NatToString(n)| > 1 ==> Pow10(|NatToString(n)| - 1) <= n
  {
    if n >= 10 {
      NatToStringLength(n / 10);
    }
  }

  /** Conversely, a bound on `n` bounds the length of its text. */
  lemma LengthBelow(n: nat, k: nat)
    requires k >= 1 && n < Pow10(k)
    ensures |NatToString(n)| <= k
  {
    var len := |NatToString(n)|;
    NatToStringLength(n);
    if len > k {
      Pow10Monotone(k, len - 1);
    }
  }

  lemma LengthAtLeast(n: nat, k: nat)
    requires k >= 1 && Pow10(k - 1) <= n
    ensures |NatToString(n)| >= k
  {
    var len := |NatToString(n)|;
    NatToStringLength(n);
    if len < k {
      Pow10Monotone(len, k - 1);
    }
  }

  /** The value of a concatenation of digit strings: the first part shifted past the second. */
  lemma {:induction false} DigitsConcat(a: string, b: string)
    requires AllDigits(a) && AllDigits(b)
    ensures AllDigits(a + b)
    ensures DigitsValue(a + b) == DigitsValue(a) * Pow10(|b|) + DigitsValue(b)
    decreases |b|
  {
    var ab := a + b;
    assert AllDigits(ab) by {
      forall i | 0 <= i < |ab| ensures IsDigit(ab[i]) {
        if i >= |a| {
          assert ab[i] == b[i - |a|];
        }
      }
    }
    if b == [] {
      assert ab == a;
    } else {
      var b0 := b[..|b| - 1];
      assert ab[..|ab| - 1] == a + b0;
      assert ab[|ab| - 1] == b[|b| - 1];
      DigitsConcat(a, b0);
      calc {
        DigitsValue(ab);
        DigitsValue(a + b0) * 10 + DigitOf(b[|b| - 1]);
        (DigitsValue(a) * Pow10(|b0|) + DigitsValue(b0)) * 10 + DigitOf(b[|b| - 1]);
        { MulByTen(DigitsValue(a), Pow10(|b0|), Pow10(|b|)); }
        DigitsValue(a) * Pow10(|b|) + (DigitsValue(b0) * 10 + DigitOf(b[|b| - 1]));
      }
    }
  }
}
