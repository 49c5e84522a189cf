# ken.Spikes.Math in Dafny

A Dafny model of the arithmetic core of ken.Spikes.Math, with proofs about it. The core consists of:

- the arbitrary-precision decimal `BigDecimal`, which is a mantissa and a power-of-ten exponent:
  - normalisation and truncation;
  - conversions from and to `int`/`uint`, and the arithmetic and comparison operators;
  - equality, `CompareTo` and `ToString`;
  - `Parse`, a character-by-character state machine;
  - `Factoral`, which runs the factorial loop over `BigDecimal` values;
  - `E`, which sums the series for e with `BigDecimal` division;
- the `BigInteger` helpers:
  - Newton's integer square root;
  - the primality guard in front of Miller–Rabin;
  - the factorial loop;
- the 64-bit deterministic Miller–Rabin test, with its shift-and-add modular multiply and its recursive modular power;
- trial-division primality for 32-bit integers;
- the string helpers `IsInteger`, `Left` and `Right`;
- the staircase/Fibonacci program.

Modules:

| module | file | models |
|---|---|---|
| `Integers` | integers.dfy | Powers of ten and two. C#'s truncating `/`. Unchecked 32-bit wrap-around. |
| `NumberText` | number_text.dfy | Decimal digit strings and their values. `BigInteger.ToString` of a natural number. |
| `Wrappers` | wrappers.dfy | `Option` (a possibly-null reference) and `Result` (a value or the exception thrown). |
| `Primes` | primes.dfy | Divisibility, primality and the exact integer square root. |
| `BigDecimals` | bigdecimal.dfy | The `BigDecimal` struct as a value, and its meaning `Value(d) = mantissa · 10^exponent` as an exact real. The canonical form with no trailing zero. `Normalize`, the constructor, `Truncate` and `NumberOfDigits`. |
| `BigDecimalOperators` | bigdecimal_operators.dfy | Conversions. Unary `-`, `++`, `--`. Binary `+`, `-`, `*`, `/`. The comparisons. `Equals` and `CompareTo`. |
| `BigDecimalText` | bigdecimal_text.dfy | `Parse`, as a method with the source's loop, proved equal to a functional scanner. `ToString`. |
| `BigDecimalExtensions` | bigdecimal_extensions.dfy | `Factoral` on `BigDecimal`. |
| `BigDecimalSeries` | bigdecimal_series.dfy | `E(int)` and `E()`: the series 2.5 + 1/3! + 1/4! + ... summed with `BigDecimal` division. |
| `BigIntegerExtensions` | biginteger_extensions.dfy | `Sqrt`, `IsPrime` and `Factoral` on `BigInteger`. |
| `Int64Extensions` | int64_extensions.dfy | `IsPrime`, `MillerRabin`, `MillerRabin_Mul` and `MillerRabin_Pow` on 64-bit integers. |
| `Int32Extensions` | int32_extensions.dfy | `IsPrime` on 32-bit integers. |
| `StringExtensions` | string_extensions.dfy | `IsInteger`, `Left` and `Right`. |
| `Fibonacci` | fibonacci.dfy | The `fib` lambda and the `Fibonacci` method of the staircase program, with 32-bit overflow. The staircase count itself. |

**How `BigDecimal` is modelled**

- `BigDecimal` is a C# `struct`, so every assignment copies it. It is modelled as a `datatype`.
- `Normalize` and `Truncate` change the fields of a copy inside a loop. They are modelled as methods with those loops. Each method returns the new value and is proved equal to a specification function: `Normalized` and `Truncated`.
- The two static settings, `AlwaysTruncate` and `Precision`, become explicit parameters.
- The results of the operators are related to exact real arithmetic on `Value`.

**How the other loops are modelled**

- `Parse`'s `foreach` is kept as a loop over the same five states, with the same builders, the checked `ushort` scale and the same error exits. The method is proved equal to the function `ParseText`.
- The loops of `Factoral` (both kinds), `E`, `Sqrt`, `Int32Extensions.IsPrime`, `MillerRabin` and `MillerRabin_Mul` are kept as loops. Each is proved against a specification: the mathematical factorial, the series function `Partial`, the floor square root, primality, the strong-probable-prime test, and the source's own "reduce into 1..mod" residue.

**Where the code and its documentation differ**

The model follows the code in each case.

- `BigDecimal`'s summary says that division never determines more digits than the precision. The division operator can keep `Precision + 1` digits: 9 / 2 at precision 1 is 4.5. `DivisionDigits` and `DivisionExample` state what the code does.
- Setting `AlwaysTruncate` is documented to affect all operations. The constructor calls `Truncate()` and throws its result away, so constructed values are only normalised.
- `Parse` accepts a trailing dot ("5."). It also accepts a lone sign after `E` only to fail later in `int.Parse`.
- The unchecked negation `-num1 + scale` wraps for an exponent of −2147483648. So "1E-2147483648" parses as 1 (`ParseMinimalExponent`).

## Model

| member | source | states |
|---|---|---|
| BigDecimals.NumberOfDigits | ken.Spikes.Math/Types/BigDecimal.cs:232-236 | The count of decimal digits of the magnitude, ignoring the sign, is at least one. |
| BigDecimals.DigitsBounds | ken.Spikes.Math/Types/BigDecimal.cs:232-236 | \|v\| < 10^digits. For v ≠ 0, 10^(digits−1) ≤ \|v\|. Zero has one digit. |
| BigDecimals.Normalize | ken.Spikes.Math/Types/BigDecimal.cs:187-206 | The divide-by-ten loop strips the trailing zeros. The result equals `Normalized`: canonical (no trailing zero; zero has exponent 0), the same value, and an exponent no smaller than before. |
| BigDecimals.NormalizedUnique | ken.Spikes.Math/Types/BigDecimal.cs:187-206 | Every canonical decimal with the same value as (m, e) is `Normalized(m, e)`: the normal form is unique. |
| BigDecimals.NormalizedIdempotent | ken.Spikes.Math/Types/BigDecimal.cs:187-206 | Normalizing a normalized decimal changes nothing. |
| BigDecimals.NormalizedDigits | ken.Spikes.Math/Types/BigDecimal.cs:187-206 | Normalizing never adds digits to the mantissa. |
| BigDecimals.CanonicalUnique | ken.Spikes.Math/Types/BigDecimal.cs:187-206 | Two canonical decimals with the same value are equal as structures. |
| BigDecimals.New | ken.Spikes.Math/Types/BigDecimal.cs:173-182 | The constructor returns the normalized decimal, whatever `AlwaysTruncate` says: the truncated copy is discarded. |
| BigDecimals.Truncate | ken.Spikes.Math/Types/BigDecimal.cs:212-225 | The loop that drops the least significant digits returns `Truncated(d, precision)`. |
| BigDecimals.TruncatedDigits | ken.Spikes.Math/Types/BigDecimal.cs:212-225 | The truncated mantissa has at most `precision` digits, and exactly `precision` when the normal form had more. A normal form that fits is returned unchanged. The exponent rises by the number of digits dropped. |
| BigDecimals.TruncatedValue | ken.Spikes.Math/Types/BigDecimal.cs:212-225 | Truncation moves toward zero, never changes the sign, and is off by less than one unit in its last place. |
| BigDecimals.TruncatedNotNormalized | ken.Spikes.Math/Types/BigDecimal.cs:212-225 | Truncating 101 to two digits gives 10E1, which is not in normal form: truncation does not normalize afterwards. |
| BigDecimalOperators.AlignExponent | ken.Spikes.Math/Types/BigDecimal.cs:390-393 | The mantissa re-expressed at the smaller reference exponent keeps the value. |
| BigDecimalOperators.FromInt | ken.Spikes.Math/Types/BigDecimal.cs:240-243 | The implicit conversion from `int` gives a canonical decimal with exactly that value. |
| BigDecimalOperators.Negate | ken.Spikes.Math/Types/BigDecimal.cs:307-311 | Unary minus negates the value, keeps the exponent, and keeps a canonical operand canonical. |
| BigDecimalOperators.Add | ken.Spikes.Math/Types/BigDecimal.cs:323-326 | `+` aligns the exponents and is exact: canonical, with value left + right. |
| BigDecimalOperators.Subtract | ken.Spikes.Math/Types/BigDecimal.cs:328-331 | Binary `-` is exact: canonical, with value left − right. |
| BigDecimalOperators.Increment | ken.Spikes.Math/Types/BigDecimal.cs:313-316 | `++` adds exactly one. |
| BigDecimalOperators.Decrement | ken.Spikes.Math/Types/BigDecimal.cs:318-321 | `--` subtracts exactly one. |
| BigDecimalOperators.Multiply | ken.Spikes.Math/Types/BigDecimal.cs:340-343 | `*` is exact: canonical, with value left · right. |
| BigDecimalOperators.Divide | ken.Spikes.Math/Types/BigDecimal.cs:345-354 | `/` gives a canonical decimal whose value equals the scaled truncated quotient. The dividend is first scaled by 10^k, with k = max(0, Precision − (digits(dividend) − digits(divisor))). |
| BigDecimalOperators.DivisionRemainder | ken.Spikes.Math/Types/BigDecimal.cs:345-354 | dividend − quotient · divisor is less than one unit of the quotient's last place times the divisor, in magnitude. It is zero or has the sign of the dividend. |
| BigDecimalOperators.DivisionDigits | ken.Spikes.Math/Types/BigDecimal.cs:345-354 | Digit bounds on the quotient. When the dividend was scaled, the quotient has at most Precision + 1 digits. |
| BigDecimalOperators.DivisionExample | ken.Spikes.Math/Types/BigDecimal.cs:345-354 | 9 / 2 at precision 1 is 45E-1, which has two digits. |
| BigDecimalOperators.AlignedOrder | ken.Spikes.Math/Types/BigDecimal.cs:366-384 | After alignment, comparing mantissas is the same as comparing values, in each of the three directions. |
| BigDecimalOperators.Less | ken.Spikes.Math/Types/BigDecimal.cs:366-369 | `<` holds exactly when the left value is smaller. |
| BigDecimalOperators.Greater | ken.Spikes.Math/Types/BigDecimal.cs:371-374 | `>` holds exactly when the left value is larger. |
| BigDecimalOperators.LessOrEqual | ken.Spikes.Math/Types/BigDecimal.cs:376-379 | `<=` holds exactly when the left value is not larger. |
| BigDecimalOperators.GreaterOrEqual | ken.Spikes.Math/Types/BigDecimal.cs:381-384 | `>=` holds exactly when the left value is not smaller. |
| BigDecimalOperators.Equal | ken.Spikes.Math/Types/BigDecimal.cs:356-359 | `==` and `Equals(BigDecimal)` hold exactly when the mantissas and the exponents are both equal. |
| BigDecimalOperators.NotEqual | ken.Spikes.Math/Types/BigDecimal.cs:361-364 | `!=` is the negation of `==`. |
| BigDecimalOperators.EqualOnCanonical | ken.Spikes.Math/Types/BigDecimal.cs:356-359 | On canonical decimals, structural equality is equality of values. |
| BigDecimalOperators.EqualIsStructural | ken.Spikes.Math/Types/BigDecimal.cs:356-359 | 10E0 and 1E1 have the same value, yet `==` says they differ. |
| BigDecimalOperators.CompareTo | ken.Spikes.Math/Types/BigDecimal.cs:461-464 | The result is −1, 0 or 1 exactly when the value is smaller, equal or larger. |
| BigDecimalOperators.CompareToAntisymmetric | ken.Spikes.Math/Types/BigDecimal.cs:461-464 | Swapping the operands of `CompareTo` negates the result. |
| BigDecimalOperators.EqualsObject | ken.Spikes.Math/Types/BigDecimal.cs:435-442 | `Equals(object)` is true exactly for a boxed copy of the same structure: false for null and for other types. |
| BigDecimalOperators.CompareToObject | ken.Spikes.Math/Types/BigDecimal.cs:452-459 | `CompareTo(object)` throws `ArgumentException` exactly for null or a non-`BigDecimal`. Otherwise it is `CompareTo`. |
| BigDecimalOperators.ToInt | ken.Spikes.Math/Types/BigDecimal.cs:288-291 | `(int)` fails when the exponent is negative. Otherwise it succeeds exactly when the value is in the 32-bit range, and then returns the value. |
| BigDecimalOperators.ToUInt | ken.Spikes.Math/Types/BigDecimal.cs:293-296 | `(uint)`, likewise, for the range 0..2^32−1. |
| BigDecimalOperators.AddThenSubtract | ken.Spikes.Math/Types/BigDecimal.cs:323-331 | For canonical a, (a + b) − b == a. |
| BigDecimalOperators.IncrementDecrement | ken.Spikes.Math/Types/BigDecimal.cs:313-321 | `++` and `--` undo each other on canonical decimals. |
| BigDecimalOperators.Commutative | ken.Spikes.Math/Types/BigDecimal.cs:323-343 | `+` and `*` give the same structure in either operand order. |
| BigDecimalOperators.AddCarriesIntoNewDigit | ken.Spikes.Math/Types/BigDecimalTests.cs:57-63 | 18446744073709551615 + 1 == 18446744073709551616 exactly. |
| BigDecimalText.Step | ken.Spikes.Math/Types/BigDecimal.cs:63-131 | One character of the `foreach`: it fails only on a character the current state does not accept (`FormatException` naming that character) or on a decimal digit once the scale has reached 65535 (`OverflowException`). Its partner is `StepConsistent`. |
| BigDecimalText.StepConsistent | ken.Spikes.Math/Types/BigDecimal.cs:63-131 | Each character step keeps the scanner invariant: an exponent is buffered only in the exponent states, the digit buffer is an optional sign and then digits, and the scale fits a `ushort`. |
| BigDecimalText.Parse | ken.Spikes.Math/Types/BigDecimal.cs:39-171 | The `foreach` over the five states, with its builders and its checks, returns exactly `ParseText`. This covers every error: null, an invalid character, no value, an `E` with no exponent, scale overflow and the `int.Parse` failures. |
| BigDecimalText.Complete | ken.Spikes.Math/Types/BigDecimal.cs:133-170 | The code after the loop turns the scanner state into the result that `ParseText` gives. |
| BigDecimalText.ParseWithoutExponent | ken.Spikes.Math/Types/BigDecimal.cs:61-139 | [sign] digits [. digits] parses to the normalized decimal (signed digits, −fraction length), for any such text whose fraction fits the `ushort` scale. |
| BigDecimalText.ParseWithExponent | ken.Spikes.Math/Types/BigDecimal.cs:139-170 | A mantissa, then `e`/`E`, then a signed digit string: a lone sign fails `int.Parse`; a value outside int32 overflows; otherwise the result is the exponent applied to the digits and the scale, then normalized. |
| BigDecimalText.ApplyExponentExact | ken.Spikes.Math/Types/BigDecimal.cs:143-167 | When the final scale fits the `ushort`, applying the exponent keeps the value digits · 10^(exp − scale). |
| BigDecimalText.ApplyExponentClamped | ken.Spikes.Math/Types/BigDecimal.cs:156-167 | When the scale would exceed 65535, it is clamped to 65535, and the surplus digits are cut by truncating division. |
| BigDecimalText.ParseNoExponentDigits | ken.Spikes.Math/Types/BigDecimal.cs:135-138 | A mantissa followed by `e`/`E` and nothing else fails with "no exponent". |
| BigDecimalText.ParseTooManyFractionDigits | ken.Spikes.Math/Types/BigDecimal.cs:97-106 | More than 65535 fraction digits overflow the checked `ushort` scale. |
| BigDecimalText.ParseRejectsForeign | ken.Spikes.Math/Types/BigDecimal.cs:63-131 | A text containing any character outside digits, signs, `.`, `e` and `E` is rejected. |
| BigDecimalText.ParseNull | ken.Spikes.Math/Types/BigDecimal.cs:41 | A null string throws `ArgumentNullException`. |
| BigDecimalText.ParseRejectsLetter | ken.Spikes.Math/Types/BigDecimal.cs:79-96 | "1a" fails with an invalid character 'a'. |
| BigDecimalText.ParseRejectsSecondDot | ken.Spikes.Math/Types/BigDecimal.cs:97-113 | "1.2.3" fails at the second '.'. |
| BigDecimalText.ParseRejectsSignInMantissa | ken.Spikes.Math/Types/BigDecimal.cs:79-96 | "1-2" fails at the '-'. |
| BigDecimalText.ParseRejectsSignInExponent | ken.Spikes.Math/Types/BigDecimal.cs:123-130 | "1E2-" fails at the '-'. |
| BigDecimalText.ParseRejectsNoDigits | ken.Spikes.Math/Types/BigDecimal.cs:133-134 | "", "." and "-" contain no value. |
| BigDecimalText.ParseRejectsMissingExponent | ken.Spikes.Math/Types/BigDecimal.cs:135-142 | "12E" has no exponent. "12E+" fails in `int.Parse`. |
| BigDecimalText.ParseInteger | ken.Spikes.Math/Types/BigDecimalTests.cs:17-22 | "123456789" parses to 123456789E0. |
| BigDecimalText.ParseDecimalFraction | ken.Spikes.Math/Types/BigDecimalTests.cs:25-30 | "123456789.444555" parses to 123456789444555E-6. |
| BigDecimalText.ParseExponent | ken.Spikes.Math/Types/BigDecimalTests.cs:33-38 | "123E7" parses to 123E7. |
| BigDecimalText.ParseSignedExponent | ken.Spikes.Math/Types/BigDecimalTests.cs:41-46 | "123E+10" parses to 123E10. |
| BigDecimalText.ParseNegativeExponent | ken.Spikes.Math/Types/BigDecimalTests.cs:49-54 | "123456789E-1" parses to 123456789E-1. |
| BigDecimalText.ParseMinimalExponent | ken.Spikes.Math/Types/BigDecimal.cs:156-167 | "1E-2147483648" parses to 1: the unchecked negation wraps. |
| BigDecimalText.ToString | ken.Spikes.Math/Types/BigDecimal.cs:425-428 | The text has at least three characters and contains the exponent marker 'E'. Its partner `ParseToStringRoundTrip` shows that `Parse` reads it back. |
| BigDecimalText.ParseToStringRoundTrip | ken.Spikes.Math/Types/BigDecimal.cs:425-428 | `Parse(ToString(d)) == d`, for every canonical d whose exponent is at least −65535. |
| BigDecimalText.ParseToStringClamps | ken.Spikes.Math/Types/BigDecimal.cs:156-167 | Below that bound the round trip fails: "1E-65536" parses to 0. |
| BigDecimalText.ParseThenAdd | ken.Spikes.Math/Types/BigDecimalTests.cs:57-63 | For every natural n, the texts of n and of n + 1 parse to n and n + 1, and n + 1 (as a `BigDecimal`) equals the parsed n + 1. |
| BigDecimalText.ParseDecimalText | ken.Spikes.Math/Types/BigDecimal.cs:61-139 | Any non-empty digit string parses to its value. |
| BigDecimalExtensions.FactorCount | ken.Spikes.Math/Types/BigDecimalExtensions.cs:12 | The number of loop rounds is the largest n with n ≤ number, or 0 when number < 1. |
| BigDecimalExtensions.Factoral | ken.Spikes.Math/Types/BigDecimalExtensions.cs:8-18 | The `BigDecimal` loop returns the normalized factorial of that count. |
| BigDecimalExtensions.FactorCountOfInteger | ken.Spikes.Math/Types/BigDecimalExtensions.cs:8-18 | For an integer x, the loop runs x times (0 times when x < 1). |
| BigDecimalExtensions.FactoralSmall | ken.Spikes.Math/Types/BigDecimalExtensionsTests.cs:11-22 | 0..5 give 1, 1, 2, 6, 24, 120. |
| BigDecimalExtensions.FactoralHundred | ken.Spikes.Math/Types/BigDecimalExtensionsTests.cs:24-32 | "100" parses to 100. The factorial of 100, written out and parsed, gives the loop's result. |
| BigDecimalSeries.FactorialDecimal | ken.Spikes.Math/Types/BigDecimal.cs:477 | The divisor `denominator.Factoral()` is canonical, positive and worth d!. |
| BigDecimalSeries.E | ken.Spikes.Math/Types/BigDecimal.cs:471-481 | The loop with a `BigDecimal` counter compared by `<=` and advanced by `++` returns `Partial(maxDenominator)`: 2.5 followed by the terms 1 / d! for d = 3 .. maxDenominator, each divided at the precision, added in order. |
| BigDecimalSeries.EAtPrecision | ken.Spikes.Math/Types/BigDecimal.cs:466-469 | `E()` is the series up to the denominator `Precision`. |
| BigDecimalSeries.TermNonNegative | ken.Spikes.Math/Types/BigDecimal.cs:477 | Every term 1 / d! is at least zero after truncating division. |
| BigDecimalSeries.TermTimesFactorial | ken.Spikes.Math/Types/BigDecimal.cs:477 | term · d! ≤ 1: the truncated term never overshoots 1 / d!. |
| BigDecimalSeries.PartialBounds | ken.Spikes.Math/Types/BigDecimal.cs:471-481 | Every partial sum is canonical and at least 2.5. |
| BigDecimalSeries.PartialMonotone | ken.Spikes.Math/Types/BigDecimal.cs:471-481 | A larger maximal denominator never gives a smaller result. |
| BigDecimalSeries.SeriesToThree | ken.Spikes.Math/Types/BigDecimal.cs:471-481 | Up to denominator 3 at precision 2 the result is 2.66: 2.5 plus 1/6 cut to 0.16. |
| BigIntegerExtensions.Sqrt | ken.Spikes.Math/Types/BigIntegerExtensions.cs:14-25 | Newton's iteration stops at the floor square root: root² ≤ n < (root+1)². |
| BigIntegerExtensions.IsPrime | ken.Spikes.Math/Types/BigIntegerExtensions.cs:27-44 | A number reported prime is at least 2, and an even one is 2. Its partners `IsPrimeGuards` and `IsPrimeIsPrimality` tie the answer to primality. |
| BigIntegerExtensions.IsPrimeGuards | ken.Spikes.Math/Types/BigIntegerExtensions.cs:27-30 | Below 2 the result is false. For an even number the result is exactly primality, so only 2 passes. |
| BigIntegerExtensions.IsPrimeIsPrimality | ken.Spikes.Math/Types/BigIntegerExtensions.cs:27-44 | If the Miller–Rabin routine is correct on odd numbers ≥ 3, `IsPrime` is exactly primality. |
| BigIntegerExtensions.Factoral | ken.Spikes.Math/Types/BigIntegerExtensions.cs:46-56 | The loop returns x! (1 for x < 1). |
| BigIntegerExtensions.Factorial | ken.Spikes.Math/Types/BigIntegerExtensions.cs:46-56 | The factorial is at least 1. |
| BigIntegerExtensions.FactorialDivisible | ken.Spikes.Math/Types/BigIntegerExtensions.cs:46-56 | Every k with 1 ≤ k ≤ n divides n!. |
| BigIntegerExtensions.FactorialSmall | ken.Spikes.Math/Types/BigIntegerExtensionsTests.cs:164-175 | 0! .. 5! are 1, 1, 2, 6, 24, 120. |
| BigIntegerExtensions.FactorialHundred | ken.Spikes.Math/Types/BigIntegerExtensionsTests.cs:177-185 | 100! is the 158-digit constant of the test. |
| Int64Extensions.SubtractWhileAbove | ken.Spikes.Math/Types/Int64Extensions.cs:58 | `while (now > mod) now -= mod` lands in 1..mod (or stays 0) with the same residue. |
| Int64Extensions.Reduce | ken.Spikes.Math/Types/Int64Extensions.cs:58 | The reduction is at most mod, is zero exactly for zero, and keeps the residue. |
| Int64Extensions.ReduceIsResidue | ken.Spikes.Math/Types/Int64Extensions.cs:58 | The reduction is x mod m, except that a nonzero multiple of m gives m rather than 0. |
| Int64Extensions.Mul | ken.Spikes.Math/Types/Int64Extensions.cs:50-63 | Shift-and-add over the bits of a returns the 1..mod reduction of a · b. |
| Int64Extensions.MulReturnsModulus | ken.Spikes.Math/Types/Int64Extensions.cs:50-63 | `MillerRabin_Mul(2, 3, 3)` returns 3, not 0. |
| Int64Extensions.Pow | ken.Spikes.Math/Types/Int64Extensions.cs:65-70 | The even/odd recursion returns `PowMod`, which is at most mod. |
| Int64Extensions.PowModResidue | ken.Spikes.Math/Types/Int64Extensions.cs:65-70 | `PowMod(a, p, mod)` ≡ a^p (mod mod). |
| Int64Extensions.OddPartValuation | ken.Spikes.Math/Types/Int64Extensions.cs:30-32 | n − 1 = d · 2^s with d odd. |
| Int64Extensions.TestBase | ken.Spikes.Math/Types/Int64Extensions.cs:36-45 | One base passes exactly when a^d ≡ ±1, or one of the next s − 1 squarings is ≡ −1. |
| Int64Extensions.MillerRabin | ken.Spikes.Math/Types/Int64Extensions.cs:24-48 | The result is true exactly when every base of the chosen set, capped at n − 2, is a strong-probable-prime witness for n. The bases are {2, 7, 61}, {2..17} or {2..23}, depending on n. |
| Int64Extensions.AcceptsBelow | ken.Spikes.Math/Types/Int64Extensions.cs:27 | Below 4759123141, acceptance is the test for the bases 2, 7 and 61. |
| Int64Extensions.MillerRabinAcceptsEven | ken.Spikes.Math/Types/Int64Extensions.cs:24-48 | Called directly on an even number, Miller–Rabin accepts it: base 2 capped at n − 2 never witnesses. `IsPrime` guards against this. |
| Int64Extensions.IsPrime | ken.Spikes.Math/Types/Int64Extensions.cs:7-18 | Below 2: false. Even: true exactly for 2, i.e. exactly when prime. Odd: the Miller–Rabin verdict. |
| Int64Extensions.MillerRabinThree | ken.Spikes.Math/Types/Int64ExtensionsTests.cs:24 | 3 is accepted. |
| Int64Extensions.MillerRabinFive | ken.Spikes.Math/Types/Int64ExtensionsTests.cs:25 | 5 is accepted. |
| Int64Extensions.MillerRabinSeven | ken.Spikes.Math/Types/Int64ExtensionsTests.cs:26 | 7 is accepted. |
| Int64Extensions.MillerRabinNine | ken.Spikes.Math/Types/Int64ExtensionsTests.cs:27 | 9 is rejected. |
| Int32Extensions.IsPrime | ken.Spikes.Math/Types/Int32Extensions.cs:12-22 | Trial division by 2 and by odd numbers up to the square root returns exactly primality. |
| Primes.FloorSqrt | ken.Spikes.Math/Types/Int32Extensions.cs:16 | root² ≤ n < (root+1)²: `(int)Math.Sqrt` taken exactly. |
| Primes.SmallDivisor | ken.Spikes.Math/Types/Int32Extensions.cs:17-21 | A composite n ≥ 2 has a divisor d with 2 ≤ d and d² ≤ n, which justifies stopping at the root. |
| StringExtensions.IsInteger | ken.Spikes.Math/Types/StringExtensions.cs:8-12 | A string reported as an integer is non-null, non-empty and all '0'..'9'. `IsIntegerMeans` gives the converse too. |
| StringExtensions.IsIntegerMeans | ken.Spikes.Math/Types/StringExtensions.cs:8-12 | `IsInteger` holds exactly for a non-null, non-empty string of '0'..'9'. |
| StringExtensions.IsIntegerExamples | ken.Spikes.Math/Types/StringExtensionsTests.cs:7-35 | The cases of the tests: "", null, "1.2" and "1b2" are not integers (`ShouldAllowNumerics` repeats the "1.2" case). Two added cases: the blank "  " is not an integer and "123" is. |
| StringExtensions.Left | ken.Spikes.Math/Types/StringExtensions.cs:14-17 | `length` characters that are a prefix of the string. |
| StringExtensions.Right | ken.Spikes.Math/Types/StringExtensions.cs:19-22 | The last `length` characters, position by position. |
| StringExtensions.LeftThenRight | ken.Spikes.Math/Types/StringExtensions.cs:14-22 | Left(s, k) + Right(s, \|s\| − k) == s. |
| StringExtensions.LeftRightWhole | ken.Spikes.Math/Types/StringExtensions.cs:14-22 | Taking all characters gives the string; taking none gives "". |
| Fibonacci.Fibonacci | ken.Spikes.QuestionFibonnaci/Program.cs:35-39 | The recursion with unchecked 32-bit addition always returns an int32. |
| Fibonacci.FibLambda | ken.Spikes.QuestionFibonnaci/Program.cs:21-22 | The result is a 32-bit `int` for every `int` argument. Its partner `LambdaIsFibonacci` shows it equals `Fibonacci`. |
| Fibonacci.LambdaIsFibonacci | ken.Spikes.QuestionFibonnaci/Program.cs:21-22 | The `fib` lambda and the `Fibonacci` method agree on every input. |
| Fibonacci.FibonacciExact | ken.Spikes.QuestionFibonnaci/Program.cs:35-39 | Up to 46 the 32-bit recursion is the mathematical Fibonacci number. |
| Fibonacci.FibonacciOverflows | ken.Spikes.QuestionFibonnaci/Program.cs:35-39 | At 47 the true value 2971215073 exceeds int32, so the method's result is wrong. |
| Fibonacci.PrintedValues | ken.Spikes.QuestionFibonnaci/Program.cs:16-33 | For the printed range 0..Max (15), the values are exact, non-negative and non-decreasing from 1, and end in 610. |
| Fibonacci.ClimbsExactly | ken.Spikes.QuestionFibonnaci/Program.cs:5-13 | A sequence of steps is in the enumeration `Climbs(n)` exactly when it uses only 1s and 2s summing to n. |
| Fibonacci.ClimbsDistinct | ken.Spikes.QuestionFibonnaci/Program.cs:5-13 | The enumeration lists no climb twice. |
| Fibonacci.ClimbsCount | ken.Spikes.QuestionFibonnaci/Program.cs:5-13 | There are Fib(n+1) ways to climb n steps. |
| Fibonacci.StaircaseWays | ken.Spikes.QuestionFibonnaci/Program.cs:5-13 | The number of distinct ways to climb n ≤ 45 steps with 1- and 2-steps is what the program computes: `Fibonacci(n+1)`. |
| Fibonacci.StaircaseExamples | ken.Spikes.QuestionFibonnaci/Program.cs:5-13 | One, two, three and four steps have 1, 2, 3 and 5 ways. |

## Left out

- Floating point. This covers the conversions from `double` and `decimal` (BigDecimal.cs:245-271), the conversions to `double`, `float` and `decimal` (273-286), and `Exp` and `Pow` (399-421). These are IEEE and `System.Decimal` arithmetic, which the model does not represent.
- The seed of `E(int)` is the `double` 2.5, so its value depends on the floating-point conversion. The model takes the exact result of that conversion, 25E-1, as a constant. The test that compares `E()` against a string constant is not modelled, because the constant is not part of this model; how close the sum gets to e is not stated beyond the per-term bound.
- `GetHashCode` (BigDecimal.cs:444-450). It depends on `BigInteger.GetHashCode`.
- Unary `+` (BigDecimal.cs:302-305). It returns its operand unchanged.
- The exponent arithmetic of `+`, `*` and `/` is unbounded in the model. The source's int32 exponent field can overflow in those operators.
- `char.IsDigit` in `Parse` is modelled as the ASCII digits. The Unicode decimal digits of other scripts are not included.
- `AlwaysTruncate` and `Precision` are mutable statics in the source. The model passes them as parameters.
- `BigIntegerPrimality.IsPrimeMillerRabin` is not part of this model. `BigIntegerExtensions.IsPrime` takes it as a function parameter.
- The number theory behind Miller–Rabin is not proved: that primes pass every base, and that the base sets are deterministic below their bounds. So the model states what the test computes, but not that its verdict is primality. The tests with large primes are therefore not covered.
- `Math.Sqrt` in `Int32Extensions.IsPrime` is modelled as the exact floor square root. For 32-bit inputs the double square root does not cross an integer.
- `Main` in Program.cs only prints, so it is not modelled. The values it prints are stated by `PrintedValues`.
- Int64Extensions.Mul: requires b ≤ mod and 0 < mod < 2^63. Outside that range the `ulong` shift and add can wrap, and mod = 0 never terminates.
- Int64Extensions.MillerRabin: requires 2 ≤ n < 2^63. n = 1 makes the `d` loop run forever (d = 0), and n = 0 wraps `n - 1`. `IsPrime` only calls it with odd n ≥ 3.
- BigIntegerExtensions.Sqrt: requires a non-negative input. For negative numbers the source either divides by zero or returns a meaningless value.
- StringExtensions.Left: the source throws on null or on a length out of range. The model requires a string and 0 ≤ length ≤ |value|.
- StringExtensions.Right: the source throws on null or on a length out of range. The model requires a string and 0 ≤ length ≤ |value|.
- Fibonacci.FibonacciOverflows: states only that the value at 47 is wrong, not the exact wrapped value.
- BigDecimalExtensions.FactoralHundred: the expected value is written as the decimal text of 100! rather than as the literal string of the test.
- BigDecimalOperators.Divide: requires a nonzero divisor mantissa. For a zero divisor the integer division at BigDecimal.cs:353 throws `DivideByZeroException`; the model has no value for that case.
- BigDecimals.Truncate: requires `precision >= 1`, and so do `BigDecimals.Truncated`, and `BigDecimals.New`, `BigDecimalText.Parse` and `BigDecimalText.Complete` whenever `alwaysTruncate` holds. For a precision of 0 or less the loop at BigDecimal.cs:219-223 never ends, because `NumberOfDigits(0)` is 1 and the mantissa stops shrinking at 0.
- BigDecimals.Normalize: `Normalize` and `Truncate` mutate a struct copy in place. They are modelled as methods that return the new value, which makes no difference for a value type.
