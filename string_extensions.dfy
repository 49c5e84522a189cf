/**
 * Small string helpers: whether a (possibly null) string is a run of ASCII
 * digits, and the leftmost or rightmost characters of a string.
 */
module StringExtensions {

  import opened Wrappers
  import opened NumberText

  /**
   * `char.IsWhiteSpace`: the Unicode space separators, the line and
   * paragraph separators, and the controls U+0009 to U+000D and U+0085.
   */
  predicate IsWhiteSpace(c: char)
  {
    || c == ' ' || ('\t' <= c <= '\r') || c == '\U{0085}' || c == '\U{00A0}' || c == '\U{1680}'
    || ('\U{2000}' <= c <= '\U{200A}') || c == '\U{2028}' || c == '\U{2029}' || c == '\U{202F}'
    || c == '\U{205F}' || c == '\U{3000}'
  }

  /** `String.IsNullOrWhiteSpace`: null, empty, or white space only. */
  predicate IsNullOrWhiteSpace(str: Option<string>)
  {
    str.None? || forall i :: 0 <= i < |str.value| ==> IsWhiteSpace(str.value[i])
  }

  /** `IsInteger` (StringExtensions.cs:8-12): not null or blank, and every character in '0'..'9'. */
  function IsInteger(str: Option<string>): (r: bool)
    ensures r ==> str.Some? && |str.value| >= 1 && AllDigits(str.value)
  {
    if IsNullOrWhiteSpace(str) then false else AllDigits(str.value)
  }

  /** A string is an integer exactly when it is present, non-empty and all digits. */
  lemma IsIntegerMeans(str: Option<string>)
    ensures IsInteger(str) <==> str.Some? && |str.value| >= 1 && AllDigits(str.value)
  {
    if str.Some? && |str.value| >= 1 && AllDigits(str.value) {
      assert !IsWhiteSpace(str.value[0]);
    }
  }

  /** The cases of StringExtensionsTests.cs:7-35, and a blank and a digit string. */
  lemma IsIntegerExamples()
    ensures !IsInteger(Some(""))
    ensures !IsInteger(None)
    ensures !IsInteger(Some("1.2"))
    ensures !IsInteger(Some("1b2"))
    ensures !IsInteger(Some("  "))
    ensures IsInteger(Some("123"))
  {
    IsIntegerMeans(Some(""));
    IsIntegerMeans(Some("1.2"));
    assert !IsDigit("1.2"[1]);
    assert !IsDigit("1b2"[1]);
    IsIntegerMeans(Some("  "));
    assert !IsDigit("  "[0]);
    IsIntegerMeans(Some("123"));
  }

  /**
   * `Left` (StringExtensions.cs:14-17): the first `length` characters.
   * `Substring` throws unless 0 <= length <= |value|.
   */
  function Left(value: string, length: int): (r: string)
    requires 0 <= length <= |value|
    ensures |r| == length && r <= value
  {
    value[..length]
  }

  /**
   * `Right` (StringExtensions.cs:19-22): the last `length` characters.
   * `Substring` throws unless 0 <= length <= |value|.
   */
  function Right(value: string, length: int): (r: string)
    requires 0 <= length <= |value|
    ensures |r| == length
    ensures forall i :: 0 <= i < length ==> r[i] == value[|value| - length + i]
  {
    value[|value| - length..]
  }

  /** The left k characters followed by the right |value| - k give back the string. */
  lemma LeftThenRight(value: string, k: int)
    requires 0 <= k <= |value|
    ensures Left(value, k) + Right(value, |value| - k) == value
  {
    assert value[..k] + value[k..] == value;
  }

  /** Taking all characters from either side gives the string itself, taking none the empty string. */
  lemma LeftRightWhole(value: string)
    ensures Left(value, |value|) == value && Right(value, |value|) == value
    ensures Left(value, 0) == "" && Right(value, 0) == ""
  {
    assert value[..|value|] == value;
  }
}
