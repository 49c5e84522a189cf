/**
 * The text form of `BigDecimal`: `Parse` (BigDecimal.cs:39-171), a
 * five-state scanner over the characters followed by the folding of the
 * exponent into the scale or the mantissa, and `ToString`
 * (BigDecimal.cs:425-428), "<mantissa>E<exponent>".
 *
 * The scanner is specified by `Step`, one character at a time, and
 * `ScanFrom`, the scan of a whole string; `Finish` is the code after the
 * loop. `ParseText` is the whole parse; the method `Parse` is the loop itself.
 */
module BigDecimalText {
  import opened Integers
  import opened NumberText
  import opened Wrappers
  import opened BigDecimals
  import BigDecimalOperators

  /** The parser's states (BigDecimal.cs:30-37). */
  datatype ParseState = Start | Integer | Decimal | E | Exponent

  /**
   * What the scanner has built so far: the state, the `ushort` count of
   * fraction digits, the digit buffer and the exponent buffer (`None` until
   * an 'e' or 'E' is read, as the C# builder is null until then).
   */
  datatype Scan = Scan(state: ParseState, scale: int, digits: string, exponent: Option<string>)

  /** Why `Parse` throws. */
  datatype ParseError =
    | NullArgument               // ArgumentNullException for a null string
    | InvalidCharacter(c: char)  // FormatException: a character the state does not accept
    | ScaleOverflow              // OverflowException: `checked ++scale` past 65535
    | NoValue                    // FormatException: no digit before the exponent
    | NoExponent                 // FormatException: 'E' with nothing after it
    | ExponentFormat             // FormatException from `int.Parse`: a lone sign
    | ExponentOverflow           // OverflowException from `int.Parse`: not an `int`

  const Initial := Scan(Start, 0, "", None)

  predicate IsExponentMarker(c: char) { c == 'e' || c == 'E' }

  /** The text of the exponent builder (empty while it is null). */
  function Builder(b: Option<string>): string
  {
    if b.Some? then b.value else ""
  }

  /** One iteration of the `foreach` over the input (BigDecimal.cs:63-131). */
  function Step(s: Scan, c: char): (r: Result<Scan, ParseError>)
    ensures r.Failure? ==> r.error == InvalidCharacter(c) || (r.error == ScaleOverflow && s.state == Decimal && s.scale >= USHORT_MAX)
  {
    match s.state
    case Start =>
      if IsDigit(c) || IsSign(c) then Success(s.(state := Integer, digits := s.digits + [c]))
      else if c == '.' then Success(s.(state := Decimal))
      else Failure(InvalidCharacter(c))
    case Integer =>
      if IsDigit(c) then Success(s.(digits := s.digits + [c]))
      else if c == '.' then Success(s.(state := Decimal))
      else if IsExponentMarker(c) then Success(s.(state := E, exponent := Some("")))
      else Failure(InvalidCharacter(c))
    case Decimal =>
      if IsDigit(c) then
        if s.scale >= USHORT_MAX then Failure(ScaleOverflow)
        else Success(s.(scale := s.scale + 1, digits := s.digits + [c]))
      else if IsExponentMarker(c) then Success(s.(state := E, exponent := Some("")))
      else Failure(InvalidCharacter(c))
    case E =>
      if IsDigit(c) || IsSign(c) then Success(s.(state := Exponent, exponent := Some(Builder(s.exponent) + [c])))
      else Failure(InvalidCharacter(c))
    case Exponent =>
      if IsDigit(c) then Success(s.(exponent := Some(Builder(s.exponent) + [c])))
      else Failure(InvalidCharacter(c))
  }

  /** An optional sign followed by digits (possibly none). */
  predicate SignedDigits(t: string)
  {
    t == [] || (AllDigits(t[1..]) && (IsDigit(t[0]) || IsSign(t[0])))
  }

  /** What holds of every scan the parser reaches. */
  predicate Consistent(s: Scan)
  {
    && 0 <= s.scale <= USHORT_MAX
    && SignedDigits(s.digits)
    && (s.exponent.Some? ==> SignedDigits(s.exponent.value))
    && (s.state == Start ==> s.digits == [] && s.scale == 0 && s.exponent.None?)
    && (s.state == Integer ==> |s.digits| >= 1 && s.scale == 0 && s.exponent.None?)
    && (s.state == Decimal ==> s.exponent.None?)
    && (s.state == E ==> s.exponent == Some(""))
    && (s.state == Exponent ==> s.exponent.Some? && |s.exponent.value| >= 1)
  }

  /** Each step keeps the scan consistent. */
  lemma StepConsistent(s: Scan, c: char)
    ensures Consistent(s) && Step(s, c).Success? ==> Consistent(Step(s, c).value)
  {
    if Consistent(s) && Step(s, c).Success? {
      var t := Step(s, c).value;
      if t.digits != s.digits {
        AppendKeepsSigned(s.digits, c, s.state == Start);
      }
      if s.state == E {
        assert Builder(s.exponent) + [c] == [c];
      } else if s.state == Exponent {
        AppendKeepsSigned(s.exponent.value, c, false);
      }
    }
  }

  lemma AppendKeepsSigned(t: string, c: char, first: bool)
    requires SignedDigits(t)
    requires if first then t == [] && (IsDigit(c) || IsSign(c)) else IsDigit(c)
    ensures SignedDigits(t + [c])
  {
    var u := t + [c];
    if t == [] {
      assert u == [c];
    } else {
      assert u[1..] == t[1..] + [c];
    }
  }

  /** The scan of `text` from `s`, stopping at the first exception. */
  function ScanFrom(s: Scan, text: string): (r: Result<Scan, ParseError>)
    decreases |text|
  {
    if text == [] then Success(s)
    else
      match Step(s, text[0])
      case Failure(e) => Failure(e)
      case Success(next) => ScanFrom(next, text[1..])
  }

  /** The scan keeps the scanner consistent. */
  lemma {:induction false} ScanConsistent(s: Scan, text: string)
    ensures Consistent(s) && ScanFrom(s, text).Success? ==> Consistent(ScanFrom(s, text).value)
    decreases |text|
  {
    if text != [] {
      StepConsistent(s, text[0]);
      match Step(s, text[0])
      case Failure(_) =>
      case Success(next) => ScanConsistent(next, text[1..]);
    }
  }

  /** The checks and the exponent folding after the loop (BigDecimal.cs:133-168). */
  function Finish(s: Scan): Result<BigDecimal, ParseError>
    requires Consistent(s)
  {
    var d := s.digits;
    if |d| == 0 || (|d| == 1 && !IsDigit(d[0])) then Failure(NoValue)
    else if s.exponent.Some? && (|s.exponent.value| == 0 || (|d| == 1 && !IsDigit(d[0]))) then Failure(NoExponent)
    else
      var m := SignedValue(d);
      if s.exponent.None? then Success(BigDecimal(m, -s.scale))
      else
        var t := s.exponent.value;
        if |t| == 1 && !IsDigit(t[0]) then Failure(ExponentFormat)
        else
          var x := SignedValue(t);
          if !InInt32(x) then Failure(ExponentOverflow)
          else Success(ApplyExponent(m, s.scale, x))
  }

  /**
   * The exponent `x` folded into (mantissa, scale) (BigDecimal.cs:143-167):
   * a positive exponent first uses up the scale and then multiplies the
   * mantissa; a negative one raises the scale, which the `ushort` caps at
   * 65535 by dividing the excess out of the mantissa. `-x + scale` is
   * unchecked `int` arithmetic and the assignment to the scale a `ushort` cast.
   */
  function ApplyExponent(m: int, scale: int, x: int): BigDecimal
  {
    if x > 0 then
      if x <= scale then BigDecimal(m, -(scale - x)) else BigDecimal(m * Pow10(x - scale), 0)
    else if x < 0 then
      var raised := Wrap32(-x + scale);
      if raised <= USHORT_MAX then BigDecimal(m, -LowUShort(raised))
      else BigDecimal(TruncDiv(m, Pow10(raised - USHORT_MAX)), -USHORT_MAX)
    else BigDecimal(m, -scale)
  }

  /** `Parse` as a whole; the result goes through the normalising constructor. */
  function ParseText(str: Option<string>): Result<BigDecimal, ParseError>
  {
    match str
    case None => Failure(NullArgument)
    case Some(text) =>
      ScanConsistent(Initial, text);
      match ScanFrom(Initial, text)
      case Failure(e) => Failure(e)
      case Success(s) => Completed(s)
  }

  /** `Finish`, and on success the normalising constructor. */
  function Completed(s: Scan): Result<BigDecimal, ParseError>
    requires Consistent(s)
  {
    match Finish(s)
    case Failure(e) => Failure(e)
    case Success(raw) => Success(Normalized(raw.mantissa, raw.exponent))
  }

  /**
   * `Parse` (BigDecimal.cs:39-171): the `foreach` with its `switch`, then the
   * checks, `BigInteger.Parse`, `int.Parse` and the constructor. The statics
   * `AlwaysTruncate` and `Precision` are parameters.
   */
  method Parse(str: Option<string>, alwaysTruncate: bool, precision: int) returns (r: Result<BigDecimal, ParseError>)
    requires alwaysTruncate ==> precision >= 1
    ensures r == ParseText(str)
  {
    if str.None? {
      return Failure(NullArgument);
    }
    var text := str.value;
    var state := Start;
    var scale := 0;
    var digits := "";
    var exponent: Option<string> := None;
    var i := 0;
    while i < |text|
      invariant 0 <= i <= |text|
      invariant Consistent(Scan(state, scale, digits, exponent))
      invariant ScanFrom(Initial, text) == ScanFrom(Scan(state, scale, digits, exponent), text[i..])
      decreases |text| - i
    {
      var c := text[i];
      ghost var s := Scan(state, scale, digits, exponent);
      assert text[i..][0] == c && text[i..][1..] == text[i + 1..];
      StepConsistent(s, c);
      match state {
      case Start =>
        if IsDigit(c) || IsSign(c) {
          state := Integer;
          digits := digits + [c];
        } else if c == '.' {
          state := Decimal;
        } else {
          return Failure(InvalidCharacter(c));
        }
      case Integer =>
        if IsDigit(c) {
          digits := digits + [c];
        } else if c == '.' {
          state := Decimal;
        } else if IsExponentMarker(c) {
          exponent := Some("");
          state := E;
        } else {
          return Failure(InvalidCharacter(c));
        }
      case Decimal =>
        if IsDigit(c) {
          if scale >= USHORT_MAX {
            return Failure(ScaleOverflow);
          }
          scale := scale + 1;
          digits := digits + [c];
        } else if IsExponentMarker(c) {
          exponent := Some("");
          state := E;
        } else {
          return Failure(InvalidCharacter(c));
        }
      case E =>
        if IsDigit(c) || IsSign(c) {
          state := Exponent;
          exponent := Some(exponent.value + [c]);
        } else {
          return Failure(InvalidCharacter(c));
        }
      case Exponent =>
        if IsDigit(c) {
          exponent := Some(exponent.value + [c]);
        } else {
          return Failure(InvalidCharacter(c));
        }
      }
      assert Step(s, c) == Success(Scan(state, scale, digits, exponent));
      i := i + 1;
    }
    assert text[i..] == [];
    r := Complete(state, scale, digits, exponent, alwaysTruncate, precision);
  }

  /**
   * The code after the loop (BigDecimal.cs:133-170): the two checks,
   * `BigInteger.Parse`, `int.Parse`, the folding of the exponent and the
   * constructor.
   */
  method Complete(state: ParseState, scale: int, digits: string, exponent: Option<string>,
                  alwaysTruncate: bool, precision: int) returns (r: Result<BigDecimal, ParseError>)
    requires alwaysTruncate ==> precision >= 1
    requires Consistent(Scan(state, scale, digits, exponent))
    ensures r == Completed(Scan(state, scale, digits, exponent))
  {
    if |digits| == 0 || (|digits| == 1 && !IsDigit(digits[0])) {
      return Failure(NoValue);
    }
    if exponent.Some? && (|exponent.value| == 0 || (|digits| == 1 && !IsDigit(digits[0]))) {
      return Failure(NoExponent);
    }
    ghost var s := Scan(state, scale, digits, exponent);
    var mantissa := SignedValue(digits);
    var scale := scale;
    if exponent.Some? {
      var t := exponent.value;
      if |t| == 1 && !IsDigit(t[0]) {
        return Failure(ExponentFormat);
      }
      var x := SignedValue(t);
      if !InInt32(x) {
        return Failure(ExponentOverflow);
      }
      if x > 0 {
        if x <= scale {
          scale := scale - x;
        } else {
          mantissa := mantissa * Pow10(x - scale);
          scale := 0;
        }
      } else if x < 0 {
        var raised := Wrap32(-x + scale);
        if raised <= USHORT_MAX {
          scale := LowUShort(raised);
        } else {
          scale := USHORT_MAX;
          mantissa := TruncDiv(mantissa, Pow10(raised - USHORT_MAX));
        }
      }
    }
    assert Finish(s) == Success(BigDecimal(mantissa, -scale));
    var d := New(mantissa, -scale, alwaysTruncate, precision);
    return Success(d);
  }

  /** `ToString` (BigDecimal.cs:425-428): the mantissa, 'E', the exponent. */
  function ToString(d: BigDecimal): (r: string)
    ensures |r| >= 3 && 'E' in r
  {
    var r := IntToString(d.mantissa) + "E" + IntToString(d.exponent);
    assert r[|IntToString(d.mantissa)|] == 'E';
    r
  }

  // ---------------------------------------------------------------------
  // Scanning lemmas

  /** Continuing a scan result with more text. */
  function Then(r: Result<Scan, ParseError>, rest: string): Result<Scan, ParseError>
  {
    match r
    case Failure(e) => Failure(e)
    case Success(s) => ScanFrom(s, rest)
  }

  /** Scanning a concatenation scans the first part, then the second from where it stopped. */
  lemma {:induction false} ScanAppend(s: Scan, a: string, b: string)
    ensures ScanFrom(s, a + b) == Then(ScanFrom(s, a), b)
    decreases |a|
  {
    if a == [] {
      assert a + b == b;
    } else {
      assert (a + b)[0] == a[0] && (a + b)[1..] == a[1..] + b;
      match Step(s, a[0])
      case Failure(_) =>
      case Success(next) => ScanAppend(next, a[1..], b);
    }
  }

  /** Digits in the `Integer` state are appended to the digit buffer. */
  lemma {:induction false} IntegerDigits(s: Scan, ds: string)
    requires s.state == Integer && AllDigits(ds)
    ensures ScanFrom(s, ds) == Success(s.(digits := s.digits + ds))
    decreases |ds|
  {
    if ds == [] {
      assert s.digits + ds == s.digits;
    } else {
      var next := s.(digits := s.digits + [ds[0]]);
      assert Step(s, ds[0]) == Success(next);
      IntegerDigits(next, ds[1..]);
      assert s.digits + [ds[0]] + ds[1..] == s.digits + ds;
    }
  }

  /** Digits in the `Decimal` state are appended and counted in the scale, up to 65535 of them. */
  lemma {:induction false} DecimalDigits(s: Scan, ds: string)
    requires s.state == Decimal && AllDigits(ds) && s.scale + |ds| <= USHORT_MAX
    ensures ScanFrom(s, ds) == Success(s.(scale := s.scale + |ds|, digits := s.digits + ds))
    decreases |ds|
  {
    if ds == [] {
      assert s.digits + ds == s.digits;
    } else {
      var next := s.(scale := s.scale + 1, digits := s.digits + [ds[0]]);
      assert Step(s, ds[0]) == Success(next);
      DecimalDigits(next, ds[1..]);
      assert s.digits + [ds[0]] + ds[1..] == s.digits + ds;
    }
  }

  /** The fraction digit that would take the scale past 65535 throws. */
  lemma {:induction false} DecimalOverflow(s: Scan, ds: string)
    requires s.state == Decimal && AllDigits(ds) && 0 <= s.scale <= USHORT_MAX < s.scale + |ds|
    ensures ScanFrom(s, ds) == Failure(ScaleOverflow)
    decreases |ds|
  {
    assert IsDigit(ds[0]);
    if s.scale < USHORT_MAX {
      var next := s.(scale := s.scale + 1, digits := s.digits + [ds[0]]);
      assert Step(s, ds[0]) == Success(next);
      DecimalOverflow(next, ds[1..]);
    }
  }

  /** Digits in the `Exponent` state are appended to the exponent buffer. */
  lemma {:induction false} ExponentDigits(s: Scan, ds: string)
    requires s.state == Exponent && s.exponent.Some? && AllDigits(ds)
    ensures ScanFrom(s, ds) == Success(s.(exponent := Some(s.exponent.value + ds)))
    decreases |ds|
  {
    if ds == [] {
      assert s.exponent.value + ds == s.exponent.value;
    } else {
      var next := s.(exponent := Some(s.exponent.value + [ds[0]]));
      assert Step(s, ds[0]) == Success(next);
      ExponentDigits(next, ds[1..]);
      assert s.exponent.value + [ds[0]] + ds[1..] == s.exponent.value + ds;
    }
  }

  /** A character that no state accepts: neither a digit, a sign, '.' nor an exponent marker. */
  predicate Foreign(c: char)
  {
    !IsDigit(c) && !IsSign(c) && c != '.' && !IsExponentMarker(c)
  }

  /** Text containing a foreign character is rejected, whatever the state. */
  lemma {:induction false} ForeignRejected(s: Scan, text: string, i: nat)
    requires i < |text| && Foreign(text[i])
    ensures ScanFrom(s, text).Failure?
    decreases |text|
  {
    if i > 0 {
      match Step(s, text[0])
      case Failure(_) =>
      case Success(next) => ForeignRejected(next, text[1..], i - 1);
    }
  }

  // ---------------------------------------------------------------------
  // The grammar the scanner accepts

  /** At most one sign. */
  predicate OptionalSign(sign: string)
  {
    |sign| <= 1 && (|sign| == 1 ==> IsSign(sign[0]))
  }

  /** sign, whole digits, an optional '.', fraction digits (none without the '.'). */
  function MantissaText(sign: string, whole: string, dotted: bool, frac: string): string
  {
    sign + whole + (if dotted then "." else "") + frac
  }

  predicate MantissaShape(sign: string, whole: string, dotted: bool, frac: string)
  {
    OptionalSign(sign) && AllDigits(whole) && AllDigits(frac) && (!dotted ==> frac == [])
  }

  /** Where the scan of a mantissa leaves the scanner. */
  function MantissaScan(sign: string, whole: string, dotted: bool, frac: string): Scan
  {
    if dotted then Scan(Decimal, |frac|, sign + whole + frac, None)
    else if sign + whole == [] then Initial
    else Scan(Integer, 0, sign + whole, None)
  }

  lemma ScanSignAndWhole(sign: string, whole: string)
    requires OptionalSign(sign) && AllDigits(whole)
    ensures ScanFrom(Initial, sign + whole) == Success(if sign + whole == [] then Initial else Scan(Integer, 0, sign + whole, None))
  {
    var head := sign + whole;
    if head != [] {
      var first := Scan(Integer, 0, [head[0]], None);
      assert IsDigit(head[0]) || IsSign(head[0]);
      assert Initial.digits + [head[0]] == [head[0]];
      assert Step(Initial, head[0]) == Success(first);
      assert AllDigits(head[1..]) by {
        if sign == [] {
          assert head[1..] == whole[1..];
        } else {
          assert head[1..] == whole;
        }
      }
      IntegerDigits(first, head[1..]);
      assert [head[0]] + head[1..] == head;
    }
  }

  lemma ScanMantissa(sign: string, whole: string, dotted: bool, frac: string)
    requires MantissaShape(sign, whole, dotted, frac) && |frac| <= USHORT_MAX
    ensures ScanFrom(Initial, MantissaText(sign, whole, dotted, frac)) == Success(MantissaScan(sign, whole, dotted, frac))
  {
    ScanSignAndWhole(sign, whole);
    var head := sign + whole;
    if dotted {
      var afterHead := if head == [] then Initial else Scan(Integer, 0, head, None);
      var dot := Scan(Decimal, 0, head, None);
      assert Step(afterHead, '.') == Success(dot);
      DecimalDigits(dot, frac);
      ScanAppend(Initial, head, ".");
      ScanAppend(Initial, head + ".", frac);
      assert MantissaText(sign, whole, dotted, frac) == head + "." + frac;
    } else {
      assert MantissaText(sign, whole, dotted, frac) == head;
    }
  }

  /** Input without an exponent: the digits over 10^(number of fraction digits). */
  lemma ParseWithoutExponent(text: string, sign: string, whole: string, dotted: bool, frac: string)
    requires MantissaShape(sign, whole, dotted, frac) && |frac| <= USHORT_MAX
    requires |whole| + |frac| >= 1
    requires text == MantissaText(sign, whole, dotted, frac)
    ensures ParseText(Some(text)) == Success(Normalized(SignedValue(sign + whole + frac), -|frac|))
  {
    var m := MantissaScan(sign, whole, dotted, frac);
    ScanMantissa(sign, whole, dotted, frac);
    DigitBuffer(sign, whole, frac);
    var v := SignedValue(sign + whole + frac);
    MantissaValue(sign, whole, dotted, frac, m, v);
    ParseWithoutExponentOf(text, m, v, |frac|);
  }

  /** `Parse` of text the scanner accepts is the completion of the scan. */
  lemma ParseOfScan(text: string, m: Scan)
    requires ScanFrom(Initial, text) == Success(m)
    ensures Consistent(m)
    ensures ParseText(Some(text)) == Completed(m)
  {
    ScanConsistent(Initial, text);
  }

  /** After the mantissa the buffer holds its sign and digits, and the scale counts the fraction digits. */
  lemma MantissaBuffer(sign: string, whole: string, dotted: bool, frac: string)
    requires MantissaShape(sign, whole, dotted, frac) && |whole| + |frac| >= 1
    ensures var m := MantissaScan(sign, whole, dotted, frac);
      m.digits == sign + whole + frac && m.scale == |frac| && m.exponent.None?
      && (m.state == Integer || m.state == Decimal)
  {
    assert !dotted ==> sign + whole + frac == sign + whole;
  }

  /** What the mantissa leaves in the scanner, in the terms `Finish` reads. */
  lemma MantissaValue(sign: string, whole: string, dotted: bool, frac: string, m: Scan, v: int)
    requires MantissaShape(sign, whole, dotted, frac) && |whole| + |frac| >= 1
    requires m == MantissaScan(sign, whole, dotted, frac)
    requires |sign + whole + frac| >= 1 && AllDigits((sign + whole + frac)[1..])
    requires IsDigit((sign + whole + frac)[0]) || IsSign((sign + whole + frac)[0])
    requires v == SignedValue(sign + whole + frac)
    ensures m.exponent.None? && |m.digits| >= 1 && !(|m.digits| == 1 && !IsDigit(m.digits[0]))
    ensures AllDigits(m.digits[1..]) && (IsDigit(m.digits[0]) || IsSign(m.digits[0]))
    ensures SignedValue(m.digits) == v && m.scale == |frac|
  {
    MantissaBuffer(sign, whole, dotted, frac);
    DigitBuffer(sign, whole, frac);
  }

  /** Text whose scan has a value and no exponent parses as the digits over 10^scale. */
  lemma ParseWithoutExponentOf(text: string, m: Scan, v: int, k: int)
    requires ScanFrom(Initial, text) == Success(m)
    requires m.exponent.None? && |m.digits| >= 1 && !(|m.digits| == 1 && !IsDigit(m.digits[0]))
    requires AllDigits(m.digits[1..]) && (IsDigit(m.digits[0]) || IsSign(m.digits[0]))
    requires SignedValue(m.digits) == v && m.scale == k
    ensures ParseText(Some(text)) == Success(Normalized(v, -k))
  {
    ParseOfScan(text, m);
  }

  /** The digit buffer: a sign or digit first, digits after, and at least one digit. */
  lemma DigitBuffer(sign: string, whole: string, frac: string)
    requires OptionalSign(sign) && AllDigits(whole) && AllDigits(frac) && |whole| + |frac| >= 1
    ensures var d := sign + whole + frac;
      && |d| >= 1 && AllDigits(d[1..]) && (IsDigit(d[0]) || IsSign(d[0]))
      && !(|d| == 1 && !IsDigit(d[0]))
  {
    var d := sign + whole + frac;
    if sign == [] {
      if whole == [] {
        assert d == frac;
        assert d[1..] == frac[1..];
      } else {
        assert d[0] == whole[0];
        assert d[1..] == whole[1..] + frac;
      }
    } else {
      assert d[1..] == whole + frac;
    }
  }

  /** 'E' with nothing after it (BigDecimal.cs:136-138). */
  lemma ParseNoExponentDigits(sign: string, whole: string, dotted: bool, frac: string, marker: char)
    requires MantissaShape(sign, whole, dotted, frac) && |frac| <= USHORT_MAX
    requires |whole| + |frac| >= 1 && IsExponentMarker(marker)
    ensures ParseText(Some(MantissaText(sign, whole, dotted, frac) + [marker])) == Failure(NoExponent)
  {
    ScanMantissa(sign, whole, dotted, frac);
    ScanAppend(Initial, MantissaText(sign, whole, dotted, frac), [marker]);
    DigitBuffer(sign, whole, frac);
    var m := MantissaScan(sign, whole, dotted, frac);
    assert !dotted ==> sign + whole + frac == sign + whole;
    assert m.digits == sign + whole + frac && (m.state == Integer || m.state == Decimal);
    var e := m.(state := E, exponent := Some(""));
    assert Step(m, marker) == Success(e);
    assert ScanFrom(m, [marker]) == Success(e);
    assert Finish(e) == Failure(NoExponent);
  }

  /**
   * Input with an exponent: a lone sign fails in `int.Parse`, an exponent
   * outside `int` overflows there, and otherwise the exponent is folded in.
   */
  lemma ParseWithExponent(sign: string, whole: string, dotted: bool, frac: string, marker: char, exp: string)
    requires MantissaShape(sign, whole, dotted, frac) && |frac| <= USHORT_MAX
    requires |whole| + |frac| >= 1 && IsExponentMarker(marker)
    requires |exp| >= 1 && SignedDigits(exp)
    ensures var r := ParseText(Some(MantissaText(sign, whole, dotted, frac) + [marker] + exp));
      if |exp| == 1 && !IsDigit(exp[0]) then r == Failure(ExponentFormat)
      else if !InInt32(SignedValue(exp)) then r == Failure(ExponentOverflow)
      else
        var raw := ApplyExponent(SignedValue(sign + whole + frac), |frac|, SignedValue(exp));
        r == Success(Normalized(raw.mantissa, raw.exponent))
  {
    var head := MantissaText(sign, whole, dotted, frac);
    ScanMantissa(sign, whole, dotted, frac);
    DigitBuffer(sign, whole, frac);
    var m := MantissaScan(sign, whole, dotted, frac);
    assert !dotted ==> sign + whole + frac == sign + whole;
    assert m.digits == sign + whole + frac && (m.state == Integer || m.state == Decimal);
    var e := m.(state := E, exponent := Some(""));
    assert Step(m, marker) == Success(e);
    var x := e.(state := Exponent, exponent := Some([exp[0]]));
    assert Builder(e.exponent) + [exp[0]] == [exp[0]];
    assert Step(e, exp[0]) == Success(x);
    ExponentDigits(x, exp[1..]);
    assert [exp[0]] + exp[1..] == exp;
    ScanAppend(Initial, head, [marker] + exp);
    ScanAppend(m, [marker], exp);
    ScanAppend(e, [exp[0]], exp[1..]);
    assert head + [marker] + exp == head + ([marker] + exp);
    var final := x.(exponent := Some(exp));
    assert ScanFrom(Initial, head + [marker] + exp) == Success(final);
    assert final == Scan(Exponent, |frac|, sign + whole + frac, Some(exp));
  }

  // ---------------------------------------------------------------------
  // What the exponent does

  /**
   * Unless the scale would pass 65535, folding the exponent keeps the
   * number digits × 10^(exponent − fraction digits).
   */
  lemma ApplyExponentExact(m: int, scale: int, x: int)
    requires 0 <= scale <= USHORT_MAX && InInt32(x)
    requires x - scale >= -USHORT_MAX
    ensures Value(ApplyExponent(m, scale, x)) == Value(BigDecimal(m, x - scale))
  {
    if x > scale {
      ValueShift(m, 0, x - scale);
    }
  }

  /**
   * Below that, the scale is capped at 65535 and the digits that would sit
   * below 10^-65535 are divided out of the mantissa, truncating toward zero
   * (when `-x + scale` still fits an `int`).
   */
  lemma ApplyExponentClamped(m: int, scale: int, x: int)
    requires 0 <= scale <= USHORT_MAX && InInt32(x)
    requires x - scale < -USHORT_MAX && -x + scale <= INT32_MAX
    ensures ApplyExponent(m, scale, x) == BigDecimal(TruncDiv(m, Pow10(scale - x - USHORT_MAX)), -USHORT_MAX)
  {
  }

  // ---------------------------------------------------------------------
  // Rejected input (BigDecimal.cs:41-142)

  lemma ParseNull()
    ensures ParseText(None) == Failure(NullArgument)
  {
  }

  /** A letter where a digit is expected. */
  lemma ParseRejectsLetter()
    ensures ParseText(Some("1a")) == Failure(InvalidCharacter('a'))
  {
    ScanSignAndWhole("", "1");
    assert "" + "1" == "1" && "1a" == "1" + "a";
    ScanAppend(Initial, "1", "a");
  }

  /** A second '.'. */
  lemma ParseRejectsSecondDot()
    ensures ParseText(Some("1.2.3")) == Failure(InvalidCharacter('.'))
  {
    ScanMantissa("", "1", true, "2");
    assert MantissaText("", "1", true, "2") == "1.2" && "1.2.3" == "1.2" + ".3";
    ScanAppend(Initial, "1.2", ".3");
  }

  /** A sign after the first digit. */
  lemma ParseRejectsSignInMantissa()
    ensures ParseText(Some("1-2")) == Failure(InvalidCharacter('-'))
  {
    ScanSignAndWhole("", "1");
    assert "" + "1" == "1" && "1-2" == "1" + "-2";
    ScanAppend(Initial, "1", "-2");
  }

  /** A sign after the first exponent digit. */
  lemma ParseRejectsSignInExponent()
    ensures ParseText(Some("1E2-")) == Failure(InvalidCharacter('-'))
  {
    ScanSignAndWhole("", "1");
    assert "" + "1" == "1" && "1E2-" == "1" + "E2-";
    ScanAppend(Initial, "1", "E2-");
    var e := Scan(E, 0, "1", Some(""));
    assert Step(Scan(Integer, 0, "1", None), 'E') == Success(e);
    assert Builder(e.exponent) + ['2'] == "2";
    assert Step(e, '2') == Success(Scan(Exponent, 0, "1", Some("2")));
  }

  /** No digit at all. */
  lemma ParseRejectsNoDigits()
    ensures ParseText(Some("")) == Failure(NoValue)
    ensures ParseText(Some(".")) == Failure(NoValue)
    ensures ParseText(Some("-")) == Failure(NoValue)
  {
    assert Initial.digits + ['-'] == "-";
    assert Step(Initial, '-') == Success(Scan(Integer, 0, "-", None));
  }

  /** An 'E' with no exponent, and one whose exponent is a lone sign. */
  lemma ParseRejectsMissingExponent()
    ensures ParseText(Some("12E")) == Failure(NoExponent)
    ensures ParseText(Some("12E+")) == Failure(ExponentFormat)
  {
    ParseNoExponentDigits("", "12", false, "", 'E');
    assert MantissaText("", "12", false, "") + ['E'] == "12E";
    ParseWithExponent("", "12", false, "", 'E', "+");
    assert MantissaText("", "12", false, "") + ['E'] + "+" == "12E+";
  }

  /** More than 65535 fraction digits throw; the scale is a checked `ushort`. */
  lemma ParseTooManyFractionDigits(sign: string, whole: string, frac: string)
    requires MantissaShape(sign, whole, true, frac) && |frac| > USHORT_MAX
    ensures ParseText(Some(MantissaText(sign, whole, true, frac))) == Failure(ScaleOverflow)
  {
    ScanSignAndWhole(sign, whole);
    var head := sign + whole;
    var afterHead := if head == [] then Initial else Scan(Integer, 0, head, None);
    assert Step(afterHead, '.') == Success(Scan(Decimal, 0, head, None));
    DecimalOverflow(Scan(Decimal, 0, head, None), frac);
    ScanAppend(Initial, head, ".");
    ScanAppend(Initial, head + ".", frac);
    assert MantissaText(sign, whole, true, frac) == head + "." + frac;
  }

  /** A character outside the grammar anywhere in the input is rejected. */
  lemma ParseRejectsForeign(text: string, i: nat)
    requires i < |text| && Foreign(text[i])
    ensures ParseText(Some(text)).Failure?
  {
    ForeignRejected(Initial, text, i);
  }

  // ---------------------------------------------------------------------
  // Accepted input: the cases of BigDecimalTests.cs:17-54

  /*
   * Each example below names its input text in the precondition and states
   * in its postcondition the value, or the exception, that `Parse` yields for
   * that text; the proofs go through the general lemmas above.
   */

  /** Digits only, then an exponent: the parse of `whole` + "E" + `exp`. */
  lemma ParseIntegerWithExponent(text: string, whole: string, exp: string, m: int, x: int)
    requires |whole| >= 1 && AllDigits(whole) && DigitsValue(whole) == m
    requires |exp| >= 1 && SignedDigits(exp) && !(|exp| == 1 && !IsDigit(exp[0]))
    requires SignedValue(exp) == x && InInt32(x)
    requires text == whole + "E" + exp
    ensures ParseText(Some(text)) == Success(Normalized(ApplyExponent(m, 0, x).mantissa, ApplyExponent(m, 0, x).exponent))
  {
    ParseWithExponent("", whole, false, "", 'E', exp);
    IntegerWithExponentText(text, whole, exp);
    assert IsDigit(whole[0]);
  }

  lemma IntegerWithExponentText(text: string, whole: string, exp: string)
    requires text == whole + "E" + exp
    ensures text == MantissaText("", whole, false, "") + ['E'] + exp
    ensures "" + whole + "" == whole
  {
    var head := MantissaText("", whole, false, "");
    assert head == whole by {
      assert "" + whole == whole;
      assert whole + "" == whole;
    }
  }

  lemma ParseInteger(text: string)
    requires text == "123456789"
    ensures ParseText(Some(text)) == Success(BigDecimal(123456789, 0))
  {
    Digits123456789();
    ParseDecimalText(text);
    NormalizedUnique(123456789, 0, BigDecimal(123456789, 0));
  }

  lemma ParseDecimalFraction(text: string)
    requires text == "123456789.444555"
    ensures ParseText(Some(text)) == Success(BigDecimal(123456789444555, -6))
  {
    assert MantissaText("", "123456789", true, "444555") == text;
    ParseWithoutExponent(text, "", "123456789", true, "444555");
    assert "" + "123456789" + "444555" == "123456789444555";
    Digits123456789444555();
    NormalizedUnique(123456789444555, -6, BigDecimal(123456789444555, -6));
  }

  lemma ParseExponent(text: string)
    requires text == "123E7"
    ensures ParseText(Some(text)) == Success(BigDecimal(123, 7))
  {
    Digits123();
    ParseIntegerWithExponent(text, "123", "7", 123, 7);
    assert Pow10(7) == 10000000;
    ValueShift(123, 0, 7);
    NormalizedUnique(1230000000, 0, BigDecimal(123, 7));
  }

  lemma ParseSignedExponent(text: string)
    requires text == "123E+10"
    ensures ParseText(Some(text)) == Success(BigDecimal(123, 10))
  {
    Digits123();
    assert "+10"[1..] == "10";
    ParseIntegerWithExponent(text, "123", "+10", 123, 10);
    assert Pow10(10) == 10000000000;
    ValueShift(123, 0, 10);
    NormalizedUnique(1230000000000, 0, BigDecimal(123, 10));
  }

  lemma ParseNegativeExponent(text: string)
    requires text == "123456789E-1"
    ensures ParseText(Some(text)) == Success(BigDecimal(123456789, -1))
  {
    Digits123456789();
    assert "-1"[1..] == "1";
    ParseIntegerWithExponent(text, "123456789", "-1", 123456789, -1);
    NormalizedUnique(123456789, -1, BigDecimal(123456789, -1));
  }

  /** The exponent wraps: -(-2147483648) is -2147483648 in unchecked `int`, so the scale is unchanged. */
  lemma ParseMinimalExponent(text: string)
    requires text == "1E-2147483648"
    ensures ParseText(Some(text)) == Success(BigDecimal(1, 0))
  {
    assert "-2147483648"[1..] == "2147483648";
    Digits2147483648();
    ParseIntegerWithExponent(text, "1", "-2147483648", 1, -2147483648);
    assert Wrap32(2147483648) == -2147483648;
    DivUnique(-2147483648, 0x1_0000, -32768, 0);
    assert LowUShort(-2147483648) == 0;
    NormalizedUnique(1, 0, BigDecimal(1, 0));
  }

  // ---------------------------------------------------------------------
  // ToString and the round trip

  /** The text of an integer is never a lone sign and is a signed digit string. */
  lemma IntText(x: int)
    ensures var t := IntToString(x);
      && |t| >= 1 && SignedDigits(t) && SignedValue(t) == x
      && !(|t| == 1 && !IsDigit(t[0]))
  {
    IntToStringRoundTrip(x);
  }

  /**
   * `Parse` reads back what `ToString` writes, for a normalised value whose
   * exponent the scale can hold (BigDecimal.cs:425-428, 139-170).
   */
  lemma ParseToStringRoundTrip(d: BigDecimal)
    requires Canonical(d) && InInt32(d.exponent) && d.exponent >= -USHORT_MAX
    ensures ParseText(Some(ToString(d))) == Success(d)
  {
    var m, e := d.mantissa, d.exponent;
    var sign := if m < 0 then "-" else "";
    var whole := NatToString(Abs(m));
    assert IntToString(m) == sign + whole;
    assert MantissaText(sign, whole, false, "") + ['E'] + IntToString(e) == ToString(d);
    assert sign + whole + "" == IntToString(m);
    IntToStringRoundTrip(m);
    IntText(e);
    ParseWithExponent(sign, whole, false, "", 'E', IntToString(e));
    var raw := ApplyExponent(m, 0, e);
    ApplyExponentExact(m, 0, e);
    assert d == BigDecimal(m, e - 0);
    NormalizedUnique(raw.mantissa, raw.exponent, d);
  }

  /** Below the cap the round trip loses digits: 1E-65536 reads back as zero. */
  lemma ParseToStringClamps(d: BigDecimal)
    requires d == BigDecimal(1, -65536)
    ensures Canonical(d)
    ensures ParseText(Some(ToString(d))) == Success(BigDecimal(0, 0))
  {
    ClampedText(d);
    ParseWithExponent("", "1", false, "", 'E', "-65536");
    assert MantissaText("", "1", false, "") + ['E'] + "-65536" == "1E-65536";
    assert "" + "1" + "" == "1";
    assert "-65536"[1..] == "65536";
    Digits65536();
    assert Wrap32(65536) == 65536;
    assert TruncDiv(1, Pow10(1)) == 0;
  }

  lemma ClampedText(d: BigDecimal)
    requires d == BigDecimal(1, -65536)
    ensures ToString(d) == "1E-65536"
  {
    assert NatToString(65536) == "65536";
    assert IntToString(1) == "1";
  }

  /**
   * Parsing the digits of n and adding one gives the parse of n + 1: the
   * test of BigDecimalTests.cs:57-63 for every non-negative integer, not
   * only for 2^64 - 1 (whose instance is `AddCarriesIntoNewDigit`).
   */
  lemma ParseThenAdd(n: nat)
    ensures ParseText(Some(NatToString(n))) == Success(Normalized(n, 0))
    ensures ParseText(Some(NatToString(n + 1))) == Success(Normalized(n + 1, 0))
    ensures BigDecimalOperators.Add(Normalized(n, 0), BigDecimalOperators.FromInt(1)) == Normalized(n + 1, 0)
  {
    NatToStringRoundTrip(n);
    NatToStringRoundTrip(n + 1);
    ParseDecimalText(NatToString(n));
    ParseDecimalText(NatToString(n + 1));
    var p := Normalized(n, 0);
    var one := BigDecimalOperators.FromInt(1);
    var sum := BigDecimalOperators.Add(p, one);
    assert Value(sum) == (n + 1) as real;
    NormalizedUnique(n + 1, 0, sum);
  }

  /** Digits alone leave the scanner in the `Integer` state with all of them buffered. */
  lemma ScanWhole(t: string)
    requires |t| >= 1 && AllDigits(t)
    ensures ScanFrom(Initial, t) == Success(Scan(Integer, 0, t, None))
  {
    ScanSignAndWhole("", t);
    assert "" + t == t;
  }

  /** Unsigned digits without a point parse as that integer. */
  lemma ParseDecimalText(t: string)
    requires |t| >= 1 && AllDigits(t)
    ensures ParseText(Some(t)) == Success(Normalized(DigitsValue(t), 0))
  {
    ScanWhole(t);
    assert IsDigit(t[0]);
    ParseWithoutExponentOf(t, Scan(Integer, 0, t, None), DigitsValue(t), 0);
  }
  // ---------------------------------------------------------------------
  // The values of the digit strings used above, two digits at a time

  lemma Digits123()
    ensures DigitsValue("123") == 123
  {
    DigitsConcat("1", "23");
    assert "1" + "23" == "123";
  }

  lemma Digits123456789()
    ensures DigitsValue("123456789") == 123456789
  {
    DigitsConcat("1", "23");
    assert "1" + "23" == "123";
    assert DigitsValue("123") == 123;
    DigitsConcat("123", "45");
    assert "123" + "45" == "12345";
    assert DigitsValue("12345") == 12345;
    DigitsConcat("12345", "67");
    assert "12345" + "67" == "1234567";
    assert DigitsValue("1234567") == 1234567;
    DigitsConcat("1234567", "89");
    assert "1234567" + "89" == "123456789";
  }

  lemma Digits123456789444555()
    ensures DigitsValue("123456789444555") == 123456789444555
  {
    Digits123456789();
    Digits444555();
    DigitsConcat("123456789", "444555");
    assert "123456789" + "444555" == "123456789444555";
    assert Pow10(6) == 1000000;
  }

  lemma Digits444555()
    ensures DigitsValue("444555") == 444555
  {
    DigitsConcat("44", "45");
    assert "44" + "45" == "4445";
    assert DigitsValue("4445") == 4445;
    DigitsConcat("4445", "55");
    assert "4445" + "55" == "444555";
  }

  lemma Digits2147483648()
    ensures DigitsValue("2147483648") == 2147483648
  {
    DigitsConcat("21", "47");
    assert "21" + "47" == "2147";
    assert DigitsValue("2147") == 2147;
    DigitsConcat("2147", "48");
    assert "2147" + "48" == "214748";
    assert DigitsValue("214748") == 214748;
    DigitsConcat("214748", "36");
    assert "214748" + "36" == "21474836";
    assert DigitsValue("21474836") == 21474836;
    DigitsConcat("21474836", "48");
    assert "21474836" + "48" == "2147483648";
  }

  lemma Digits65536()
    ensures DigitsValue("65536") == 65536
  {
    DigitsConcat("6", "55");
    assert "6" + "55" == "655";
    assert DigitsValue("655") == 655;
    DigitsConcat("655", "36");
    assert "655" + "36" == "65536";
  }
}
