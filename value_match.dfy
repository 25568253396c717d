/**
 * `_value_in_line`: whether a query value (a length, width or thickness)
 * occurs in a text line, either literally with no digit or point touching it,
 * or as a number in the line that is numerically equal to it.
 */
module ValueMatch {
  import opened Wrappers
  import opened Text
  import opened Numbers

  /** The class `[\d.]` of the boundary lookarounds. */
  predicate IsNumChar(c: char) {
    IsDigit(c) || c == '.'
  }

  /** `v` occurs in `line` at position `i`. */
  predicate OccursAt(line: string, v: string, i: nat) {
    i + |v| <= |line| && forall k :: 0 <= k < |v| ==> line[i + k] == v[k]
  }

  /** The boundary pattern `(?<![\d.])v(?![\d.])` matches at `i`: `v` occurs
      there and neither the character before nor the one after, where present,
      is a digit or a point. */
  predicate BoundaryAt(line: string, v: string, i: nat) {
    OccursAt(line, v, i)
    && (i == 0 || !IsNumChar(line[i - 1]))
    && (i + |v| == |line| || !IsNumChar(line[i + |v|]))
  }

  /** `boundary_pattern.search(line[i..])` succeeds: the scan tries every
      position from `i` on. */
  function BoundaryFrom(line: string, v: string, i: nat): (r: bool)
    requires i <= |line|
    ensures r <==> exists j :: i <= j <= |line| && BoundaryAt(line, v, j)
    decreases |line| - i
  {
    BoundaryAt(line, v, i) || (i < |line| && BoundaryFrom(line, v, i + 1))
  }

  /** `float(m) == target`, where a string that is not a number never equals. */
  predicate NumberEquals(m: string, target: Decimal) {
    ParseFloat(m).Some? && Value(ParseFloat(m).value) == Value(target)
  }

  /** The loop over `NUMBER_PATTERN.findall(line)` from the `k`th match on:
      true as soon as one match equals the target. */
  function AnyNumberEquals(numbers: seq<string>, target: Decimal, k: nat): (r: bool)
    requires k <= |numbers|
    ensures r <==> exists j :: k <= j < |numbers| && NumberEquals(numbers[j], target)
    decreases |numbers| - k
  {
    k < |numbers| && (NumberEquals(numbers[k], target) || AnyNumberEquals(numbers, target, k + 1))
  }

  /** `_value_in_line(line, raw_value)`. */
  function ValueInLine(line: string, rawValue: string): bool {
    var value := Strip(rawValue);
    if value == [] then false
    else if BoundaryFrom(line, value, 0) then true
    else
      match ParseFloat(value)
      case None => false
      case Some(target) => AnyNumberEquals(NumberMatches(line), target, 0)
  }

  /** A value that is empty after stripping is never present. */
  lemma BlankValueAbsent(line: string, rawValue: string)
    requires IsBlank(rawValue)
    ensures !ValueInLine(line, rawValue)
  {
  }

  /** The result, stated without the scans: the stripped value is non-empty,
      and it either occurs with no digit or point touching it, or it is a
      number equal to one of the numbers `findall` extracts from the line. */
  lemma ValueInLineSpec(line: string, rawValue: string)
    ensures ValueInLine(line, rawValue) <==>
      var v := Strip(rawValue);
      v != [] &&
      ((exists i :: 0 <= i <= |line| && BoundaryAt(line, v, i))
       || (ParseFloat(v).Some? &&
           exists j :: 0 <= j < |NumberMatches(line)| && NumberEquals(NumberMatches(line)[j], ParseFloat(v).value)))
  {
  }

  /** A boundary-safe literal occurrence suffices. */
  lemma BoundaryOccurrenceFound(line: string, rawValue: string, i: nat)
    requires Strip(rawValue) != [] && i <= |line| && BoundaryAt(line, Strip(rawValue), i)
    ensures ValueInLine(line, rawValue)
  {
    ValueInLineSpec(line, rawValue);
  }

  /** A value that is not a number is present only as a boundary-safe literal. */
  lemma NonNumericNeedsBoundary(line: string, rawValue: string)
    requires ParseFloat(Strip(rawValue)).None?
    ensures ValueInLine(line, rawValue) <==>
      Strip(rawValue) != [] && exists i :: 0 <= i <= |line| && BoundaryAt(line, Strip(rawValue), i)
  {
    ValueInLineSpec(line, rawValue);
  }

  // Two worked lines. The strings are passed as parameters fixed by the
  // precondition so that each step is proved once, symbolically.

  lemma NoBoundaryInside(line: string, v: string)
    requires line == "120mm" && v == "20"
    ensures !BoundaryFrom(line, v, 0)
  {
    forall j | 0 <= j <= |line| ensures !BoundaryAt(line, v, j) {
      if j == 1 {
        assert IsDigit(line[0]);
      } else if j + 2 <= 5 {
        assert line[j] != v[0];
      }
    }
  }

  lemma OneNumberIn120mm(line: string)
    requires line == "120mm"
    ensures NumberMatches(line) == [line[0..3]]
  {
    SpanUnique(line, 0, DigitChars, 3);
    assert NumberEnd(line, 0) == Some(3);
    assert NumberEnd(line, 3) == None;
    assert NumberEnd(line, 4) == None;
    assert NumberSpans(line, 5) == [];
    assert NumberSpans(line, 3) == [];
    assert NumberSpans(line, 0) == [(0, 3)];
  }

  /** "20" is not present in "120mm": its only occurrence follows a digit, and
      the one number in the line is 120. */
  lemma EmbeddedDigitsAreNotTheValue(line: string, v: string)
    requires line == "120mm" && v == "20"
    ensures !ValueInLine(line, v)
  {
    StripCharsKeeps(v, SpaceChars);
    NoBoundaryInside(line, v);
    assert ParseFloat(v) == Some(Decimal(false, 20, 0)) by {
      SpanUnique(v, 0, DigitChars, 2);
    }
    OneNumberIn120mm(line);
    var m := line[0..3];
    assert ParseFloat(m) == Some(Decimal(false, 120, 0)) by {
      SpanUnique(m, 0, DigitChars, 3);
    }
    assert !NumberEquals(m, Decimal(false, 20, 0));
  }

  lemma NoBoundaryBeforePoint(line: string, v: string)
    requires line == "t=2.0" && v == "2"
    ensures !BoundaryFrom(line, v, 0)
  {
    forall j | 0 <= j <= |line| ensures !BoundaryAt(line, v, j) {
      if j != 2 && j < 5 {
        assert line[j] != v[0];
      }
    }
  }

  lemma OneNumberInT20(line: string)
    requires line == "t=2.0"
    ensures NumberMatches(line) == [line[2..5]]
  {
    SpanUnique(line, 2, DigitChars, 1);
    SpanUnique(line, 4, DigitChars, 1);
    assert NumberEnd(line, 0) == None;
    assert NumberEnd(line, 1) == None;
    assert NumberEnd(line, 2) == Some(5);
    assert NumberSpans(line, 5) == [];
    assert NumberSpans(line, 2) == [(2, 5)];
    assert NumberSpans(line, 1) == [(2, 5)];
    assert NumberSpans(line, 0) == [(2, 5)];
  }

  lemma ParseTwoPointZero(m: string)
    requires m == "2.0"
    ensures ParseFloat(m) == Some(Decimal(false, 20, 1))
  {
    SpanUnique(m, 0, DigitChars, 1);
    SpanUnique(m, 2, DigitChars, 1);
    assert DigitsValue(m, 0, 1) == 2;
    assert DigitsValue(m, 2, 3) == 0;
    assert Pow10(1) == 10;
  }

  /** "2" is present in "t=2.0": the literal is followed by a point, but the
      number 2.0 in the line equals 2. */
  lemma EqualNumberIsTheValue(line: string, v: string)
    requires line == "t=2.0" && v == "2"
    ensures ValueInLine(line, v)
  {
    StripCharsKeeps(v, SpaceChars);
    NoBoundaryBeforePoint(line, v);
    assert ParseFloat(v) == Some(Decimal(false, 2, 0)) by {
      SpanUnique(v, 0, DigitChars, 1);
    }
    OneNumberInT20(line);
    ParseTwoPointZero(line[2..5]);
    ValueTrailingZero(Decimal(false, 2, 0));
    assert NumberEquals(NumberMatches(line)[0], Decimal(false, 2, 0));
  }

  lemma NoBoundaryAfterZero(line: string, v: string)
    requires line == "020" && v == "20"
    ensures !BoundaryFrom(line, v, 0)
  {
    forall j | 0 <= j <= |line| ensures !BoundaryAt(line, v, j) {
      if j == 1 {
        assert IsDigit(line[0]);
      } else if j == 0 {
        assert line[0] != v[0];
      }
    }
  }

  lemma OneNumberIn020(line: string)
    requires line == "020"
    ensures NumberMatches(line) == [line]
  {
    SpanUnique(line, 0, DigitChars, 3);
    assert NumberEnd(line, 0) == Some(3);
    assert NumberSpans(line, 3) == [];
    assert NumberSpans(line, 0) == [(0, 3)];
    assert line[0..3] == line;
  }

  /** "20" is present in "020" although its only occurrence follows a digit:
      the boundary search fails, but the number 020 equals 20. A digit next to
      the literal therefore does not by itself keep a value out. */
  lemma LeadingZeroNumberIsTheValue(line: string, v: string)
    requires line == "020" && v == "20"
    ensures !BoundaryFrom(line, v, 0) && ValueInLine(line, v)
  {
    StripCharsKeeps(v, SpaceChars);
    NoBoundaryAfterZero(line, v);
    assert ParseFloat(v) == Some(Decimal(false, 20, 0)) by {
      SpanUnique(v, 0, DigitChars, 2);
    }
    OneNumberIn020(line);
    assert ParseFloat(line) == Some(Decimal(false, 20, 0)) by {
      SpanUnique(line, 0, DigitChars, 3);
    }
    assert NumberEquals(NumberMatches(line)[0], Decimal(false, 20, 0));
  }
}
