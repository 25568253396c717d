/**
 * Numbers in a text line: `NUMBER_PATTERN = -?\d+(?:\.\d+)?` with the
 * leftmost, greedy, non-overlapping scan of `findall`, and `float()` on the
 * plain decimal notation `[+-]?(d+(.d*)?|.d+)`, whose value is kept as an
 * exact decimal.
 */
module Numbers {
  import opened Wrappers
  import opened Text

  /** Every character of `s[i..j]` is a digit. */
  predicate AllDigits(s: string, i: nat, j: nat)
    requires i <= j <= |s|
  {
    forall k :: i <= k < j ==> IsDigit(s[k])
  }

  // ---------------------------------------------------------------------
  // NUMBER_PATTERN
  // ---------------------------------------------------------------------

  /** Where the digits of a match start: after the minus sign, if any. */
  function DigitsStart(s: string, a: nat, b: nat): nat
    requires a <= b <= |s|
  {
    if a < b && s[a] == '-' then a + 1 else a
  }

  /** `s[q..b]` is an integer part `s[q..e]` of at least one digit followed
      either by nothing or by a point and at least one digit. */
  predicate DigitsThenFraction(s: string, q: nat, e: nat, b: nat)
    requires q <= b <= |s|
  {
    q < e <= b && AllDigits(s, q, e)
    && (e == b || (s[e] == '.' && e + 1 < b && AllDigits(s, e + 1, b)))
  }

  /** `s[a..b]` is a whole match of `-?\d+(?:\.\d+)?`. */
  ghost predicate NumberShape(s: string, a: nat, b: nat)
    requires a <= b <= |s|
  {
    exists e: nat :: DigitsThenFraction(s, DigitsStart(s, a, b), e, b)
  }

  /** Where the regex, tried at `p`, ends its match: the minus sign if present,
      the greedy digit run, and the fraction when a point and a digit follow. */
  function NumberEnd(s: string, p: nat): (r: Option<nat>)
    requires p <= |s|
    ensures r.Some? ==> p < r.value <= |s|
  {
    var q := if p < |s| && s[p] == '-' then p + 1 else p;
    if q < |s| && IsDigit(s[q]) then
      var e := q + Span(s, q, DigitChars);
      if e + 1 < |s| && s[e] == '.' && IsDigit(s[e + 1]) then
        Some(e + 1 + Span(s, e + 1, DigitChars))
      else
        Some(e)
    else
      None
  }

  /** What the regex matches at `p` is a whole match of the pattern. */
  lemma NumberEndSound(s: string, p: nat)
    requires p <= |s| && NumberEnd(s, p).Some?
    ensures NumberShape(s, p, NumberEnd(s, p).value)
  {
    var q := if s[p] == '-' then p + 1 else p;
    var e := q + Span(s, q, DigitChars);
    var b := NumberEnd(s, p).value;
    SpanAll(s, q, DigitChars);
    assert AllDigits(s, q, e);
    assert DigitsStart(s, p, b) == q;
    if b > e {
      SpanAll(s, e + 1, DigitChars);
      assert AllDigits(s, e + 1, b);
    }
    assert DigitsThenFraction(s, q, e, b);
  }

  /** The match found at `p` is the longest whole match starting there, and
      there is one exactly when some whole match starts there. */
  lemma NumberEndLongest(s: string, p: nat, b: nat)
    requires p < b <= |s| && NumberShape(s, p, b)
    ensures NumberEnd(s, p).Some? && b <= NumberEnd(s, p).value
  {
    var q := DigitsStart(s, p, b);
    var e: nat :| DigitsThenFraction(s, q, e, b);
    assert IsDigit(s[q]);
    if e < b {
      SpanUnique(s, q, DigitChars, e - q);
      assert IsDigit(s[e + 1]);
    }
  }

  /** `NUMBER_PATTERN.findall(s[p..])` as the spans of the matches: the scan
      tries each position in turn and resumes after every match. */
  function NumberSpans(s: string, p: nat): (r: seq<(nat, nat)>)
    requires p <= |s|
    ensures forall i :: 0 <= i < |r| ==> p <= r[i].0 < r[i].1 <= |s|
    ensures forall i :: 0 <= i < |r| - 1 ==> r[i].1 <= r[i + 1].0
    decreases |s| - p
  {
    if p == |s| then []
    else
      match NumberEnd(s, p)
      case Some(e) => [(p, e)] + NumberSpans(s, e)
      case None => NumberSpans(s, p + 1)
  }

  /** Each span is the match the regex makes at its start. */
  predicate AreMatches(s: string, spans: seq<(nat, nat)>) {
    forall i :: 0 <= i < |spans| ==> spans[i].0 <= |s| && NumberEnd(s, spans[i].0) == Some(spans[i].1)
  }

  lemma AreMatchesCons(s: string, span: (nat, nat), rest: seq<(nat, nat)>)
    requires span.0 <= |s| && NumberEnd(s, span.0) == Some(span.1) && AreMatches(s, rest)
    ensures AreMatches(s, [span] + rest)
  {
    var r := [span] + rest;
    forall i | 0 <= i < |r| ensures r[i].0 <= |s| && NumberEnd(s, r[i].0) == Some(r[i].1) {
      if i > 0 {
        assert r[i] == rest[i - 1];
      }
    }
  }

  /** The scan records, for each span, the match the regex makes there. */
  lemma {:induction false} NumberSpansAreMatches(s: string, p: nat)
    requires p <= |s|
    ensures AreMatches(s, NumberSpans(s, p))
    decreases |s| - p
  {
    if p < |s| {
      var m := NumberEnd(s, p);
      if m.Some? {
        NumberSpansAreMatches(s, m.value);
        AreMatchesCons(s, (p, m.value), NumberSpans(s, m.value));
      } else {
        NumberSpansAreMatches(s, p + 1);
      }
    }
  }

  /** Position `q` lies inside one of the spans. */
  ghost predicate Covered(spans: seq<(nat, nat)>, q: nat) {
    exists i :: 0 <= i < |spans| && spans[i].0 <= q < spans[i].1
  }

  /** Putting a span in front keeps every covered position covered, and covers
      the span itself. */
  lemma CoveredCons(span: (nat, nat), rest: seq<(nat, nat)>, q: nat)
    requires (span.0 <= q < span.1) || Covered(rest, q)
    ensures Covered([span] + rest, q)
  {
    var r := [span] + rest;
    if span.0 <= q < span.1 {
      assert r[0].0 <= q < r[0].1;
    } else {
      var i :| 0 <= i < |rest| && rest[i].0 <= q < rest[i].1;
      assert r[i + 1] == rest[i];
    }
  }

  /** The scan skips no match: every position from `p` on where the pattern
      matches lies inside one of the spans found. */
  lemma {:induction false} NumberSpansComplete(s: string, p: nat, q: nat)
    requires p <= q <= |s| && NumberEnd(s, q).Some?
    ensures Covered(NumberSpans(s, p), q)
    decreases |s| - p
  {
    if p < |s| {
      var m := NumberEnd(s, p);
      if m.Some? {
        var e := m.value;
        if e <= q {
          NumberSpansComplete(s, e, q);
        }
        CoveredCons((p, e), NumberSpans(s, e), q);
      } else {
        NumberSpansComplete(s, p + 1, q);
      }
    }
  }

  /** The strings `findall` returns, in order. */
  function NumberMatches(s: string): (r: seq<string>)
    ensures |r| == |NumberSpans(s, 0)|
  {
    var spans := NumberSpans(s, 0);
    seq(|spans|, i requires 0 <= i < |spans| => s[spans[i].0..spans[i].1])
  }

  // ---------------------------------------------------------------------
  // float()
  // ---------------------------------------------------------------------

  /** A finite decimal: (-1)^negative * mantissa / 10^scale. */
  datatype Decimal = Decimal(negative: bool, mantissa: nat, scale: nat)

  function Pow10(n: nat): (r: nat)
    ensures r >= 1
  {
    if n == 0 then 1 else 10 * Pow10(n - 1)
  }

  /** The exact number a decimal denotes. */
  function Value(d: Decimal): real {
    var magnitude := d.mantissa as real / Pow10(d.scale) as real;
    if d.negative then -magnitude else magnitude
  }

  /** A decimal keeps its number when its mantissa gains a zero digit and its
      scale grows by one (20 scaled by one place is 2 scaled by none). */
  lemma ValueTrailingZero(d: Decimal)
    ensures Value(Decimal(d.negative, d.mantissa * 10, d.scale + 1)) == Value(d)
  {
    var p := Pow10(d.scale) as real;
    assert Pow10(d.scale + 1) as real == 10.0 * p;
    assert (d.mantissa * 10) as real / (10.0 * p) == d.mantissa as real / p;
  }

  /** The number the digits `s[i..j]` spell in base ten. */
  function DigitsValue(s: string, i: nat, j: nat): nat
    requires i <= j <= |s| && AllDigits(s, i, j)
    decreases j - i
  {
    if i == j then 0 else 10 * DigitsValue(s, i, j - 1) + (s[j - 1] as int - '0' as int)
  }

  /** The value of a run of digits does not depend on what comes before it. */
  lemma {:induction false} DigitsValueAfterPrefix(pre: string, s: string, i: nat, j: nat)
    requires i <= j <= |s| && AllDigits(s, i, j)
    ensures AllDigits(pre + s, |pre| + i, |pre| + j)
    ensures DigitsValue(pre + s, |pre| + i, |pre| + j) == DigitsValue(s, i, j)
    decreases j - i
  {
    if i < j {
      DigitsValueAfterPrefix(pre, s, i, j - 1);
    }
  }

  /** Nor on what comes after it. */
  lemma {:induction false} DigitsValueBeforeSuffix(s: string, post: string, i: nat, j: nat)
    requires i <= j <= |s| && AllDigits(s, i, j)
    ensures AllDigits(s + post, i, j)
    ensures DigitsValue(s + post, i, j) == DigitsValue(s, i, j)
    decreases j - i
  {
    if i < j {
      DigitsValueBeforeSuffix(s, post, i, j - 1);
    }
  }

  /** A leading zero adds nothing to the value. */
  lemma {:induction false} DigitsValueLeadingZero(s: string, i: nat, j: nat)
    requires i < j <= |s| && AllDigits(s, i, j) && s[i] == '0'
    ensures DigitsValue(s, i, j) == DigitsValue(s, i + 1, j)
    decreases j - i
  {
    if i + 1 < j {
      DigitsValueLeadingZero(s, i, j - 1);
    }
  }

  /** The greedy run of digits from `p`. */
  lemma DigitRun(s: string, p: nat)
    requires p <= |s|
    ensures AllDigits(s, p, p + Span(s, p, DigitChars))
  {
    SpanAll(s, p, DigitChars);
  }

  /** Python's `float(v)` on a string without surrounding whitespace, for the
      plain decimal notation: an optional sign, then digits with an optional
      point and fraction, or a point followed by digits. Any other string is
      not a number (None). */
  function ParseFloat(v: string): (r: Option<Decimal>)
    ensures r.Some? ==> v != [] && (r.value.negative <==> v[0] == '-')
  {
    var p := SignLength(v);
    var negative := p == 1 && v[0] == '-';
    var ie := p + Span(v, p, DigitChars);
    DigitRun(v, p);
    if ie == |v| then
      if ie > p then Some(Decimal(negative, DigitsValue(v, p, ie), 0)) else None
    else if v[ie] != '.' then None
    else
      var fe := ie + 1 + Span(v, ie + 1, DigitChars);
      DigitRun(v, ie + 1);
      if fe != |v| || (ie == p && fe == ie + 1) then None
      else
        var k := fe - ie - 1;
        Some(Decimal(negative, DigitsValue(v, p, ie) * Pow10(k) + DigitsValue(v, ie + 1, fe), k))
  }

  /** A string of digits is read as the integer it spells: `float("120")`
      is 120. */
  lemma ParseIntegerValue(i: string)
    requires |i| > 0 && AllDigits(i, 0, |i|)
    ensures ParseFloat(i).Some? && !ParseFloat(i).value.negative
    ensures Value(ParseFloat(i).value) == DigitsValue(i, 0, |i|) as real
  {
    SpanUnique(i, 0, DigitChars, |i|);
  }

  /** `(n * p + m) / p` is `n + m / p` for a positive `p`. */
  lemma DivideSum(n: nat, m: nat, p: nat)
    requires p > 0
    ensures (n * p + m) as real / p as real == n as real + m as real / p as real
  {
    var q := (n * p + m) as real;
    assert q == n as real * p as real + m as real;
    assert (n as real + m as real / p as real) * p as real == q;
  }

  /** A decimal with mantissa `n * 10^k + m` and scale `k` is `n + m / 10^k`. */
  lemma ScaledSum(n: nat, m: nat, k: nat)
    ensures Value(Decimal(false, n * Pow10(k) + m, k)) == n as real + m as real / Pow10(k) as real
  {
    DivideSum(n, m, Pow10(k));
  }

  /** Ten times the digits over ten times the power of ten is the same
      fraction. */
  lemma FractionTimesTen(m: nat, k: nat)
    ensures (10 * m) as real / Pow10(k + 1) as real == m as real / Pow10(k) as real
  {
    var p := Pow10(k) as real;
    var a := m as real / p;
    assert Pow10(k + 1) as real == 10.0 * p;
    assert a * (10.0 * p) == (10 * m) as real;
  }

  /** An unsigned string whose integer digits end at `ie`, followed by a
      point and fraction digits up to the end, is read as the decimal whose
      mantissa is all its digits and whose scale is the number of fraction
      digits. */
  lemma ParsePointDecimal(v: string, ie: nat)
    requires ie < |v| && v[ie] == '.' && SignLength(v) == 0
    requires AllDigits(v, 0, ie) && AllDigits(v, ie + 1, |v|) && |v| > 1
    ensures var k := |v| - ie - 1;
      ParseFloat(v) == Some(Decimal(false, DigitsValue(v, 0, ie) * Pow10(k) + DigitsValue(v, ie + 1, |v|), k))
  {
    SpanUnique(v, 0, DigitChars, ie);
    SpanUnique(v, ie + 1, DigitChars, |v| - ie - 1);
  }

  /** The same string is read as the integer part plus the fraction over ten
      to the number of fraction digits. */
  lemma ParsePointAt(v: string, ie: nat)
    requires ie < |v| && v[ie] == '.' && SignLength(v) == 0
    requires AllDigits(v, 0, ie) && AllDigits(v, ie + 1, |v|) && |v| > 1
    ensures ParseFloat(v).Some? && !ParseFloat(v).value.negative
    ensures Value(ParseFloat(v).value)
            == DigitsValue(v, 0, ie) as real + DigitsValue(v, ie + 1, |v|) as real / Pow10(|v| - ie - 1) as real
  {
    ParsePointDecimal(v, ie);
    ScaledSum(DigitsValue(v, 0, ie), DigitsValue(v, ie + 1, |v|), |v| - ie - 1);
  }

  /** Where the parts of `i + "." + f` sit, and what their digits spell. */
  lemma PointLayout(i: string, f: string)
    requires AllDigits(i, 0, |i|) && AllDigits(f, 0, |f|)
    ensures var v := i + "." + f;
      |v| == |i| + 1 + |f| && v[|i|] == '.' && SignLength(v) == 0
      && AllDigits(v, 0, |i|) && DigitsValue(v, 0, |i|) == DigitsValue(i, 0, |i|)
      && AllDigits(v, |i| + 1, |v|) && DigitsValue(v, |i| + 1, |v|) == DigitsValue(f, 0, |f|)
  {
    var head := i + ".";
    var v := head + f;
    assert v == i + ("." + f);
    assert v[|i|] == '.';
    assert SignLength(v) == 0 by {
      if |i| > 0 {
        assert v[0] == i[0];
      }
    }
    DigitsValueBeforeSuffix(i, "." + f, 0, |i|);
    DigitsValueAfterPrefix(head, f, 0, |f|);
  }

  /** Digits, a point and digits are read as the integer part plus the
      fraction over ten to the number of fraction digits: `float("2.50")` is
      2 + 50/100. Either part may be empty, not both. */
  lemma ParsePointValue(i: string, f: string)
    requires AllDigits(i, 0, |i|) && AllDigits(f, 0, |f|) && |i| + |f| > 0
    ensures ParseFloat(i + "." + f).Some? && !ParseFloat(i + "." + f).value.negative
    ensures Value(ParseFloat(i + "." + f).value)
            == DigitsValue(i, 0, |i|) as real + DigitsValue(f, 0, |f|) as real / Pow10(|f|) as real
  {
    PointLayout(i, f);
    ParsePointAt(i + "." + f, |i|);
  }

  /** Where the integer part of `[sign] + v` sits, relative to that of `v`:
      the same run of digits with the same value, one place later. */
  lemma SignedIntegerLayout(sign: char, v: string)
    requires sign == '-' || sign == '+'
    ensures var u, ie := [sign] + v, Span(v, 0, DigitChars);
      SignLength(u) == 1 && u[0] == sign && |u| == |v| + 1
      && Span(u, 1, DigitChars) == ie && AllDigits(v, 0, ie) && AllDigits(u, 1, 1 + ie)
      && DigitsValue(u, 1, 1 + ie) == DigitsValue(v, 0, ie)
  {
    var ie := Span(v, 0, DigitChars);
    SpanAfterPrefix([sign], v, 0, DigitChars);
    DigitRun(v, 0);
    DigitsValueAfterPrefix([sign], v, 0, ie);
  }

  /** Where the fraction of `[sign] + v` sits, relative to that of `v`: the
      character after the integer part and the run of digits after it are
      those of `v`, one place later. */
  lemma SignedFractionLayout(sign: char, v: string, ie: nat)
    requires sign == '-' || sign == '+'
    requires ie < |v|
    ensures var u, fe := [sign] + v, ie + 1 + Span(v, ie + 1, DigitChars);
      u[1 + ie] == v[ie] && Span(u, ie + 2, DigitChars) == fe - ie - 1
      && AllDigits(v, ie + 1, fe) && AllDigits(u, ie + 2, fe + 1)
      && DigitsValue(u, ie + 2, fe + 1) == DigitsValue(v, ie + 1, fe)
  {
    var fe := ie + 1 + Span(v, ie + 1, DigitChars);
    SpanAfterPrefix([sign], v, ie + 1, DigitChars);
    DigitRun(v, ie + 1);
    DigitsValueAfterPrefix([sign], v, ie + 1, fe);
  }

  /** Both parts of `[sign] + v`, relative to those of `v`. */
  lemma SignedLayout(sign: char, v: string)
    requires sign == '-' || sign == '+'
    ensures var u, ie := [sign] + v, Span(v, 0, DigitChars);
      SignLength(u) == 1 && u[0] == sign && |u| == |v| + 1
      && Span(u, 1, DigitChars) == ie && AllDigits(v, 0, ie) && AllDigits(u, 1, 1 + ie)
      && DigitsValue(u, 1, 1 + ie) == DigitsValue(v, 0, ie)
      && (ie < |v| ==>
            var fe := ie + 1 + Span(v, ie + 1, DigitChars);
            u[1 + ie] == v[ie] && Span(u, ie + 2, DigitChars) == fe - ie - 1
            && AllDigits(v, ie + 1, fe) && AllDigits(u, ie + 2, fe + 1)
            && DigitsValue(u, ie + 2, fe + 1) == DigitsValue(v, ie + 1, fe))
  {
    SignedIntegerLayout(sign, v);
    var ie := Span(v, 0, DigitChars);
    if ie < |v| {
      SignedFractionLayout(sign, v, ie);
    }
  }

  /** A sign in front does not change whether the rest is a number. */
  lemma SignKeepsNotation(sign: char, v: string)
    requires sign == '-' || sign == '+'
    requires SignLength(v) == 0
    ensures ParseFloat([sign] + v).Some? <==> ParseFloat(v).Some?
  {
    SignedLayout(sign, v);
  }

  /** A sign in front keeps the digits and the scale of the number. */
  lemma SignKeepsMagnitude(sign: char, v: string)
    requires sign == '-' || sign == '+'
    requires SignLength(v) == 0 && ParseFloat(v).Some? && ParseFloat([sign] + v).Some?
    ensures ParseFloat([sign] + v).value.mantissa == ParseFloat(v).value.mantissa
    ensures ParseFloat([sign] + v).value.scale == ParseFloat(v).value.scale
  {
    SignedLayout(sign, v);
  }

  /** A minus sign negates the number, a plus sign keeps it, and neither
      changes whether the rest is a number. */
  lemma ParseSignedValue(sign: char, v: string)
    requires sign == '-' || sign == '+'
    requires SignLength(v) == 0
    ensures ParseFloat([sign] + v).Some? <==> ParseFloat(v).Some?
    ensures ParseFloat(v).Some? ==>
      Value(ParseFloat([sign] + v).value) == if sign == '-' then -Value(ParseFloat(v).value) else Value(ParseFloat(v).value)
  {
    SignKeepsNotation(sign, v);
    if ParseFloat(v).Some? {
      SignKeepsMagnitude(sign, v);
    }
  }

  /** `float("2.0") == float("2")`: a point and a zero after an integer do
      not change the number. */
  lemma PointZeroKeepsValue(i: string)
    requires |i| > 0 && AllDigits(i, 0, |i|)
    ensures ParseFloat(i + ".0").Some? && ParseFloat(i).Some?
    ensures Value(ParseFloat(i + ".0").value) == Value(ParseFloat(i).value)
  {
    assert i + ".0" == i + "." + "0";
    ParsePointValue(i, "0");
    ParseIntegerValue(i);
  }

  /** `float("2.50") == float("2.5")`: a zero at the end of the fraction does
      not change the number. */
  lemma TrailingZeroKeepsValue(i: string, f: string)
    requires AllDigits(i, 0, |i|) && AllDigits(f, 0, |f|) && |i| + |f| > 0
    ensures ParseFloat(i + "." + f + "0").Some? && ParseFloat(i + "." + f).Some?
    ensures Value(ParseFloat(i + "." + f + "0").value) == Value(ParseFloat(i + "." + f).value)
  {
    var f0 := f + "0";
    assert i + "." + f + "0" == i + "." + f0;
    assert AllDigits(f0, 0, |f0|);
    ParsePointValue(i, f0);
    ParsePointValue(i, f);
    DigitsValueBeforeSuffix(f, "0", 0, |f|);
    FractionTimesTen(DigitsValue(f, 0, |f|), |f|);
  }

  /** `float("07.5") == float("7.5")`: a leading zero does not change the
      number. */
  lemma LeadingZeroKeepsValue(i: string, f: string)
    requires AllDigits(i, 0, |i|) && AllDigits(f, 0, |f|) && |i| + |f| > 0
    ensures ParseFloat("0" + i + "." + f).Some? && ParseFloat(i + "." + f).Some?
    ensures Value(ParseFloat("0" + i + "." + f).value) == Value(ParseFloat(i + "." + f).value)
  {
    var i0 := "0" + i;
    assert "0" + i + "." + f == i0 + "." + f;
    assert AllDigits(i0, 0, |i0|);
    ParsePointValue(i0, f);
    ParsePointValue(i, f);
    DigitsValueLeadingZero(i0, 0, |i0|);
    DigitsValueAfterPrefix("0", i, 0, |i|);
  }

  /** The length of the optional sign in front of a float. */
  function SignLength(v: string): nat {
    if v != [] && (v[0] == '+' || v[0] == '-') then 1 else 0
  }

  /** `v[p..]` is an integer part `v[p..e]`, then either the end or a point and
      a fraction, with at least one digit in the two parts together. */
  predicate IntegerThenFraction(v: string, p: nat, e: nat) {
    p <= e <= |v| && AllDigits(v, p, e)
    && ((e == |v| && e > p)
        || (e < |v| && v[e] == '.' && AllDigits(v, e + 1, |v|) && (e > p || e + 1 < |v|)))
  }

  /** The notation `float()` accepts in this model. */
  ghost predicate FloatShape(v: string) {
    exists e: nat :: IntegerThenFraction(v, SignLength(v), e)
  }

  /** `ParseFloat` accepts exactly the strings of the notation. */
  lemma ParseFloatAccepts(v: string)
    ensures ParseFloat(v).Some? <==> FloatShape(v)
  {
    var p := SignLength(v);
    var ie := p + Span(v, p, DigitChars);
    if ParseFloat(v).Some? {
      SpanAll(v, p, DigitChars);
      if ie < |v| {
        SpanAll(v, ie + 1, DigitChars);
        assert AllDigits(v, ie + 1, |v|);
      }
      assert IntegerThenFraction(v, p, ie);
    }
    if FloatShape(v) {
      var e: nat :| IntegerThenFraction(v, p, e);
      SpanUnique(v, p, DigitChars, e - p);
      if e < |v| {
        SpanUnique(v, e + 1, DigitChars, |v| - e - 1);
      }
    }
  }

  /** Every string `NUMBER_PATTERN` matches is accepted by `float()`, so the
      `except ValueError` around `float(match)` never fires. */
  lemma NumberParses(m: string)
    requires |m| > 0 && NumberShape(m, 0, |m|)
    ensures ParseFloat(m).Some?
  {
    var q := DigitsStart(m, 0, |m|);
    var e: nat :| DigitsThenFraction(m, q, e, |m|);
    assert SignLength(m) == q by {
      assert q == 0 ==> IsDigit(m[0]);
    }
    assert IntegerThenFraction(m, q, e);
    ParseFloatAccepts(m);
  }

  /** A whole match inside `s` is a whole match on its own. */
  lemma NumberShapeSlice(s: string, a: nat, b: nat)
    requires a < b <= |s| && NumberShape(s, a, b)
    ensures NumberShape(s[a..b], 0, b - a)
  {
    var m := s[a..b];
    var q := DigitsStart(s, a, b);
    var e: nat :| DigitsThenFraction(s, q, e, b);
    assert DigitsStart(m, 0, b - a) == q - a;
    assert AllDigits(m, q - a, e - a);
    if e < b {
      assert AllDigits(m, e - a + 1, b - a);
    }
    assert DigitsThenFraction(m, q - a, e - a, b - a);
  }

  /** Every string `findall` returns is a whole match and parses as a float. */
  lemma NumbersParse(s: string)
    ensures forall k :: 0 <= k < |NumberMatches(s)| ==> NumberShape(NumberMatches(s)[k], 0, |NumberMatches(s)[k]|)
    ensures forall k :: 0 <= k < |NumberMatches(s)| ==> ParseFloat(NumberMatches(s)[k]).Some?
  {
    var spans := NumberSpans(s, 0);
    NumberSpansAreMatches(s, 0);
    forall k | 0 <= k < |NumberMatches(s)|
      ensures NumberShape(NumberMatches(s)[k], 0, |NumberMatches(s)[k]|) && ParseFloat(NumberMatches(s)[k]).Some?
    {
      NumberEndSound(s, spans[k].0);
      NumberShapeSlice(s, spans[k].0, spans[k].1);
      NumberParses(NumberMatches(s)[k]);
    }
  }
}
