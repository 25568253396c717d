/**
 * Part-number recognition: the regular expression
 * `PART_NUMBER_PATTERN = (?=.*\d)[A-Za-z0-9\-_/]{3,}` and `_match_part_number`,
 * which prefers a whole whitespace-separated token over a bare search hit.
 */
module PartNumber {
  import opened Wrappers
  import opened Text

  /** The lookahead `(?=.*\d)` at position `p`: a digit lies at or after `p`
      and no line feed comes before it (`.` does not match a line feed). */
  predicate DigitAhead(s: string, p: nat)
    decreases |s| - p
  {
    p < |s| && (IsDigit(s[p]) || (s[p] != '\n' && DigitAhead(s, p + 1)))
  }

  /** The lookahead, stated as "there is a reachable digit". */
  lemma {:induction false} DigitAheadSpec(s: string, p: nat)
    ensures DigitAhead(s, p) <==>
      exists q :: p <= q < |s| && IsDigit(s[q]) && forall k :: p <= k < q ==> s[k] != '\n'
    decreases |s| - p
  {
    if p < |s| {
      DigitAheadSpec(s, p + 1);
      if DigitAhead(s, p) && !IsDigit(s[p]) {
        var q :| p + 1 <= q < |s| && IsDigit(s[q]) && forall k :: p + 1 <= k < q ==> s[k] != '\n';
        assert forall k :: p <= k < q ==> s[k] != '\n';
      }
      if exists q :: p <= q < |s| && IsDigit(s[q]) && forall k :: p <= k < q ==> s[k] != '\n' {
        var q :| p <= q < |s| && IsDigit(s[q]) && forall k :: p <= k < q ==> s[k] != '\n';
        if q != p {
          assert s[p] != '\n';
          assert forall k :: p + 1 <= k < q ==> s[k] != '\n';
        }
      }
    }
  }

  /** How many characters the greedy `[A-Za-z0-9\-_/]{3,}` consumes from `p`
      (if at least three). */
  function PartRun(s: string, p: nat): nat
    requires p <= |s|
  {
    Span(s, p, PartChars)
  }

  /** `PART_NUMBER_PATTERN` has a match that starts at `p`. */
  predicate MatchesAt(s: string, p: nat)
    requires p <= |s|
  {
    DigitAhead(s, p) && PartRun(s, p) >= 3
  }

  /** `PART_NUMBER_PATTERN.fullmatch(t)`: the match can start at 0 and end at `|t|`. */
  predicate FullMatch(t: string) {
    DigitAhead(t, 0) && |t| >= 3 && PartRun(t, 0) == |t|
  }

  /** A full match is exactly: at least three characters, all from the class,
      at least one of them a digit. */
  lemma FullMatchSpec(t: string)
    ensures FullMatch(t) <==>
      |t| >= 3 && (forall i :: 0 <= i < |t| ==> IsPartChar(t[i])) && (exists i :: 0 <= i < |t| && IsDigit(t[i]))
  {
    DigitAheadSpec(t, 0);
    SpanAll(t, 0, PartChars);
    if forall i :: 0 <= i < |t| ==> IsPartChar(t[i]) {
      SpanUnique(t, 0, PartChars, |t|);
      if exists i :: 0 <= i < |t| && IsDigit(t[i]) {
        var i :| 0 <= i < |t| && IsDigit(t[i]);
        assert forall k :: 0 <= k < i ==> t[k] != '\n' by {
          forall k | 0 <= k < i ensures t[k] != '\n' {
            assert IsPartChar(t[k]);
          }
        }
      }
    }
  }

  /** The scan behind `PART_NUMBER_PATTERN.search`: the leftmost position at
      or after `p` where a match starts. */
  function SearchFrom(s: string, p: nat): (r: Option<nat>)
    requires p <= |s|
    ensures r.Some? ==> p <= r.value <= |s|
    decreases |s| - p
  {
    if MatchesAt(s, p) then Some(p)
    else if p == |s| then None
    else SearchFrom(s, p + 1)
  }

  /** The search finds the leftmost position from `p` on where a match
      starts, and finds nothing only when no position has one. */
  lemma {:induction false} SearchFromSpec(s: string, p: nat)
    requires p <= |s|
    ensures SearchFrom(s, p).Some? ==> MatchesAt(s, SearchFrom(s, p).value)
    ensures SearchFrom(s, p).Some? ==> forall q :: p <= q < SearchFrom(s, p).value ==> !MatchesAt(s, q)
    ensures SearchFrom(s, p).None? ==> forall q :: p <= q <= |s| ==> !MatchesAt(s, q)
    decreases |s| - p
  {
    if !MatchesAt(s, p) && p < |s| {
      SearchFromSpec(s, p + 1);
    }
  }

  /** `match.group(0) if match else ""` for `PART_NUMBER_PATTERN.search(s)`:
      the greedy match at the leftmost starting position. */
  function SearchMatch(s: string): string {
    match SearchFrom(s, 0)
    case Some(a) => s[a..a + PartRun(s, a)]
    case None => ""
  }

  function StripPunctuation(token: string): string {
    StripChars(token, PunctuationChars)
  }

  /** A raw whitespace token is taken as a part number when, stripped of
      surrounding punctuation, it fully matches the pattern. */
  predicate Qualifies(rawToken: string) {
    FullMatch(StripPunctuation(rawToken))
  }

  /** `re.split(r"\s+", line.strip())`. */
  function Tokens(line: string): seq<string> {
    SplitWs(Strip(line))
  }

  /** The loop over tokens: the index of the first qualifying token from `k` on. */
  function FirstQualifying(tokens: seq<string>, k: nat): (r: Option<nat>)
    requires k <= |tokens|
    ensures r.Some? ==> k <= r.value < |tokens|
    decreases |tokens| - k
  {
    if k == |tokens| then None
    else if Qualifies(tokens[k]) then Some(k)
    else FirstQualifying(tokens, k + 1)
  }

  /** The loop returns the first qualifying token, and none only when no
      token qualifies. */
  lemma {:induction false} FirstQualifyingSpec(tokens: seq<string>, k: nat)
    requires k <= |tokens|
    ensures FirstQualifying(tokens, k).Some? ==> Qualifies(tokens[FirstQualifying(tokens, k).value])
    ensures FirstQualifying(tokens, k).Some? ==>
      forall j :: k <= j < FirstQualifying(tokens, k).value ==> !Qualifies(tokens[j])
    ensures FirstQualifying(tokens, k).None? ==> forall j :: k <= j < |tokens| ==> !Qualifies(tokens[j])
    decreases |tokens| - k
  {
    if k < |tokens| && !Qualifies(tokens[k]) {
      FirstQualifyingSpec(tokens, k + 1);
    }
  }

  /** `_match_part_number(line)`. */
  function MatchPartNumber(line: string): string {
    var tokens := Tokens(line);
    match FirstQualifying(tokens, 0)
    case Some(i) => StripPunctuation(tokens[i])
    case None => SearchMatch(line)
  }

  /** A search hit is a run of at least three pattern characters. */
  lemma SearchMatchShape(s: string)
    ensures SearchMatch(s) == [] ||
      (|SearchMatch(s)| >= 3 && forall i :: 0 <= i < |SearchMatch(s)| ==> IsPartChar(SearchMatch(s)[i]))
  {
    SearchFromSpec(s, 0);
    if SearchFrom(s, 0).Some? {
      SpanAll(s, SearchFrom(s, 0).value, PartChars);
    }
  }

  /** Any part number found is a run of at least three pattern characters. */
  lemma MatchPartNumberShape(line: string)
    ensures var r := MatchPartNumber(line);
      r == [] || (|r| >= 3 && forall i :: 0 <= i < |r| ==> IsPartChar(r[i]))
  {
    var tokens := Tokens(line);
    FirstQualifyingSpec(tokens, 0);
    match FirstQualifying(tokens, 0)
    case Some(k) =>
      FullMatchSpec(StripPunctuation(tokens[k]));
    case None =>
      SearchMatchShape(line);
  }

  /** The first qualifying token wins: it is returned stripped of punctuation,
      and it contains a digit; no earlier token qualifies. */
  lemma MatchPartNumberPrefersToken(line: string, i: nat)
    requires i < |Tokens(line)| && Qualifies(Tokens(line)[i])
    ensures exists k :: 0 <= k <= i && Qualifies(Tokens(line)[k])
                        && MatchPartNumber(line) == StripPunctuation(Tokens(line)[k])
                        && (forall j :: 0 <= j < k ==> !Qualifies(Tokens(line)[j]))
    ensures exists d :: 0 <= d < |MatchPartNumber(line)| && IsDigit(MatchPartNumber(line)[d])
  {
    FirstQualifyingSpec(Tokens(line), 0);
    var k := FirstQualifying(Tokens(line), 0).value;
    FullMatchSpec(StripPunctuation(Tokens(line)[k]));
  }

  /** Without a qualifying token the result is the leftmost search hit taken
      greedily, or empty when the pattern matches nowhere. */
  lemma MatchPartNumberFallsBackToSearch(line: string)
    requires forall i :: 0 <= i < |Tokens(line)| ==> !Qualifies(Tokens(line)[i])
    ensures (forall p :: 0 <= p <= |line| ==> !MatchesAt(line, p)) ==> MatchPartNumber(line) == []
    ensures forall a :: 0 <= a <= |line| && MatchesAt(line, a) && (forall q :: 0 <= q < a ==> !MatchesAt(line, q)) ==>
      MatchPartNumber(line) == line[a..a + PartRun(line, a)]
  {
    var tokens := Tokens(line);
    FirstQualifyingSpec(tokens, 0);
    assert MatchPartNumber(line) == SearchMatch(line);
    SearchFromSpec(line, 0);
    forall a | 0 <= a <= |line| && MatchesAt(line, a) && (forall q :: 0 <= q < a ==> !MatchesAt(line, q))
      ensures SearchFrom(line, 0) == Some(a)
    {
      SearchFromLeftmost(line, a);
    }
  }

  /** The search finds the leftmost position where a match starts. */
  lemma SearchFromLeftmost(s: string, a: nat)
    requires a <= |s| && MatchesAt(s, a)
    requires forall q :: 0 <= q < a ==> !MatchesAt(s, q)
    ensures SearchFrom(s, 0) == Some(a)
  {
    SearchFromSpec(s, 0);
  }

  /** Three capital letters, a space and a digit: the shape of "ABC 1". */
  predicate WordSpaceDigit(line: string) {
    |line| == 5 && line[3] == ' ' && IsDigit(line[4])
    && forall i :: 0 <= i < 3 ==> 'A' <= line[i] <= 'Z'
  }

  lemma WordSpaceDigitStripped(line: string)
    requires WordSpaceDigit(line)
    ensures Strip(line) == line
  {
    StripCharsKeeps(line, SpaceChars);
  }

  lemma WordSpaceDigitSplit(line: string)
    requires WordSpaceDigit(line)
    ensures SplitWs(line) == [line[..3], line[4..]]
  {
    SpanUnique(line, 0, WordChars, 3);
    SpanUnique(line, 3, SpaceChars, 1);
    SpanUnique(line, 4, WordChars, 1);
    assert SplitFrom(line, 4) == [line[4..]];
    assert SplitFrom(line, 0) == [line[0..3]] + SplitFrom(line, 4);
  }

  /** The lookahead looks past the match: when no token qualifies, the search
      hit need not itself contain a digit (for example, "ABC 1" yields "ABC"). */
  lemma SearchHitMayLackDigit(line: string)
    requires WordSpaceDigit(line)
    ensures MatchPartNumber(line) == line[..3]
    ensures forall i :: 0 <= i < |MatchPartNumber(line)| ==> !IsDigit(MatchPartNumber(line)[i])
  {
    WordSpaceDigitStripped(line);
    WordSpaceDigitSplit(line);
    var word, digit := line[..3], line[4..];
    assert StripPunctuation(word) == word by {
      StripCharsKeeps(word, PunctuationChars);
    }
    FullMatchSpec(word);
    assert !Qualifies(digit) by {
      assert |StripPunctuation(digit)| <= 1;
    }
    assert FirstQualifying(Tokens(line), 0) == None;
    assert PartRun(line, 0) == 3 by {
      SpanUnique(line, 0, PartChars, 3);
    }
    assert DigitAhead(line, 0) by {
      DigitAheadSpec(line, 0);
      assert IsDigit(line[4]);
    }
    assert SearchFrom(line, 0) == Some(0);
  }

  lemma SearchHitSample()
    ensures MatchPartNumber("ABC 1") == "ABC"
  {
    SearchHitMayLackDigit("ABC 1");
  }

  /** A blank line yields no part number. */
  lemma BlankLineHasNoPartNumber(line: string)
    requires IsBlank(line)
    ensures MatchPartNumber(line) == []
  {
    BlankIffStripsToEmpty(line);
    assert Tokens(line) == [[]] by {
      assert Span([], 0, WordChars) == 0;
    }
    assert StripPunctuation([]) == [];
    forall p | 0 <= p <= |line| ensures !MatchesAt(line, p) {
      assert PartRun(line, p) == 0 by {
        SpanUnique(line, p, PartChars, 0);
      }
    }
  }
}
