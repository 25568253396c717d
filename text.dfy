/**
 * Character classes and the string primitives the search layer is built on:
 * Python's `str.strip()` / `str.strip(chars)`, `re.split(r"\s+", ...)` and the
 * greedy run of one character class that a regex `[...]+` consumes.
 *
 * Characters are restricted to ASCII: `\d` is '0'..'9' and whitespace is the
 * set of ASCII characters for which Python's `str.isspace()` holds.
 */
module Text {

  /** The ASCII digits matched by `\d`. */
  predicate IsDigit(c: char) {
    '0' <= c <= '9'
  }

  /** ASCII whitespace as seen by `str.strip()` and `\s`:
      tab, line feed, vertical tab, form feed, carriage return,
      the four separators 0x1C-0x1F, and space. */
  predicate IsSpace(c: char) {
    ('\t' <= c <= '\r') || ('\U{1C}' <= c <= ' ')
  }

  /** The characters `str.strip(".,;:()[]{}")` removes from a token. */
  predicate IsPunctuation(c: char) {
    c == '.' || c == ',' || c == ';' || c == ':' || c == '(' || c == ')'
    || c == '[' || c == ']' || c == '{' || c == '}'
  }

  /** The character class `[A-Za-z0-9\-_/]` of part numbers. */
  predicate IsPartChar(c: char) {
    'A' <= c <= 'Z' || 'a' <= c <= 'z' || IsDigit(c) || c == '-' || c == '_' || c == '/'
  }

  /** The character classes the model strips or scans greedy runs of. */
  datatype CharClass = SpaceChars | PunctuationChars | DigitChars | WordChars | PartChars

  predicate InClass(c: char, cls: CharClass) {
    match cls
    case SpaceChars => IsSpace(c)
    case PunctuationChars => IsPunctuation(c)
    case DigitChars => IsDigit(c)
    case WordChars => !IsSpace(c)
    case PartChars => IsPartChar(c)
  }

  /** The number of consecutive characters of class `cls` starting at `p`:
      what a greedy `[...]+` (or `[...]*`) consumes there. */
  function Span(s: string, p: nat, cls: CharClass): (n: nat)
    requires p <= |s|
    ensures p + n <= |s|
    ensures p + n == |s| || !InClass(s[p + n], cls)
    decreases |s| - p
  {
    if p < |s| && InClass(s[p], cls) then 1 + Span(s, p + 1, cls) else 0
  }

  /** Every character of the run belongs to the class. */
  lemma {:induction false} SpanAll(s: string, p: nat, cls: CharClass)
    requires p <= |s|
    ensures forall i :: p <= i < p + Span(s, p, cls) ==> InClass(s[i], cls)
    decreases |s| - p
  {
    if p < |s| && InClass(s[p], cls) {
      SpanAll(s, p + 1, cls);
    }
  }

  /** Any run of class characters ended by a non-member (or by the end) is the span. */
  lemma {:induction false} SpanUnique(s: string, p: nat, cls: CharClass, n: nat)
    requires p + n <= |s|
    requires forall i :: p <= i < p + n ==> InClass(s[i], cls)
    requires p + n == |s| || !InClass(s[p + n], cls)
    ensures Span(s, p, cls) == n
    decreases n
  {
    if n > 0 {
      SpanUnique(s, p + 1, cls, n - 1);
    }
  }

  /** A run does not depend on what comes before its start. */
  lemma SpanAfterPrefix(pre: string, s: string, p: nat, cls: CharClass)
    requires p <= |s|
    ensures Span(pre + s, |pre| + p, cls) == Span(s, p, cls)
  {
    SpanAll(s, p, cls);
    SpanUnique(pre + s, |pre| + p, cls, Span(s, p, cls));
  }

  /** The number of consecutive characters of class `cls` ending just before
      position `e`. */
  function SpanBack(s: string, e: nat, cls: CharClass): (n: nat)
    requires e <= |s|
    ensures n <= e
    ensures n == e || !InClass(s[e - n - 1], cls)
  {
    if e > 0 && InClass(s[e - 1], cls) then 1 + SpanBack(s, e - 1, cls) else 0
  }

  /** Every character of the run belongs to the class. */
  lemma {:induction false} SpanBackAll(s: string, e: nat, cls: CharClass)
    requires e <= |s|
    ensures forall i :: e - SpanBack(s, e, cls) <= i < e ==> InClass(s[i], cls)
  {
    if e > 0 && InClass(s[e - 1], cls) {
      SpanBackAll(s, e - 1, cls);
    }
  }

  /** Python's `s.strip(chars)`, where `cls` is the class of `chars`: drops the
      leading and the trailing characters of the class. */
  function StripChars(s: string, cls: CharClass): (r: string)
    ensures |r| <= |s|
    ensures r == [] || (!InClass(r[0], cls) && !InClass(r[|r| - 1], cls))
  {
    var a := Span(s, 0, cls);
    if a == |s| then [] else SpanBackAll(s, |s|, cls); s[a..|s| - SpanBack(s, |s|, cls)]
  }

  /** Python's `s.strip()`. */
  function Strip(s: string): string {
    StripChars(s, SpaceChars)
  }

  /** A line made of whitespace only, which `line.strip()` turns into the
      empty string (`BlankIffStripsToEmpty`). */
  predicate IsBlank(s: string) {
    forall i :: 0 <= i < |s| ==> IsSpace(s[i])
  }

  /** `StripChars` keeps one contiguous piece of `s`: everything before it and
      everything after it belongs to the class. */
  lemma StripCharsSpec(s: string, cls: CharClass)
    ensures var r, a := StripChars(s, cls), Span(s, 0, cls);
      a + |r| <= |s| && r == s[a..a + |r|]
      && (forall i :: 0 <= i < a ==> InClass(s[i], cls))
      && (forall i :: a + |r| <= i < |s| ==> InClass(s[i], cls))
  {
    var a := Span(s, 0, cls);
    SpanAll(s, 0, cls);
    SpanBackAll(s, |s|, cls);
    if a == |s| {
      assert s[a..a] == [];
    }
  }

  /** A string that neither starts nor ends with a class character is left
      as it is. */
  lemma StripCharsKeeps(s: string, cls: CharClass)
    requires s != [] && !InClass(s[0], cls) && !InClass(s[|s| - 1], cls)
    ensures StripChars(s, cls) == s
  {
    SpanUnique(s, 0, cls, 0);
    assert SpanBack(s, |s|, cls) == 0;
  }

  /** Stripping twice is stripping once. */
  lemma StripCharsIdempotent(s: string, cls: CharClass)
    ensures StripChars(StripChars(s, cls), cls) == StripChars(s, cls)
  {
    var r := StripChars(s, cls);
    if r != [] {
      StripCharsKeeps(r, cls);
    }
  }

  /** A line strips to the empty string exactly when it is blank. */
  lemma BlankIffStripsToEmpty(s: string)
    ensures Strip(s) == [] <==> IsBlank(s)
  {
    if IsBlank(s) {
      SpanUnique(s, 0, SpaceChars, |s|);
    } else {
      StripCharsSpec(s, SpaceChars);
    }
  }

  /** Python's `re.split(r"\s+", s)`: the pieces between maximal whitespace runs;
      a leading or trailing run yields an empty first or last piece. */
  function SplitWs(s: string): (parts: seq<string>)
    ensures |parts| >= 1
  {
    SplitFrom(s, 0)
  }

  /** The pieces of `s[p..]`, which starts a piece. */
  function SplitFrom(s: string, p: nat): (parts: seq<string>)
    requires p <= |s|
    ensures |parts| >= 1
    decreases |s| - p
  {
    var n := Span(s, p, WordChars);
    if p + n == |s| then [s[p..]]
    else
      var gap := Span(s, p + n, SpaceChars);
      assert gap > 0;
      [s[p..p + n]] + SplitFrom(s, p + n + gap)
  }

  /** A piece free of whitespace. */
  predicate IsWord(w: string) {
    forall i :: 0 <= i < |w| ==> !IsSpace(w[i])
  }

  /** No piece contains whitespace. */
  lemma {:induction false} SplitFromNoSpace(s: string, p: nat)
    requires p <= |s|
    ensures forall k :: 0 <= k < |SplitFrom(s, p)| ==> IsWord(SplitFrom(s, p)[k])
    decreases |s| - p
  {
    var n := Span(s, p, WordChars);
    var parts := SplitFrom(s, p);
    SpanAll(s, p, WordChars);
    if p + n < |s| {
      var q := p + n + Span(s, p + n, SpaceChars);
      var rest := SplitFrom(s, q);
      SplitFromNoSpace(s, q);
      var w := s[p..p + n];
      assert IsWord(w);
      assert parts == [w] + rest;
      forall k | 0 <= k < |parts| ensures IsWord(parts[k]) {
        if k > 0 {
          assert parts[k] == rest[k - 1];
        }
      }
    } else {
      assert parts == [s[p..]];
      assert IsWord(s[p..]);
    }
  }

  lemma SplitWsNoSpace(s: string)
    ensures forall k :: 0 <= k < |SplitWs(s)| ==> IsWord(SplitWs(s)[k])
  {
    SplitFromNoSpace(s, 0);
  }

  /** The characters of `s` other than whitespace, in order. */
  function NonSpace(s: string): string {
    if s == [] then [] else (if IsSpace(s[0]) then [] else [s[0]]) + NonSpace(s[1..])
  }

  function Concat(parts: seq<string>): string {
    if parts == [] then [] else parts[0] + Concat(parts[1..])
  }

  lemma ConcatCons(w: string, parts: seq<string>)
    ensures Concat([w] + parts) == w + Concat(parts)
  {
    assert ([w] + parts)[1..] == parts;
  }

  lemma NonSpaceAppend(a: string, b: string)
    ensures NonSpace(a + b) == NonSpace(a) + NonSpace(b)
  {
    if a != [] {
      assert (a + b)[1..] == a[1..] + b;
      NonSpaceAppend(a[1..], b);
    } else {
      assert a + b == b;
    }
  }

  lemma NonSpaceOfSpaces(s: string)
    requires forall i :: 0 <= i < |s| ==> IsSpace(s[i])
    ensures NonSpace(s) == []
  {
    if s != [] {
      NonSpaceOfSpaces(s[1..]);
    }
  }

  lemma NonSpaceOfWord(s: string)
    requires IsWord(s)
    ensures NonSpace(s) == s
  {
    if s != [] {
      NonSpaceOfWord(s[1..]);
      assert s == [s[0]] + s[1..];
    }
  }

  /** Removing whitespace from a word, then a gap, then the rest. */
  lemma NonSpaceWordGap(s: string, p: nat, n: nat, q: nat)
    requires p + n <= q <= |s|
    requires forall i :: p <= i < p + n ==> !IsSpace(s[i])
    requires forall i :: p + n <= i < q ==> IsSpace(s[i])
    ensures NonSpace(s[p..]) == s[p..p + n] + NonSpace(s[q..])
  {
    var word, gap, rest := s[p..p + n], s[p + n..q], s[q..];
    assert s[p..] == word + (gap + rest);
    NonSpaceOfWord(word);
    NonSpaceOfSpaces(gap);
    NonSpaceAppend(gap, rest);
    NonSpaceAppend(word, gap + rest);
  }

  /** Splitting loses exactly the whitespace: gluing the pieces back together
      gives the input with its whitespace removed. */
  lemma {:induction false} SplitFromJoin(s: string, p: nat)
    requires p <= |s|
    ensures Concat(SplitFrom(s, p)) == NonSpace(s[p..])
    decreases |s| - p
  {
    var n := Span(s, p, WordChars);
    var parts := SplitFrom(s, p);
    SpanAll(s, p, WordChars);
    if p + n == |s| {
      var w := s[p..];
      assert parts == [w] + [];
      assert IsWord(w);
      NonSpaceOfWord(w);
      ConcatCons(w, []);
    } else {
      var q := p + n + Span(s, p + n, SpaceChars);
      var rest := SplitFrom(s, q);
      var w := s[p..p + n];
      assert parts == [w] + rest;
      SpanAll(s, p + n, SpaceChars);
      calc {
        Concat(parts);
        { ConcatCons(w, rest); }
        w + Concat(rest);
        { SplitFromJoin(s, q); }
        w + NonSpace(s[q..]);
        { NonSpaceWordGap(s, p, n, q); }
        NonSpace(s[p..]);
      }
    }
  }

  lemma SplitWsJoin(s: string)
    ensures Concat(SplitWs(s)) == NonSpace(s)
  {
    SplitFromJoin(s, 0);
    assert s[0..] == s;
  }

  /** On a stripped, non-empty string every piece is a non-empty word. */
  lemma {:induction false} SplitFromWords(s: string, p: nat)
    requires p < |s| && !IsSpace(s[p]) && !IsSpace(s[|s| - 1])
    ensures forall k :: 0 <= k < |SplitFrom(s, p)| ==> SplitFrom(s, p)[k] != []
    decreases |s| - p
  {
    var n := Span(s, p, WordChars);
    var parts := SplitFrom(s, p);
    if p + n < |s| {
      var q := p + n + Span(s, p + n, SpaceChars);
      var rest := SplitFrom(s, q);
      SpanAll(s, p + n, SpaceChars);
      assert q < |s|;
      SplitFromWords(s, q);
      assert parts == [s[p..p + n]] + rest;
      forall k | 0 <= k < |parts| ensures parts[k] != [] {
        if k > 0 {
          assert parts[k] == rest[k - 1];
        }
      }
    } else {
      assert parts == [s[p..]];
    }
  }

  lemma SplitWsWords(s: string)
    requires s != [] && !IsSpace(s[0]) && !IsSpace(s[|s| - 1])
    ensures forall k :: 0 <= k < |SplitWs(s)| ==> SplitWs(s)[k] != []
  {
    SplitFromWords(s, 0);
  }

  /** What the split removes between two pieces: a non-empty run of
      whitespace. */
  predicate IsGap(g: string) {
    g != [] && forall i :: 0 <= i < |g| ==> IsSpace(g[i])
  }

  /** From position `p` on, `s` holds `parts[k]`, then `gaps[k]`, then
      `parts[k + 1]`, and so on, every gap a whitespace run and the last
      piece reaching the end of `s`. A piece between two gaps is not empty,
      so no whitespace run is cut into two gaps. */
  predicate LaidOut(s: string, p: nat, parts: seq<string>, gaps: seq<string>, k: nat)
    requires |parts| == |gaps| + 1 && k < |parts|
    decreases |parts| - k
  {
    var e := p + |parts[k]|;
    e <= |s| && s[p..e] == parts[k]
    && if k == |gaps| then e == |s|
       else
         var f := e + |gaps[k]|;
         (k == 0 || parts[k] != [])
         && f <= |s| && s[e..f] == gaps[k] && IsGap(gaps[k]) && LaidOut(s, f, parts, gaps, k + 1)
  }

  /** `s` is `parts` with a whitespace run between each two of them, and
      only the first and the last piece may be empty. */
  ghost predicate SeparatedByGaps(parts: seq<string>, s: string) {
    exists gaps: seq<string> :: |parts| == |gaps| + 1 && LaidOut(s, 0, parts, gaps, 0)
  }

  /** A layout of `rest` is a layout of any pieces that are `rest` with
      one more piece (and gap) in front, counted one place later, when the
      first piece of `rest` is not empty or is the last. */
  lemma {:induction false} LaidOutShift(s: string, x: nat, parts: seq<string>, gaps: seq<string>,
                                         rest: seq<string>, restGaps: seq<string>, k: nat)
    requires |rest| == |restGaps| + 1 && k < |rest| && LaidOut(s, x, rest, restGaps, k)
    requires |restGaps| > 0 ==> rest[0] != []
    requires |parts| == |rest| + 1 && |gaps| == |restGaps| + 1
    requires forall i :: 0 <= i < |rest| ==> parts[i + 1] == rest[i]
    requires forall i :: 0 <= i < |restGaps| ==> gaps[i + 1] == restGaps[i]
    ensures LaidOut(s, x, parts, gaps, k + 1)
    decreases |rest| - k
  {
    if k < |restGaps| {
      LaidOutShift(s, x + |rest[k]| + |restGaps[k]|, parts, gaps, rest, restGaps, k + 1);
    }
  }

  /** A piece at `p` ending at `e`, then a whitespace run up to `q`, then a
      layout of `rest` from `q`, is a layout of the piece followed by `rest`. */
  lemma LaidOutCons(s: string, p: nat, e: nat, q: nat, parts: seq<string>, rest: seq<string>, restGaps: seq<string>)
    returns (gaps: seq<string>)
    requires p <= e <= q <= |s| && IsGap(s[e..q])
    requires |rest| == |restGaps| + 1 && LaidOut(s, q, rest, restGaps, 0)
    requires |restGaps| > 0 ==> rest[0] != []
    requires |parts| == |rest| + 1 && parts[0] == s[p..e]
    requires forall i :: 0 <= i < |rest| ==> parts[i + 1] == rest[i]
    ensures |parts| == |gaps| + 1 && LaidOut(s, p, parts, gaps, 0)
  {
    gaps := [s[e..q]] + restGaps;
    LaidOutShift(s, q, parts, gaps, rest, restGaps, 0);
  }

  /** One step of the split: the first piece is `s[p..e]`; it is the only
      one when it reaches the end, and otherwise the whole whitespace run
      `s[e..q]` follows it and the other pieces are those of `s[q..]`, whose
      first piece is empty only when it is the last. */
  lemma SplitFromStep(s: string, p: nat) returns (e: nat, q: nat)
    requires p <= |s|
    ensures p <= e <= q <= |s|
    ensures var parts := SplitFrom(s, p);
      parts[0] == s[p..e]
      && if e == |s| then |parts| == 1
         else p < q && IsGap(s[e..q]) && |parts| == |SplitFrom(s, q)| + 1
              && (|SplitFrom(s, q)| > 1 ==> SplitFrom(s, q)[0] != [])
              && forall i :: 0 <= i < |SplitFrom(s, q)| ==> parts[i + 1] == SplitFrom(s, q)[i]
  {
    e := p + Span(s, p, WordChars);
    if e == |s| {
      q := e;
    } else {
      q := e + Span(s, e, SpaceChars);
      SpaceRunIsGap(s, e);
      assert SplitFrom(s, p) == [s[p..e]] + SplitFrom(s, q);
      SplitFromFirstPiece(s, q);
    }
  }

  /** After a whole whitespace run, the next piece is empty only at the end
      of the string, where it is the last piece. */
  lemma SplitFromFirstPiece(s: string, q: nat)
    requires q <= |s| && (q == |s| || !IsSpace(s[q]))
    ensures |SplitFrom(s, q)| > 1 ==> SplitFrom(s, q)[0] != []
  {
    if q < |s| {
      assert InClass(s[q], WordChars);
    }
  }

  /** The whitespace run starting at a whitespace character is a gap. */
  lemma SpaceRunIsGap(s: string, a: nat)
    requires a < |s| && IsSpace(s[a])
    ensures IsGap(s[a..a + Span(s, a, SpaceChars)])
  {
    SpanAll(s, a, SpaceChars);
  }

  /** The split cuts only at whitespace runs, and each run it cuts at is
      removed whole: `s[p..]` is the pieces with a whitespace run between
      each two, and no piece but the first and the last is empty. With
      `SplitFromNoSpace` (no piece holds whitespace) this says the cuts are
      exactly the maximal whitespace runs. */
  lemma {:induction false} SplitFromRebuild(s: string, p: nat) returns (gaps: seq<string>)
    requires p <= |s|
    ensures |SplitFrom(s, p)| == |gaps| + 1 && LaidOut(s, p, SplitFrom(s, p), gaps, 0)
    decreases |s| - p
  {
    var e, q := SplitFromStep(s, p);
    if e == |s| {
      gaps := [];
    } else {
      var restGaps := SplitFromRebuild(s, q);
      gaps := LaidOutCons(s, p, e, q, SplitFrom(s, p), SplitFrom(s, q), restGaps);
    }
  }

  /** `re.split(r"\s+", s)` cuts `s` at whitespace runs and nowhere else. */
  lemma SplitWsRebuild(s: string)
    ensures SeparatedByGaps(SplitWs(s), s)
  {
    var gaps := SplitFromRebuild(s, 0);
  }
}
