/**
 * `_filter_results`: the lines of a document that contain the length and the
 * width (and the thickness, when one is given), each reported with the part
 * number found around it and the name of the file it came from.
 *
 * The loop is stated for any line test `keep` and any per-line matcher
 * `partNumberOf`; `FilterResults` runs it with the value test of the source
 * and `MatchPartNumber`.
 */
module Search {
  import opened Wrappers
  import opened Text
  import opened PartNumber
  import opened ValueMatch
  import opened Nearby

  /** One hit: the part number (or the sentinel), the matching line and the
      file it was read from. */
  datatype SearchResult = SearchResult(partNumber: string, matchedLine: string, fileName: string)

  /** What a result carries when no part number was found around its line. */
  const NotFound: string := "(not found)"

  /** `(t_value or "").strip()`: a missing thickness counts as the empty one. */
  function NormalizeThickness(t: Option<string>): string {
    match t
    case None => ""
    case Some(v) => Strip(v)
  }

  /** The thickness takes part in the filter exactly when it is given and
      not blank. */
  lemma ThicknessRequiredIff(t: Option<string>)
    ensures NormalizeThickness(t) != [] <==> t.Some? && !IsBlank(t.value)
  {
    if t.Some? {
      BlankIffStripsToEmpty(t.value);
    }
  }

  /** The condition of the `if` in the loop: the length and the width occur,
      and so does the normalized thickness unless it is empty. */
  predicate LineMatches(line: string, l: string, w: string, tNormalized: string) {
    ValueInLine(line, l) && ValueInLine(line, w) && (tNormalized == [] || ValueInLine(line, tNormalized))
  }

  /** The condition of the `if`, as a test on lines. */
  function LineTest(l: string, w: string, tNormalized: string): string -> bool {
    line => LineMatches(line, l, w, tNormalized)
  }

  /** `part_number or "(not found)"`. */
  function Label(partNumber: string): string {
    if partNumber == [] then NotFound else partNumber
  }

  /** The record the loop appends for the line at `index`. */
  function ResultAt(lines: seq<string>, index: nat, partNumberOf: string -> string, fileName: string): SearchResult
    requires index < |lines|
  {
    SearchResult(Label(FirstHit(lines, index, 0, partNumberOf)), lines[index], fileName)
  }

  /** The records collected from the first `n` lines. */
  function Collect(lines: seq<string>, keep: string -> bool, partNumberOf: string -> string, fileName: string, n: nat)
    : seq<SearchResult>
    requires n <= |lines|
  {
    if n == 0 then []
    else
      Collect(lines, keep, partNumberOf, fileName, n - 1)
      + (if keep(lines[n - 1]) then [ResultAt(lines, n - 1, partNumberOf, fileName)] else [])
  }

  /** What `_filter_results(lines, l_value, w_value, t_value, file_name)` returns. */
  function FilteredResults(lines: seq<string>, l: string, w: string, t: Option<string>, fileName: string)
    : seq<SearchResult>
  {
    Collect(lines, LineTest(l, w, NormalizeThickness(t)), MatchPartNumber, fileName, |lines|)
  }

  /** The loop over `enumerate(lines)`, appending a record for every line
      that passes the test. */
  method Filter(lines: seq<string>, keep: string -> bool, partNumberOf: string -> string, fileName: string)
    returns (results: seq<SearchResult>)
    ensures results == Collect(lines, keep, partNumberOf, fileName, |lines|)
  {
    results := [];
    var index := 0;
    while index < |lines|
      invariant index <= |lines|
      invariant results == Collect(lines, keep, partNumberOf, fileName, index)
    {
      var line := lines[index];
      if keep(line) {
        var partNumber := FindNearby(lines, index, partNumberOf);
        results := results + [SearchResult(Label(partNumber), line, fileName)];
      }
      index := index + 1;
    }
  }

  /** `_filter_results`: the thickness is normalized once, then the loop runs
      with the value test and `MatchPartNumber`. */
  method FilterResults(lines: seq<string>, l: string, w: string, t: Option<string>, fileName: string)
    returns (results: seq<SearchResult>)
    ensures results == FilteredResults(lines, l, w, t, fileName)
  {
    var tNormalized := NormalizeThickness(t);
    results := Filter(lines, LineTest(l, w, tNormalized), MatchPartNumber, fileName);
  }

  /** The indices of the lines among the first `n` that pass the test, in
      increasing order. */
  function Selected(lines: seq<string>, keep: string -> bool, n: nat): seq<nat>
    requires n <= |lines|
  {
    if n == 0 then []
    else Selected(lines, keep, n - 1) + (if keep(lines[n - 1]) then [n - 1] else [])
  }

  /** The selected indices are strictly increasing, and an index is among
      them exactly when its line passes the test. */
  lemma {:induction false} SelectedSpec(lines: seq<string>, keep: string -> bool, n: nat)
    requires n <= |lines|
    ensures var idx := Selected(lines, keep, n);
      (forall k :: 0 <= k < |idx| ==> idx[k] < n)
      && (forall k, k' :: 0 <= k < k' < |idx| ==> idx[k] < idx[k'])
      && (forall j :: 0 <= j < n ==> (j in idx <==> keep(lines[j])))
  {
    if n > 0 {
      SelectedSpec(lines, keep, n - 1);
      var prefix := Selected(lines, keep, n - 1);
      var idx := Selected(lines, keep, n);
      if keep(lines[n - 1]) {
        assert idx == prefix + [n - 1];
        assert n - 1 !in prefix;
      } else {
        assert idx == prefix;
      }
    }
  }

  /** The records are those of the selected lines, one for each, in line
      order. */
  lemma {:induction false} CollectIsSelected(lines: seq<string>, keep: string -> bool, partNumberOf: string -> string,
                                             fileName: string, n: nat)
    requires n <= |lines|
    ensures var rs, idx := Collect(lines, keep, partNumberOf, fileName, n), Selected(lines, keep, n);
      |rs| == |idx| && forall k :: 0 <= k < |rs| ==> idx[k] < |lines| && rs[k] == ResultAt(lines, idx[k], partNumberOf, fileName)
  {
    if n > 0 {
      CollectIsSelected(lines, keep, partNumberOf, fileName, n - 1);
      SelectedSpec(lines, keep, n);
    }
  }

  /** The lines `_filter_results` reports: their indices increase, and a
      line is among them exactly when it contains the length and the width
      (and the thickness when one is given). */
  lemma FilteredLinesSpec(lines: seq<string>, l: string, w: string, t: Option<string>)
    ensures var idx := Selected(lines, LineTest(l, w, NormalizeThickness(t)), |lines|);
      (forall k, k' :: 0 <= k < k' < |idx| ==> idx[k] < idx[k'])
      && (forall j :: 0 <= j < |lines| ==> (j in idx <==> LineMatches(lines[j], l, w, NormalizeThickness(t))))
  {
    SelectedSpec(lines, LineTest(l, w, NormalizeThickness(t)), |lines|);
  }

  /** `_filter_results` emits one record per reported line, in line order:
      the nearby part number or the sentinel, the line and the file name. */
  lemma FilteredResultsSpec(lines: seq<string>, l: string, w: string, t: Option<string>, fileName: string)
    ensures var rs, idx := FilteredResults(lines, l, w, t, fileName), Selected(lines, LineTest(l, w, NormalizeThickness(t)), |lines|);
      |rs| == |idx|
      && forall k :: 0 <= k < |rs| ==> idx[k] < |lines| && rs[k] == ResultAt(lines, idx[k], MatchPartNumber, fileName)
  {
    CollectIsSelected(lines, LineTest(l, w, NormalizeThickness(t)), MatchPartNumber, fileName, |lines|);
  }

  /** Every record carries a non-empty part number and the file name. */
  lemma {:induction false} CollectFields(lines: seq<string>, keep: string -> bool, partNumberOf: string -> string,
                                         fileName: string, n: nat)
    requires n <= |lines|
    ensures forall r :: r in Collect(lines, keep, partNumberOf, fileName, n) ==> r.partNumber != [] && r.fileName == fileName
  {
    if n > 0 {
      CollectFields(lines, keep, partNumberOf, fileName, n - 1);
    }
  }

  /** When no line passes the test, nothing is collected. */
  lemma {:induction false} CollectNone(lines: seq<string>, keep: string -> bool, partNumberOf: string -> string,
                                       fileName: string, n: nat)
    requires n <= |lines| && forall j :: 0 <= j < n ==> !keep(lines[j])
    ensures Collect(lines, keep, partNumberOf, fileName, n) == []
  {
    if n > 0 {
      CollectNone(lines, keep, partNumberOf, fileName, n - 1);
    }
  }

  /** The sentinel is not a run of part-number characters, so a record
      carries it exactly when nothing was found around its line. */
  lemma LabelIsNotFoundIff(lines: seq<string>, index: nat)
    requires index < |lines|
    ensures ResultAt(lines, index, MatchPartNumber, "").partNumber == NotFound <==> NearbyPartNumber(lines, index) == []
  {
    NearbyPartNumberShape(lines, index);
    assert !IsPartChar(NotFound[0]);
  }

  /** A blank length or width matches no line, so nothing is reported. */
  lemma BlankQueryFindsNothing(lines: seq<string>, l: string, w: string, t: Option<string>, fileName: string)
    requires IsBlank(l) || IsBlank(w)
    ensures FilteredResults(lines, l, w, t, fileName) == []
  {
    var keep := LineTest(l, w, NormalizeThickness(t));
    forall j | 0 <= j < |lines| ensures !keep(lines[j]) {
      if IsBlank(l) {
        BlankValueAbsent(lines[j], l);
      } else {
        BlankValueAbsent(lines[j], w);
      }
    }
    CollectNone(lines, keep, MatchPartNumber, fileName, |lines|);
  }

  /** A missing thickness and a blank one give the same results, and then
      only the length and the width are checked. */
  lemma NoThicknessIgnored(lines: seq<string>, l: string, w: string, blank: string, fileName: string)
    requires IsBlank(blank)
    ensures FilteredResults(lines, l, w, Some(blank), fileName) == FilteredResults(lines, l, w, None, fileName)
    ensures forall line :: LineTest(l, w, NormalizeThickness(None))(line) <==> ValueInLine(line, l) && ValueInLine(line, w)
  {
    ThicknessRequiredIff(Some(blank));
  }
}
