# Parts search: text-line matching layer

This project models, in Dafny, the text-line search layer of the parts
extraction backend (`backend/app/main.py`). Given the text lines of a PDF
document, the layer reports every line that contains a queried length L,
width W and (optionally) thickness T. Each report carries a part number found
on that line or on the lines around it.

The layer has four parts, and each is modelled:

- **Recognising values** (`_value_in_line`, module `ValueMatch`). A value is
  present when it occurs with no digit or point touching it. Failing that, it
  is present when it is a number equal to one of the numbers
  `NUMBER_PATTERN = -?\d+(?:\.\d+)?` finds in the line.
- **Recognising part numbers** (`_match_part_number`, module `PartNumber`).
  The first whitespace token that fully matches
  `PART_NUMBER_PATTERN = (?=.*\d)[A-Za-z0-9\-_/]{3,}` after trimming
  punctuation wins. Failing that, the leftmost search hit of the pattern is
  used.
- **Looking around a line** (`_find_nearby_part_number`, module `Nearby`).
  The search tries the line itself, then up to three lines before it, then up
  to two lines after it. Each direction stops at the edge of the document or
  at a blank line.
- **Filtering** (`_filter_results`, module `Search`). This keeps the matching
  lines in order and builds one `SearchResult` per line. The part number
  falls back to `"(not found)"`.

Supporting modules:

- `Text` holds Python's `str.strip`, `re.split(r"\s+", ...)` and greedy
  character-class runs.
- `Numbers` holds `NUMBER_PATTERN`'s `findall` scan and `float()` on plain
  decimals, valued exactly as rationals.
- `Wrappers` holds `Option`.

Each returned record is a `Search.SearchResult` value: the part number (or
the sentinel), the matching line and the file name, the three fields of the
source's dataclass.

Pure code is written as functions. The source has five loops:

- The token loop of `_match_part_number` (main.py:96) returns as soon as a
  token qualifies. It is the recursive function
  `PartNumber.FirstQualifying`.
- The loop over `findall` results in `_value_in_line` (main.py:153) returns
  as soon as a number equals the target. It is the recursive function
  `ValueMatch.AnyNumberEquals`.
- The backward and forward loops of `_find_nearby_part_number` (main.py:112
  and 124), each with a `break`, are the two `while` loops of the method
  `Nearby.FindNearby`.
- The `enumerate` loop with `append` of `_filter_results` (main.py:175) is
  the `while` loop of the method `Search.Filter`.

The two methods are proved equal to specification functions (`FirstHit` and
`Collect`). Lemmas state what those functions guarantee. Both methods are
written once for any line test and any per-line matcher. The source's
functions are the instances that use the value test and `MatchPartNumber`:
`Nearby.FindNearbyPartNumber` and `Search.FilterResults`.

## Model

| member | source | states |
|---|---|---|
| Text.Span | backend/app/main.py:63-64 | the greedy run of a character class from a position stays in the string and stops at the end or just before a character outside the class |
| Text.SpanAll | backend/app/main.py:63-64 | every character of the greedy run belongs to the class |
| Text.SpanUnique | backend/app/main.py:63-64 | any run of class characters followed by the end or by a non-member is exactly the greedy run |
| Text.SpanBack | backend/app/main.py:97 | the run of class characters ending at a position stops at the start or just after a non-member |
| Text.SpanBackAll | backend/app/main.py:97 | every character of the backward run belongs to the class |
| Text.StripChars | backend/app/main.py:97 | `strip(chars)` is never longer than its input and is empty or starts and ends with a character outside the class |
| Text.StripCharsSpec | backend/app/main.py:97 | `strip(chars)` keeps one contiguous slice; everything removed before and after it belongs to the class |
| Text.StripCharsKeeps | backend/app/main.py:97 | a string that starts and ends outside the class is left unchanged |
| Text.StripCharsIdempotent | backend/app/main.py:172 | stripping twice gives the same as stripping once, so the thickness stripped here and again at main.py:140 is unchanged by the second strip |
| Text.BlankIffStripsToEmpty | backend/app/main.py:117 | `line.strip()` is empty exactly when every character of the line is whitespace |
| Text.SplitWs | backend/app/main.py:95 | `re.split(r"\s+", ...)` always yields at least one piece, so the token loop always sees a token |
| Text.SplitFromNoSpace | backend/app/main.py:95 | no piece of `re.split(r"\s+", ...)` contains whitespace |
| Text.SplitWsNoSpace | backend/app/main.py:95 | no piece of the whole-string split contains whitespace |
| Text.SplitFromJoin | backend/app/main.py:95 | concatenating the split pieces gives the input with its whitespace removed |
| Text.SplitWsJoin | backend/app/main.py:95 | the same for the whole-string split: the pieces lose exactly the whitespace |
| Text.SplitFromWords | backend/app/main.py:95 | splitting a string that starts and ends with non-whitespace yields only non-empty pieces |
| Text.SplitWsWords | backend/app/main.py:95 | a stripped, non-empty line splits into non-empty tokens |
| Text.Strip | backend/app/main.py:95 | `str.strip()`: the whitespace instance of `StripChars` |
| Text.IsBlank | backend/app/main.py:117 | a line is blank when every character is whitespace (`not line.strip()`, see `BlankIffStripsToEmpty`) |
| Text.SplitFrom | backend/app/main.py:95 | `re.split(r"\s+", ...)` from a position that starts a piece: the greedy non-whitespace run, then the split of what follows the whitespace run after it; never empty |
| Text.LaidOut | backend/app/main.py:95 | a string laid out as piece, whitespace run, piece, ..., piece, the last piece reaching the end, and every piece between two runs non-empty, so no run is cut in two |
| Text.SplitFromStep | backend/app/main.py:95 | the first piece is the text up to the first whitespace; it is the last piece when it reaches the end, and otherwise the whole whitespace run follows it and the remaining pieces are the split of what comes after that run, whose first piece is empty only when it is the last |
| Text.SplitFromFirstPiece | backend/app/main.py:95 | after a whole whitespace run the next piece is empty only at the end of the string, where it is the last piece |
| Text.SplitFromRebuild | backend/app/main.py:95 | the text is the pieces with one whitespace run between each two, and only the first and the last piece may be empty; with `SplitFromNoSpace` every cut is a whole maximal whitespace run |
| Text.SplitWsRebuild | backend/app/main.py:95 | for the whole string, with `SplitWsNoSpace`: the cuts are exactly the maximal whitespace runs, a leading or trailing run giving an empty first or last piece |
| PartNumber.DigitAheadSpec | backend/app/main.py:63 | the lookahead `(?=.*\d)` holds exactly when a digit follows with no line feed before it |
| PartNumber.FullMatchSpec | backend/app/main.py:63 | a full match is exactly a string of at least three `[A-Za-z0-9-_/]` characters, at least one of them a digit |
| PartNumber.DigitAhead | backend/app/main.py:63 | the lookahead `(?=.*\d)` at a position |
| PartNumber.PartRun | backend/app/main.py:63 | the greedy run of `[A-Za-z0-9\-_/]` from a position |
| PartNumber.MatchesAt | backend/app/main.py:63 | the pattern matches at a position: the lookahead holds there and the greedy run has at least three characters |
| PartNumber.FullMatch | backend/app/main.py:98 | `PART_NUMBER_PATTERN.fullmatch(token)`: the lookahead holds at the start and the greedy run covers the whole token of at least three characters |
| PartNumber.SearchFrom | backend/app/main.py:101 | the search position, if any, lies at or after the start and within the line |
| PartNumber.SearchFromSpec | backend/app/main.py:101 | the search returns the leftmost match start, and nothing only when no position starts a match |
| PartNumber.SearchFromLeftmost | backend/app/main.py:101 | a match start with no match start before it is what the search returns |
| PartNumber.SearchMatch | backend/app/main.py:101-102 | `match.group(0) if match else ""`: the greedy run at the leftmost match start, or empty |
| PartNumber.Tokens | backend/app/main.py:95 | the tokens are the whitespace split of the stripped line |
| PartNumber.StripPunctuation | backend/app/main.py:97 | `raw_token.strip(".,;:()[]{}")` |
| PartNumber.Qualifies | backend/app/main.py:97-98 | a raw token qualifies when, stripped of punctuation, it fully matches the pattern |
| PartNumber.FirstQualifying | backend/app/main.py:96-99 | the token loop returns an index of the token list at or after the start |
| PartNumber.FirstQualifyingSpec | backend/app/main.py:96-99 | the loop returns the first qualifying token, and nothing only when no token qualifies |
| PartNumber.SearchMatchShape | backend/app/main.py:101-102 | a search hit is empty or at least three part-number characters |
| PartNumber.MatchPartNumberShape | backend/app/main.py:94-102 | any part number is empty or at least three part-number characters |
| PartNumber.MatchPartNumberPrefersToken | backend/app/main.py:95-99 | when some token qualifies, the result is the first qualifying token with punctuation stripped; no earlier token qualifies; the result contains a digit |
| PartNumber.MatchPartNumberFallsBackToSearch | backend/app/main.py:101-102 | with no qualifying token, the result is the greedy match at the leftmost match start, or empty when nothing matches |
| PartNumber.WordSpaceDigitStripped | backend/app/main.py:95 | a line shaped like "ABC 1" is unchanged by `strip()` |
| PartNumber.WordSpaceDigitSplit | backend/app/main.py:95 | a line shaped like "ABC 1" splits into the word and the digit |
| PartNumber.SearchHitMayLackDigit | backend/app/main.py:63 | the lookahead looks past the match: a line shaped like "ABC 1" yields "ABC", which has no digit |
| PartNumber.SearchHitSample | backend/app/main.py:101-102 | `_match_part_number("ABC 1") == "ABC"` |
| PartNumber.BlankLineHasNoPartNumber | backend/app/main.py:94-102 | a blank line has no part number |
| PartNumber.MatchPartNumber | backend/app/main.py:94-102 | `_match_part_number`: the first qualifying token stripped of punctuation, else the search hit; its properties are `MatchPartNumberPrefersToken`, `MatchPartNumberFallsBackToSearch` and `MatchPartNumberShape` |
| Numbers.NumberEnd | backend/app/main.py:64 | a match tried at a position, if any, ends after it and within the line |
| Numbers.NumberEndSound | backend/app/main.py:64 | what is matched at a position is a whole `-?\d+(?:\.\d+)?` |
| Numbers.NumberEndLongest | backend/app/main.py:64 | when a whole match starts at a position, the regex matches there and its match is the longest |
| Numbers.NumberShape | backend/app/main.py:64 | the language of `-?\d+(?:\.\d+)?`: an optional minus, digits, and optionally a point and digits; the reference the scan lemmas are stated against |
| Numbers.NumberSpans | backend/app/main.py:153 | the `findall` spans lie in the scanned part of the line, in order, without overlap |
| Numbers.NumberSpansAreMatches | backend/app/main.py:153 | each span is the match the regex makes at its start |
| Numbers.NumberSpansComplete | backend/app/main.py:153 | every position where the pattern matches lies inside a span found: the scan skips no number |
| Numbers.NumberMatches | backend/app/main.py:153 | `findall` returns one string per span |
| Numbers.ValueTrailingZero | backend/app/main.py:155 | a decimal keeps its number when its mantissa gains a zero digit and its scale grows by one (mantissa 20 at scale 1 is 2 at scale 0) |
| Numbers.Value | backend/app/main.py:155 | the number a decimal denotes, as an exact rational |
| Numbers.DigitsValueLeadingZero | backend/app/main.py:149 | a leading zero digit adds nothing to the value of a run of digits |
| Numbers.ParseFloat | backend/app/main.py:149 | a parsed value comes from a non-empty string and is negative exactly when the string starts with `-` |
| Numbers.ParseFloatAccepts | backend/app/main.py:148-151 | `float()` succeeds exactly on an optional sign followed by digits with an optional point and fraction, or by a point and at least one digit |
| Numbers.FloatShape | backend/app/main.py:149 | the notation `float()` accepts in this model: an optional sign, digits, and optionally a point and digits, with at least one digit; the reference of `ParseFloatAccepts` |
| Numbers.ParseIntegerValue | backend/app/main.py:149 | a non-empty string of digits parses to the non-negative integer it spells |
| Numbers.ParsePointDecimal | backend/app/main.py:149 | unsigned digits, a point and digits parse to the decimal whose mantissa is all the digits and whose scale is the number of fraction digits |
| Numbers.ParsePointAt | backend/app/main.py:149 | the same string parses to the integer part plus the fraction digits over ten to their count |
| Numbers.ParsePointValue | backend/app/main.py:149 | `float(i + "." + f)`, for digit strings not both empty, is `i + f / 10^|f|` |
| Numbers.SignKeepsNotation | backend/app/main.py:149 | a sign in front of an unsigned string does not change whether it is a number |
| Numbers.SignKeepsMagnitude | backend/app/main.py:149 | a sign in front keeps the mantissa and the scale |
| Numbers.ParseSignedValue | backend/app/main.py:149 | `float("-" + v)` is `-float(v)` and `float("+" + v)` is `float(v)`, and either parses exactly when `v` does |
| Numbers.PointZeroKeepsValue | backend/app/main.py:155 | `float(i + ".0") == float(i)` for a digit string `i` |
| Numbers.TrailingZeroKeepsValue | backend/app/main.py:155 | a zero appended to the fraction keeps the number: `float("2.50") == float("2.5")` |
| Numbers.LeadingZeroKeepsValue | backend/app/main.py:155 | a zero in front keeps the number: `float("07.5") == float("7.5")` |
| Numbers.NumberParses | backend/app/main.py:154-158 | every whole match of `NUMBER_PATTERN` is accepted by `float()` |
| Numbers.NumbersParse | backend/app/main.py:153-158 | every string `findall` returns is a whole match and parses, so the inner `except ValueError` never fires |
| ValueMatch.BoundaryFrom | backend/app/main.py:144-146 | the boundary search succeeds exactly when, at some position, the value occurs with no digit or point just before or after it |
| ValueMatch.OccursAt | backend/app/main.py:144 | `re.escape(value)` matches at a position: the value occurs there literally |
| ValueMatch.BoundaryAt | backend/app/main.py:144 | the boundary pattern matches at a position: the value occurs there and neither neighbour present is a digit or a point |
| ValueMatch.NumberEquals | backend/app/main.py:154-158 | `float(match) == target`, false when the match is not a number |
| ValueMatch.AnyNumberEquals | backend/app/main.py:153-160 | the loop over the numbers is true exactly when one of them equals the target |
| ValueMatch.BlankValueAbsent | backend/app/main.py:140-142 | a blank value is never present |
| ValueMatch.ValueInLine | backend/app/main.py:138-160 | `_value_in_line`: strip, a boundary search, then numeric equality with some `findall` result; its property is `ValueInLineSpec` |
| ValueMatch.ValueInLineSpec | backend/app/main.py:138-160 | present exactly when the stripped value is non-empty and either occurs with no digit or point touching it or parses to a number equal to a number found in the line |
| ValueMatch.BoundaryOccurrenceFound | backend/app/main.py:144-146 | a boundary-safe occurrence makes the value present |
| ValueMatch.NonNumericNeedsBoundary | backend/app/main.py:148-151 | a value that is not a number is present exactly when it has a boundary-safe occurrence |
| ValueMatch.NoBoundaryInside | backend/app/main.py:144-145 | "20" has no boundary-safe occurrence in "120mm" |
| ValueMatch.OneNumberIn120mm | backend/app/main.py:153 | the only number `findall` finds in "120mm" is "120" |
| ValueMatch.EmbeddedDigitsAreNotTheValue | backend/app/main.py:138-160 | "20" is not present in "120mm" |
| ValueMatch.NoBoundaryBeforePoint | backend/app/main.py:144-145 | "2" has no boundary-safe occurrence in "t=2.0" |
| ValueMatch.OneNumberInT20 | backend/app/main.py:153 | the only number `findall` finds in "t=2.0" is "2.0" |
| ValueMatch.ParseTwoPointZero | backend/app/main.py:155 | `float("2.0")` is the decimal 2.0 |
| ValueMatch.EqualNumberIsTheValue | backend/app/main.py:148-160 | "2" is present in "t=2.0" through numeric equality |
| ValueMatch.NoBoundaryAfterZero | backend/app/main.py:144-145 | "20" has no boundary-safe occurrence in "020" |
| ValueMatch.OneNumberIn020 | backend/app/main.py:153 | the only number `findall` finds in "020" is "020" |
| ValueMatch.LeadingZeroNumberIsTheValue | backend/app/main.py:138-160 | "20" is present in "020" although its only occurrence follows a digit: `float("020") == 20`, so a digit next to the literal does not by itself keep a value out |
| Nearby.Reachable | backend/app/main.py:112-130 | a reachable offset addresses an existing line, and so does `index` |
| Nearby.ReachableSpec | backend/app/main.py:112-130 | the walk reaches an offset exactly when that line exists and neither it nor any line between it and `index` is blank |
| Nearby.Hit | backend/app/main.py:112-133 | a probe succeeds when its line is reachable and has a part number |
| Nearby.FirstHit | backend/app/main.py:105-135 | the part number of the first successful probe from a given one on, or empty; its property is `FirstHitSpec` |
| Nearby.NearbyPartNumber | backend/app/main.py:105-135 | `_find_nearby_part_number` with `_match_part_number` as the matcher |
| Nearby.FirstHitSpec | backend/app/main.py:105-135 | the result is the part number of the first successful probe in the order own line, -1, -2, -3, +1, +2; it is empty exactly when no probe succeeds |
| Nearby.OwnLineFirst | backend/app/main.py:107-109 | a part number on the line itself is returned |
| Nearby.NearbyWithinWindow | backend/app/main.py:112-133 | a non-empty result is the part number of a line reachable from `index` at most three before it or two after it |
| Nearby.BackwardBeforeForward | backend/app/main.py:111-133 | when the line or a reachable earlier line has a part number, the result comes from a line between that one and `index`, never from a later line |
| Nearby.NothingNearby | backend/app/main.py:135 | when no reachable line in the window has a part number, the result is empty |
| Nearby.Blocked | backend/app/main.py:112-130 | once a step in a direction is out of range or blank, no later step in that direction is tried |
| Nearby.BackwardProbe | backend/app/main.py:112-121 | backward step `offset` looks at `index - offset`; it is reached exactly when that line exists and is not blank, and then it returns that line's part number if any, else what the later probes return |
| Nearby.ForwardProbe | backend/app/main.py:124-133 | the same for forward step `offset` and the line at `index + offset` |
| Nearby.NearbyPartNumberShape | backend/app/main.py:105-135 | the result is empty or at least three part-number characters |
| Nearby.FindNearby | backend/app/main.py:105-135 | the two loops with `break` return the first successful probe |
| Nearby.FindNearbyPartNumber | backend/app/main.py:105-135 | `_find_nearby_part_number` returns the first successful probe with `_match_part_number` |
| Search.ThicknessRequiredIff | backend/app/main.py:172-173 | the thickness is required exactly when it is given and not blank |
| Search.NormalizeThickness | backend/app/main.py:172 | `(t_value or "").strip()` |
| Search.LineMatches | backend/app/main.py:176-180 | the condition of the loop's `if`: L and W occur, and T unless it is empty |
| Search.Label | backend/app/main.py:184 | `part_number or "(not found)"` |
| Search.ResultAt | backend/app/main.py:181-187 | the record appended for a line: the nearby part number or the sentinel, the line itself and the file name |
| Search.Collect | backend/app/main.py:175-188 | the records of the lines among the first `n` that pass the test, in order; its properties are `CollectIsSelected`, `CollectFields` and `CollectNone` |
| Search.FilteredResults | backend/app/main.py:163-189 | what `_filter_results` returns; its properties are `FilteredLinesSpec`, `FilteredResultsSpec`, `BlankQueryFindsNothing` and `NoThicknessIgnored` |
| Search.Filter | backend/app/main.py:175-189 | the loop returns one record per line passing the test, in line order, with the nearby part number or the sentinel |
| Search.FilterResults | backend/app/main.py:163-189 | `_filter_results` returns the records of the lines containing L, W and the normalized T |
| Search.SelectedSpec | backend/app/main.py:175-180 | the indices of kept lines are strictly increasing, and a line is kept exactly when it passes the test |
| Search.CollectIsSelected | backend/app/main.py:175-188 | record k is the record of the k-th kept line |
| Search.FilteredLinesSpec | backend/app/main.py:175-180 | the reported line indices increase, and a line is reported exactly when it contains L and W, and T when one is given |
| Search.FilteredResultsSpec | backend/app/main.py:163-189 | one record per reported line, in line order, each with the nearby part number or the sentinel, the line and the file name |
| Search.CollectFields | backend/app/main.py:181-187 | every record has a non-empty part number and the given file name |
| Search.CollectNone | backend/app/main.py:175-180 | when no line passes the test, the result is empty |
| Search.LabelIsNotFoundIff | backend/app/main.py:184 | a record carries `"(not found)"` exactly when no part number was found around its line |
| Search.BlankQueryFindsNothing | backend/app/main.py:176-178 | a blank L or W yields no results |
| Search.NoThicknessIgnored | backend/app/main.py:172-179 | a missing T and a blank T give the same results, and then only L and W are checked |

## Left out

- Web layer: the FastAPI application, CORS middleware, static file mounting, the `/search` and `/health` endpoints and their request parsing (backend/app/main.py:27-57, 192-267). This is framework plumbing with no logic of its own.
- PDF reading: `_read_pdf_lines` and `_iter_pdf_text_lines` (backend/app/main.py:66-91). They wrap PyPDF2's `PdfReader`, which is not part of this model. Lines arrive as a given `seq<string>`.
- CSV/JSON serialisation and streaming responses: output formatting only.
- Numbers.ParseFloat: only the plain decimal notation is accepted. Exponents (`1e3`), `inf`/`nan`, digit-group underscores (`1_000`) and non-ASCII digits are treated as not a number. So `ValueMatch.ValueInLine` is false for such a value unless it occurs literally.
- Numbers.Value: numbers are compared as exact rationals, not IEEE doubles. Two long decimals that round to the same double are equal in Python but unequal here. Overflow to infinity is not modelled.
- Text.IsSpace, Text.IsDigit: ASCII only. Python's `\s`, `\d`, `str.strip()` and `str.isspace()` also accept non-ASCII whitespace and digits.
- PartNumber.DigitAhead: `.` in the lookahead does not match a line feed, and the model keeps that. Lines from `splitlines()` never contain one, so in practice it acts as "a digit somewhere later in the line".
- Nearby.FindNearbyPartNumber and Search.FilterResults: `lines` is a value, so the aliasing and in-place growth of Python lists are not modelled. Results are built by concatenation.
- Nearby.FindNearbyPartNumber: requires `index < |lines|`. The source indexes `lines[index]` unguarded, and its only caller passes indices from `enumerate(lines)`.
