/**
 * `_find_nearby_part_number`: the part number for a matched line, looked for
 * on the line itself, then on up to three lines before it, then on up to two
 * lines after it. Each direction stops at the edge of the document or at a blank
 * line.
 *
 * The probe order is stated for any per-line matcher `partNumberOf`; the
 * search itself uses `MatchPartNumber`.
 */
module Nearby {
  import opened Text
  import opened PartNumber

  /** The order in which lines around `index` are tried, as offsets. */
  const ProbeOrder: seq<int> := [0, -1, -2, -3, 1, 2]

  /** How far each direction looks: `range(1, 4)` backward, `range(1, 3)`
      forward. */
  const BackwardSteps: nat := 3
  const ForwardSteps: nat := 2

  /** The backward probes are `ProbeOrder[1..BackwardEnd]`, the forward ones
      `ProbeOrder[BackwardEnd..ForwardEnd]`. */
  const BackwardEnd: nat := 1 + BackwardSteps
  const ForwardEnd: nat := BackwardEnd + ForwardSteps

  /** The walk from `index` reaches the line at `index + d`: the line at
      `index` exists, and each step towards `index + d` lands on a line that
      exists and is not blank. */
  predicate Reachable(lines: seq<string>, index: nat, d: int)
    ensures Reachable(lines, index, d) ==> index < |lines| && 0 <= index + d < |lines|
    decreases if d < 0 then -d else d
  {
    if d == 0 then index < |lines|
    else if d < 0 then Reachable(lines, index, d + 1) && 0 <= index + d && !IsBlank(lines[index + d])
    else Reachable(lines, index, d - 1) && index + d < |lines| && !IsBlank(lines[index + d])
  }

  /** Reachability without the walk: the target line exists, and neither it
      nor any line between it and `index` is blank. */
  lemma {:induction false} ReachableSpec(lines: seq<string>, index: nat, d: int)
    ensures Reachable(lines, index, d) <==>
      0 <= index + d < |lines| && index < |lines|
      && forall j :: 0 <= j < |lines| && (index < j <= index + d || index + d <= j < index) ==> !IsBlank(lines[j])
    decreases if d < 0 then -d else d
  {
    if d < 0 {
      ReachableSpec(lines, index, d + 1);
    } else if d > 0 {
      ReachableSpec(lines, index, d - 1);
    }
  }

  /** The `k`th probe finds a part number. */
  predicate Hit(lines: seq<string>, index: nat, k: nat, partNumberOf: string -> string)
    requires k < |ProbeOrder|
  {
    Reachable(lines, index, ProbeOrder[k]) && partNumberOf(lines[index + ProbeOrder[k]]) != []
  }

  /** The part number of the first probe from the `k`th on that finds one,
      or the empty string. */
  function FirstHit(lines: seq<string>, index: nat, k: nat, partNumberOf: string -> string): string
    requires k <= |ProbeOrder|
    decreases |ProbeOrder| - k
  {
    if k == |ProbeOrder| then []
    else if Hit(lines, index, k, partNumberOf) then partNumberOf(lines[index + ProbeOrder[k]])
    else FirstHit(lines, index, k + 1, partNumberOf)
  }

  /** What `_find_nearby_part_number(lines, index)` returns. */
  function NearbyPartNumber(lines: seq<string>, index: nat): string {
    FirstHit(lines, index, 0, MatchPartNumber)
  }

  /** The result is the part number of the first successful probe, and no
      earlier probe succeeds; it is empty exactly when no probe succeeds. */
  lemma {:induction false} FirstHitSpec(lines: seq<string>, index: nat, k: nat, f: string -> string)
    requires k <= |ProbeOrder|
    ensures FirstHit(lines, index, k, f) == [] <==> forall i :: k <= i < |ProbeOrder| ==> !Hit(lines, index, i, f)
    ensures FirstHit(lines, index, k, f) != [] ==>
      exists i :: k <= i < |ProbeOrder| && Hit(lines, index, i, f)
                  && FirstHit(lines, index, k, f) == f(lines[index + ProbeOrder[i]])
                  && forall i' :: k <= i' < i ==> !Hit(lines, index, i', f)
    decreases |ProbeOrder| - k
  {
    if k < |ProbeOrder| && !Hit(lines, index, k, f) {
      FirstHitSpec(lines, index, k + 1, f);
    }
  }

  /** A part number on the matched line itself always wins. */
  lemma OwnLineFirst(lines: seq<string>, index: nat, f: string -> string)
    requires index < |lines| && f(lines[index]) != []
    ensures FirstHit(lines, index, 0, f) == f(lines[index])
  {
    assert Hit(lines, index, 0, f);
  }

  /** Any part number found is the part number of a line reachable from
      `index` at most three lines before it or two after it. */
  lemma NearbyWithinWindow(lines: seq<string>, index: nat, f: string -> string)
    requires FirstHit(lines, index, 0, f) != []
    ensures exists d :: -3 <= d <= 2 && Reachable(lines, index, d)
                        && FirstHit(lines, index, 0, f) == f(lines[index + d])
  {
    FirstHitSpec(lines, index, 0, f);
    var i :| 0 <= i < |ProbeOrder| && Hit(lines, index, i, f)
             && FirstHit(lines, index, 0, f) == f(lines[index + ProbeOrder[i]]);
    var d := ProbeOrder[i];
    assert -3 <= d <= 2;
  }

  /** Backward before forward: when the line itself or a reachable line
      before it has a part number, the result comes from one of the lines
      between that line and `index`, never from a line after `index`. */
  lemma BackwardBeforeForward(lines: seq<string>, index: nat, e: int, f: string -> string)
    requires -3 <= e <= 0 && Reachable(lines, index, e) && f(lines[index + e]) != []
    ensures exists b :: e <= b <= 0 && Reachable(lines, index, b)
                        && FirstHit(lines, index, 0, f) == f(lines[index + b])
  {
    FirstHitSpec(lines, index, 0, f);
    assert ProbeOrder[-e] == e;
    assert Hit(lines, index, -e, f);
    var i :| 0 <= i < |ProbeOrder| && Hit(lines, index, i, f)
             && FirstHit(lines, index, 0, f) == f(lines[index + ProbeOrder[i]])
             && forall i' :: 0 <= i' < i ==> !Hit(lines, index, i', f);
    assert i <= -e;
    assert ProbeOrder[i] == -i;
  }

  /** Nothing is found when the line and the lines around it that the walk
      reaches all lack a part number. */
  lemma NothingNearby(lines: seq<string>, index: nat, f: string -> string)
    requires forall d :: -3 <= d <= 2 && Reachable(lines, index, d) ==> f(lines[index + d]) == []
    ensures FirstHit(lines, index, 0, f) == []
  {
    FirstHitSpec(lines, index, 0, f);
    forall i | 0 <= i < |ProbeOrder| ensures !Hit(lines, index, i, f) {
      assert -3 <= ProbeOrder[i] <= 2;
    }
  }

  /** Once a step in one direction is blocked (out of range or blank), the
      later steps in that direction are blocked too, so the probes from the
      `k`th to the end of that direction find nothing. */
  lemma {:induction false} Blocked(lines: seq<string>, index: nat, k: nat, last: nat, f: string -> string)
    requires k <= last && (last == BackwardEnd || last == ForwardEnd)
    requires last == BackwardEnd ==> 1 <= k
    requires last == ForwardEnd ==> BackwardEnd <= k
    requires k < last ==> !Reachable(lines, index, ProbeOrder[k])
    ensures FirstHit(lines, index, k, f) == FirstHit(lines, index, last, f)
    decreases last - k
  {
    if k < last {
      if k + 1 < last {
        var d := ProbeOrder[k + 1];
        assert d == (if last == BackwardEnd then ProbeOrder[k] - 1 else ProbeOrder[k] + 1);
        assert !Reachable(lines, index, d);
      }
      Blocked(lines, index, k + 1, last, f);
    }
  }

  /** Any part number found is a run of at least three pattern characters. */
  lemma NearbyPartNumberShape(lines: seq<string>, index: nat)
    ensures var r := NearbyPartNumber(lines, index);
      r == [] || (|r| >= 3 && forall i :: 0 <= i < |r| ==> IsPartChar(r[i]))
  {
    if NearbyPartNumber(lines, index) != [] {
      NearbyWithinWindow(lines, index, MatchPartNumber);
      var d :| -3 <= d <= 2 && Reachable(lines, index, d)
               && NearbyPartNumber(lines, index) == MatchPartNumber(lines[index + d]);
      MatchPartNumberShape(lines[index + d]);
    }
  }

  /** The `offset`th backward probe, once the line before it was reached:
      it reaches its line exactly when that line exists and is not blank,
      and then either finds a part number there or hands over to the next. */
  lemma BackwardProbe(lines: seq<string>, index: nat, offset: int, f: string -> string)
    requires 1 <= offset <= BackwardSteps && Reachable(lines, index, 1 - offset)
    ensures ProbeOrder[offset] == -offset
    ensures Reachable(lines, index, -offset) <==> offset <= index && !IsBlank(lines[index - offset])
    ensures Reachable(lines, index, -offset) ==>
      FirstHit(lines, index, offset, f) == if f(lines[index - offset]) != [] then f(lines[index - offset])
                                           else FirstHit(lines, index, offset + 1, f)
  {
  }

  /** The `offset`th forward probe, likewise. */
  lemma ForwardProbe(lines: seq<string>, index: nat, offset: nat, f: string -> string)
    requires 1 <= offset <= ForwardSteps && Reachable(lines, index, offset - 1)
    ensures ProbeOrder[BackwardSteps + offset] == offset
    ensures Reachable(lines, index, offset) <==> index + offset < |lines| && !IsBlank(lines[index + offset])
    ensures Reachable(lines, index, offset) ==>
      FirstHit(lines, index, BackwardSteps + offset, f) == if f(lines[index + offset]) != [] then f(lines[index + offset])
                                                           else FirstHit(lines, index, BackwardSteps + offset + 1, f)
  {
  }

  /** The search, as written, for any per-line matcher: the line, a backward
      loop of up to three steps, a forward loop of up to two, each stopping
      at the first line that is out of range or blank. */
  method FindNearby(lines: seq<string>, index: nat, partNumberOf: string -> string) returns (r: string)
    requires index < |lines|
    ensures r == FirstHit(lines, index, 0, partNumberOf)
  {
    r := partNumberOf(lines[index]);
    if r != [] {
      assert Hit(lines, index, 0, partNumberOf);
      return;
    }
    assert !Hit(lines, index, 0, partNumberOf);

    // Look backward.
    var offset := 1;
    while offset <= BackwardSteps
      invariant 1 <= offset <= BackwardSteps + 1
      invariant Reachable(lines, index, 1 - offset)
      invariant FirstHit(lines, index, 0, partNumberOf) == FirstHit(lines, index, offset, partNumberOf)
    {
      var prev := index - offset;
      BackwardProbe(lines, index, offset, partNumberOf);
      if prev < 0 || IsBlank(lines[prev]) {
        Blocked(lines, index, offset, BackwardEnd, partNumberOf);
        break;
      }
      r := partNumberOf(lines[prev]);
      if r != [] {
        return;
      }
      offset := offset + 1;
    }

    // Look forward.
    offset := 1;
    while offset <= ForwardSteps
      invariant 1 <= offset <= ForwardSteps + 1
      invariant Reachable(lines, index, offset - 1)
      invariant FirstHit(lines, index, 0, partNumberOf) == FirstHit(lines, index, BackwardSteps + offset, partNumberOf)
    {
      var next := index + offset;
      ForwardProbe(lines, index, offset, partNumberOf);
      if next >= |lines| || IsBlank(lines[next]) {
        Blocked(lines, index, BackwardSteps + offset, ForwardEnd, partNumberOf);
        break;
      }
      r := partNumberOf(lines[next]);
      if r != [] {
        return;
      }
      offset := offset + 1;
    }
    r := [];
  }

  /** `_find_nearby_part_number(lines, index)`: the search with
      `MatchPartNumber` as the matcher. */
  method FindNearbyPartNumber(lines: seq<string>, index: nat) returns (r: string)
    requires index < |lines|
    ensures r == NearbyPartNumber(lines, index)
  {
    r := FindNearby(lines, index, MatchPartNumber);
  }
}
