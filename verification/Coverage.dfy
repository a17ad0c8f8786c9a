/** Which parts of a window were collected: interval merging, subtraction, and the gaps between runs. */
module Coverage {
  import opened Prelude
  import opened Runs
  import Keyset

  datatype Gap = Gap(start: Instant, end: Instant)

  ghost predicate WellFormedGaps(gs: seq<Gap>) {
    forall g :: g in gs ==> g.start <= g.end
  }

  /** Instant t was collected: some half-open window contains it. */
  ghost predicate Covered(gs: seq<Gap>, t: Instant) {
    exists g :: g in gs && g.start <= t < g.end
  }

  /** No window meets the open stretch (a, b). Unlike Covered this also sees zero-length windows. */
  ghost predicate Clear(gs: seq<Gap>, a: Instant, b: Instant) {
    forall g :: g in gs ==> g.end <= a || b <= g.start
  }

  /** A non-empty part [a, b) of [start, end) that no window reaches into. */
  ghost predicate Stretch(gs: seq<Gap>, start: Instant, end: Instant, a: Instant, b: Instant) {
    start <= a < b <= end && Clear(gs, a, b)
  }

  ghost predicate IsStretch(g: Gap, start: Instant, end: Instant, gs: seq<Gap>) {
    start <= g.start < g.end <= end && Clear(gs, g.start, g.end)
  }

  ghost predicate Within(gaps: seq<Gap>, a: Instant, b: Instant) {
    exists g :: g in gaps && g.start <= a && b <= g.end
  }

  ghost predicate InOrder(gaps: seq<Gap>) {
    forall i, j :: 0 <= i < j < |gaps| ==> gaps[i].end <= gaps[j].start
  }

  /** gaps lists, in order, exactly the maximal stretches of [start, end) no window reaches into. */
  ghost predicate IsGapList(gaps: seq<Gap>, start: Instant, end: Instant, covered: seq<Gap>) {
    && InOrder(gaps)
    && (forall g :: g in gaps ==> IsStretch(g, start, end, covered))
    && (forall a, b :: Stretch(covered, start, end, a, b) ==> Within(gaps, a, b))
  }

  // ---------------------------------------------------------------------------
  // mergeIntervals and subtract
  // ---------------------------------------------------------------------------

  ghost predicate SortedByStart(gs: seq<Gap>) {
    forall i, j :: 0 <= i < j < |gs| ==> gs[i].start <= gs[j].start
  }

  /** An unstable sort: nothing is promised about the order of windows that start together. */
  method SortByStart(input: seq<Gap>) returns (sorted: seq<Gap>)
    ensures SortedByStart(sorted) && multiset(sorted) == multiset(input)
  {
    sorted := [];
    var i := 0;
    while i < |input|
      invariant 0 <= i <= |input|
      invariant SortedByStart(sorted) && multiset(sorted) == multiset(input[..i])
    {
      PrefixStep(input, i);
      sorted := InsertByStart(sorted, input[i]);
      i := i + 1;
    }
    assert input[..i] == input;
  }

  method InsertByStart(sorted: seq<Gap>, g: Gap) returns (r: seq<Gap>)
    requires SortedByStart(sorted)
    ensures SortedByStart(r) && multiset(r) == multiset(sorted) + multiset{g}
  {
    var k := 0;
    while k < |sorted| && sorted[k].start < g.start
      invariant 0 <= k <= |sorted|
      invariant forall m :: 0 <= m < k ==> sorted[m].start < g.start
    {
      k := k + 1;
    }
    r := sorted[..k] + [g] + sorted[k..];
    InsertedMultiset(sorted, k, g);
  }

  lemma {:induction false} InsertedMultiset(s: seq<Gap>, k: nat, g: Gap)
    requires k <= |s|
    ensures multiset(s[..k] + [g] + s[k..]) == multiset(s) + multiset{g}
  {
    assert s == s[..k] + s[k..];
  }

  /** Merged windows are separated by gaps of positive length. */
  ghost predicate Separated(gs: seq<Gap>) {
    forall i, j :: 0 <= i < j < |gs| ==> gs[i].end < gs[j].start
  }

  ghost predicate SameReach(xs: seq<Gap>, ys: seq<Gap>) {
    forall a, b :: a < b ==> (Clear(xs, a, b) <==> Clear(ys, a, b))
  }

  lemma {:induction false} ClearAppend(gs: seq<Gap>, g: Gap, a: Instant, b: Instant)
    ensures Clear(gs + [g], a, b) <==> Clear(gs, a, b) && (g.end <= a || b <= g.start)
  {
    forall x ensures x in gs + [g] <==> x in gs || x == g {
    }
  }

  method MergeIntervals(input: seq<Gap>) returns (out: seq<Gap>)
    requires input != [] && WellFormedGaps(input)
    ensures Separated(out) && WellFormedGaps(out) && SameReach(out, input)
  {
    var sorted := SortByStart(input);
    assert forall g :: g in sorted <==> g in input by {
      assert forall g :: g in sorted <==> g in multiset(sorted);
      assert forall g :: g in input <==> g in multiset(input);
    }
    assert |sorted| == |multiset(sorted)| == |input|;
    out := [sorted[0]];
    var i := 1;
    assert sorted[..1] == out;
    while i < |sorted|
      invariant 1 <= i <= |sorted| && |out| > 0
      invariant Separated(out) && WellFormedGaps(out)
      invariant SameReach(out, sorted[..i])
      invariant out[|out| - 1].start <= sorted[i - 1].start
    {
      var iv := sorted[i];
      var last := out[|out| - 1];
      ghost var before := out;
      assert last in out && iv in sorted;
      PrefixStep(sorted, i);
      if iv.start <= last.end {
        if last.end < iv.end {
          out := out[..|out| - 1] + [Gap(last.start, iv.end)];
        }
      } else {
        out := out + [iv];
      }
      forall a, b | a < b ensures Clear(out, a, b) <==> Clear(sorted[..i + 1], a, b) {
        MergeStep(before, iv, out, a, b);
        ClearAppend(sorted[..i], iv, a, b);
      }
      i := i + 1;
    }
    assert sorted[..i] == sorted;
    forall a, b | a < b ensures Clear(out, a, b) <==> Clear(input, a, b) {
      assert Clear(sorted, a, b) <==> Clear(input, a, b);
    }
  }

  lemma {:induction false} MergeStep(before: seq<Gap>, iv: Gap, after: seq<Gap>, a: Instant, b: Instant)
    requires before != [] && a < b && iv.start <= iv.end
    requires var last := before[|before| - 1];
      && last.start <= last.end && last.start <= iv.start
      && after == (if iv.start <= last.end
                   then (if last.end < iv.end then before[..|before| - 1] + [Gap(last.start, iv.end)] else before)
                   else before + [iv])
    ensures Clear(after, a, b) <==> Clear(before, a, b) && (iv.end <= a || b <= iv.start)
  {
    var init, last := before[..|before| - 1], before[|before| - 1];
    assert before == init + [last];
    ClearAppend(init, last, a, b);
    ClearAppend(before, iv, a, b);
    ClearAppend(init, Gap(last.start, iv.end), a, b);
  }

  /** Nothing meets the stretch between the windows before the i-th and the i-th one itself. */
  lemma {:induction false} ClearUpTo(merged: seq<Gap>, i: nat, a: Instant, b: Instant)
    requires Separated(merged) && WellFormedGaps(merged) && i <= |merged|
    requires forall k :: 0 <= k < i ==> merged[k].end <= a
    requires i < |merged| ==> b <= merged[i].start
    ensures Clear(merged, a, b)
  {
    forall g | g in merged ensures g.end <= a || b <= g.start {
      var k :| 0 <= k < |merged| && merged[k] == g;
      assert i < |merged| ==> merged[i] in merged;
    }
  }

  method Subtract(start: Instant, end: Instant, covered: seq<Gap>) returns (gaps: seq<Gap>)
    requires start <= end && WellFormedGaps(covered)
    ensures start < end ==> IsGapList(gaps, start, end, covered)
    ensures start == end ==> gaps == (if covered == [] then [Gap(start, end)] else [])
  {
    if covered == [] {
      gaps := [Gap(start, end)];
      assert gaps[0] in gaps;
      return;
    }
    var merged := MergeIntervals(covered);
    gaps := [];
    var cursor := start;
    assert Progress(gaps, start, end, merged, cursor);
    hide SameReach, IsGapList, Progress, Clear;
    var i := 0;
    while i < |merged|
      invariant 0 <= i <= |merged|
      invariant start <= cursor && (start < end ==> cursor < end) && (start == end ==> cursor == start && gaps == [])
      invariant forall k :: 0 <= k < i ==> merged[k].end <= cursor
      invariant start < cursor ==> exists k :: 0 <= k < i && merged[k].end == cursor
      invariant Progress(gaps, start, end, merged, cursor)
    {
      var iv := merged[i];
      assert iv in merged;
      i := i + 1;
      if iv.end <= cursor {
        continue;
      }
      ghost var before := gaps;
      if cursor < iv.start {
        var gapEnd := iv.start;
        if end < gapEnd {
          gapEnd := end;
        }
        if cursor < gapEnd {
          ClearUpTo(merged, i - 1, cursor, gapEnd);
          gaps := gaps + [Gap(cursor, gapEnd)];
        }
      }
      SubtractStep(before, gaps, start, end, merged, cursor, i - 1);
      cursor := iv.end;
      if end <= cursor {
        ProgressDone(gaps, start, end, merged, covered, cursor);
        return;
      }
    }
    if cursor < end {
      ClearUpTo(merged, i, cursor, end);
      ghost var before := gaps;
      gaps := gaps + [Gap(cursor, end)];
      SubtractLast(before, gaps, start, end, merged, cursor);
      ProgressDone(gaps, start, end, merged, covered, end);
    }
  }

  /** The gap list is right for the part of the window before the cursor, and no stretch crosses the cursor. */
  ghost predicate Progress(gaps: seq<Gap>, start: Instant, end: Instant, merged: seq<Gap>, cursor: Instant) {
    && InOrder(gaps)
    && (forall g :: g in gaps ==> IsStretch(g, start, end, merged) && g.end <= cursor)
    && (forall a, b :: Stretch(merged, start, end, a, b) ==> cursor <= a || (b <= cursor && Within(gaps, a, b)))
  }

  lemma {:induction false} SubtractStep(before: seq<Gap>, after: seq<Gap>, start: Instant, end: Instant,
                     merged: seq<Gap>, cursor: Instant, i: nat)
    requires Progress(before, start, end, merged, cursor) && WellFormedGaps(merged) && Separated(merged)
    requires start <= cursor && i < |merged| && cursor < merged[i].end
    requires forall k :: 0 <= k < i ==> merged[k].end <= cursor
    requires var gapEnd := Min(merged[i].start, end);
      && after == (if cursor < gapEnd then before + [Gap(cursor, gapEnd)] else before)
      && (cursor < gapEnd ==> Clear(merged, cursor, gapEnd))
    ensures Progress(after, start, end, merged, merged[i].end)
  {
    var gapEnd := Min(merged[i].start, end);
    assert merged[i] in merged;
    if cursor < gapEnd {
      ProgressAppend(before, Gap(cursor, gapEnd), start, end, merged, cursor);
    }
    forall a, b | Stretch(merged, start, end, a, b)
      ensures merged[i].end <= a || (b <= merged[i].end && Within(after, a, b))
    {
      if a < merged[i].end {
        assert b <= merged[i].start;
        if cursor <= a {
          assert Gap(cursor, gapEnd) in after;
        }
      }
    }
  }

  /** The gap opened at the cursor reaches as far as any stretch that starts at or after the cursor and ends by it. */
  lemma {:induction false} ProgressAppend(before: seq<Gap>, g: Gap, start: Instant, end: Instant, merged: seq<Gap>,
      cursor: Instant)
    requires Progress(before, start, end, merged, cursor)
    requires g.start == cursor && Stretch(merged, start, end, g.start, g.end)
    ensures InOrder(before + [g])
    ensures forall x :: x in before + [g] ==> IsStretch(x, start, end, merged) && x.end <= g.end
    ensures forall a, b :: Stretch(merged, start, end, a, b) ==>
      cursor <= a || (b <= cursor && Within(before + [g], a, b))
  {
    var after := before + [g];
    forall i, j | 0 <= i < j < |after| ensures after[i].end <= after[j].start {
      assert after[i] in before;
    }
    forall a, b | Stretch(merged, start, end, a, b) && a < cursor ensures b <= cursor && Within(after, a, b) {
      var x :| x in before && x.start <= a && b <= x.end;
      assert x in after;
    }
  }

  lemma {:induction false} SubtractLast(before: seq<Gap>, after: seq<Gap>, start: Instant, end: Instant,
      merged: seq<Gap>, cursor: Instant)
    requires Progress(before, start, end, merged, cursor) && start <= cursor < end
    requires Clear(merged, cursor, end) && after == before + [Gap(cursor, end)]
    ensures Progress(after, start, end, merged, end)
  {
    ProgressAppend(before, Gap(cursor, end), start, end, merged, cursor);
    assert Gap(cursor, end) in after;
  }

  lemma {:induction false} ProgressDone(gaps: seq<Gap>, start: Instant, end: Instant, merged: seq<Gap>,
      covered: seq<Gap>, cursor: Instant)
    requires Progress(gaps, start, end, merged, cursor) && end <= cursor && SameReach(merged, covered)
    ensures IsGapList(gaps, start, end, covered)
  {
    forall a, b | Stretch(covered, start, end, a, b) ensures Within(gaps, a, b) {
      assert Stretch(merged, start, end, a, b);
    }
  }

  // ---------------------------------------------------------------------------
  // What a gap list means
  // ---------------------------------------------------------------------------

  /** The gap list depends only on which windows there are: not on their order, and not on repetitions. */
  lemma {:induction false} GapListUnique(g1: seq<Gap>, g2: seq<Gap>, start: Instant, end: Instant, c1: seq<Gap>,
      c2: seq<Gap>)
    requires IsGapList(g1, start, end, c1) && IsGapList(g2, start, end, c2)
    requires forall g :: g in c1 <==> g in c2
    ensures g1 == g2
  {
    FilterHarmless(g2, start, end, c2, c1);
    forall g ensures g in g1 <==> g in g2 {
      if g in g1 { GapInBoth(g, g1, g2, start, end, c1); }
      if g in g2 { GapInBoth(g, g2, g1, start, end, c1); }
    }
    var rank := (g: Gap) => Keyset.Rank(0.0, g.start);
    GapsAscend(g1, start, end, c1, rank);
    GapsAscend(g2, start, end, c1, rank);
    Keyset.AscendingUnique(g1, g2, rank);
  }

  lemma {:induction false} GapsAscend(gaps: seq<Gap>, start: Instant, end: Instant, covered: seq<Gap>,
      rank: Gap -> Keyset.Rank)
    requires IsGapList(gaps, start, end, covered) && forall g :: rank(g) == Keyset.Rank(0.0, g.start)
    ensures Keyset.Ascending(gaps, rank)
  {
    forall i, j | 0 <= i < j < |gaps| ensures gaps[i].start < gaps[j].start {
      assert gaps[i] in gaps;
    }
  }

  lemma {:induction false} GapInBoth(g: Gap, g1: seq<Gap>, g2: seq<Gap>, start: Instant, end: Instant,
      covered: seq<Gap>)
    requires g in g1 && IsGapList(g1, start, end, covered) && IsGapList(g2, start, end, covered)
    ensures g in g2
  {
    var h := Enclosing(g2, start, end, covered, g.start, g.end);
    var f := Enclosing(g1, start, end, covered, h.start, h.end);
    SameGap(g1, f, g, g.start);
  }

  /** The gap a stretch lies in, itself a stretch. */
  lemma {:induction false} Enclosing(gaps: seq<Gap>, start: Instant, end: Instant, covered: seq<Gap>, a: Instant,
      b: Instant) returns (g: Gap)
    requires IsGapList(gaps, start, end, covered) && Stretch(covered, start, end, a, b)
    ensures g in gaps && g.start <= a && b <= g.end && Stretch(covered, start, end, g.start, g.end)
  {
    assert Within(gaps, a, b);
    g :| g in gaps && g.start <= a && b <= g.end;
  }

  /** At most one gap contains an instant. */
  lemma {:induction false} SameGap(gaps: seq<Gap>, f: Gap, g: Gap, t: Instant)
    requires InOrder(gaps) && f in gaps && g in gaps
    requires f.start <= t < f.end && g.start <= t < g.end
    ensures f == g
  {
    var i :| 0 <= i < |gaps| && gaps[i] == f;
    var j :| 0 <= j < |gaps| && gaps[j] == g;
  }

  ghost predicate InGap(gaps: seq<Gap>, t: Instant) {
    exists g :: g in gaps && g.start <= t < g.end
  }

  /** An instant of the window lies in a gap if and only if no run collected it. */
  lemma {:induction false} GapInstants(gaps: seq<Gap>, start: Instant, end: Instant, covered: seq<Gap>, t: Instant)
    requires IsGapList(gaps, start, end, covered) && start <= t < end
    ensures InGap(gaps, t) <==> !Covered(covered, t)
  {
    if !Covered(covered, t) {
      assert Stretch(covered, start, end, t, t + 1);
      var g :| g in gaps && g.start <= t && t + 1 <= g.end;
    }
    if InGap(gaps, t) {
      var g :| g in gaps && g.start <= t < g.end;
      assert Clear(covered, g.start, g.end);
    }
  }

  /** When every run has positive length, a clear stretch is one with no collected instant. */
  lemma {:induction false} ClearMeansUncovered(covered: seq<Gap>, a: Instant, b: Instant)
    requires a < b && forall g :: g in covered ==> g.start < g.end
    ensures Clear(covered, a, b) <==> forall t :: a <= t < b ==> !Covered(covered, t)
  {
    if g :| g in covered && !(g.end <= a || b <= g.start) {
      var t := Max(a, g.start);
      assert a <= t < b && Covered(covered, t);
    }
  }

  // ---------------------------------------------------------------------------
  // Measure: gaps plus collected time is the whole window
  // ---------------------------------------------------------------------------

  function TotalLength(gaps: seq<Gap>): int {
    if gaps == [] then 0
    else TotalLength(gaps[..|gaps| - 1]) + gaps[|gaps| - 1].end - gaps[|gaps| - 1].start
  }

  ghost function Instants(a: Instant, b: Instant): (r: set<Instant>)
    ensures forall t :: t in r <==> a <= t < b
    ensures a <= b ==> |r| == b - a
    decreases b - a
  {
    if a < b then Instants(a, b - 1) + {b - 1} else {}
  }

  ghost function Collected(covered: seq<Gap>, start: Instant, end: Instant): set<Instant> {
    set t | start <= t < end && Covered(covered, t)
  }

  ghost function GapTime(gaps: seq<Gap>, start: Instant, end: Instant): set<Instant> {
    set t | start <= t < end && InGap(gaps, t)
  }

  lemma {:induction false} GapTimeSize(gaps: seq<Gap>, start: Instant, end: Instant)
    requires InOrder(gaps) && forall g :: g in gaps ==> start <= g.start < g.end <= end
    ensures |GapTime(gaps, start, end)| == TotalLength(gaps)
  {
    if gaps == [] {
      assert GapTime(gaps, start, end) == {};
    } else {
      var init, last := gaps[..|gaps| - 1], gaps[|gaps| - 1];
      assert gaps == init + [last];
      forall g | g in init ensures g.end <= last.start {
        var i :| 0 <= i < |init| && gaps[i] == g;
      }
      GapTimeSize(init, start, end);
      GapTimeStep(init, last, gaps, start, end);
    }
  }

  lemma {:induction false} GapTimeStep(init: seq<Gap>, last: Gap, gaps: seq<Gap>, start: Instant, end: Instant)
    requires gaps == init + [last] && start <= last.start <= last.end <= end
    requires forall g :: g in init ==> g.end <= last.start
    ensures |GapTime(gaps, start, end)| == |GapTime(init, start, end)| + last.end - last.start
  {
    forall t ensures InGap(gaps, t) <==> InGap(init, t) || t in Instants(last.start, last.end) {
      if InGap(init, t) {
        var g :| g in init && g.start <= t < g.end;
        assert g in gaps;
      }
      if t in Instants(last.start, last.end) { assert last in gaps; }
    }
    assert GapTime(gaps, start, end) == GapTime(init, start, end) + Instants(last.start, last.end);
    assert GapTime(init, start, end) !! Instants(last.start, last.end);
  }

  /** Total gap length plus the length of the collected part of the window is the length of the window. */
  lemma {:induction false} GapMeasure(gaps: seq<Gap>, start: Instant, end: Instant, covered: seq<Gap>)
    requires start < end && IsGapList(gaps, start, end, covered)
    ensures TotalLength(gaps) + |Collected(covered, start, end)| == end - start
  {
    GapTimeSize(gaps, start, end);
    forall t | start <= t < end ensures InGap(gaps, t) <==> !Covered(covered, t) {
      GapInstants(gaps, start, end, covered, t);
    }
    assert Instants(start, end) == GapTime(gaps, start, end) + Collected(covered, start, end);
  }

  // ---------------------------------------------------------------------------
  // CoverageFor and GapsSince
  // ---------------------------------------------------------------------------

  datatype Kind = Complete | Partial | Absent

  datatype CoverageError = EndsBeforeStart | NoCadence

  datatype CoverageReport = CoverageReport(kind: Kind, gaps: seq<Gap>)

  function KindOf(gaps: seq<Gap>, start: Instant, end: Instant): Kind {
    if gaps == [] then Complete
    else if gaps == [Gap(start, end)] then Absent
    else Partial
  }

  /** complete says every instant was collected; none says no run so much as touched the inside of the window. */
  lemma {:induction false} KindMeaning(gaps: seq<Gap>, start: Instant, end: Instant, covered: seq<Gap>)
    requires start < end && IsGapList(gaps, start, end, covered)
    ensures KindOf(gaps, start, end) == Complete <==> forall t :: start <= t < end ==> Covered(covered, t)
    ensures KindOf(gaps, start, end) == Absent <==> Clear(covered, start, end)
    ensures KindOf(gaps, start, end) == Absent ==> forall t :: start <= t < end ==> !Covered(covered, t)
  {
    forall t | start <= t < end ensures InGap(gaps, t) <==> !Covered(covered, t) {
      GapInstants(gaps, start, end, covered, t);
    }
    if gaps != [] {
      assert gaps[0] in gaps;
      assert InGap(gaps, gaps[0].start);
    }
    AbsentMeaning(gaps, start, end, covered);
    if gaps == [Gap(start, end)] {
      assert gaps[0] in gaps;
      assert forall t :: start <= t < end ==> InGap(gaps, t);
    }
  }

  lemma {:induction false} AbsentMeaning(gaps: seq<Gap>, start: Instant, end: Instant, covered: seq<Gap>)
    requires start < end && IsGapList(gaps, start, end, covered)
    ensures gaps == [Gap(start, end)] <==> Clear(covered, start, end)
  {
    if gaps == [Gap(start, end)] {
      assert gaps[0] in gaps;
    }
    if Clear(covered, start, end) {
      var g := Enclosing(gaps, start, end, covered, start, end);
      assert g == Gap(start, end);
      forall i | 0 <= i < |gaps| ensures gaps[i] == g {
        assert gaps[i] in gaps;
        SameGap(gaps, gaps[i], g, gaps[i].start);
      }
      assert |gaps| > 1 ==> gaps[0].end <= gaps[1].start;
      assert gaps == [g];
    }
  }

  /**
   * A window none of which was collected is reported as none exactly when no zero-length run lies strictly inside
   * it: such a run (a manual window may start and end at one instant) splits the gap in two and turns the answer into
   * partial.
   */
  lemma {:induction false} NothingCollected(gaps: seq<Gap>, start: Instant, end: Instant, covered: seq<Gap>)
    requires start < end && IsGapList(gaps, start, end, covered) && WellFormedGaps(covered)
    requires forall t :: start <= t < end ==> !Covered(covered, t)
    ensures KindOf(gaps, start, end) == Absent
      <==> forall g :: g in covered && g.start == g.end ==> g.start <= start || end <= g.start
  {
    KindMeaning(gaps, start, end, covered);
    forall g | g in covered && g.start < g.end ensures g.end <= start || end <= g.start {
      assert !(start <= Max(start, g.start) < end) || !Covered(covered, Max(start, g.start));
    }
  }

  lemma {:induction false} ZeroLengthRunSplitsGap(start: Instant, end: Instant, t: Instant)
    requires start < t < end
    ensures IsGapList([Gap(start, t), Gap(t, end)], start, end, [Gap(t, t)])
    ensures KindOf([Gap(start, t), Gap(t, end)], start, end) == Partial
    ensures forall u :: start <= u < end ==> !Covered([Gap(t, t)], u)
  {
    var gaps, covered := [Gap(start, t), Gap(t, end)], [Gap(t, t)];
    assert covered[0] in covered;
    assert gaps[0] in gaps && gaps[1] in gaps;
  }

  /** The windows a source's successful runs collected. */
  function SuccessWindows(runs: seq<Run>, sourceId: int): (r: seq<Gap>)
    ensures forall g :: g in r <==>
      exists i :: 0 <= i < |runs| && runs[i].sourceId == sourceId && runs[i].result == Success
        && g == Gap(runs[i].windowStart, runs[i].windowEnd)
  {
    if runs == [] then []
    else
      var rest := SuccessWindows(runs[..|runs| - 1], sourceId);
      var last := runs[|runs| - 1];
      if IsSuccess(last, sourceId) then rest + [Gap(last.windowStart, last.windowEnd)] else rest
  }

  method CoverageFor(runs: seq<Run>, sourceId: int, start: Instant, end: Instant)
    returns (r: Result<CoverageReport, CoverageError>)
    requires WellFormed(runs)
    ensures r.Err? <==> end < start
    ensures r.Err? ==> r.error == EndsBeforeStart
    ensures r.Ok? ==> r.value.kind == KindOf(r.value.gaps, start, end)
    ensures start < end ==> IsGapList(r.value.gaps, start, end, SuccessWindows(runs, sourceId))
    ensures start == end ==>
      (r.value.kind == Complete <==> exists g :: g in SuccessWindows(runs, sourceId) && g.start <= start <= g.end)
    ensures start == end ==> r.value.kind != Partial
  {
    if end < start {
      return Err(EndsBeforeStart);
    }
    var covered: seq<Gap> := [];
    var i := 0;
    while i < |runs|
      invariant 0 <= i <= |runs|
      invariant forall g :: g in covered ==> g in SuccessWindows(runs[..i], sourceId)
      invariant forall g :: g in SuccessWindows(runs[..i], sourceId) && g.start <= end && start <= g.end ==>
        g in covered
      invariant forall g :: g in covered ==> g.start <= end && start <= g.end
    {
      PrefixStep(runs, i);
      assert runs[..i + 1][..i] == runs[..i];
      if IsSuccess(runs[i], sourceId) && runs[i].windowStart <= end && start <= runs[i].windowEnd {
        covered := covered + [Gap(runs[i].windowStart, runs[i].windowEnd)];
      }
      i := i + 1;
    }
    assert runs[..i] == runs;
    ghost var all := SuccessWindows(runs, sourceId);
    var gaps := Subtract(start, end, covered);
    if start < end {
      FilterHarmless(gaps, start, end, covered, all);
    } else if covered != [] {
      assert covered[0] in all;
    }
    r := Ok(CoverageReport(KindOf(gaps, start, end), gaps));
  }

  /** Windows that do not even touch [start, end] cannot change which stretches are clear. */
  lemma {:induction false} FilterHarmless(gaps: seq<Gap>, start: Instant, end: Instant, covered: seq<Gap>,
      all: seq<Gap>)
    requires IsGapList(gaps, start, end, covered)
    requires forall g :: g in covered ==> g in all
    requires forall g :: g in all && g.start <= end && start <= g.end ==> g in covered
    ensures IsGapList(gaps, start, end, all)
  {
    forall a, b ensures Stretch(covered, start, end, a, b) <==> Stretch(all, start, end, a, b) {
    }
  }

  method GapsSince(runs: seq<Run>, sourceId: int, since: Instant, now: Instant, cadence: int)
    returns (r: Result<seq<Gap>, CoverageError>)
    requires WellFormed(runs)
    ensures r.Ok? <==> cadence > 0 && since <= now
    ensures r.Err? ==> r.error == if cadence <= 0 then NoCadence else EndsBeforeStart
    ensures r.Ok? ==> forall g :: g in r.value ==>
      Stretch(SuccessWindows(runs, sourceId), since, now, g.start, g.end) && cadence < g.end - g.start
    ensures r.Ok? ==> forall a, b :: Stretch(SuccessWindows(runs, sourceId), since, now, a, b) && cadence < b - a ==>
      Within(r.value, a, b)
    ensures r.Ok? ==> InOrder(r.value)
  {
    if cadence <= 0 {
      return Err(NoCadence);
    }
    var coverage := CoverageFor(runs, sourceId, since, now);
    if coverage.Err? {
      return Err(coverage.error);
    }
    var gaps := coverage.value.gaps;
    var out: seq<Gap> := [];
    var i := 0;
    while i < |gaps|
      invariant 0 <= i <= |gaps|
      invariant forall g :: g in out <==> g in gaps[..i] && cadence < g.end - g.start
      invariant since < now ==> InOrder(out)
      invariant since == now ==> out == []
    {
      PrefixStep(gaps, i);
      if cadence < gaps[i].end - gaps[i].start {
        forall k | 0 <= k < |out| ensures since < now ==> out[k].end <= gaps[i].start {
          assert out[k] in gaps[..i];
        }
        assert gaps[i] in gaps;
        out := out + [gaps[i]];
      }
      i := i + 1;
    }
    assert gaps[..i] == gaps;
    r := Ok(out);
  }

  /** Every stretch that nothing was collected in for longer than the cadence lies inside exactly one reported gap. */
  lemma {:induction false} ReportedOnce(reported: seq<Gap>, a: Instant, b: Instant, f: Gap, g: Gap)
    requires InOrder(reported) && a < b
    requires f in reported && f.start <= a && b <= f.end
    requires g in reported && g.start <= a && b <= g.end
    ensures f == g
  {
    SameGap(reported, f, g, a);
  }
}
