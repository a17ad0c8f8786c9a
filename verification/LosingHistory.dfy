/** How far a manual or backfill success may outrun the cycles before a revision can be lost, or an instant missed. */
module LosingHistory {
  import opened Prelude
  import opened Runs
  import opened Earthquakes
  import opened Collect
  import opened Protocol
  import opened Safety
  import opened NoLostRevision
  import opened Example

  /** A success that ends here is behind some cycle, or ends by m when some cycle has reached e. */
  ghost predicate EndsWithin(runs: seq<Run>, end: Instant, e: Instant, m: Instant) {
    exists r :: Cycle(runs, r) && (end <= r.windowEnd || (e <= r.windowEnd && end <= m))
  }

  /**
   * Once there are cycles, all that any success ever does is run ahead from a cycle's end e, or later, to m, or
   * earlier.
   */
  ghost predicate AheadAtMost(runs: seq<Run>, e: Instant, m: Instant) {
    HasCycle(runs) ==>
      forall q {:trigger EndsWithin(runs, q.windowEnd, e, m)} ::
        Succeeded(runs, q) ==> EndsWithin(runs, q.windowEnd, e, m)
  }

  ghost predicate HistoryAhead(h: seq<State>, e: Instant, m: Instant) {
    forall i :: 0 <= i < |h| ==> AheadAtMost(h[i].runs, e, m)
  }

  /** Revision k is lost: the source shows it, a cycle should have brought it, and the store does not say it. */
  ghost predicate Lost(s: State, k: nat) {
    Showing(s, k) && Due(s.log[k], s.runs) && !Stores(s.table, s.log[k])
  }

  ghost predicate Loses(h: seq<State>, steps: seq<Step>, k: nat, e: Instant, m: Instant) {
    Execution(h, steps) && Steady(h, steps, |steps|) && HistoryAhead(h, e, m) && Lost(h[|h| - 1], k)
  }

  /** An instant between two cycles that no success of any mode collected. */
  ghost predicate Missed(runs: seq<Run>, u: Instant) {
    && (exists r :: Cycle(runs, r) && r.windowStart <= u) && (exists q :: Cycle(runs, q) && u < q.windowEnd)
    && !CoveredAt(runs, u)
  }

  ghost predicate Misses(h: seq<State>, steps: seq<Step>, u: Instant, e: Instant, m: Instant) {
    Execution(h, steps) && HistoryAhead(h, e, m) && Missed(h[|h| - 1].runs, u)
  }

  // ---------------------------------------------------------------------------
  // Within the limit nothing happens
  // ---------------------------------------------------------------------------

  lemma {:induction false} AheadIsTame(runs: seq<Run>, e: Instant, m: Instant)
    requires AheadAtMost(runs, e, m) && Reaches(m, e)
    ensures Tame(runs)
  {
    forall q | HasCycle(runs) && Succeeded(runs, q) ensures CycleReaches(runs, q.windowEnd) {
      assert EndsWithin(runs, q.windowEnd, e, m);
      var r :| Cycle(runs, r) && (q.windowEnd <= r.windowEnd || (e <= r.windowEnd && q.windowEnd <= m));
      EndingByACycleReaches(q.windowEnd, r.windowEnd);
      if r.windowEnd < q.windowEnd {
        ReachesLess(m, e, q.windowEnd, r.windowEnd);
      }
    }
  }

  lemma {:induction false} AheadIsLinked(runs: seq<Run>, e: Instant, m: Instant)
    requires AheadAtMost(runs, e, m) && m - SAFETY_OVERLAP <= e
    ensures Linked(runs)
  {
    forall q | HasCycle(runs) && Succeeded(runs, q) ensures CycleLinks(runs, q.windowEnd) {
      assert EndsWithin(runs, q.windowEnd, e, m);
    }
  }

  lemma {:induction false} NothingLost(h: seq<State>, steps: seq<Step>, k: nat, e: Instant, m: Instant)
    requires Execution(h, steps) && Steady(h, steps, |steps|) && HistoryAhead(h, e, m) && Reaches(m, e)
    ensures !Lost(h[|h| - 1], k)
  {
    forall i | 0 <= i <= |h| - 1 ensures Tame(h[i].runs) {
      AheadIsTame(h[i].runs, e, m);
    }
    if Lost(h[|h| - 1], k) {
      DueIsStored(h, steps, |h| - 1, k);
    }
  }

  lemma {:induction false} NothingMissed(h: seq<State>, steps: seq<Step>, u: Instant, e: Instant, m: Instant)
    requires Execution(h, steps) && HistoryAhead(h, e, m) && m - SAFETY_OVERLAP <= e
    ensures !Missed(h[|h| - 1].runs, u)
  {
    var runs := h[|h| - 1].runs;
    forall i | 0 <= i <= |h| - 1 ensures Linked(h[i].runs) {
      AheadIsLinked(h[i].runs, e, m);
    }
    ConnectedAlways(h, steps, |h| - 1);
    if (exists r :: Cycle(runs, r) && r.windowStart <= u) && (exists q :: Cycle(runs, q) && u < q.windowEnd) {
      assert CycleCoveredAt(runs, u);
      var x :| Cycle(runs, x) && x.windowStart <= u < x.windowEnd;
      assert Succeeded(runs, x);
    }
  }

  // ---------------------------------------------------------------------------
  // Past it a history loses a revision
  // ---------------------------------------------------------------------------

  const SOME_CONTENT :=
    Content(0, 0.0, 0.0, None, None, "", "", None, None, None, None, false)

  const SOME_EVENT := Event("event", SOME_CONTENT, None, "{}")

  /** Changed in the last second the anchor of a success ending at m leaves out, and visible as late as it may be. */
  function LateRevision(m: Instant): Revision {
    var updated := FloorSecond(m - SAFETY_OVERLAP);
    Revision("event", Readable(SOME_EVENT), updated, updated + SAFETY_OVERLAP)
  }

  function FirstStart(e: Instant, m: Instant): Instant {
    Min(e, LateRevision(m).updated - 1_000_000_000)
  }

  function FirstPlan(e: Instant, m: Instant): Plan {
    Plan(Incremental, Some(FirstStart(e, m)), FirstStart(e, m), e)
  }

  function ManualPlan(m: Instant): Plan {
    Plan(Manual, None, m, m)
  }

  function NextPlan(m: Instant): Plan {
    Plan(Incremental, Some(m - SAFETY_OVERLAP), m - SAFETY_OVERLAP, m + 1)
  }

  function Begin(e: Instant): State {
    State(e, None, [], [], [], map[])
  }

  /** The revision has just become visible. */
  function Revised(e: Instant, m: Instant): State {
    Over(Begin(e), FirstPlan(e, m)).(clock := m, log := [LateRevision(m)])
  }

  function ManualDone(e: Instant, m: Instant): State {
    Over(Revised(e, m), ManualPlan(m))
  }

  function End(e: Instant, m: Instant): State {
    Over(ManualDone(e, m), NextPlan(m))
  }

  /** What DoneBy records. */
  lemma {:induction false} DoneIs(s: State, plan: Plan)
    ensures var r := DoneBy(s, plan);
      IsSuccess(r, SOURCE) && r.mode == plan.mode
      && r.windowStart == Stored(plan.windowStart) && r.windowEnd == Stored(plan.windowEnd)
    ensures OpenedBy(s, plan).result == Running
  {
  }

  lemma {:induction false} StoredNearby(m: Instant)
    requires Stored(m) == m
    ensures Stored(m + 1) == m && Stored(m - SAFETY_OVERLAP) == m - SAFETY_OVERLAP
  {
  }

  /** A success in the middle, ahead of a cycle that has reached e, and then perhaps a cycle that ends where it does. */
  lemma {:induction false} TablesAhead(r1: Run, r2: Run, r3: Run, o: Run, e: Instant, m: Instant)
    requires Succeeded([r1], r1) && r1.mode == Incremental && r1.windowEnd == e
    requires Succeeded([r2], r2) && r2.mode == Manual && r2.windowEnd == m
    requires Succeeded([r3], r3) && r3.windowEnd == m && o.result == Running
    ensures AheadAtMost([], e, m) && AheadAtMost([o], e, m) && AheadAtMost([r1], e, m) && AheadAtMost([r1, o], e, m)
    ensures AheadAtMost([r1, r2], e, m) && AheadAtMost([r1, r2, o], e, m) && AheadAtMost([r1, r2, r3], e, m)
  {
    CycleFirst([r1], r1, e, m);
    CycleFirst([r1, o], r1, e, m);
    CycleFirst([r1, r2], r1, e, m);
    CycleFirst([r1, r2, o], r1, e, m);
    CycleFirst([r1, r2, r3], r1, e, m);
  }

  lemma {:induction false} CycleFirst(runs: seq<Run>, r1: Run, e: Instant, m: Instant)
    requires Cycle(runs, r1) && e <= r1.windowEnd
    requires forall q :: Succeeded(runs, q) ==> q.windowEnd <= r1.windowEnd || q.windowEnd <= m
    ensures AheadAtMost(runs, e, m)
  {
  }

  ghost function Within(e: Instant, m: Instant): seq<Run> -> bool {
    runs => AheadAtMost(runs, e, m)
  }

  /** The tables this history goes through. */
  lemma {:induction false} TheTables(e: Instant, m: Instant)
    requires Stored(e) == e && Stored(m) == m
    ensures var r1, o2 := DoneBy(Begin(e), FirstPlan(e, m)), OpenedBy(Revised(e, m), ManualPlan(m));
      var r2, o3 := DoneBy(Revised(e, m), ManualPlan(m)), OpenedBy(ManualDone(e, m), NextPlan(m));
      var r3, good := DoneBy(ManualDone(e, m), NextPlan(m)), Within(e, m);
      && good([]) && good([OpenedBy(Begin(e), FirstPlan(e, m))]) && good([r1]) && good([r1, o2])
      && good([r1, r2]) && good([r1, r2, o3]) && good([r1, r2, r3])
      && Revised(e, m).runs == [r1] && ManualDone(e, m).runs == [r1, r2] && End(e, m).runs == [r1, r2, r3]
  {
    DoneIs(Begin(e), FirstPlan(e, m));
    DoneIs(Revised(e, m), ManualPlan(m));
    DoneIs(ManualDone(e, m), NextPlan(m));
    StoredNearby(m);
    var r1, r2 := DoneBy(Begin(e), FirstPlan(e, m)), DoneBy(Revised(e, m), ManualPlan(m));
    var r3 := DoneBy(ManualDone(e, m), NextPlan(m));
    assert Begin(e).runs + [r1] == [r1] && [r1] + [r2] == [r1, r2] && [r1, r2] + [r3] == [r1, r2, r3];
    hide DoneBy, OpenedBy;
    TablesAhead(r1, r2, r3, OpenedBy(Begin(e), FirstPlan(e, m)), e, m);
    TablesAhead(r1, r2, r3, OpenedBy(Revised(e, m), ManualPlan(m)), e, m);
    TablesAhead(r1, r2, r3, OpenedBy(ManualDone(e, m), NextPlan(m)), e, m);
  }

  lemma {:induction false} LastIsManual(e: Instant, m: Instant)
    requires Stored(m) == m && Stored(e) == e && e < m
    ensures LastSuccessOf(ManualDone(e, m).runs, SOURCE) == Some(DoneBy(Revised(e, m), ManualPlan(m)))
  {
    DoneIs(Begin(e), FirstPlan(e, m));
    DoneIs(Revised(e, m), ManualPlan(m));
    var r1, r2 := DoneBy(Begin(e), FirstPlan(e, m)), DoneBy(Revised(e, m), ManualPlan(m));
    var runs := ManualDone(e, m).runs;
    assert runs == [r1, r2] && runs[0] == r1 && runs[1] == r2;
    var last := LastSuccessOf(runs, SOURCE);
    assert last.Some? && last.value in runs;
  }

  /** The revision comes late, but no later than m. */
  lemma {:induction false} LateSteps(e: Instant, m: Instant)
    requires !Reaches(m, e)
    ensures var s, rev := Over(Begin(e), FirstPlan(e, m)), LateRevision(m);
      && Next(s, Tick(rev.visible), s.(clock := rev.visible))
      && Next(s.(clock := rev.visible), Publish(rev), Revised(e, m).(clock := rev.visible))
      && Next(Revised(e, m).(clock := rev.visible), Tick(m), Revised(e, m))
  {
    FloorWidens(m - SAFETY_OVERLAP);
    assert [] + [LateRevision(m)] == [LateRevision(m)];
    hide DoneBy, FloorSecond;
  }

  lemma {:induction false} FirstPlanned(e: Instant, m: Instant)
    ensures var s, plan := Begin(e), FirstPlan(e, m);
      && Init(s) && Idle(s) && IsAnswer(s.log, |s.log|, plan.anchor, []) && plan.windowStart <= plan.windowEnd
      && PlanFor(SinceLast(e - FirstStart(e, m), 0), s.runs, e, e) == Some(plan)
      && s.runs + [OpenedBy(s, plan)] == [OpenedBy(s, plan)] && s.runs + [DoneBy(s, plan)] == [DoneBy(s, plan)]
      && Over(s, plan).runs == Revised(e, m).runs == [DoneBy(s, plan)] && s.clock == e && s.runs == []
  {
  }

  /** A cycle that ends at e, then the revision. */
  lemma {:induction false} ReachRevised(e: Instant, m: Instant)
    requires Stored(e) == e && Stored(m) == m && !Reaches(m, e)
    ensures Reachable(Revised(e, m), Within(e, m))
  {
    var s0, plan, rev := Begin(e), FirstPlan(e, m), LateRevision(m);
    TheTables(e, m);
    LateSteps(e, m);
    FirstPlanned(e, m);
    hide *;
    ReachableStart(s0, Within(e, m));
    EmptyRun(s0, SinceLast(e - FirstStart(e, m), 0), plan, Within(e, m));
    var s1 := Over(s0, plan);
    Onward(s1, Within(e, m), Tick(rev.visible), s1.(clock := rev.visible));
    Onward(s1.(clock := rev.visible), Within(e, m), Publish(rev), Revised(e, m).(clock := rev.visible));
    Onward(Revised(e, m).(clock := rev.visible), Within(e, m), Tick(m), Revised(e, m));
  }

  lemma {:induction false} EndStates(e: Instant, m: Instant)
    ensures var s1, s2, p1, p2 := Revised(e, m), ManualDone(e, m), ManualPlan(m), NextPlan(m);
      && Idle(s1) && s2 == Over(s1, p1) && End(e, m) == Over(s2, p2) && s1.clock == m && s2.clock == m + 1
      && s1.log == s2.log == [LateRevision(m)] && p1.anchor == None && p2.anchor == Some(m - SAFETY_OVERLAP)
      && p1.windowStart <= p1.windowEnd && p2.windowStart <= p2.windowEnd
  {
  }

  /** Then a manual run over a window that ends at m, and the next cycle. */
  lemma {:induction false} ReachEnd(e: Instant, m: Instant)
    requires Stored(e) == e && Stored(m) == m && !Reaches(m, e)
    ensures Reachable(End(e, m), Within(e, m))
  {
    var s1, s2, p1, p2 := Revised(e, m), ManualDone(e, m), ManualPlan(m), NextPlan(m);
    EndingByACycleReaches(m, e);
    hide *;
    TheTables(e, m);
    ReachRevised(e, m);
    EndStates(e, m);
    NoAnswerNeeded(s1.log, p1, m);
    NoAnswerNeeded(s2.log, p2, m);
    ManualPlanned(e, m);
    NextPlanned(e, m);
    var r1, r2, r3 := DoneBy(Begin(e), FirstPlan(e, m)), DoneBy(s1, p1), DoneBy(s2, p2);
    assert [r1] + [r2] == [r1, r2] && [r1] + [OpenedBy(s1, p1)] == [r1, OpenedBy(s1, p1)];
    assert [r1, r2] + [OpenedBy(s2, p2)] == [r1, r2, OpenedBy(s2, p2)] && [r1, r2] + [r3] == [r1, r2, r3];
    EmptyRun(s1, Explicit(m, Some(m), 0), p1, Within(e, m));
    EmptyRun(s2, SinceLast(0, 0), p2, Within(e, m));
  }

  lemma {:induction false} GoodIsAhead(h: seq<State>, steps: seq<Step>, e: Instant, m: Instant)
    requires AllGood(h, Within(e, m)) && |h| == |steps| + 1 && NoPaging(steps)
    ensures HistoryAhead(h, e, m) && Steady(h, steps, |steps|)
  {
    forall i | 0 <= i < |h| ensures AheadAtMost(h[i].runs, e, m) {
      assert Within(e, m)(h[i].runs);
    }
    hide AheadAtMost;
  }

  lemma {:induction false} NoAnswerNeeded(log: seq<Revision>, plan: Plan, m: Instant)
    requires log == [LateRevision(m)] && (plan.anchor.Some? ==> plan.anchor.value == m - SAFETY_OVERLAP)
    ensures IsAnswer(log, |log|, plan.anchor, [])
  {
    assert forall k: nat :: Latest(log, 1, k) ==> k == 0;
  }

  lemma {:induction false} ManualPlanned(e: Instant, m: Instant)
    ensures PlanFor(Explicit(m, Some(m), 0), Revised(e, m).runs, m, m) == Some(ManualPlan(m))
  {
  }

  lemma {:induction false} PlannedAfter(runs: seq<Run>, last: Run, m: Instant)
    requires LastSuccessOf(runs, SOURCE) == Some(last) && last.windowEnd == m
    ensures PlanFor(SinceLast(0, 0), runs, m + 1, m + 1) == Some(NextPlan(m))
  {
    hide LastSuccessOf;
  }

  lemma {:induction false} NextPlanned(e: Instant, m: Instant)
    requires Stored(m) == m && Stored(e) == e && e < m
    ensures PlanFor(SinceLast(0, 0), ManualDone(e, m).runs, m + 1, m + 1) == Some(NextPlan(m))
  {
    ManualEndsAt(e, m);
    hide *;
    LastIsManual(e, m);
    PlannedAfter(ManualDone(e, m).runs, DoneBy(Revised(e, m), ManualPlan(m)), m);
  }

  lemma {:induction false} ManualEndsAt(e: Instant, m: Instant)
    requires Stored(m) == m
    ensures DoneBy(Revised(e, m), ManualPlan(m)).windowEnd == m
  {
    DoneIs(Revised(e, m), ManualPlan(m));
    hide DoneBy, Revised;
  }

  /**
   * What the history ends with: the late revision lost, and the instant e missed if m is more than the overlap later.
   */
  lemma {:induction false} EndLoses(e: Instant, m: Instant)
    requires Stored(e) == e && Stored(m) == m && !Reaches(m, e)
    ensures Lost(End(e, m), 0)
    ensures e + SAFETY_OVERLAP < m ==> Missed(End(e, m).runs, e)
  {
    TheTables(e, m);
    FloorWidens(m - SAFETY_OVERLAP);
    FloorWidens(FirstStart(e, m));
    StoredNearby(m);
    DoneIs(Begin(e), FirstPlan(e, m));
    DoneIs(Revised(e, m), ManualPlan(m));
    DoneIs(ManualDone(e, m), NextPlan(m));
    var r1, r2 := DoneBy(Begin(e), FirstPlan(e, m)), DoneBy(Revised(e, m), ManualPlan(m));
    var r3 := DoneBy(ManualDone(e, m), NextPlan(m));
    var s := End(e, m);
    assert s.log == [LateRevision(m)] && s.table == [];
    hide DoneBy, FloorSecond;
    assert Cycle(s.runs, r1) && Cycle(s.runs, r3);
    assert forall r :: r in s.runs ==> r in {r1, r2, r3};
    assert Stored(FirstStart(e, m)) <= e;
  }

  // ---------------------------------------------------------------------------
  // The exact limits
  // ---------------------------------------------------------------------------

  /**
   * While the cycles have got to e, may a success of another mode end at m? Exactly when the anchor it gives the next
   * cycle, rendered in whole seconds, lies at least the overlap before e; otherwise there is a history in which it, and
   * nothing else, loses a revision. (A run ends on a stored instant.)
   */
  lemma {:induction false} LosesExactly(e: Instant, m: Instant)
    requires Stored(e) == e && Stored(m) == m
    ensures (exists h: seq<State>, steps: seq<Step>, k: nat :: Loses(h, steps, k, e, m)) <==> !Reaches(m, e)
  {
    if Reaches(m, e) {
      forall h, steps, k: nat ensures !Loses(h, steps, k, e, m) {
        if Loses(h, steps, k, e, m) { NothingLost(h, steps, k, e, m); }
      }
    } else {
      ReachEnd(e, m);
      var h, steps :| Execution(h, steps) && NoPaging(steps) && AllGood(h, Within(e, m)) && h[|h| - 1] == End(e, m);
      GoodIsAhead(h, steps, e, m);
      EndLoses(e, m);
      assert Loses(h, steps, 0, e, m);
    }
  }

  /**
   * And it leaves an instant between the cycles uncollected, in some history, exactly when it ends past e by more than
   * the overlap.
   */
  lemma {:induction false} MissesExactly(e: Instant, m: Instant)
    requires Stored(e) == e && Stored(m) == m
    ensures e + SAFETY_OVERLAP < m <==> exists h: seq<State>, steps: seq<Step>, u: Instant :: Misses(h, steps, u, e, m)
  {
    if m - SAFETY_OVERLAP <= e {
      forall h, steps, u ensures !Misses(h, steps, u, e, m) {
        if Execution(h, steps) && HistoryAhead(h, e, m) { NothingMissed(h, steps, u, e, m); }
      }
    } else {
      EndingByACycleReaches(m, e);
      ReachEnd(e, m);
      var h, steps :| Execution(h, steps) && NoPaging(steps) && AllGood(h, Within(e, m)) && h[|h| - 1] == End(e, m);
      GoodIsAhead(h, steps, e, m);
      EndLoses(e, m);
      assert Misses(h, steps, e, e, m);
    }
  }
}
