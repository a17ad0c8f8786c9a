/**
 * What the ingestion protocol promises about the source: no revision is lost, and the chain of cycles leaves no gap.
 */
module NoLostRevision {
  import opened Prelude
  import opened Runs
  import opened Earthquakes
  import opened Collect
  import opened Protocol
  import opened Safety
  import Coverage

  /** A successful incremental cycle. */
  ghost predicate Cycle(runs: seq<Run>, r: Run) {
    Succeeded(runs, r) && r.mode == Incremental
  }

  /**
   * A success may pull the next anchor back from `end` without losing anything, if some cycle ended at `cycle`: a
   * revision older than the rendered anchor was visible by then.
   */
  predicate Reaches(end: Instant, cycle: Instant) {
    FloorSecond(end - SAFETY_OVERLAP) + SAFETY_OVERLAP <= cycle
  }

  ghost predicate HasCycle(runs: seq<Run>) {
    exists c :: Cycle(runs, c)
  }

  ghost predicate CycleReaches(runs: seq<Run>, end: Instant) {
    exists r :: Cycle(runs, r) && Reaches(end, r.windowEnd)
  }

  /** Once there are cycles, no success of any mode ends further past all of them than that. */
  ghost predicate Tame(runs: seq<Run>) {
    HasCycle(runs) ==>
      forall q {:trigger CycleReaches(runs, q.windowEnd)} :: Succeeded(runs, q) ==> CycleReaches(runs, q.windowEnd)
  }

  ghost predicate TameUpTo(h: seq<State>, n: nat)
    requires n < |h|
  {
    forall m :: 0 <= m <= n ==> Tame(h[m].runs)
  }

  ghost predicate AllIncremental(runs: seq<Run>) {
    forall r :: Succeeded(runs, r) ==> r.mode == Incremental
  }

  lemma {:induction false} FloorKeepsOrder(a: Instant, b: Instant)
    requires a <= b
    ensures FloorSecond(a) <= FloorSecond(b)
  {
    var i, j := a / 1_000_000_000, b / 1_000_000_000;
    assert FloorSecond(a) == 1_000_000_000 * i && FloorSecond(b) == 1_000_000_000 * j;
  }

  /** What an operator can see to beforehand: a window that ends no later than some cycle does no harm. */
  lemma {:induction false} EndingByACycleReaches(end: Instant, cycle: Instant)
    ensures end <= cycle ==> Reaches(end, cycle)
    ensures Reaches(end, cycle) ==> end - SAFETY_OVERLAP <= cycle
  {
    FloorWidens(end - SAFETY_OVERLAP);
    var t := end - SAFETY_OVERLAP;
    assert t < FloorSecond(t) + 1_000_000_000;
  }

  lemma {:induction false} ReachesLess(end: Instant, cycle: Instant, sooner: Instant, later: Instant)
    requires Reaches(end, cycle) && sooner <= end && cycle <= later
    ensures Reaches(sooner, later)
  {
    FloorKeepsOrder(sooner - SAFETY_OVERLAP, end - SAFETY_OVERLAP);
  }

  lemma {:induction false} AllIncrementalIsTame(runs: seq<Run>)
    requires AllIncremental(runs)
    ensures Tame(runs)
  {
    forall q | Succeeded(runs, q) ensures CycleReaches(runs, q.windowEnd) {
      EndingByACycleReaches(q.windowEnd, q.windowEnd);
      assert Cycle(runs, q);
    }
  }

  /** Some cycle asked for changes since before the revision, and some cycle ended after it was visible. */
  ghost predicate Due(rev: Revision, runs: seq<Run>) {
    && (exists r :: Cycle(runs, r) && FloorSecond(r.windowStart) < rev.updated)
    && (exists r :: Cycle(runs, r) && rev.visible <= r.windowEnd)
  }

  /** Revision k is what the source now shows of its event, and Save can store it. */
  ghost predicate Showing(s: State, k: nat) {
    Latest(s.log, |s.log|, k) && Storable(s.log[k].feature)
  }

  /** Every due revision that the source still shows is what the store says about its event. */
  ghost predicate Captured(s: State) {
    forall k: nat :: Showing(s, k) && Due(s.log[k], s.runs) ==> Says(s.table, s.log[k])
  }

  lemma {:induction false} FloorWidens(t: Instant)
    ensures FloorSecond(t) <= t && FloorSecond(Stored(t)) == FloorSecond(t)
  {
    var micros, seconds := t / 1000, t / 1_000_000_000;
    assert 1000 * micros <= t < 1000 * micros + 1000;
    assert 1_000_000_000 * seconds <= t < 1_000_000_000 * seconds + 1_000_000_000;
    SecondIs(1000 * micros, seconds);
  }

  lemma {:induction false} SecondIs(t: Instant, seconds: int)
    requires 1_000_000_000 * seconds <= t < 1_000_000_000 * seconds + 1_000_000_000
    ensures t / 1_000_000_000 == seconds
  {
  }

  // ---------------------------------------------------------------------------
  // Steps that end no run in success
  // ---------------------------------------------------------------------------

  /** No step but FinishRun makes a success, and a success stays. */
  lemma {:induction false} SuccessesStep(s: State, e: Step, t: State)
    requires Inv(s) && Next(s, e, t)
    ensures forall r :: Succeeded(s.runs, r) ==> Succeeded(t.runs, r)
    ensures !e.FinishRun? ==> forall r :: Succeeded(t.runs, r) ==> Succeeded(s.runs, r)
  {
    if e.FailRun? {
      FailedStep(s, e.p, e.cause, e.counts, t);
    } else if e.FinishRun? {
      var row := NewSuccess(s, e.p, t);
    } else {
      OtherStep(s, e, t);
    }
    hide *;
  }

  /** Steps that close no run append at most a row that is not a success. */
  lemma {:induction false} OtherStep(s: State, e: Step, t: State)
    requires Next(s, e, t) && !e.FailRun? && !e.FinishRun?
    ensures forall r :: Succeeded(t.runs, r) <==> Succeeded(s.runs, r)
  {
    assert t.runs == s.runs || (exists row :: t.runs == s.runs + [row] && row.result != Success) by {
      if e.BeginRun? && t.runs != s.runs {
        var pc := s.procs[e.p];
        var row := Opened(Runs.NextId(s.runs), SOURCE, pc.plan.mode, pc.plan.windowStart, pc.plan.windowEnd, s.clock);
        assert t.runs == s.runs + [row] && row.result == Running;
      }
      if e.SkipCycle? {
        var row := SkippedRow(Runs.NextId(s.runs), SOURCE, Incremental, e.read, e.read, e.reason, s.clock);
        assert t.runs == s.runs + [row] && row.result == Skipped;
      }
    }
  }

  lemma {:induction false} FailedStep(s: State, p: Pid, cause: string, counts: Counts, t: State)
    requires Inv(s) && Next(s, FailRun(p, cause, counts), t)
    ensures forall r :: Succeeded(t.runs, r) <==> Succeeded(s.runs, r)
  {
    var pc := s.procs[p];
    assert PcOk(s, pc);
    var row :| row in s.runs && OpenFor(row, pc.runId, pc.plan);
    CloseRun(s.runs, pc.runId, Failure, counts, Some(cause), s.clock, row);
  }

  /** The one success FinishRun adds, and the run it closes. */
  lemma {:induction false} NewSuccess(s: State, p: Pid, t: State) returns (row: Run)
    requires Inv(s) && Next(s, FinishRun(p), t)
    ensures row in s.runs && OpenFor(row, s.procs[p].runId, s.procs[p].plan)
    ensures var done := ClosedRow(row, Success, s.procs[p].walk.counts, None, s.clock);
      && done.mode == row.mode && done.windowStart == row.windowStart && done.windowEnd == row.windowEnd
      && Succeeded(t.runs, done)
      && forall r :: Succeeded(t.runs, r) <==> Succeeded(s.runs, r) || r == done
  {
    var pc := s.procs[p];
    assert PcOk(s, pc);
    row :| row in s.runs && OpenFor(row, pc.runId, pc.plan);
    CloseRun(s.runs, pc.runId, Success, pc.walk.counts, None, s.clock, row);
  }

  lemma {:induction false} DueEarlier(s: State, t: State, rev: Revision)
    requires forall r :: Cycle(t.runs, r) ==> Cycle(s.runs, r)
    requires Due(rev, t.runs)
    ensures Due(rev, s.runs)
  {
    var r :| Cycle(t.runs, r) && FloorSecond(r.windowStart) < rev.updated;
    assert Cycle(s.runs, r);
    var q :| Cycle(t.runs, q) && rev.visible <= q.windowEnd;
    assert Cycle(s.runs, q);
  }

  lemma {:induction false} CapturedStays(s: State, t: State)
    requires Captured(s) && t.log == s.log && t.table == s.table
    requires forall r :: Cycle(t.runs, r) ==> Cycle(s.runs, r)
    ensures Captured(t)
  {
    forall k: nat | Showing(t, k) && Due(t.log[k], t.runs) ensures Says(t.table, t.log[k]) {
      assert Showing(s, k);
      DueEarlier(s, t, t.log[k]);
    }
  }

  /** A revision that has just become visible is not due: every cycle ended before now. */
  lemma {:induction false} PublishCaptured(s: State, t: State, rev: Revision)
    requires Inv(s) && Captured(s) && Next(s, Publish(rev), t)
    ensures Captured(t)
  {
    forall k: nat | Showing(t, k) && Due(t.log[k], t.runs) ensures Says(t.table, t.log[k]) {
      if k < |s.log| {
        assert forall m :: 0 <= m < |s.log| ==> t.log[m] == s.log[m];
        assert Latest(s.log, |s.log|, k);
        assert Showing(s, k);
      }
    }
  }

  // ---------------------------------------------------------------------------
  // The walk in progress
  // ---------------------------------------------------------------------------

  /** A due revision was visible when the walk in progress made its first request. */
  lemma {:induction false} DueBeforeWalk(s: State, plan: Plan, now: Instant, w: Walk, k: nat)
    requires WalkOk(s, plan, now, w) && k < |s.log|
    requires exists r :: Succeeded(s.runs, r) && s.log[k].visible <= r.windowEnd
    ensures k < w.upTo
  {
    var r :| Succeeded(s.runs, r) && s.log[k].visible <= r.windowEnd;
    assert r.windowEnd < w.fetchedAt;
  }

  /**
   * Writing a stale answer never overwrites a due revision: whatever the walk carries about its event is that
   * revision.
   */
  lemma {:induction false} InsertCaptured(s: State, t: State, p: Pid)
    requires Inv(s) && Captured(s) && Next(s, Insert(p), t)
    ensures Captured(t)
  {
    var pc := s.procs[p];
    assert PcOk(s, pc);
    CacheIsCurrent(s, pc);
    InsertTable(s, t, p);
    forall k: nat | Showing(t, k) && Due(t.log[k], t.runs) ensures Says(t.table, t.log[k]) {
      assert Showing(s, k) && Says(s.table, s.log[k]);
      InsertKeepsSaying(s, pc.plan, pc.now, pc.walk, pc.record, t.table, k);
    }
    hide *;
  }

  lemma {:induction false} InsertKeepsSaying(s: State, plan: Plan, now: Instant, w: Walk, n: Record,
      table: seq<Version>, k: nat)
    requires LogOk(s) && WalkOk(s, plan, now, w) && CacheOk(s, w, n, Current(s.table, RecordKey(n)))
    requires table == s.table + [NewRow(s.table, n, s.clock)] && ValidTable(table)
    requires Showing(s, k) && Due(s.log[k], s.runs) && Says(s.table, s.log[k])
    ensures Says(table, s.log[k])
  {
    var q := w.answer[w.done];
    if s.log[k].id == s.log[q].id {
      var r :| Cycle(s.runs, r) && s.log[k].visible <= r.windowEnd;
      DueBeforeWalk(s, plan, now, w, k);
      assert k <= q;
    }
    InsertSays(s, plan, now, w, n, table, s.log[k]);
  }

  /** Feature k still stands beyond what the walk has asked for. */
  ghost predicate ToCome(w: Walk, k: nat) {
    exists i :: |w.answer| <= i < |w.list| && w.list[i] == k
  }

  /** Every revision the first request could have listed, and the source still shows, was delivered or is to come. */
  ghost predicate InReach(log: seq<Revision>, anchor: Instant, w: Walk) {
    forall k: nat :: k < w.upTo && Latest(log, |log|, k) && FloorSecond(anchor) < log[k].updated ==>
      k in w.answer || ToCome(w, k)
  }

  ghost predicate WalkInReach(s: State, p: Pid) {
    At(s, p) && (s.procs[p].Walking? || s.procs[p].Deciding?) && s.procs[p].plan.anchor.Some? ==>
      InReach(s.log, s.procs[p].plan.anchor.value, s.procs[p].walk)
  }

  ghost predicate AllInReach(s: State) {
    forall p :: WalkInReach(s, p)
  }

  /**
   * Between two requests the source's list may change in any way, but nothing that was still to come moves in front of
   * what has been asked for, less `slip` places.
   */
  ghost predicate CrossesAtMost(slip: nat, asked: nat, before: seq<nat>, after: seq<nat>) {
    forall i, j :: asked <= i < |before| && 0 <= j < asked - slip && j < |after| ==> after[j] != before[i]
  }

  ghost predicate StepCrosses(slip: nat, s: State, e: Step) {
    e.FetchNext? && At(s, e.p) && s.procs[e.p].Walking? ==>
      CrossesAtMost(slip, |s.procs[e.p].walk.answer|, s.procs[e.p].walk.list, e.list)
  }

  ghost predicate Slips(slip: nat, h: seq<State>, steps: seq<Step>, n: nat)
    requires n < |h| == |steps| + 1
  {
    forall i :: 0 <= i < n ==> StepCrosses(slip, h[i], steps[i])
  }

  /** In the first n steps nothing that was still to come has slipped past a page boundary. */
  ghost predicate Steady(h: seq<State>, steps: seq<Step>, n: nat)
    requires n < |h| == |steps| + 1
  {
    Slips(0, h, steps, n)
  }

  lemma {:induction false} PageInReach(s: State, anchor: Instant, w: Walk, list: seq<nat>)
    requires IsAnswer(s.log, |s.log|, Some(anchor), list)
    requires w.upTo <= |s.log| && CrossesAtMost(0, |w.answer|, w.list, list)
    requires w.answer == [] || InReach(s.log, anchor, w)
    ensures InReach(s.log, anchor, NextPage(s.log, w, list))
  {
    var page := Page(list, |w.answer| + 1, w.size);
    var next := NextPage(s.log, w, list);
    forall k: nat | k < w.upTo && Latest(s.log, |s.log|, k) && FloorSecond(anchor) < s.log[k].updated
      ensures k in next.answer || ToCome(next, k)
    {
      var j :| 0 <= j < |list| && list[j] == k;
      if k in w.answer {
        assert k in next.answer;
      } else {
        assert |w.answer| <= j;
        if j < |next.answer| {
          assert next.answer[j] == page[j - |w.answer|] == k;
        } else {
          assert ToCome(next, k);
        }
      }
    }
  }

  /** The log growing takes nothing out of reach. */
  lemma {:induction false} InReachStays(log: seq<Revision>, longer: seq<Revision>, anchor: Instant, w: Walk, v: Walk)
    requires InReach(log, anchor, w) && log <= longer && w.upTo <= |log|
    requires v.upTo == w.upTo && v.answer == w.answer && v.list == w.list
    ensures InReach(longer, anchor, v)
  {
    forall k: nat | k < v.upTo && Latest(longer, |longer|, k) && FloorSecond(anchor) < longer[k].updated
      ensures k in v.answer || ToCome(v, k)
    {
      assert Latest(log, |log|, k);
      assert ToCome(w, k) ==> ToCome(v, k);
    }
  }

  /** A complete walk that nothing slipped past has every revision it was asked for in the store. */
  lemma {:induction false} WalkCaptures(s: State, plan: Plan, now: Instant, w: Walk, k: nat)
    requires WalkOk(s, plan, now, w) && Complete(w) && plan.anchor.Some? && InReach(s.log, plan.anchor.value, w)
    requires Showing(s, k) && FloorSecond(plan.anchor.value) < s.log[k].updated && s.log[k].visible < w.fetchedAt
    ensures k in w.answer && Says(s.table, s.log[k])
  {
    assert k < w.upTo;
    assert !ToCome(w, k);
    var j :| 0 <= j < |w.answer| && w.answer[j] == k;
    LastDelivery(s, w, k, j);
  }

  /** What the store says of an event the walk delivered is the last it delivered of it. */
  lemma {:induction false} LastDelivery(s: State, w: Walk, k: nat, j: nat)
    requires InOrder(s.log, w.upTo, w.answer) && HandledOk(s, w.answer, |w.answer|)
    requires Showing(s, k) && j < |w.answer| && w.answer[j] == k
    ensures Says(s.table, s.log[k])
    decreases |w.answer| - j
  {
    if !LastWord(s.log, w.answer, |w.answer|, j) {
      var i :| j < i < |w.answer| && Storable(s.log[w.answer[i]].feature) && s.log[w.answer[i]].id == s.log[k].id;
      assert w.answer[i] == k;
      LastDelivery(s, w, k, i);
    }
  }

  /** A revision older than the anchor was visible before the cycle the anchor reaches back behind had ended. */
  lemma {:induction false} OlderThanAnchor(s: State, anchor: Instant, rev: Revision)
    requires WellFormedRevision(rev) && AnchorBehind(s.runs, anchor) && rev.updated <= FloorSecond(anchor)
    requires Tame(s.runs) && exists r :: Cycle(s.runs, r) && FloorSecond(r.windowStart) < rev.updated
    ensures Due(rev, s.runs)
  {
    var c :| Cycle(s.runs, c) && FloorSecond(c.windowStart) < rev.updated;
    assert HasCycle(s.runs) && Succeeded(s.runs, c);
    var q :| Succeeded(s.runs, q) && anchor + SAFETY_OVERLAP <= q.windowEnd;
    assert CycleReaches(s.runs, q.windowEnd);
    FloorKeepsOrder(anchor, q.windowEnd - SAFETY_OVERLAP);
    var r :| Cycle(s.runs, r) && Reaches(q.windowEnd, r.windowEnd);
    assert rev.visible <= r.windowEnd;
  }

  /** A cycle that completes: what its own walk asked for it has, and the rest was captured before. */
  lemma {:induction false} CycleCaptured(s: State, t: State, p: Pid)
    requires Inv(s) && Captured(s) && Next(s, FinishRun(p), t) && Tame(s.runs) && WalkInReach(s, p)
    requires s.procs[p].plan.mode == Incremental
    ensures Captured(t)
  {
    var pc := s.procs[p];
    assert PcOk(s, pc);
    var row := NewSuccess(s, p, t);
    var done := ClosedRow(row, Success, pc.walk.counts, None, s.clock);
    FloorWidens(pc.plan.anchor.value);
    forall k: nat | Showing(t, k) && Due(t.log[k], t.runs) ensures Says(t.table, t.log[k]) {
      assert Showing(s, k);
      DueInTime(s, t, pc, done, k);
      if FloorSecond(pc.plan.anchor.value) < s.log[k].updated {
        WalkCaptures(s, pc.plan, pc.now, pc.walk, k);
      } else {
        OlderThanAnchor(s, pc.plan.anchor.value, s.log[k]);
      }
    }
  }

  /** A revision due after the cycle: visible before its request, and either it asked for it or an older cycle had. */
  lemma {:induction false} DueInTime(s: State, t: State, pc: Pc, done: Run, k: nat)
    requires pc.Walking? && WalkOk(s, pc.plan, pc.now, pc.walk) && PlanOk(s, pc.plan, pc.now) && pc.plan.anchor.Some?
    requires k < |s.log| && Due(s.log[k], t.runs)
    requires forall r :: Succeeded(t.runs, r) <==> Succeeded(s.runs, r) || r == done
    requires done.windowStart == Stored(pc.plan.windowStart) && done.windowEnd == Stored(pc.plan.windowEnd)
    ensures s.log[k].visible < pc.walk.fetchedAt
    ensures s.log[k].updated <= FloorSecond(pc.plan.anchor.value) ==>
      exists r :: Cycle(s.runs, r) && FloorSecond(r.windowStart) < s.log[k].updated
  {
    var q :| Cycle(t.runs, q) && s.log[k].visible <= q.windowEnd;
    assert q == done || q.windowEnd < pc.walk.fetchedAt;
    var r :| Cycle(t.runs, r) && FloorSecond(r.windowStart) < s.log[k].updated;
    FloorWidens(pc.plan.anchor.value);
    assert r != done ==> Cycle(s.runs, r);
  }

  lemma {:induction false} FinishCaptured(s: State, t: State, p: Pid)
    requires Inv(s) && Captured(s) && Next(s, FinishRun(p), t) && Tame(s.runs) && WalkInReach(s, p)
    ensures Captured(t)
  {
    if s.procs[p].plan.mode == Incremental {
      CycleCaptured(s, t, p);
    } else {
      var row := NewSuccess(s, p, t);
      CapturedStays(s, t);
    }
  }

  lemma {:induction false} CapturedStep(s: State, e: Step, t: State)
    requires Inv(s) && Captured(s) && Next(s, e, t) && Tame(s.runs) && AllInReach(s)
    ensures Captured(t)
  {
    if e.Publish? {
      PublishCaptured(s, t, e.rev);
    } else if e.Insert? {
      InsertCaptured(s, t, e.p);
    } else if e.FinishRun? {
      assert WalkInReach(s, e.p);
      FinishCaptured(s, t, e.p);
    } else {
      SuccessesStep(s, e, t);
      CapturedStays(s, t);
    }
  }

  /** The first page of a walk delivers from the front of the list. */
  lemma {:induction false} FirstInReach(s: State, pc: Pc, list: seq<nat>)
    requires pc.Begun? && pc.plan.anchor.Some? && IsAnswer(s.log, |s.log|, pc.plan.anchor, list)
    ensures InReach(s.log, pc.plan.anchor.value, AfterFirst(s, pc, list).walk)
  {
    PageInReach(s, pc.plan.anchor.value, Walk(pc.size, list, |s.log|, |s.log|, s.clock, [], 0, false, NO_COUNTS), list);
    hide InReach, NextPage;
  }

  /** Process p is where it was in its walk, as far as delivering goes. */
  ghost predicate SameReach(s: State, t: State, p: Pid) {
    At(t, p) && (t.procs[p].Walking? || t.procs[p].Deciding?) ==>
      && At(s, p) && (s.procs[p].Walking? || s.procs[p].Deciding?) && t.procs[p].plan == s.procs[p].plan
      && t.procs[p].walk.answer == s.procs[p].walk.answer && t.procs[p].walk.list == s.procs[p].walk.list
      && t.procs[p].walk.upTo == s.procs[p].walk.upTo
  }

  lemma {:induction false} ReachStays(s: State, t: State, p: Pid)
    requires ProcsOk(s) && s.log <= t.log && SameReach(s, t, p) && WalkInReach(s, p)
    ensures WalkInReach(t, p)
  {
    if At(t, p) && (t.procs[p].Walking? || t.procs[p].Deciding?) && t.procs[p].plan.anchor.Some? {
      assert PcOk(s, s.procs[p]);
      InReachStays(s.log, t.log, t.procs[p].plan.anchor.value, s.procs[p].walk, t.procs[p].walk);
    }
  }

  lemma {:induction false} OthersKeepReach(s: State, e: Step, t: State, p: Pid)
    requires Next(s, e, t) && !((e.FetchFirst? || e.FetchNext?) && e.p == p)
    ensures s.log <= t.log && SameReach(s, t, p)
  {
    hide IsAnswer, PlanFor, Closed, NewRow, StampTaken, PageSize, Admissible, AlreadySaid, WellFormedRevision, RecordAt,
      FeatureAt;
  }

  lemma {:induction false} FetchKeepsReach(s: State, e: Step, t: State, p: Pid)
    requires Inv(s) && WalkInReach(s, p) && Next(s, e, t) && StepCrosses(0, s, e)
    requires (e.FetchFirst? || e.FetchNext?) && e.p == p
    ensures WalkInReach(t, p)
  {
    var pc := s.procs[p];
    assert PcOk(s, pc);
    if pc.plan.anchor.Some? {
      if e.FetchFirst? {
        FirstInReach(s, pc, e.list);
      } else {
        PageInReach(s, pc.plan.anchor.value, pc.walk, e.list);
      }
    }
    hide InReach, NextPage, IsAnswer, CrossesAtMost, Inv, PcOk;
  }

  /** A walk goes on from its own state; every other step leaves what it may still deliver. */
  lemma {:induction false} InReachStep(s: State, e: Step, t: State)
    requires Inv(s) && AllInReach(s) && Next(s, e, t) && StepCrosses(0, s, e)
    ensures AllInReach(t)
  {
    hide Next, WalkInReach, StepCrosses, SameReach, PcOk, LogOk, TableOk, RunsOk, ProcsOk;
    forall p ensures WalkInReach(t, p) {
      assert WalkInReach(s, p);
      if (e.FetchFirst? || e.FetchNext?) && e.p == p {
        FetchKeepsReach(s, e, t, p);
      } else {
        OthersKeepReach(s, e, t, p);
        ReachStays(s, t, p);
      }
    }
  }

  lemma {:induction false} InReachAlways(h: seq<State>, steps: seq<Step>, n: nat)
    requires Execution(h, steps) && n < |h| == |steps| + 1 && Steady(h, steps, n)
    ensures AllInReach(h[n])
  {
    hide *;
    if n == 0 {
      NobodyYet(h, steps);
    } else {
      SteadyBefore(h, steps, n);
      StepAt(h, steps, n - 1);
      InReachAlways(h, steps, n - 1);
      InReachStep(h[n - 1], steps[n - 1], h[n]);
    }
  }

  lemma {:induction false} NobodyYet(h: seq<State>, steps: seq<Step>)
    requires Execution(h, steps)
    ensures AllInReach(h[0])
  {
  }

  lemma {:induction false} SteadyBefore(h: seq<State>, steps: seq<Step>, n: nat)
    requires 0 < n < |h| == |steps| + 1 && Steady(h, steps, n)
    ensures Steady(h, steps, n - 1) && StepCrosses(0, h[n - 1], steps[n - 1])
  {
    hide StepCrosses;
  }

  lemma {:induction false} CapturedAlways(h: seq<State>, steps: seq<Step>, n: nat)
    requires Execution(h, steps) && n < |h| == |steps| + 1 && TameUpTo(h, n) && Steady(h, steps, n)
    ensures Captured(h[n])
  {
    hide *;
    StartsEmpty(h, steps);
    if n == 0 {
      NothingDueYet(h, steps);
    } else {
      TameBefore(h, n);
      SteadyBefore(h, steps, n);
      StepAt(h, steps, n - 1);
      CapturedAlways(h, steps, n - 1);
      InReachAlways(h, steps, n - 1);
      CapturedStep(h[n - 1], steps[n - 1], h[n]);
    }
  }

  lemma {:induction false} TameBefore(h: seq<State>, n: nat)
    requires 0 < n < |h| && TameUpTo(h, n)
    ensures TameUpTo(h, n - 1) && Tame(h[n - 1].runs)
  {
  }

  lemma {:induction false} LinkedBefore(h: seq<State>, n: nat)
    requires 0 < n < |h| && LinkedUpTo(h, n)
    ensures LinkedUpTo(h, n - 1) && Linked(h[n - 1].runs)
  {
  }

  lemma {:induction false} NothingDueYet(h: seq<State>, steps: seq<Step>)
    requires Execution(h, steps)
    ensures Captured(h[0]) && Connected(h[0].runs)
  {
    StartsEmpty(h, steps);
    assert forall r :: !Cycle(h[0].runs, r);
  }

  lemma {:induction false} DueIsStored(h: seq<State>, steps: seq<Step>, n: nat, k: nat)
    requires Execution(h, steps) && n < |h| == |steps| + 1 && TameUpTo(h, n) && Steady(h, steps, n)
    requires Showing(h[n], k) && Due(h[n].log[k], h[n].runs)
    ensures Stores(h[n].table, h[n].log[k])
  {
    Invariant(h, steps, n);
    CapturedAlways(h, steps, n);
    assert Says(h[n].table, h[n].log[k]) && ValidTable(h[n].table);
    hide *;
    SaysMeans(h[n].table, h[n].log[k]);
  }

  /**
   * No lost revision. In every state of every history in which no success of another mode outran the cycles and nothing
   * slipped past a page boundary, an event the source revised after some cycle's anchor either has a current stored
   * version with the source's content, or was last revised visibly after every cycle's window ended.
   */
  lemma {:induction false} NoRevisionIsLost(h: seq<State>, steps: seq<Step>, n: nat, k: nat, first: Run)
    requires Execution(h, steps) && n < |h| == |steps| + 1 && TameUpTo(h, n) && Steady(h, steps, n)
    requires Showing(h[n], k) && Cycle(h[n].runs, first) && FloorSecond(first.windowStart) < h[n].log[k].updated
    ensures Stores(h[n].table, h[n].log[k]) || forall r :: Cycle(h[n].runs, r) ==> r.windowEnd < h[n].log[k].visible
  {
    if Due(h[n].log[k], h[n].runs) {
      DueIsStored(h, steps, n, k);
    }
    hide Stores;
  }

  lemma {:induction false} SuccessesStay(h: seq<State>, steps: seq<Step>, early: nat, late: nat, r: Run)
    requires Execution(h, steps) && early <= late < |h| && Succeeded(h[early].runs, r)
    ensures Succeeded(h[late].runs, r)
    decreases late
  {
    hide *;
    StartsEmpty(h, steps);
    if early < late {
      SuccessesStay(h, steps, early, late - 1, r);
      StepAt(h, steps, late - 1);
      SuccessesStep(h[late - 1], steps[late - 1], h[late]);
    }
  }

  lemma {:induction false} IncrementalHistoryIsTame(h: seq<State>, steps: seq<Step>, n: nat)
    requires Execution(h, steps) && n < |h| && AllIncremental(h[n].runs)
    ensures TameUpTo(h, n)
  {
    forall m | 0 <= m <= n ensures Tame(h[m].runs) {
      forall r | Succeeded(h[m].runs, r) ensures r.mode == Incremental {
        SuccessesStay(h, steps, m, n, r);
      }
      AllIncrementalIsTame(h[m].runs);
    }
  }

  /**
   * In particular, when every success is incremental: stored, or revised visibly after the last success's window end.
   */
  lemma {:induction false} IncrementalLosesNothing(h: seq<State>, steps: seq<Step>, n: nat, k: nat, first: Run)
    requires Execution(h, steps) && n < |h| == |steps| + 1 && AllIncremental(h[n].runs) && Steady(h, steps, n)
    requires Showing(h[n], k) && Succeeded(h[n].runs, first) && FloorSecond(first.windowStart) < h[n].log[k].updated
    ensures Stores(h[n].table, h[n].log[k])
      || (LastSuccessOf(h[n].runs, SOURCE).Some?
          && LastSuccessOf(h[n].runs, SOURCE).value.windowEnd < h[n].log[k].visible)
  {
    IncrementalHistoryIsTame(h, steps, n);
    assert Cycle(h[n].runs, first);
    NoRevisionIsLost(h, steps, n, k, first);
    var last := LastSuccessOf(h[n].runs, SOURCE);
    assert last.Some? && Cycle(h[n].runs, last.value);
  }

  // ---------------------------------------------------------------------------
  // The chain of windows
  // ---------------------------------------------------------------------------

  ghost predicate CoveredAt(runs: seq<Run>, u: Instant) {
    exists r :: Succeeded(runs, r) && r.windowStart <= u < r.windowEnd
  }

  ghost predicate CycleCoveredAt(runs: seq<Run>, u: Instant) {
    exists r :: Cycle(runs, r) && r.windowStart <= u < r.windowEnd
  }

  /** Between the start of any cycle and the end of any cycle there is no instant the cycles did not collect. */
  ghost predicate Connected(runs: seq<Run>) {
    forall u, r, q :: Cycle(runs, r) && Cycle(runs, q) && r.windowStart <= u < q.windowEnd ==> CycleCoveredAt(runs, u)
  }

  ghost predicate CycleLinks(runs: seq<Run>, end: Instant) {
    exists r :: Cycle(runs, r) && end - SAFETY_OVERLAP <= r.windowEnd
  }

  /** Once there are cycles, no success ends past all of them by more than the overlap. */
  ghost predicate Linked(runs: seq<Run>) {
    HasCycle(runs) ==>
      forall q {:trigger CycleLinks(runs, q.windowEnd)} :: Succeeded(runs, q) ==> CycleLinks(runs, q.windowEnd)
  }

  ghost predicate LinkedUpTo(h: seq<State>, n: nat)
    requires n < |h|
  {
    forall m :: 0 <= m <= n ==> Linked(h[m].runs)
  }

  lemma {:induction false} TameIsLinked(runs: seq<Run>)
    requires Tame(runs)
    ensures Linked(runs)
  {
    forall q | HasCycle(runs) && Succeeded(runs, q) ensures CycleLinks(runs, q.windowEnd) {
      assert CycleReaches(runs, q.windowEnd);
      var r :| Cycle(runs, r) && Reaches(q.windowEnd, r.windowEnd);
      EndingByACycleReaches(q.windowEnd, r.windowEnd);
    }
  }

  lemma {:induction false} CoveredStays(before: seq<Run>, after: seq<Run>, u: Instant)
    requires forall r :: Succeeded(before, r) ==> Succeeded(after, r)
    requires CycleCoveredAt(before, u)
    ensures CycleCoveredAt(after, u)
  {
    var r :| Cycle(before, r) && r.windowStart <= u < r.windowEnd;
    assert Cycle(after, r);
  }

  lemma {:induction false} ConnectedStays(before: seq<Run>, after: seq<Run>)
    requires Connected(before) && forall r :: Succeeded(before, r) ==> Succeeded(after, r)
    requires forall r :: Cycle(after, r) ==> Cycle(before, r)
    ensures Connected(after)
  {
    forall u, r, q | Cycle(after, r) && Cycle(after, q) && r.windowStart <= u < q.windowEnd
      ensures CycleCoveredAt(after, u)
    {
      assert Cycle(before, r) && Cycle(before, q);
      CoveredStays(before, after, u);
    }
  }

  lemma {:induction false} CycleConnected(s: State, t: State, p: Pid)
    requires Inv(s) && Connected(s.runs) && Next(s, FinishRun(p), t) && Linked(s.runs)
    requires s.procs[p].plan.mode == Incremental
    ensures Connected(t.runs)
  {
    var pc := s.procs[p];
    assert PcOk(s, pc);
    var row := NewSuccess(s, p, t);
    var done := ClosedRow(row, Success, pc.walk.counts, None, s.clock);
    forall u, r, q | Cycle(t.runs, r) && Cycle(t.runs, q) && r.windowStart <= u < q.windowEnd
      ensures CycleCoveredAt(t.runs, u)
    {
      assert (r == done || Cycle(s.runs, r)) && (q == done || Cycle(s.runs, q));
      ExtendsChain(s, pc.plan, done, r, q, u);
      if done.windowStart <= u < done.windowEnd {
        assert Cycle(t.runs, done);
      } else {
        CoveredStays(s.runs, t.runs, u);
      }
    }
  }

  /** The new window starts behind an end of the chain and ends after every end of it. */
  lemma {:induction false} ExtendsChain(s: State, plan: Plan, done: Run, r: Run, q: Run, u: Instant)
    requires RunsOk(s) && Connected(s.runs) && plan.anchor.Some? && AnchorBehind(s.runs, plan.anchor.value)
    requires EndedBefore(s.runs, plan.windowEnd) && Linked(s.runs)
    requires done.windowStart == Stored(plan.anchor.value) && done.windowEnd == Stored(plan.windowEnd)
    requires (Cycle(s.runs, r) || r == done) && (Cycle(s.runs, q) || q == done)
    requires r.windowStart <= u < q.windowEnd
    ensures done.windowStart <= u < done.windowEnd || CycleCoveredAt(s.runs, u)
  {
    if q != done {
      assert Succeeded(s.runs, q);
      StoredKeepsOrder(q.windowEnd, plan.windowEnd);
    }
    if !(done.windowStart <= u < done.windowEnd) && r != done {
      assert Succeeded(s.runs, r);
      var x :| Succeeded(s.runs, x) && plan.anchor.value + SAFETY_OVERLAP <= x.windowEnd;
      assert HasCycle(s.runs) && CycleLinks(s.runs, x.windowEnd);
      var c :| Cycle(s.runs, c) && x.windowEnd - SAFETY_OVERLAP <= c.windowEnd;
      assert q == done ==> u < c.windowEnd;
    }
  }

  lemma {:induction false} ConnectedStep(s: State, e: Step, t: State)
    requires Inv(s) && Connected(s.runs) && Next(s, e, t) && Linked(s.runs)
    ensures Connected(t.runs)
  {
    SuccessesStep(s, e, t);
    if e.FinishRun? && s.procs[e.p].plan.mode == Incremental {
      CycleConnected(s, t, e.p);
    } else {
      if e.FinishRun? {
        var row := NewSuccess(s, e.p, t);
      }
      ConnectedStays(s.runs, t.runs);
    }
  }

  lemma {:induction false} ConnectedAlways(h: seq<State>, steps: seq<Step>, n: nat)
    requires Execution(h, steps) && n < |h| && LinkedUpTo(h, n)
    ensures Connected(h[n].runs)
  {
    hide *;
    StartsEmpty(h, steps);
    if n == 0 {
      NothingDueYet(h, steps);
    } else {
      LinkedBefore(h, n);
      StepAt(h, steps, n - 1);
      ConnectedAlways(h, steps, n - 1);
      ConnectedStep(h[n - 1], steps[n - 1], h[n]);
    }
  }

  /**
   * No gap in the chain. In every history in which no success of another mode outran the cycles by more than the
   * overlap, whatever failed, was skipped or crashed in between, the coverage from the start of any cycle to the end of
   * any cycle is complete.
   */
  lemma {:induction false} ChainIsComplete(h: seq<State>, steps: seq<Step>, n: nat, first: Run, last: Run,
      gaps: seq<Coverage.Gap>)
    requires Execution(h, steps) && n < |h| && LinkedUpTo(h, n)
    requires Cycle(h[n].runs, first) && Cycle(h[n].runs, last) && first.windowStart < last.windowEnd
    requires Coverage.IsGapList(gaps, first.windowStart, last.windowEnd, Coverage.SuccessWindows(h[n].runs, SOURCE))
    ensures gaps == [] && Coverage.KindOf(gaps, first.windowStart, last.windowEnd) == Coverage.Complete
  {
    ConnectedAlways(h, steps, n);
    var windows := Coverage.SuccessWindows(h[n].runs, SOURCE);
    forall u | first.windowStart <= u < last.windowEnd ensures Coverage.Covered(windows, u) {
      assert CycleCoveredAt(h[n].runs, u);
      var r :| Cycle(h[n].runs, r) && r.windowStart <= u < r.windowEnd;
      assert CoveredAt(h[n].runs, u);
      CoveredInTable(h[n].runs, u);
    }
    Coverage.KindMeaning(gaps, first.windowStart, last.windowEnd, windows);
  }

  /** In particular, when every success is incremental. */
  lemma {:induction false} IncrementalChainIsComplete(h: seq<State>, steps: seq<Step>, n: nat, first: Run, last: Run,
      gaps: seq<Coverage.Gap>)
    requires Execution(h, steps) && n < |h| && AllIncremental(h[n].runs)
    requires Succeeded(h[n].runs, first) && Succeeded(h[n].runs, last) && first.windowStart < last.windowEnd
    requires Coverage.IsGapList(gaps, first.windowStart, last.windowEnd, Coverage.SuccessWindows(h[n].runs, SOURCE))
    ensures gaps == [] && Coverage.KindOf(gaps, first.windowStart, last.windowEnd) == Coverage.Complete
  {
    IncrementalHistoryIsTame(h, steps, n);
    forall m | 0 <= m <= n ensures Linked(h[m].runs) {
      TameIsLinked(h[m].runs);
    }
    assert Cycle(h[n].runs, first) && Cycle(h[n].runs, last);
    ChainIsComplete(h, steps, n, first, last, gaps);
  }

  lemma {:induction false} CoveredInTable(runs: seq<Run>, u: Instant)
    ensures CoveredAt(runs, u) <==> Coverage.Covered(Coverage.SuccessWindows(runs, SOURCE), u)
  {
    var windows := Coverage.SuccessWindows(runs, SOURCE);
    if CoveredAt(runs, u) {
      var r :| Succeeded(runs, r) && r.windowStart <= u < r.windowEnd;
      var i :| 0 <= i < |runs| && runs[i] == r;
      assert Coverage.Gap(r.windowStart, r.windowEnd) in windows;
    }
    if Coverage.Covered(windows, u) {
      var g :| g in windows && g.start <= u < g.end;
      var i :| 0 <= i < |runs| && IsSuccess(runs[i], SOURCE)
        && g == Coverage.Gap(runs[i].windowStart, runs[i].windowEnd);
      assert Succeeded(runs, runs[i]);
    }
  }

  /**
   * Where the anchor goes when a success of any mode comes last: past the latest end `reached` before it exactly when
   * it ends more than the overlap later.
   */
  lemma {:induction false} AnchorFollowsAnyMode(runs: seq<Run>, other: Run, now: Instant, fallback: int,
      reached: Instant)
    requires IsSuccess(other, SOURCE) && reached < other.windowEnd < now
    requires forall r :: Succeeded(runs, r) ==> r.windowEnd <= reached
    ensures Anchor(runs + [other], now, fallback) == other.windowEnd - SAFETY_OVERLAP
    ensures reached < Anchor(runs + [other], now, fallback) <==> reached + SAFETY_OVERLAP < other.windowEnd
  {
    var all := runs + [other];
    assert all[|runs|] == other;
    var last := LastSuccessOf(all, SOURCE);
    assert last.Some?;
    assert Succeeded(all, last.value);
    assert forall r :: Succeeded(all, r) ==> Succeeded(runs, r) || r == other;
  }
}
