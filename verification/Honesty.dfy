/** What the protocol promises about its own records: exclusion, no fake revision, and runs that mean what they say. */
module Honesty {
  import opened Prelude
  import opened Runs
  import opened Earthquakes
  import opened Collect
  import opened Protocol
  import opened Safety
  import opened NoLostRevision

  // ---------------------------------------------------------------------------
  // Exclusion, and what it is for
  // ---------------------------------------------------------------------------

  /** In every reachable state at most one process is past the lock, and it is the holder. */
  lemma {:induction false} MutualExclusion(h: seq<State>, steps: seq<Step>, n: nat, p: Pid, q: Pid)
    requires Execution(h, steps) && n < |h| && p in h[n].procs && q in h[n].procs
    ensures p == q && h[n].lock == Some(p)
  {
    Invariant(h, steps, n);
  }

  /** An unlock that went unanswered leaves the lock with its session: no other process can take it until that ends. */
  lemma {:induction false} UnansweredUnlockBlocks(s: State, p: Pid, t: State, q: Pid, job: Job, u: State)
    requires Inv(s) && Next(s, Release(p, false), t) && q != p
    ensures !Next(t, TryLock(q, job), u)
    ensures t.runs == s.runs && t.table == s.table && t.procs == map[]
  {
    assert forall r :: r in s.procs ==> r == p;
    hide Inv;
  }

  /** What a process read before deciding is still the current version when it decides, whatever happened in between. */
  lemma {:induction false} ReadStaysCurrent(h: seq<State>, steps: seq<Step>, n: nat, p: Pid)
    requires Execution(h, steps) && n < |h| && p in h[n].procs && h[n].procs[p].Deciding?
    ensures h[n].procs[p].cached == Current(h[n].table, RecordKey(h[n].procs[p].record))
  {
    Invariant(h, steps, n);
    assert PcOk(h[n], h[n].procs[p]);
  }

  /** So reading and inserting in two statements does what Save would have done in one. */
  lemma {:induction false} InsertIsSave(h: seq<State>, steps: seq<Step>, n: nat, p: Pid)
    requires Execution(h, steps) && n < |steps| && steps[n] == Insert(p)
    requires p in h[n].procs && h[n].procs[p].Deciding?
    ensures h[n + 1].table == SaveAt(h[n].table, h[n].procs[p].record, h[n].clock).0
  {
    hide *;
    StepAt(h, steps, n);
    InsertTable(h[n], h[n + 1], p);
  }

  /** In every reachable table two consecutive versions of one event differ: no revision revised nothing. */
  lemma {:induction false} NoRevisionIsFake(h: seq<State>, steps: seq<Step>, n: nat, i: nat, j: nat)
    requires Execution(h, steps) && n < |h|
    requires i < j < |h[n].table| && Key(h[n].table[i]) == Key(h[n].table[j])
    requires forall k :: i < k < j ==> Key(h[n].table[k]) != Key(h[n].table[j])
    ensures Differs(h[n].table[i].record.content, h[n].table[j].record.content)
  {
    Invariant(h, steps, n);
    ConsecutiveVersionsDiffer(h[n].table, i, j);
  }

  /** Two processes that have read the same current version of one event, each about to write the same content. */
  ghost predicate BothDeciding(s: State, p: Pid, q: Pid) {
    && p != q && At(s, p) && At(s, q) && s.procs[p].Deciding? && s.procs[q].Deciding?
    && var a, b := s.procs[p], s.procs[q];
    && RecordKey(a.record) == RecordKey(b.record) && a.record.content == b.record.content
    && a.cached == b.cached == Current(s.table, RecordKey(a.record))
  }

  /**
   * The lock is what this rests on: if two processes could be deciding at once, both inserts would go through, the
   * second a clock tick after the first, and leave a revision that revised nothing.
   */
  lemma {:induction false} WithoutExclusion(s: State, p: Pid, q: Pid, t: State, later: Instant, v: State, u: State)
    requires ValidTable(s.table) && NotAfter(s.table, s.clock) && BothDeciding(s, p, q)
    requires Next(s, Insert(p), t) && Next(t, Tick(later), v) && Next(v, Insert(q), u)
    ensures !Exclusive(s)
    ensures ValidTable(u.table) && |u.table| == |s.table| + 2 && !NoFakeRevision(u.table)
  {
    var a, b := s.procs[p].record, s.procs[q].record;
    CollidesMeansTaken(s.table, RecordKey(a), s.clock);
    InsertKeepsTable(s.table, a, s.clock);
    ClockOnlyGoesOn(t.table, s.clock, later);
    CurrentAppend(s.table, NewRow(s.table, a, s.clock), RecordKey(a));
    CollidesMeansTaken(t.table, RecordKey(b), later);
    InsertKeepsTable(t.table, b, later);
    assert u.table[..|t.table|] == t.table && u.table[|t.table|] == NewRow(t.table, b, later);
    NormalizedCompares(a.content, Normalized(b.content));
    NormalizedCompares(a.content, b.content);
    assert !Revises(u.table[..|t.table|], u.table[|t.table|]);
  }

  // ---------------------------------------------------------------------------
  // The life of a run
  // ---------------------------------------------------------------------------

  /** A row keeps its identity and window; only a running row changes, and only to success or failure. */
  predicate Progressed(x: Run, y: Run) {
    || y == x
    || (x.result == Running && y.result in {Success, Failure}
        && y == x.(finishedAt := y.finishedAt, result := y.result, counts := y.counts, error := y.error))
  }

  ghost predicate RunsProgress(before: seq<Run>, after: seq<Run>) {
    |before| <= |after| && forall i :: 0 <= i < |before| ==> Progressed(before[i], after[i])
  }

  /** Closing an open run moves its row to a terminal result and leaves every other row. */
  lemma {:induction false} ClosingProgresses(rows: seq<Run>, id: int, plan: Plan, result: Outcome, counts: Counts,
                                             error: Option<string>, now: Instant)
    requires WellFormed(rows) && HasOpen(rows, id, plan) && result in {Success, Failure}
    ensures RunsProgress(rows, Closed(rows, id, result, counts, error, now))
  {
    var r :| r in rows && OpenFor(r, id, plan);
    var k :| 0 <= k < |rows| && rows[k] == r;
    forall i | 0 <= i < |rows| ensures Progressed(rows[i], Closed(rows, id, result, counts, error, now)[i]) {
      assert rows[i].id == id ==> i == k;
    }
  }

  lemma {:induction false} RunsStep(s: State, e: Step, t: State)
    requires Inv(s) && Next(s, e, t)
    ensures RunsProgress(s.runs, t.runs)
  {
    if e.FailRun? || e.FinishRun? {
      var pc := s.procs[e.p];
      assert PcOk(s, pc);
      if e.FailRun? {
        ClosingProgresses(s.runs, pc.runId, pc.plan, Failure, e.counts, Some(e.cause), s.clock);
      } else {
        ClosingProgresses(s.runs, pc.runId, pc.plan, Success, pc.walk.counts, None, s.clock);
      }
    }
  }

  lemma {:induction false} ProgressTwice(a: seq<Run>, b: seq<Run>, c: seq<Run>)
    requires RunsProgress(a, b) && RunsProgress(b, c)
    ensures RunsProgress(a, c)
  {
    forall i | 0 <= i < |a| ensures Progressed(a[i], c[i]) {
      assert Progressed(a[i], b[i]) && Progressed(b[i], c[i]);
    }
  }

  /** A run goes from running to one terminal result, and a terminal row never changes again. */
  lemma {:induction false} RunLife(h: seq<State>, steps: seq<Step>, early: nat, late: nat)
    requires Execution(h, steps) && early <= late < |h|
    ensures RunsProgress(h[early].runs, h[late].runs)
    decreases late
  {
    hide *;
    StartsEmpty(h, steps);
    if early == late {
      NothingProgressed(h[early].runs);
    } else {
      RunLife(h, steps, early, late - 1);
      StepAt(h, steps, late - 1);
      RunsStep(h[late - 1], steps[late - 1], h[late]);
      ProgressTwice(h[early].runs, h[late - 1].runs, h[late].runs);
    }
  }

  lemma {:induction false} NothingProgressed(rows: seq<Run>)
    ensures RunsProgress(rows, rows)
  {
  }

  /** No step turns a covered instant uncovered. */
  lemma {:induction false} CoverageIsMonotone(h: seq<State>, steps: seq<Step>, early: nat, late: nat, u: Instant)
    requires Execution(h, steps) && early <= late < |h| && CoveredAt(h[early].runs, u)
    ensures CoveredAt(h[late].runs, u)
  {
    RunLife(h, steps, early, late);
    var r :| Succeeded(h[early].runs, r) && r.windowStart <= u < r.windowEnd;
    var i :| 0 <= i < |h[early].runs| && h[early].runs[i] == r;
    assert Progressed(h[early].runs[i], h[late].runs[i]);
    assert Succeeded(h[late].runs, h[late].runs[i]);
  }

  // ---------------------------------------------------------------------------
  // What a success vouches for
  // ---------------------------------------------------------------------------

  /** At this step a process closed the run, its last page short and every feature that was delivered handled. */
  ghost predicate Earned(s: State, e: Step, r: Run) {
    && e.FinishRun? && e.p in s.procs && s.procs[e.p].Walking?
    && var pc := s.procs[e.p];
    && pc.runId == r.id && r.mode == pc.plan.mode
    && r.windowStart == Stored(pc.plan.windowStart) && r.windowEnd == Stored(pc.plan.windowEnd)
    && pc.walk.short && pc.walk.done == |pc.walk.answer|
    && r.counts == pc.walk.counts && r.counts.Total() == |pc.walk.answer|
    && IsAnswer(s.log, pc.walk.at, pc.plan.anchor, pc.walk.list) && |pc.walk.list| <= |pc.walk.answer|
    && HandledOk(s, pc.walk.answer, |pc.walk.answer|)
  }

  lemma {:induction false} FinishEarns(s: State, p: Pid, t: State, r: Run)
    requires Inv(s) && Next(s, FinishRun(p), t) && Succeeded(t.runs, r) && !Succeeded(s.runs, r)
    ensures Earned(s, FinishRun(p), r)
  {
    assert PcOk(s, s.procs[p]);
    var row := NewSuccess(s, p, t);
  }

  ghost predicate EarnedBefore(h: seq<State>, steps: seq<Step>, n: nat, r: Run)
    requires n < |h| == |steps| + 1
  {
    exists i :: 0 <= i < n && Earned(h[i], steps[i], r)
  }

  /**
   * Coverage is honest. Every success in every reachable runs table was recorded by a collection under exactly that
   * window which reached its short last page without an error, counted every feature delivered once, and left the store
   * saying the last storable word on each of their events. An outage cannot look like a quiet period.
   */
  lemma {:induction false} SuccessIsEarned(h: seq<State>, steps: seq<Step>, n: nat, r: Run)
    requires Execution(h, steps) && n < |h| && Succeeded(h[n].runs, r)
    ensures EarnedBefore(h, steps, n, r)
  {
    hide *;
    NoSuccessYet(h, steps, r);
    if n > 0 {
      var s, t := h[n - 1], h[n];
      StepAt(h, steps, n - 1);
      if Succeeded(s.runs, r) {
        SuccessIsEarned(h, steps, n - 1, r);
      } else {
        NewlyEarned(s, steps[n - 1], t, r);
      }
      EarnedByNow(h, steps, n - 1, r);
    }
  }

  lemma {:induction false} NoSuccessYet(h: seq<State>, steps: seq<Step>, r: Run)
    requires Execution(h, steps)
    ensures |h| == |steps| + 1 && !Succeeded(h[0].runs, r)
  {
    StartsEmpty(h, steps);
  }

  lemma {:induction false} NewlyEarned(s: State, e: Step, t: State, r: Run)
    requires Inv(s) && Next(s, e, t) && Succeeded(t.runs, r) && !Succeeded(s.runs, r)
    ensures Earned(s, e, r)
  {
    hide *;
    SuccessesStep(s, e, t);
    FinishEarns(s, e.p, t, r);
  }

  lemma {:induction false} EarnedByNow(h: seq<State>, steps: seq<Step>, n: nat, r: Run)
    requires n + 1 < |h| == |steps| + 1 && (EarnedBefore(h, steps, n, r) || Earned(h[n], steps[n], r))
    ensures EarnedBefore(h, steps, n + 1, r)
  {
    hide Earned;
  }

  /** The walk delivered every revision it asked for that its first request could list and the source still shows. */
  ghost predicate DeliveredAll(s: State, p: Pid) {
    && At(s, p) && s.procs[p].Walking?
    && forall k: nat ::
      k < s.procs[p].walk.upTo && Latest(s.log, |s.log|, k)
      && FloorSecond(s.procs[p].plan.windowStart) < s.log[k].updated ==>
        k in s.procs[p].walk.answer
  }

  ghost predicate CompletedBefore(h: seq<State>, steps: seq<Step>, n: nat, r: Run)
    requires n < |h| == |steps| + 1
  {
    exists i :: 0 <= i < n && Earned(h[i], steps[i], r) && DeliveredAll(h[i], steps[i].p)
  }

  /** While nothing slips between requests, every successful cycle was delivered all it asked for. */
  lemma {:induction false} CycleIsComplete(h: seq<State>, steps: seq<Step>, n: nat, r: Run)
    requires Execution(h, steps) && n < |h| == |steps| + 1 && Steady(h, steps, n) && Cycle(h[n].runs, r)
    ensures CompletedBefore(h, steps, n, r)
  {
    SuccessIsEarned(h, steps, n, r);
    var i :| 0 <= i < n && Earned(h[i], steps[i], r);
    Invariant(h, steps, i);
    SteadyUntil(h, steps, i, n);
    InReachAlways(h, steps, i);
    EarnedDelivers(h[i], steps[i], r);
  }

  lemma {:induction false} SteadyUntil(h: seq<State>, steps: seq<Step>, i: nat, n: nat)
    requires i <= n < |h| == |steps| + 1 && Steady(h, steps, n)
    ensures Steady(h, steps, i)
  {
    hide StepCrosses;
  }

  lemma {:induction false} EarnedDelivers(s: State, e: Step, r: Run)
    requires Inv(s) && Earned(s, e, r) && r.mode == Incremental && AllInReach(s)
    ensures DeliveredAll(s, e.p)
  {
    var pc := s.procs[e.p];
    assert PcOk(s, pc) && WalkInReach(s, e.p);
    assert forall k :: !ToCome(pc.walk, k);
  }

  /** An instant counts as collected only if such a collection ran under a window that contains it. */
  lemma {:induction false} CoveredIsEarned(h: seq<State>, steps: seq<Step>, n: nat, u: Instant)
    requires Execution(h, steps) && n < |h|
    ensures CoveredAt(h[n].runs, u) ==>
      exists r :: Succeeded(h[n].runs, r) && r.windowStart <= u < r.windowEnd && EarnedBefore(h, steps, n, r)
  {
    if CoveredAt(h[n].runs, u) {
      var r :| Succeeded(h[n].runs, r) && r.windowStart <= u < r.windowEnd;
      SuccessIsEarned(h, steps, n, r);
    }
  }

  /** The clamp guards against a success that ends in the future; no history of these steps records one. */
  lemma {:induction false} ClampIsNeverNeeded(h: seq<State>, steps: seq<Step>, n: nat, p: Pid)
    requires Execution(h, steps) && n < |h| && p in h[n].procs && h[n].procs[p].Clocked?
    ensures var last := LastSuccessOf(h[n].runs, SOURCE);
      last.Some? ==> last.value.windowEnd < h[n].procs[p].now
  {
    Invariant(h, steps, n);
    assert PcOk(h[n], h[n].procs[p]);
    var last := LastSuccessOf(h[n].runs, SOURCE);
    assert last.Some? ==> Succeeded(h[n].runs, last.value);
  }
}
