/** One whole incremental cycle, step by step: the hypotheses of the protocol's promises can all be met at once. */
module Example {
  import opened Prelude
  import opened Runs
  import opened Earthquakes
  import opened Collect
  import opened Protocol
  import opened Safety
  import opened NoLostRevision

  /** No walk in these steps got beyond its first page. */
  ghost predicate NoPaging(steps: seq<Step>) {
    forall i :: 0 <= i < |steps| ==> !steps[i].FetchNext?
  }

  ghost predicate AllGood(h: seq<State>, good: seq<Run> -> bool) {
    forall i :: 0 <= i < |h| ==> good(h[i].runs)
  }

  /** Some history ends here, each of its runs tables a good one, and no walk in it getting beyond its first page. */
  ghost predicate Reachable(s: State, good: seq<Run> -> bool) {
    exists h, steps :: Execution(h, steps) && NoPaging(steps) && AllGood(h, good) && h[|h| - 1] == s
  }

  function Anything(runs: seq<Run>): bool {
    true
  }

  lemma {:induction false} Extend(h: seq<State>, steps: seq<Step>, e: Step, t: State)
    requires Execution(h, steps) && Next(h[|h| - 1], e, t)
    ensures Execution(h + [t], steps + [e])
  {
    var h2, steps2 := h + [t], steps + [e];
    forall i | 0 <= i < |steps2| ensures Next(h2[i], steps2[i], h2[i + 1]) {
      assert i < |steps| ==> Next(h[i], steps[i], h[i + 1]);
    }
  }

  /** One more step of such a history. */
  lemma {:induction false} Onward(s: State, good: seq<Run> -> bool, e: Step, t: State)
    requires Reachable(s, good) && Next(s, e, t) && !e.FetchNext? && good(t.runs)
    ensures Reachable(t, good)
  {
    var h, steps :| Execution(h, steps) && NoPaging(steps) && AllGood(h, good) && h[|h| - 1] == s;
    hide Next;
    Extend(h, steps, e, t);
    var h2, steps2 := h + [t], steps + [e];
    assert NoPaging(steps2) && AllGood(h2, good);
  }

  lemma {:induction false} ReachableStart(s: State, good: seq<Run> -> bool)
    requires Init(s) && good(s.runs)
    ensures Reachable(s, good)
  {
    assert Execution([s], []) && AllGood([s], good) && NoPaging([]);
  }

  // ---------------------------------------------------------------------------
  // A run the source answers with nothing
  // ---------------------------------------------------------------------------

  ghost predicate Idle(s: State) {
    s.lock == None && s.procs == map[]
  }

  function OpenedBy(s: State, plan: Plan): Run {
    Opened(Runs.NextId(s.runs), SOURCE, plan.mode, plan.windowStart, plan.windowEnd, s.clock)
  }

  /** The row that run leaves: it finishes one tick later, having found nothing. */
  function DoneBy(s: State, plan: Plan): Run {
    ClosedRow(OpenedBy(s, plan), Success, NO_COUNTS, None, s.clock + 1)
  }

  function LockedBy(s: State, pc: Pc): State {
    s.(lock := Some(1), procs := map[1 := pc])
  }

  lemma {:induction false} RunPlans(s: State, job: Job, plan: Plan)
    requires Idle(s) && PlanFor(job, s.runs, s.clock, s.clock) == Some(plan)
    ensures Next(s, TryLock(1, job), LockedBy(s, Locked(job)))
    ensures Next(LockedBy(s, Locked(job)), ReadClock(1), LockedBy(s, Clocked(job, s.clock)))
    ensures Next(LockedBy(s, Clocked(job, s.clock)), MakePlan(1),
                 LockedBy(s, Planned(plan, s.clock, PageSize(job.requested))))
  {
    hide PlanFor, PageSize;
  }

  lemma {:induction false} RunOpens(s: State, plan: Plan, size: nat)
    requires Idle(s) && plan.windowStart <= plan.windowEnd
    ensures var u := LockedBy(s, Begun(OpenedBy(s, plan).id, plan, s.clock, size));
      Next(LockedBy(s, Planned(plan, s.clock, size)), BeginRun(1), u.(runs := s.runs + [OpenedBy(s, plan)]))
  {
  }

  function BegunState(s: State, plan: Plan, size: nat): State {
    LockedBy(s, Begun(OpenedBy(s, plan).id, plan, s.clock, size)).(runs := s.runs + [OpenedBy(s, plan)])
  }

  /** From an idle state process 1 can plan and open a run. */
  lemma {:induction false} RunBegins(s: State, job: Job, plan: Plan, good: seq<Run> -> bool)
    requires Reachable(s, good) && Idle(s) && good(s.runs) && good(s.runs + [OpenedBy(s, plan)])
    requires PlanFor(job, s.runs, s.clock, s.clock) == Some(plan) && plan.windowStart <= plan.windowEnd
    ensures Reachable(BegunState(s, plan, PageSize(job.requested)), good)
  {
    var size := PageSize(job.requested);
    var locked, clocked := LockedBy(s, Locked(job)), LockedBy(s, Clocked(job, s.clock));
    var planned := LockedBy(s, Planned(plan, s.clock, size));
    RunPlans(s, job, plan);
    RunOpens(s, plan, size);
    hide Next, PlanFor, PageSize, Reachable;
    Onward(s, good, TryLock(1, job), locked);
    Onward(locked, good, ReadClock(1), clocked);
    Onward(clocked, good, MakePlan(1), planned);
    Onward(planned, good, BeginRun(1), BegunState(s, plan, size));
  }

  /** The new row closed, and no other: its id is above every other one. */
  lemma {:induction false} ClosesTheLast(rows: seq<Run>, r: Run, now: Instant)
    requires WellFormed(rows) && r.id == Runs.NextId(rows)
    ensures Closed(rows + [r], r.id, Success, NO_COUNTS, None, now)
      == rows + [ClosedRow(r, Success, NO_COUNTS, None, now)]
  {
  }

  /** Process 1 has been told that there is nothing. */
  function ToldNothing(s: State, plan: Plan, size: nat): State {
    var walk := Walk(size, [], |s.log|, |s.log|, s.clock + 1, [], 0, true, NO_COUNTS);
    var pc := Walking(OpenedBy(s, plan).id, plan, s.clock, walk);
    LockedBy(s, pc).(runs := s.runs + [OpenedBy(s, plan)], clock := s.clock + 1)
  }

  lemma {:induction false} RunAsks(s: State, plan: Plan, size: nat)
    requires Idle(s) && size > 0 && IsAnswer(s.log, |s.log|, plan.anchor, [])
    ensures var s4 := BegunState(s, plan, size);
      var s5 := s4.(clock := s.clock + 1);
      Next(s4, Tick(s.clock + 1), s5) && Next(s5, FetchFirst(1, []), ToldNothing(s, plan, size))
  {
    hide IsAnswer;
    assert Page<nat>([], 1, size) == [] && [] + Page<nat>([], 1, size) == [];
  }

  function Over(s: State, plan: Plan): State {
    s.(clock := s.clock + 1, runs := s.runs + [DoneBy(s, plan)])
  }

  lemma {:induction false} RunFinishes(s: State, plan: Plan, size: nat)
    requires Idle(s) && WellFormed(s.runs)
    ensures var s7 := LockedBy(Over(s, plan), Closing);
      Next(ToldNothing(s, plan, size), FinishRun(1), s7) && Next(s7, Release(1, true), Over(s, plan))
  {
    ClosesTheLast(s.runs, OpenedBy(s, plan), s.clock + 1);
    hide Closed, WellFormed;
    assert LockedBy(Over(s, plan), Closing).procs - {1} == map[];
  }

  /** From an idle state any job that plans a proper window can run to success, if the source has nothing to answer. */
  lemma {:induction false} EmptyRun(s: State, job: Job, plan: Plan, good: seq<Run> -> bool)
    requires Reachable(s, good) && Idle(s)
    requires good(s.runs) && good(s.runs + [OpenedBy(s, plan)]) && good(s.runs + [DoneBy(s, plan)])
    requires PlanFor(job, s.runs, s.clock, s.clock) == Some(plan) && plan.windowStart <= plan.windowEnd
    requires IsAnswer(s.log, |s.log|, plan.anchor, [])
    ensures Reachable(Over(s, plan), good) && Idle(Over(s, plan))
  {
    var size := PageSize(job.requested);
    var begun, closing := BegunState(s, plan, size), LockedBy(Over(s, plan), Closing);
    RunBegins(s, job, plan, good);
    ghost var h, steps :| Execution(h, steps) && NoPaging(steps) && AllGood(h, good) && h[|h| - 1] == s;
    Invariant(h, steps, |h| - 1);
    assert WellFormed(s.runs);
    hide Execution, Inv, AllGood, NoPaging;
    RunAsks(s, plan, size);
    RunFinishes(s, plan, size);
    hide Next, PageSize, PlanFor, Reachable, WellFormed, IsAnswer, OpenedBy, DoneBy;
    Onward(begun, good, Tick(s.clock + 1), begun.(clock := s.clock + 1));
    Onward(begun.(clock := s.clock + 1), good, FetchFirst(1, []), ToldNothing(s, plan, size));
    Onward(ToldNothing(s, plan, size), good, FinishRun(1), closing);
    Onward(closing, good, Release(1, true), Over(s, plan));
  }

  // ---------------------------------------------------------------------------
  // One cycle that finds an event
  // ---------------------------------------------------------------------------

  /** The state once process 1 has asked the source and been told about its one event. */
  function Asked(ev: Event, updated: Instant, clock: Instant): State {
    var rev := Revision(ev.id, Readable(ev), updated, clock);
    var plan := Plan(Incremental, Some(clock - 1), clock - 1, clock);
    var run := Opened(1, SOURCE, Incremental, clock - 1, clock, clock);
    var walk := Walk(MAX_EVENTS_PER_REQUEST, [0], 1, 1, clock + 1, [0], 0, true, NO_COUNTS);
    State(clock + 1, Some(1), [run], [], [rev], map[1 := Walking(1, plan, clock, walk)])
  }

  lemma {:induction false} AskingIsPossible(ev: Event, updated: Instant, clock: Instant)
    requires 0 <= clock - updated <= SAFETY_OVERLAP
    ensures Reachable(Asked(ev, updated, clock), Anything)
  {
    var s0 := State(clock, None, [], [], [Revision(ev.id, Readable(ev), updated, clock)], map[]);
    var plan := Plan(Incremental, Some(clock - 1), clock - 1, clock);
    var s4 := BegunState(s0, plan, MAX_EVENTS_PER_REQUEST);
    var s5 := s4.(clock := clock + 1);
    ReachableStart(s0, Anything);
    RunBegins(s0, SinceLast(1, 0), plan, Anything);
    assert forall k: nat :: Latest(s5.log, 1, k) ==> k == 0 && k in [0];
    assert IsAnswer(s5.log, 1, plan.anchor, [0]);
    assert Page<nat>([0], 1, MAX_EVENTS_PER_REQUEST) == [0] && [] + Page<nat>([0], 1, MAX_EVENTS_PER_REQUEST) == [0];
    assert Move(s5, 1, AfterFirst(s5, s5.procs[1], [0])).procs == Asked(ev, updated, clock).procs;
    hide Reachable, IsAnswer;
    Onward(s4, Anything, Tick(clock + 1), s5);
    Onward(s5, Anything, FetchFirst(1, [0]), Asked(ev, updated, clock));
  }

  /** The state once process 1 has stored it. */
  function Saved(ev: Event, updated: Instant, clock: Instant, n: Record): State {
    var s := Asked(ev, updated, clock);
    var walk := s.procs[1].walk.(done := 1, counts := Counts(1, 0, 0, 0));
    Move(s.(table := [NewRow([], n, s.clock)]), 1, WithWalk(s.procs[1], walk))
  }

  lemma {:induction false} SavingIsPossible(ev: Event, updated: Instant, clock: Instant, quality: Verdict,
      version: string)
    requires 0 <= clock - updated <= SAFETY_OVERLAP
    requires Storable(Readable(ev)) && ev.id != "" && ev.raw != "" && VerdictStorable(quality)
    ensures Reachable(Saved(ev, updated, clock, RecordOf(ev, quality, Origin(SOURCE, version))), Anything)
  {
    var s6, n := Asked(ev, updated, clock), RecordOf(ev, quality, Origin(SOURCE, version));
    var s7 := Move(s6, 1, AfterRead(s6, s6.procs[1], n));
    var s8 := Saved(ev, updated, clock, n);
    AskingIsPossible(ev, updated, clock);
    assert Next(s6, ReadCurrent(1, quality, version), s7);
    assert s8.procs == Move(s7, 1, AfterDecision(s7.procs[1], Counts(1, 0, 0, 0))).procs;
    assert s7.table + [NewRow([], n, s7.clock)] == s8.table;
    assert Next(s7, Insert(1), s8);
    hide Reachable, Next;
    Onward(s6, Anything, ReadCurrent(1, quality, version), s7);
    Onward(s7, Anything, Insert(1), s8);
  }

  /** What process 1 will have done when its cycle is over. */
  ghost predicate CycleDone(s: State, ev: Event, n: Record) {
    && s.procs == map[] && s.lock == None
    && s.table == [NewRow([], n, s.clock)] && n.content == ev.content
    && |s.runs| == 1 && IsSuccess(s.runs[0], SOURCE) && s.runs[0].counts == Counts(1, 0, 0, 0)
  }

  /** From nothing, one cycle stores the event it is told about and records a success that counts it. */
  lemma {:induction false} OneCycle(ev: Event, updated: Instant, clock: Instant, quality: Verdict, version: string)
    returns (s: State)
    requires 0 <= clock - updated <= SAFETY_OVERLAP && FloorSecond(Stored(clock - 1)) < updated
    requires Storable(Readable(ev)) && ev.id != "" && ev.raw != "" && VerdictStorable(quality)
    ensures Reachable(s, Anything) && CycleDone(s, ev, RecordOf(ev, quality, Origin(SOURCE, version)))
    ensures AllIncremental(s.runs) && Showing(s, 0)
    ensures exists r :: Succeeded(s.runs, r) && FloorSecond(r.windowStart) < s.log[0].updated
  {
    SavingIsPossible(ev, updated, clock, quality, version);
    var s8 := Saved(ev, updated, clock, RecordOf(ev, quality, Origin(SOURCE, version)));
    var s9 := Move(s8.(runs := Closed(s8.runs, 1, Success, s8.procs[1].walk.counts, None, s8.clock)), 1, Closing);
    s := Leave(s9.(lock := None), 1);
    assert s.procs == map[];
    assert Succeeded(s.runs, s.runs[0]);
    hide Reachable;
    Onward(s8, Anything, FinishRun(1), s9);
    Onward(s9, Anything, Release(1, true), s);
  }

  /** A success of zero length: a manual window that starts and ends at one instant. */
  lemma {:induction false} ZeroLengthSuccess(at: Instant) returns (s: State)
    ensures Reachable(s, Anything) && |s.runs| == 1
    ensures var r := s.runs[0];
      IsSuccess(r, SOURCE) && r.mode == Manual && r.windowStart == r.windowEnd == Stored(at)
  {
    var s0, plan := State(at, None, [], [], [], map[]), Plan(Manual, None, at, at);
    ReachableStart(s0, Anything);
    hide Reachable;
    EmptyRun(s0, Explicit(at, Some(at), 0), plan, Anything);
    s := Over(s0, plan);
  }
}
