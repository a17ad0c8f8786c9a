/**
 * The ingestion protocol: any number of processes (scheduler ticks and manual runs) sharing one advisory lock, the runs
 * table, the earthquake table and a source that keeps revising its events. Each action below is one statement, one
 * request or one clock reading; between any two actions of a process anything else may happen, a crash included.
 */
module Protocol {
  import opened Prelude
  import opened Runs
  import opened Earthquakes
  import opened Collect

  type Pid = int

  /** The data source every process here collects. */
  const SOURCE := 1

  const SAFETY_OVERLAP: int := 15 * 60 * 1_000_000_000

  /** updatedafter is rendered with whole seconds. */
  function FloorSecond(t: Instant): Instant {
    t / 1_000_000_000 * 1_000_000_000
  }

  // ---------------------------------------------------------------------------
  // The source
  // ---------------------------------------------------------------------------

  /** One state of one event at the source: when the source says it changed it, and when a query can first see that. */
  datatype Revision = Revision(id: string, feature: Feature, updated: Instant, visible: Instant)

  ghost predicate WellFormedRevision(r: Revision) {
    && (r.feature.Readable? ==> r.feature.event.id == r.id)
    && r.visible - r.updated <= SAFETY_OVERLAP
  }

  /** Revision k is what the source shows of its event when the first n revisions are visible. */
  ghost predicate Latest(log: seq<Revision>, n: nat, k: nat) {
    k < n <= |log| && forall m :: k < m < n ==> log[m].id != log[k].id
  }

  /**
   * The list, as positions in the log, a query is answered from. An updatedafter query matches at least every event
   * revised after the rendered anchor; a window query any events at all.
   */
  ghost predicate IsAnswer(log: seq<Revision>, n: nat, anchor: Option<Instant>, list: seq<nat>) {
    && (forall k :: k in list ==> Latest(log, n, k))
    && (anchor.Some? ==>
          forall k: nat :: Latest(log, n, k) && FloorSecond(anchor.value) < log[k].updated ==> k in list)
  }

  // ---------------------------------------------------------------------------
  // Processes
  // ---------------------------------------------------------------------------

  /** What a process was started for. `requested` is the page size asked for. */
  datatype Job =
    | SinceLast(fallback: int, requested: int)
    | Since(since: int, requested: int)
    | Explicit(start: Instant, end: Option<Instant>, requested: int)

  datatype Plan = Plan(mode: Mode, anchor: Option<Instant>, windowStart: Instant, windowEnd: Instant)

  /**
   * A walk over the pages of a query. Each request is answered from the source's list at that moment: `list`, the
   * latest, was taken when the log had `at` entries, the first when it had `upTo`, at `fetchedAt`. `answer` is what
   * the pages delivered; `done` of it is handled.
   */
  datatype Walk = Walk(size: nat, list: seq<nat>, at: nat, upTo: nat, fetchedAt: Instant,
                       answer: seq<nat>, done: nat, short: bool, counts: Counts)

  /** Where a process that holds the lock is; `now` is its latest clock reading. */
  datatype Pc =
    | Locked(job: Job)
    | Clocked(job: Job, now: Instant)
    | Planned(plan: Plan, now: Instant, size: nat)
    | Begun(runId: int, plan: Plan, now: Instant, size: nat)
    | Walking(runId: int, plan: Plan, now: Instant, walk: Walk)
    | Deciding(runId: int, plan: Plan, now: Instant, walk: Walk, record: Record, cached: Option<Version>)
    | Closing

  datatype State = State(
    clock: Instant, lock: Option<Pid>, runs: seq<Run>, table: seq<Version>, log: seq<Revision>, procs: map<Pid, Pc>)

  ghost predicate Init(s: State) {
    && s.lock == None && s.runs == [] && s.table == [] && s.procs == map[]
    && forall k :: 0 <= k < |s.log| ==> WellFormedRevision(s.log[k]) && s.log[k].visible <= s.clock
  }

  // ---------------------------------------------------------------------------
  // Planning a collection
  // ---------------------------------------------------------------------------

  /** The anchor of an incremental cycle: the last success minus the overlap, never past now. */
  function Anchor(runs: seq<Run>, now: Instant, fallback: int): Instant {
    var last := LastSuccessOf(runs, SOURCE);
    if last.Some? then Min(last.value.windowEnd - SAFETY_OVERLAP, now) else now - fallback
  }

  /** None: the command refuses its own window and leaves without a run. */
  function PlanFor(job: Job, runs: seq<Run>, now: Instant, later: Instant): Option<Plan> {
    match job
    case SinceLast(fallback, _) =>
      var anchor := Anchor(runs, now, fallback);
      Some(Plan(Incremental, Some(anchor), anchor, now))
    case Since(since, _) => Some(Plan(Backfill, None, now - since, now))
    case Explicit(start, end, _) =>
      var windowEnd := if end.Some? then end.value else now;
      if windowEnd < start || later < windowEnd then None else Some(Plan(Manual, None, start, windowEnd))
  }

  /**
   * A cycle's window is inverted only when there is no earlier success and the fallback is negative. Without the
   * clamp it would also be inverted whenever the last success claims to end more than the overlap in the future.
   */
  lemma {:induction false} WindowNotInverted(runs: seq<Run>, now: Instant, fallback: int)
    ensures var last := LastSuccessOf(runs, SOURCE);
      && (Anchor(runs, now, fallback) <= now <==> last.Some? || fallback >= 0)
      && (last.Some? ==>
            var back := last.value.windowEnd - SAFETY_OVERLAP;
            && (now < back <==> Anchor(runs, now, fallback) != back)
            && (now <= back <==> Anchor(runs, now, fallback) == now))
  {
  }

  // ---------------------------------------------------------------------------
  // Steps
  // ---------------------------------------------------------------------------

  datatype Step =
    | Tick(now: Instant)
    | Publish(rev: Revision)
    | TryLock(p: Pid, job: Job)
    | StrandLock(p: Pid)
    | SkipCycle(read: Instant, reason: string)
    | DropSession(p: Pid)
    | ReadClock(p: Pid)
    | MakePlan(p: Pid)
    | BeginRun(p: Pid)
    | FetchFirst(p: Pid, list: seq<nat>)
    | FetchNext(p: Pid, list: seq<nat>)
    | Reject(p: Pid, quality: Verdict, version: string)
    | ReadCurrent(p: Pid, quality: Verdict, version: string)
    | KeepCurrent(p: Pid)
    | Insert(p: Pid)
    | FailRun(p: Pid, cause: string, counts: Counts)
    | GiveUp(p: Pid)
    | FinishRun(p: Pid)
    | Release(p: Pid, unlocked: bool)
    | Crash(p: Pid)

  predicate At(s: State, p: Pid) {
    p in s.procs
  }

  function Move(s: State, p: Pid, pc: Pc): State {
    s.(procs := s.procs[p := pc])
  }

  function Leave(s: State, p: Pid): State {
    s.(procs := s.procs - {p})
  }

  ghost predicate Next(s: State, e: Step, t: State) {
    match e
    case Tick(now) => s.clock <= now && t == s.(clock := now)
    case Publish(rev) => WellFormedRevision(rev) && rev.visible == s.clock && t == s.(log := s.log + [rev])
    case TryLock(p, job) =>
      // A session that failed to unlock still holds the lock, and taking it again succeeds for that session alone.
      !At(s, p) && (s.lock.None? || s.lock == Some(p)) && t == Move(s.(lock := Some(p)), p, Locked(job))
    case StrandLock(p) =>
      // The lock was taken but the answer was lost: the session holds it, and no process is at work under it.
      !At(s, p) && (s.lock.None? || s.lock == Some(p)) && t == s.(lock := Some(p))
    case SkipCycle(read, reason) =>
      && read <= s.clock
      && t == s.(runs := s.runs + [SkippedRow(Runs.NextId(s.runs), SOURCE, Incremental, read, read, reason, s.clock)])
    case DropSession(p) => !At(s, p) && s.lock == Some(p) && t == s.(lock := None)
    case ReadClock(p) => At(s, p) && s.procs[p].Locked? && t == Move(s, p, Clocked(s.procs[p].job, s.clock))
    case MakePlan(p) => At(s, p) && s.procs[p].Clocked? && t == Move(s, p, AfterPlan(s, s.procs[p]))
    case BeginRun(p) => At(s, p) && s.procs[p].Planned? && t == AfterBegin(s, p, s.procs[p])
    case FetchFirst(p, list) =>
      && At(s, p) && s.procs[p].Begun? && s.procs[p].now < s.clock
      && IsAnswer(s.log, |s.log|, s.procs[p].plan.anchor, list)
      && t == Move(s, p, AfterFirst(s, s.procs[p], list))
    case FetchNext(p, list) =>
      && At(s, p) && s.procs[p].Walking? && Delivered(s.procs[p].walk) && !s.procs[p].walk.short
      && IsAnswer(s.log, |s.log|, s.procs[p].plan.anchor, list)
      && t == Move(s, p, WithWalk(s.procs[p], NextPage(s.log, s.procs[p].walk, list)))
    case Reject(p, quality, version) =>
      && Handling(s, p)
      && (FeatureAt(s, p).Unreadable? || Admissible(RecordAt(s, p, quality, version)) == RejectCoordinate)
      && t == Move(s, p, WithWalk(s.procs[p], Handled(s.procs[p].walk, Counts(0, 0, 0, 1))))
    case ReadCurrent(p, quality, version) =>
      && Handling(s, p)
      && FeatureAt(s, p).Readable? && Admissible(RecordAt(s, p, quality, version)) == Admit
      && t == Move(s, p, AfterRead(s, s.procs[p], RecordAt(s, p, quality, version)))
    case KeepCurrent(p) =>
      && At(s, p) && s.procs[p].Deciding? && AlreadySaid(s.procs[p])
      && t == Move(s, p, AfterDecision(s.procs[p], Counts(0, 0, 1, 0)))
    case Insert(p) =>
      && At(s, p) && s.procs[p].Deciding? && !AlreadySaid(s.procs[p])
      && !StampTaken(s.table, RecordKey(s.procs[p].record), s.clock)
      && t == Move(s.(table := s.table + [NewRow(s.table, s.procs[p].record, s.clock)]), p,
                   AfterDecision(s.procs[p], if s.procs[p].cached.Some? then UPDATED else INSERTED))
    case FailRun(p, cause, counts) =>
      && At(s, p) && HasOpenRun(s.procs[p]) && cause != ""
      && t == Move(s.(runs := Closed(s.runs, s.procs[p].runId, Failure, counts, Some(cause), s.clock)), p, Closing)
    case GiveUp(p) => At(s, p) && t == Move(s, p, Closing)
    case FinishRun(p) =>
      && At(s, p) && s.procs[p].Walking? && Complete(s.procs[p].walk)
      && var runs := Closed(s.runs, s.procs[p].runId, Success, s.procs[p].walk.counts, None, s.clock);
      && t == Move(s.(runs := runs), p, Closing)
    case Release(p, unlocked) =>
      At(s, p) && s.procs[p].Closing? && t == Leave(s.(lock := if unlocked then None else s.lock), p)
    case Crash(p) => At(s, p) && t == Leave(s.(lock := None), p)
  }

  predicate HasOpenRun(pc: Pc) {
    pc.Begun? || pc.Walking? || pc.Deciding?
  }

  /** Everything delivered so far was handled. */
  predicate Delivered(w: Walk) {
    w.done == |w.answer|
  }

  /** The last page was short and every feature delivered was handled. */
  predicate Complete(w: Walk) {
    w.short && Delivered(w)
  }

  function WithWalk(pc: Pc, w: Walk): Pc
    requires pc.Walking?
  {
    Walking(pc.runId, pc.plan, pc.now, w)
  }

  function AfterPlan(s: State, pc: Pc): Pc
    requires pc.Clocked?
  {
    var plan := PlanFor(pc.job, s.runs, pc.now, s.clock);
    if plan.None? then Closing
    else Planned(plan.value, if pc.job.Explicit? then Max(pc.now, s.clock) else pc.now, PageSize(pc.job.requested))
  }

  function AfterBegin(s: State, p: Pid, pc: Pc): State
    requires pc.Planned?
  {
    if pc.plan.windowEnd < pc.plan.windowStart then Move(s, p, Closing)
    else
      var run := Opened(Runs.NextId(s.runs), SOURCE, pc.plan.mode, pc.plan.windowStart, pc.plan.windowEnd, s.clock);
      Move(s.(runs := s.runs + [run]), p, Begun(run.id, pc.plan, pc.now, pc.size))
  }

  function AfterFirst(s: State, pc: Pc, list: seq<nat>): Pc
    requires pc.Begun?
  {
    Walking(pc.runId, pc.plan, pc.now,
            NextPage(s.log, Walk(pc.size, list, |s.log|, |s.log|, s.clock, [], 0, false, NO_COUNTS), list))
  }

  /**
   * One page of the list as it is now. Every page before it was full, so its offset is what they delivered; the walk
   * ends on how many features it delivers itself.
   */
  function NextPage(log: seq<Revision>, w: Walk, list: seq<nat>): Walk {
    var page := Page(list, |w.answer| + 1, w.size);
    w.(list := list, at := |log|, answer := w.answer + page, short := |page| < w.size)
  }

  ghost predicate Handling(s: State, p: Pid) {
    && At(s, p) && s.procs[p].Walking?
    && s.procs[p].walk.done < |s.procs[p].walk.answer|
    && s.procs[p].walk.answer[s.procs[p].walk.done] < |s.log|
  }

  ghost function FeatureAt(s: State, p: Pid): Feature
    requires Handling(s, p)
  {
    s.log[s.procs[p].walk.answer[s.procs[p].walk.done]].feature
  }

  ghost function RecordAt(s: State, p: Pid, quality: Verdict, version: string): Record
    requires Handling(s, p) && FeatureAt(s, p).Readable?
  {
    RecordOf(FeatureAt(s, p).event, quality, Origin(SOURCE, version))
  }

  function Handled(w: Walk, one: Counts): Walk {
    w.(done := w.done + 1,
       counts := Counts(w.counts.inserted + one.inserted, w.counts.updated + one.updated,
                        w.counts.unaltered + one.unaltered, w.counts.rejected + one.rejected))
  }

  function AfterRead(s: State, pc: Pc, n: Record): Pc
    requires pc.Walking?
  {
    Deciding(pc.runId, pc.plan, pc.now, pc.walk, n, Current(s.table, RecordKey(n)))
  }

  predicate AlreadySaid(pc: Pc)
    requires pc.Deciding?
  {
    pc.cached.Some? && SameContent(pc.cached.value.record.content, pc.record.content)
  }

  function AfterDecision(pc: Pc, one: Counts): Pc
    requires pc.Deciding?
  {
    Walking(pc.runId, pc.plan, pc.now, Handled(pc.walk, one))
  }

  const INSERTED := Counts(1, 0, 0, 0)
  const UPDATED := Counts(0, 1, 0, 0)

  /** A history of the system: its states and the steps between them. */
  ghost predicate Execution(h: seq<State>, steps: seq<Step>) {
    && |h| == |steps| + 1 && Init(h[0])
    && forall i :: 0 <= i < |steps| ==> Next(h[i], steps[i], h[i + 1])
  }
}
