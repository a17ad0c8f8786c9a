/** What every reachable state of the ingestion protocol satisfies. */
module Safety {
  import opened Prelude
  import opened Runs
  import opened Earthquakes
  import opened Collect
  import opened Protocol

  // ---------------------------------------------------------------------------
  // The invariant
  // ---------------------------------------------------------------------------

  /** Whoever is past the lock holds it. */
  ghost predicate Exclusive(s: State) {
    forall p :: p in s.procs ==> s.lock == Some(p)
  }

  ghost predicate LogOk(s: State) {
    forall k :: 0 <= k < |s.log| ==> WellFormedRevision(s.log[k]) && s.log[k].visible <= s.clock
  }

  ghost predicate TableOk(s: State) {
    ValidTable(s.table) && NotAfter(s.table, s.clock) && NoFakeRevision(s.table)
  }

  ghost predicate Succeeded(runs: seq<Run>, r: Run) {
    r in runs && IsSuccess(r, SOURCE)
  }

  /** Every successful window ended before t. */
  ghost predicate EndedBefore(runs: seq<Run>, t: Instant) {
    forall r :: Succeeded(runs, r) ==> r.windowEnd < t
  }

  ghost predicate RunsOk(s: State) {
    && WellFormed(s.runs) && EndedBefore(s.runs, s.clock)
    && forall r :: r in s.runs ==> Stored(r.windowEnd) == r.windowEnd
  }

  /** An anchor reaches back behind the end of some success, by the whole overlap, unless there is none. */
  ghost predicate AnchorBehind(runs: seq<Run>, anchor: Instant) {
    (exists r :: Succeeded(runs, r)) ==> exists r :: Succeeded(runs, r) && anchor + SAFETY_OVERLAP <= r.windowEnd
  }

  ghost predicate PlanOk(s: State, plan: Plan, now: Instant) {
    && plan.windowEnd <= now <= s.clock
    && (plan.anchor.Some? <==> plan.mode == Incremental)
    && (plan.anchor.Some? ==> plan.windowStart == plan.anchor.value && plan.windowEnd == now
                                && AnchorBehind(s.runs, plan.anchor.value) && EndedBefore(s.runs, now))
  }

  /** The row of a run in progress under a plan. */
  predicate OpenFor(r: Run, id: int, plan: Plan) {
    && r.id == id && r.sourceId == SOURCE && r.result == Running && r.mode == plan.mode
    && r.windowStart == Stored(plan.windowStart) && r.windowEnd == Stored(plan.windowEnd)
  }

  ghost predicate HasOpen(runs: seq<Run>, id: int, plan: Plan) {
    exists r :: r in runs && OpenFor(r, id, plan)
  }

  /** The table's current version of the revision's event says what the revision says. */
  ghost predicate Says(table: seq<Version>, rev: Revision) {
    Current(table, KeyOf(rev)).Some? && SameRevision(Current(table, KeyOf(rev)).value, rev)
  }

  function KeyOf(rev: Revision): EventKey {
    EventKey(rev.id, SOURCE)
  }

  predicate SameRevision(v: Version, rev: Revision) {
    rev.feature.Readable? && SameContent(v.record.content, rev.feature.event.content)
  }

  /** Feature j, and no later one of the first n, is the last storable word on its event. */
  ghost predicate LastWord(log: seq<Revision>, answer: seq<nat>, n: nat, j: nat) {
    && j < n <= |answer| && (forall i :: 0 <= i < n ==> answer[i] < |log|) && Storable(log[answer[j]].feature)
    && forall i :: j < i < n && Storable(log[answer[i]].feature) ==> log[answer[i]].id != log[answer[j]].id
  }

  /** The table says the last word of the first n features on every event. */
  ghost predicate HandledOk(s: State, answer: seq<nat>, n: nat) {
    forall j: nat :: LastWord(s.log, answer, n, j) ==> Says(s.table, s.log[answer[j]])
  }

  /** Everything the first request did not know of became visible no earlier than it was made. */
  ghost predicate Snapshot(s: State, w: Walk) {
    w.upTo <= w.at <= |s.log| && forall k :: w.upTo <= k < |s.log| ==> w.fetchedAt <= s.log[k].visible
  }

  /** No page delivers a revision older than the source showed at the first request or in an earlier page. */
  ghost predicate InOrder(log: seq<Revision>, upTo: nat, answer: seq<nat>) {
    && (forall j :: 0 <= j < |answer| ==> answer[j] < |log|)
    && (forall j, k: nat :: 0 <= j < |answer| && k < upTo <= |log| && log[k].id == log[answer[j]].id ==> k <= answer[j])
    && (forall i, j :: 0 <= i < j < |answer| && log[answer[i]].id == log[answer[j]].id ==> answer[i] <= answer[j])
  }

  ghost predicate WalkOk(s: State, plan: Plan, now: Instant, w: Walk) {
    && w.size > 0
    && now < w.fetchedAt <= s.clock && EndedBefore(s.runs, w.fetchedAt)
    && Snapshot(s, w)
    && IsAnswer(s.log, w.at, plan.anchor, w.list) && InOrder(s.log, w.upTo, w.answer)
    && w.done <= |w.answer| && (w.short ==> |w.list| <= |w.answer|)
    && w.counts.Total() == w.done
    && HandledOk(s, w.answer, w.done)
  }

  /** The cached read is still the current version, and the record is the next feature's. */
  ghost predicate CacheOk(s: State, w: Walk, record: Record, cached: Option<Version>) {
    && w.done < |w.answer| && w.answer[w.done] < |s.log|
    && var rev := s.log[w.answer[w.done]];
    && rev.feature.Readable? && Admissible(record) == Admit
    && RecordKey(record) == KeyOf(rev) && record.content == rev.feature.event.content
    && cached == Current(s.table, RecordKey(record))
  }

  ghost predicate PcOk(s: State, pc: Pc) {
    match pc
    case Locked(_) => true
    case Clocked(_, now) => now <= s.clock && EndedBefore(s.runs, now)
    case Planned(plan, now, size) => size > 0 && PlanOk(s, plan, now)
    case Begun(id, plan, now, size) => size > 0 && PlanOk(s, plan, now) && HasOpen(s.runs, id, plan)
    case Walking(id, plan, now, walk) => PlanOk(s, plan, now) && HasOpen(s.runs, id, plan) && WalkOk(s, plan, now, walk)
    case Deciding(id, plan, now, walk, record, cached) =>
      && PlanOk(s, plan, now) && HasOpen(s.runs, id, plan) && WalkOk(s, plan, now, walk)
      && CacheOk(s, walk, record, cached)
    case Closing => true
  }

  ghost predicate ProcsOk(s: State) {
    forall p :: p in s.procs ==> PcOk(s, s.procs[p])
  }

  ghost predicate Inv(s: State) {
    Exclusive(s) && LogOk(s) && TableOk(s) && RunsOk(s) && ProcsOk(s)
  }

  // ---------------------------------------------------------------------------
  // The runs table
  // ---------------------------------------------------------------------------

  lemma {:induction false} AppendRun(rows: seq<Run>, r: Run)
    requires WellFormed(rows) && WellFormedRun(r) && r.id == Runs.NextId(rows)
    ensures WellFormed(rows + [r])
  {
  }

  /** Closing a run changes its row and no other. */
  lemma {:induction false} CloseRun(rows: seq<Run>, id: int, result: Outcome, counts: Counts, error: Option<string>,
      now: Instant, r: Run)
    requires WellFormed(rows) && r in rows && r.id == id && result in {Success, Failure}
    requires result == Failure ==> error.Some? && error.value != ""
    ensures var after := Closed(rows, id, result, counts, error, now);
      && WellFormed(after)
      && (forall q :: q in after <==> (q in rows && q != r) || q == ClosedRow(r, result, counts, error, now))
  {
    var after := Closed(rows, id, result, counts, error, now);
    var i :| 0 <= i < |rows| && rows[i] == r;
    assert after[i] == ClosedRow(r, result, counts, error, now);
    forall q | q in rows && q != r ensures q in after {
      var j :| 0 <= j < |rows| && rows[j] == q;
      assert after[j] == q;
    }
  }

  // ---------------------------------------------------------------------------
  // Steps of the surroundings
  // ---------------------------------------------------------------------------

  /** What a step that is not this process's own may do around it, as long as nothing is written to the table. */
  ghost predicate Around(s: State, t: State) {
    && s.clock <= t.clock && t.table == s.table
    && s.log <= t.log && (forall k :: |s.log| <= k < |t.log| ==> s.clock <= t.log[k].visible)
    && (forall r :: r in s.runs ==> r in t.runs)
    && (forall r :: Succeeded(t.runs, r) ==> Succeeded(s.runs, r))
  }

  lemma {:induction false} AnswerStays(log: seq<Revision>, longer: seq<Revision>, n: nat, anchor: Option<Instant>,
      answer: seq<nat>)
    requires n <= |log| && log <= longer && IsAnswer(log, n, anchor, answer)
    ensures IsAnswer(longer, n, anchor, answer)
  {
    forall k: nat ensures Latest(longer, n, k) <==> Latest(log, n, k) {
    }
  }

  lemma {:induction false} PcStays(s: State, t: State, pc: Pc)
    requires Around(s, t) && PcOk(s, pc)
    ensures PcOk(t, pc)
  {
    if HasOpenRun(pc) {
      var r :| r in s.runs && OpenFor(r, pc.runId, pc.plan);
      assert r in t.runs;
    }
    if pc.Planned? || HasOpenRun(pc) {
      PlanStays(s, t, pc.plan, pc.now);
    }
    if pc.Walking? || pc.Deciding? {
      WalkStays(s, t, pc.plan, pc.now, pc.walk);
    }
  }

  lemma {:induction false} PlanStays(s: State, t: State, plan: Plan, now: Instant)
    requires Around(s, t) && PlanOk(s, plan, now)
    ensures PlanOk(t, plan, now)
  {
    if plan.anchor.Some? && exists r :: Succeeded(t.runs, r) {
      var r :| Succeeded(s.runs, r) && plan.anchor.value + SAFETY_OVERLAP <= r.windowEnd;
      assert Succeeded(t.runs, r);
    }
  }

  lemma {:induction false} WalkStays(s: State, t: State, plan: Plan, now: Instant, w: Walk)
    requires Around(s, t) && WalkOk(s, plan, now, w)
    ensures WalkOk(t, plan, now, w)
  {
    AnswerStays(s.log, t.log, w.at, plan.anchor, w.list);
    HandledStays(s, t, w.answer, w.done);
    hide HandledOk, IsAnswer;
  }

  lemma {:induction false} HandledStays(s: State, t: State, answer: seq<nat>, n: nat)
    requires s.log <= t.log && t.table == s.table && HandledOk(s, answer, n)
    requires n <= |answer| && forall j :: 0 <= j < |answer| ==> answer[j] < |s.log|
    ensures HandledOk(t, answer, n)
  {
    forall j: nat | LastWord(t.log, answer, n, j) ensures Says(t.table, t.log[answer[j]]) {
      assert LastWord(s.log, answer, n, j);
    }
  }

  /** A step around every process keeps the invariant, provided it keeps the shared tables in order. */
  lemma {:induction false} SurroundingsStep(s: State, t: State)
    requires Inv(s) && Around(s, t) && LogOk(t) && TableOk(t) && RunsOk(t)
    requires Exclusive(t) && forall p :: p in t.procs ==> p in s.procs && t.procs[p] == s.procs[p]
    ensures Inv(t)
  {
    forall p | p in t.procs ensures PcOk(t, t.procs[p]) {
      PcStays(s, t, s.procs[p]);
    }
  }

  lemma {:induction false} SkipStep(s: State, t: State, read: Instant, reason: string)
    requires Inv(s) && Next(s, SkipCycle(read, reason), t)
    ensures Inv(t)
  {
    SkipRow(s, read, reason);
    hide WellFormed, Stored, ValidTable, NoFakeRevision, PcOk, Around, RunsOk;
    SurroundingsStep(s, t);
  }

  /** The runs table with one more skipped cycle. */
  lemma {:induction false} SkipRow(s: State, read: Instant, reason: string)
    requires RunsOk(s)
    ensures var row := SkippedRow(Runs.NextId(s.runs), SOURCE, Incremental, read, read, reason, s.clock);
      var u := s.(runs := s.runs + [row]);
      RunsOk(u) && Around(s, u)
  {
    var row := SkippedRow(Runs.NextId(s.runs), SOURCE, Incremental, read, read, reason, s.clock);
    var u := s.(runs := s.runs + [row]);
    StoredTwice(read);
    hide Stored;
    AppendRun(s.runs, row);
    assert forall r :: r in u.runs <==> r in s.runs || r == row;
  }

  // ---------------------------------------------------------------------------
  // Steps of the process that holds the lock
  // ---------------------------------------------------------------------------

  /** A step of p that leaves everything but its own program counter alone. */
  lemma {:induction false} LocalStep(s: State, t: State, p: Pid, pc: Pc)
    requires Inv(s) && s.lock == Some(p) && t == Move(s, p, pc) && PcOk(s, pc)
    ensures Inv(t)
  {
    assert Around(s, t);
    PcStays(s, t, pc);
    assert forall q :: q in t.procs ==> q == p;
  }

  lemma {:induction false} PlanStep(s: State, p: Pid)
    requires Inv(s) && At(s, p) && s.procs[p].Clocked?
    ensures PcOk(s, AfterPlan(s, s.procs[p]))
  {
    var pc := s.procs[p];
    assert PcOk(s, pc);
    if pc.job.SinceLast? {
      var last := LastSuccessOf(s.runs, SOURCE);
      if last.Some? {
        assert Succeeded(s.runs, last.value);
      } else {
        assert forall r :: !Succeeded(s.runs, r);
      }
    }
  }

  lemma {:induction false} PlanningStep(s: State, t: State, p: Pid)
    requires Inv(s) && Next(s, MakePlan(p), t)
    ensures Inv(t)
  {
    PlanStep(s, p);
    LocalStep(s, t, p, AfterPlan(s, s.procs[p]));
  }

  /** The runs table with one more run in progress. */
  lemma {:induction false} OpenRun(s: State, plan: Plan)
    requires RunsOk(s) && plan.windowStart <= plan.windowEnd
    ensures var run := Opened(Runs.NextId(s.runs), SOURCE, plan.mode, plan.windowStart, plan.windowEnd, s.clock);
      var u := s.(runs := s.runs + [run]);
      RunsOk(u) && Around(s, u) && HasOpen(u.runs, run.id, plan)
  {
    var run := Opened(Runs.NextId(s.runs), SOURCE, plan.mode, plan.windowStart, plan.windowEnd, s.clock);
    var u := s.(runs := s.runs + [run]);
    StoredKeepsOrder(plan.windowStart, plan.windowEnd);
    StoredTwice(plan.windowEnd);
    hide Stored;
    AppendRun(s.runs, run);
    assert run in u.runs && OpenFor(run, run.id, plan);
    assert forall r :: r in u.runs <==> r in s.runs || r == run;
  }

  lemma {:induction false} StoredTwice(a: Instant)
    ensures Stored(Stored(a)) == Stored(a)
  {
  }

  /** Begin appends one running row with the planned window, or, if that is inverted, nothing. */
  lemma {:induction false} BeginStep(s: State, t: State, p: Pid)
    requires Inv(s) && Next(s, BeginRun(p), t)
    ensures Inv(t)
    ensures var plan := s.procs[p].plan;
      if plan.windowEnd < plan.windowStart then t == Move(s, p, Closing)
      else
        && t.procs[p].Begun? && |t.runs| == |s.runs| + 1 && t.runs[..|s.runs|] == s.runs
        && OpenFor(t.runs[|s.runs|], t.procs[p].runId, plan)
        && (forall i :: 0 <= i < |s.runs| ==> s.runs[i].id < t.procs[p].runId)
  {
    var pc := s.procs[p];
    assert PcOk(s, pc);
    if pc.plan.windowEnd < pc.plan.windowStart {
      LocalStep(s, t, p, Closing);
    } else {
      OpenRun(s, pc.plan);
      var u := s.(runs := t.runs);
      SurroundingsStep(s, u);
      PlanStays(s, u, pc.plan, pc.now);
      LocalStep(u, t, p, t.procs[p]);
    }
  }

  /** The next page, and what it may deliver. */
  lemma {:induction false} PageKeeps(s: State, plan: Plan, now: Instant, w: Walk, list: seq<nat>)
    requires WalkOk(s, plan, now, w) && w.done == |w.answer| && IsAnswer(s.log, |s.log|, plan.anchor, list)
    ensures WalkOk(s, plan, now, NextPage(s.log, w, list))
  {
    var page := Page(list, |w.answer| + 1, w.size);
    assert forall k :: k in page ==> Latest(s.log, |s.log|, k) by {
      assert forall k :: k in page ==> k in list;
    }
    hide HandledOk, InOrder, IsAnswer, EndedBefore, Latest;
    OrderKept(s.log, w.upTo, w.answer, page);
    MoreDelivered(s, w.answer, page, w.done);
  }

  lemma {:induction false} MoreDelivered(s: State, answer: seq<nat>, page: seq<nat>, n: nat)
    requires HandledOk(s, answer, n) && n <= |answer|
    ensures HandledOk(s, answer + page, n)
  {
    assert forall i :: 0 <= i < n ==> (answer + page)[i] == answer[i];
    forall j: nat | LastWord(s.log, answer + page, n, j) ensures Says(s.table, s.log[(answer + page)[j]]) {
      assert LastWord(s.log, answer, n, j);
    }
  }

  lemma {:induction false} OrderKept(log: seq<Revision>, upTo: nat, answer: seq<nat>, page: seq<nat>)
    requires InOrder(log, upTo, answer) && forall k :: k in page ==> Latest(log, |log|, k)
    ensures InOrder(log, upTo, answer + page)
  {
    forall j | 0 <= j < |answer + page| ensures |answer| <= j ==> Latest(log, |log|, (answer + page)[j]) {
      assert |answer| <= j ==> (answer + page)[j] in page;
    }
  }

  lemma {:induction false} FirstPage(s: State, pc: Pc, list: seq<nat>)
    requires PcOk(s, pc) && pc.Begun? && pc.now < s.clock && EndedBefore(s.runs, s.clock)
    requires IsAnswer(s.log, |s.log|, pc.plan.anchor, list)
    ensures PcOk(s, AfterFirst(s, pc, list))
  {
    hide NextPage, IsAnswer, PlanOk, HasOpen, WalkOk, EndedBefore;
    var w := Walk(pc.size, list, |s.log|, |s.log|, s.clock, [], 0, false, NO_COUNTS);
    NothingDelivered(s, pc.plan, pc.now, w);
    PageKeeps(s, pc.plan, pc.now, w, list);
  }

  lemma {:induction false} NothingDelivered(s: State, plan: Plan, now: Instant, w: Walk)
    requires w == Walk(w.size, w.list, |s.log|, |s.log|, s.clock, [], 0, false, NO_COUNTS)
    requires w.size > 0 && now < s.clock && EndedBefore(s.runs, s.clock)
    requires IsAnswer(s.log, |s.log|, plan.anchor, w.list)
    ensures WalkOk(s, plan, now, w)
  {
    hide IsAnswer, EndedBefore;
  }

  lemma {:induction false} FirstStep(s: State, t: State, p: Pid, list: seq<nat>)
    requires Inv(s) && Next(s, FetchFirst(p, list), t)
    ensures Inv(t)
  {
    hide WalkOk, PlanOk, HasOpen, TableOk, LogOk, IsAnswer, AfterFirst, EndedBefore, WellFormed;
    var pc := s.procs[p];
    assert PcOk(s, pc);
    FirstPage(s, pc, list);
    LocalStep(s, t, p, AfterFirst(s, pc, list));
  }

  lemma {:induction false} PageStep(s: State, t: State, p: Pid, list: seq<nat>)
    requires Inv(s) && Next(s, FetchNext(p, list), t)
    ensures Inv(t)
  {
    var pc := s.procs[p];
    assert PcOk(s, pc);
    PageKeeps(s, pc.plan, pc.now, pc.walk, list);
    LocalStep(s, t, p, WithWalk(pc, NextPage(s.log, pc.walk, list)));
  }

  lemma {:induction false} HandledMore(s: State, answer: seq<nat>, done: nat)
    requires HandledOk(s, answer, done) && done < |answer| && answer[done] < |s.log|
    requires Storable(s.log[answer[done]].feature) ==> Says(s.table, s.log[answer[done]])
    ensures HandledOk(s, answer, done + 1)
  {
    forall j: nat | LastWord(s.log, answer, done + 1, j) ensures Says(s.table, s.log[answer[j]]) {
      assert j < done ==> LastWord(s.log, answer, done, j);
    }
  }

  /** A feature is done once it is rejected, or once the table says what it says. */
  lemma {:induction false} HandledStep(s: State, plan: Plan, now: Instant, w: Walk, one: Counts)
    requires WalkOk(s, plan, now, w) && w.done < |w.answer| && one.Total() == 1
    requires w.answer[w.done] < |s.log|
    requires var rev := s.log[w.answer[w.done]]; Storable(rev.feature) ==> Says(s.table, rev)
    ensures WalkOk(s, plan, now, Handled(w, one))
  {
    HandledMore(s, w.answer, w.done);
    SnapshotHandled(s, w, one);
    hide HandledOk, IsAnswer, InOrder, EndedBefore, Says, Storable, Snapshot;
  }

  lemma {:induction false} SnapshotHandled(s: State, w: Walk, one: Counts)
    requires Snapshot(s, w)
    ensures Snapshot(s, Handled(w, one))
  {
  }

  lemma {:induction false} RejectStep(s: State, t: State, p: Pid, quality: Verdict, version: string)
    requires Inv(s) && Next(s, Reject(p, quality, version), t)
    ensures Inv(t)
  {
    var pc := s.procs[p];
    assert PcOk(s, pc);
    HandledStep(s, pc.plan, pc.now, pc.walk, Counts(0, 0, 0, 1));
    LocalStep(s, t, p, WithWalk(pc, Handled(pc.walk, Counts(0, 0, 0, 1))));
  }

  lemma {:induction false} ReadStep(s: State, t: State, p: Pid, quality: Verdict, version: string)
    requires Inv(s) && Next(s, ReadCurrent(p, quality, version), t)
    ensures Inv(t)
  {
    var pc := s.procs[p];
    assert PcOk(s, pc);
    var rev := s.log[pc.walk.answer[pc.walk.done]];
    assert WellFormedRevision(rev);
    LocalStep(s, t, p, AfterRead(s, pc, RecordAt(s, p, quality, version)));
  }

  lemma {:induction false} KeepStep(s: State, t: State, p: Pid)
    requires Inv(s) && Next(s, KeepCurrent(p), t)
    ensures Inv(t)
  {
    var pc := s.procs[p];
    assert PcOk(s, pc);
    HandledStep(s, pc.plan, pc.now, pc.walk, Counts(0, 0, 1, 0));
    LocalStep(s, t, p, AfterDecision(pc, Counts(0, 0, 1, 0)));
  }

  /** The newest row about the revision's event, and it differs from the revision in no column. */
  ghost predicate Stores(table: seq<Version>, rev: Revision) {
    exists i: nat :: IsLatest(table, i, rev.id, 1)
      && rev.feature.Readable? && !Differs(table[i].record.content, rev.feature.event.content)
  }

  lemma {:induction false} SaysMeans(table: seq<Version>, rev: Revision)
    requires ValidTable(table)
    ensures Says(table, rev) <==> Stores(table, rev)
  {
    var current := Current(table, KeyOf(rev));
    CurrentIsLatest(table, rev.id, SOURCE);
    if current.Some? && rev.feature.Readable? {
      SameMeansNoDifference(current.value.record.content, rev.feature.event.content);
    }
    hide Differs, SameContent, Current, IsLatest;
  }

  /** Which counter of the walk each step moves, by what it finds in the table. */
  lemma {:induction false} CounterMoves(s: State, e: Step, t: State)
    requires Inv(s) && Next(s, e, t) && (e.Insert? || e.KeepCurrent? || e.Reject?)
    ensures t.procs[e.p].Walking? && t.procs[e.p].walk.done == s.procs[e.p].walk.done + 1
    ensures var before, after := s.procs[e.p].walk.counts, t.procs[e.p].walk.counts;
      && (e.Reject? ==> after == before.(rejected := before.rejected + 1))
      && (e.KeepCurrent? ==> after == before.(unaltered := before.unaltered + 1))
      && (e.Insert? ==>
            var n := s.procs[e.p].record;
            after == if HasVersion(s.table, n.externalId, n.sourceId) then before.(updated := before.updated + 1)
                     else before.(inserted := before.inserted + 1))
  {
    if e.Insert? {
      var pc := s.procs[e.p];
      assert PcOk(s, pc);
      CacheIsCurrent(s, pc);
      CurrentIsNewest(s.table, |s.table|, RecordKey(pc.record));
    }
    hide Inv, CurrentAmong, NewRow, StampTaken, IsAnswer;
  }

  /** Writing the next feature of a walk: the table says it, and still says every feature handled before it. */
  lemma {:induction false} InsertSays(s: State, plan: Plan, now: Instant, w: Walk, n: Record, table: seq<Version>,
      rev: Revision)
    requires LogOk(s) && WalkOk(s, plan, now, w) && CacheOk(s, w, n, Current(s.table, RecordKey(n)))
    requires table == s.table + [NewRow(s.table, n, s.clock)] && ValidTable(table)
    requires rev == s.log[w.answer[w.done]] || (rev.id != s.log[w.answer[w.done]].id && Says(s.table, rev))
    ensures Says(table, rev)
  {
    var v := NewRow(s.table, n, s.clock);
    CurrentAppend(s.table, v, KeyOf(rev));
    if rev == s.log[w.answer[w.done]] {
      NormalizedCompares(n.content, n.content);
    }
  }

  lemma {:induction false} InsertWalk(s: State, t: State, plan: Plan, now: Instant, w: Walk, n: Record, one: Counts)
    requires LogOk(s) && WalkOk(s, plan, now, w) && CacheOk(s, w, n, Current(s.table, RecordKey(n))) && one.Total() == 1
    requires t == s.(table := s.table + [NewRow(s.table, n, s.clock)], procs := t.procs) && ValidTable(t.table)
    ensures WalkOk(t, plan, now, Handled(w, one))
  {
    assert Storable(s.log[w.answer[w.done]].feature);
    forall j: nat | LastWord(t.log, w.answer, w.done + 1, j) ensures Says(t.table, t.log[w.answer[j]]) {
      if j < w.done {
        assert LastWord(s.log, w.answer, w.done, j);
      }
      InsertSays(s, plan, now, w, n, t.table, s.log[w.answer[j]]);
    }
    hide Says, LastWord, Storable, InOrder, IsAnswer, EndedBefore, CacheOk, NewRow;
  }

  lemma {:induction false} CacheIsCurrent(s: State, pc: Pc)
    requires PcOk(s, pc) && pc.Deciding?
    ensures CacheOk(s, pc.walk, pc.record, Current(s.table, RecordKey(pc.record)))
  {
  }

  lemma {:induction false} InsertStep(s: State, t: State, p: Pid)
    requires Inv(s) && Next(s, Insert(p), t)
    ensures Inv(t)
  {
    hide WalkOk, TableOk, ValidTable, NoFakeRevision, CacheOk, SaveAt, NewRow, StampTaken;
    var pc := s.procs[p];
    assert PcOk(s, pc);
    CacheIsCurrent(s, pc);
    InsertTable(s, t, p);
    var one := if pc.cached.Some? then Counts(0, 1, 0, 0) else Counts(1, 0, 0, 0);
    InsertWalk(s, t, pc.plan, pc.now, pc.walk, pc.record, one);
    assert forall q :: q in t.procs ==> q == p;
  }

  /** The version a process read before it inserts is the one its row supersedes: no revision it writes is fake. */
  lemma {:induction false} InsertTable(s: State, t: State, p: Pid)
    requires Inv(s) && Next(s, Insert(p), t)
    ensures TableOk(t) && ValidTable(t.table)
    ensures t.table == SaveAt(s.table, s.procs[p].record, s.clock).0
  {
    var pc := s.procs[p];
    assert PcOk(s, pc);
    CollidesMeansTaken(s.table, RecordKey(pc.record), s.clock);
    SaveKeeps(s.table, pc.record, s.clock);
  }

  /** Closing the process's own run, while it is open. */
  lemma {:induction false} CloseStep(s: State, t: State, p: Pid, result: Outcome, counts: Counts, error: Option<string>)
    requires Inv(s) && At(s, p) && HasOpenRun(s.procs[p]) && result in {Success, Failure}
    requires result == Failure ==> error.Some? && error.value != ""
    requires result == Success ==> s.procs[p].now < s.clock
    requires t == Move(s.(runs := Closed(s.runs, s.procs[p].runId, result, counts, error, s.clock)), p, Closing)
    ensures Inv(t)
    ensures ClosesOnly(s.runs, t.runs, s.procs[p].runId, result, counts, error, s.clock)
    ensures forall r :: r in s.runs && r.id == s.procs[p].runId ==> r.result == Running
  {
    var pc := s.procs[p];
    assert PcOk(s, pc);
    assert pc.plan.windowEnd <= pc.now;
    CloseOpen(s, pc.runId, pc.plan, result, counts, error);
    var u := s.(runs := t.runs, procs := map[]);
    assert Inv(u);
    assert t.procs == u.procs[p := Closing] by {
      assert forall q :: q in s.procs ==> q == p;
    }
    LocalStep(u, t, p, Closing);
  }

  lemma {:induction false} CloseOpen(s: State, id: int, plan: Plan, result: Outcome, counts: Counts,
      error: Option<string>)
    requires RunsOk(s) && HasOpen(s.runs, id, plan) && result in {Success, Failure}
    requires result == Failure ==> error.Some? && error.value != ""
    requires result == Success ==> plan.windowEnd < s.clock
    ensures var u := s.(runs := Closed(s.runs, id, result, counts, error, s.clock));
      && RunsOk(u) && ClosesOnly(s.runs, u.runs, id, result, counts, error, s.clock)
      && forall q :: q in s.runs && q.id == id ==> q.result == Running
  {
    var r :| r in s.runs && OpenFor(r, id, plan);
    OnlyRow(s.runs, id, r);
    CloseRun(s.runs, id, result, counts, error, s.clock, r);
    hide Stored, WellFormed;
  }

  lemma {:induction false} OnlyRow(rows: seq<Run>, id: int, r: Run)
    requires WellFormed(rows) && r in rows && r.id == id
    ensures forall i :: 0 <= i < |rows| && rows[i].id == id ==> rows[i] == r
  {
  }

  lemma {:induction false} ClosingStep(s: State, e: Step, t: State)
    requires Inv(s) && Next(s, e, t) && (e.FinishRun? || e.FailRun?)
    ensures Inv(t)
  {
    assert PcOk(s, s.procs[e.p]);
    if e.FinishRun? {
      CloseStep(s, t, e.p, Success, s.procs[e.p].walk.counts, None);
    } else {
      CloseStep(s, t, e.p, Failure, e.counts, Some(e.cause));
    }
  }

  // ---------------------------------------------------------------------------
  // Every step, and every history
  // ---------------------------------------------------------------------------

  lemma {:induction false} StepKeeps(s: State, e: Step, t: State)
    requires Inv(s) && Next(s, e, t)
    ensures Inv(t)
  {
    hide *;
    match e {
      case Tick(now) => EnvironmentStep(s, e, t);
      case Publish(rev) => EnvironmentStep(s, e, t);
      case StrandLock(p) => EnvironmentStep(s, e, t);
      case DropSession(p) => EnvironmentStep(s, e, t);
      case Release(p, unlocked) => EnvironmentStep(s, e, t);
      case Crash(p) => EnvironmentStep(s, e, t);
      case SkipCycle(read, reason) => SkipStep(s, t, read, reason);
      case TryLock(p, job) => EntryStep(s, e, t, p);
      case ReadClock(p) => EntryStep(s, e, t, p);
      case GiveUp(p) => EntryStep(s, e, t, p);
      case MakePlan(p) => PlanningStep(s, t, p);
      case BeginRun(p) => BeginStep(s, t, p);
      case FetchFirst(p, list) => FirstStep(s, t, p, list);
      case FetchNext(p, list) => PageStep(s, t, p, list);
      case Reject(p, quality, version) => RejectStep(s, t, p, quality, version);
      case ReadCurrent(p, quality, version) => ReadStep(s, t, p, quality, version);
      case KeepCurrent(p) => KeepStep(s, t, p);
      case Insert(p) => InsertStep(s, t, p);
      case FailRun(p, cause, counts) => ClosingStep(s, e, t);
      case FinishRun(p) => ClosingStep(s, e, t);
    }
  }

  lemma {:induction false} EnvironmentStep(s: State, e: Step, t: State)
    requires Inv(s) && Next(s, e, t)
    requires e.Tick? || e.Publish? || e.StrandLock? || e.DropSession? || e.Release? || e.Crash?
    ensures Inv(t)
  {
    SurroundingsStep(s, t);
  }

  lemma {:induction false} EntryStep(s: State, e: Step, t: State, p: Pid)
    requires Inv(s) && Next(s, e, t)
    requires e == ReadClock(p) || e == GiveUp(p) || (e.TryLock? && e.p == p)
    ensures Inv(t)
  {
    var free := s.(lock := Some(p));
    assert Around(s, free);
    SurroundingsStep(s, free);
    LocalStep(free, t, p, t.procs[p]);
  }

  lemma {:induction false} InvariantAtStart(s: State)
    requires Init(s)
    ensures Inv(s)
  {
  }

  lemma {:induction false} Invariant(h: seq<State>, steps: seq<Step>, k: nat)
    requires Execution(h, steps) && k < |h|
    ensures Inv(h[k])
  {
    hide Inv, Next;
    if k == 0 {
      InvariantAtStart(h[0]);
    } else {
      Invariant(h, steps, k - 1);
      assert Next(h[k - 1], steps[k - 1], h[k]);
      StepKeeps(h[k - 1], steps[k - 1], h[k]);
    }
  }

  /** A step of a history: it starts from the invariant and is one of the actions. */
  lemma {:induction false} StepAt(h: seq<State>, steps: seq<Step>, i: nat)
    requires Execution(h, steps) && i < |steps|
    ensures |h| == |steps| + 1 && Inv(h[i]) && Next(h[i], steps[i], h[i + 1])
  {
    Invariant(h, steps, i);
    hide Inv, Next;
  }

  lemma {:induction false} StartsEmpty(h: seq<State>, steps: seq<Step>)
    requires Execution(h, steps)
    ensures |h| == |steps| + 1 && h[0].runs == [] && h[0].table == []
  {
    hide Next;
  }
}
