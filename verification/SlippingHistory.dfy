/** How far the source's list may shift between two requests before a walk over its pages can lose a revision. */
module SlippingHistory {
  import opened Prelude
  import opened Runs
  import opened Earthquakes
  import opened Collect
  import opened Protocol
  import opened Safety
  import opened NoLostRevision
  import opened Example
  import opened LosingHistory

  /** Every process asked for pages of this size. */
  ghost predicate SizeIs(steps: seq<Step>, size: nat) {
    forall i :: 0 <= i < |steps| && steps[i].TryLock? ==> PageSize(steps[i].job.requested) == size
  }

  /** A history in which nothing slips by more than that. */
  ghost predicate Slipping(h: seq<State>, steps: seq<Step>, size: nat, slip: nat) {
    Execution(h, steps) && SizeIs(steps, size) && Slips(slip, h, steps, |steps|)
  }

  /** Lost, and older than the anchor of the next cycle, which will not ask for it again. */
  ghost predicate Forgotten(s: State, k: nat) {
    Lost(s, k) && forall fallback :: s.log[k].updated <= FloorSecond(Anchor(s.runs, s.clock, fallback))
  }

  /** A history that forgets revision k although every success is incremental. */
  ghost predicate LosesBySlipping(h: seq<State>, steps: seq<Step>, k: nat, size: nat, slip: nat) {
    Slipping(h, steps, size, slip) && AllIncremental(h[|h| - 1].runs) && Forgotten(h[|h| - 1], k)
  }

  // ---------------------------------------------------------------------------
  // One feature that slips by one place
  // ---------------------------------------------------------------------------

  function Name(i: nat): string {
    seq(i + 1, _ => 'e')
  }

  /** Some seconds before the anchor of a cycle that follows one at instant 0. */
  const UPDATED: Instant := -SAFETY_OVERLAP - 10_000_000_000

  /** size features on the first page, which cannot be read, and one behind them, which can. */
  function Listed(size: nat, i: nat): Revision {
    Revision(Name(i), if i == size then Readable(Event(Name(i), SOME_CONTENT, None, "{}")) else Unreadable,
             UPDATED, UPDATED)
  }

  function Log(size: nat): seq<Revision> {
    seq(size + 1, i requires 0 <= i => Listed(size, i))
  }

  /** The source revises the first of them. */
  const REVISED := Revision("e", Unreadable, 1, 1)

  function FirstList(size: nat): seq<nat> {
    seq(size + 1, i requires 0 <= i => i)
  }

  /** It moves to the end, and all the others one place to the front. */
  function NextList(size: nat): seq<nat> {
    seq(size + 1, i requires 0 <= i => i + 1)
  }

  const JOB_START: Instant := -2 * SAFETY_OVERLAP

  const PLAN := Plan(Incremental, Some(JOB_START), JOB_START, 0)

  function Beginning(size: nat): State {
    State(0, None, [], [], Log(size), map[])
  }

  /** Process 1 in the middle of its walk. */
  function MidWalk(log: seq<Revision>, w: Walk): State {
    State(1, Some(1), [Opened(1, SOURCE, Incremental, JOB_START, 0, 0)], [], log, map[1 := Walking(1, PLAN, 0, w)])
  }

  /** The first page, with `done` of its features rejected. */
  function FirstWalk(size: nat, done: nat): Walk {
    Walk(size, FirstList(size), size + 1, size + 1, 1, FirstList(size)[..size], done, false, Counts(0, 0, 0, done))
  }

  /** The second page as well. */
  function NextWalk(size: nat, done: nat): Walk {
    Walk(size, NextList(size), size + 2, size + 1, 1, FirstList(size)[..size] + [size + 1], done, size > 1,
         Counts(0, 0, 0, done))
  }

  function RejectedAll(w: Walk, n: nat): Walk {
    w.(done := w.done + n, counts := w.counts.(rejected := w.counts.rejected + n))
  }

  /** Some history in which nothing slips by more than one place ends here. */
  ghost predicate Reached(s: State, size: nat) {
    exists h, steps :: Slipping(h, steps, size, 1) && h[|h| - 1] == s
  }

  /** One more step of such a history. */
  lemma {:induction false} OnwardSlipping(s: State, size: nat, e: Step, t: State)
    requires Reached(s, size) && Next(s, e, t) && (e.FetchNext? ==> StepCrosses(1, s, e))
    requires e.TryLock? ==> PageSize(e.job.requested) == size
    ensures Reached(t, size)
  {
    var h, steps :| Slipping(h, steps, size, 1) && h[|h| - 1] == s;
    assert StepCrosses(1, s, e);
    hide Next, StepCrosses, PageSize;
    Extend(h, steps, e, t);
    var h2, steps2 := h + [t], steps + [e];
    forall i | 0 <= i < |steps2| ensures StepCrosses(1, h2[i], steps2[i]) {
      assert i < |steps| ==> StepCrosses(1, h[i], steps[i]) && h2[i] == h[i] && steps2[i] == steps[i];
    }
    assert Slipping(h2, steps2, size, 1);
  }

  /** Which revisions are shown at the two requests. */
  lemma {:induction false} Shown(size: nat, k: nat)
    ensures Latest(Log(size), size + 1, k) <==> k <= size
    ensures Latest(Log(size) + [REVISED], size + 2, k) <==> 1 <= k <= size + 1
  {
    var log := Log(size) + [REVISED];
    assert forall m :: 0 <= m <= size ==> log[m] == Log(size)[m] && |log[m].id| == m + 1;
    assert |log[size + 1].id| == 1;
    assert log[size + 1].id == log[0].id;
  }

  lemma {:induction false} Answers(size: nat)
    ensures IsAnswer(Log(size), size + 1, PLAN.anchor, FirstList(size))
    ensures IsAnswer(Log(size) + [REVISED], size + 2, PLAN.anchor, NextList(size))
  {
    forall k: nat ensures Latest(Log(size), size + 1, k) <==> k in FirstList(size) {
      Shown(size, k);
      assert k <= size ==> FirstList(size)[k] == k;
    }
    forall k: nat ensures Latest(Log(size) + [REVISED], size + 2, k) <==> k in NextList(size) {
      Shown(size, k);
      assert 1 <= k <= size + 1 ==> NextList(size)[k - 1] == k;
    }
    hide Latest, Log, FirstList, NextList;
  }

  /** The first request, and the first page. */
  lemma {:induction false} FirstAnswered(size: nat)
    ensures var s := BegunState(Beginning(size), PLAN, size);
      && Next(s, Tick(1), s.(clock := 1))
      && Next(s.(clock := 1), FetchFirst(1, FirstList(size)), MidWalk(Log(size), FirstWalk(size, 0)))
  {
    var s := BegunState(Beginning(size), PLAN, size);
    var list := FirstList(size);
    Answers(size);
    assert [] + Page(list, 1, size) == list[..size];
    assert AfterFirst(s.(clock := 1), s.procs[1], list) == Walking(1, PLAN, 0, FirstWalk(size, 0));
    hide IsAnswer;
  }

  lemma {:induction false} ReachFirst(size: nat)
    requires 0 < size <= MAX_EVENTS_PER_REQUEST
    ensures Reached(MidWalk(Log(size), FirstWalk(size, 0)), size)
  {
    var s, job := Beginning(size), SinceLast(2 * SAFETY_OVERLAP, size);
    RunPlans(s, job, PLAN);
    RunOpens(s, PLAN, size);
    FirstAnswered(size);
    assert Slipping([s], [], size, 1);
    hide Next, Slipping, FirstWalk, FirstList, BegunState, LockedBy;
    OnwardSlipping(s, size, TryLock(1, job), LockedBy(s, Locked(job)));
    OnwardSlipping(LockedBy(s, Locked(job)), size, ReadClock(1), LockedBy(s, Clocked(job, 0)));
    OnwardSlipping(LockedBy(s, Clocked(job, 0)), size, MakePlan(1), LockedBy(s, Planned(PLAN, 0, size)));
    var begun := BegunState(s, PLAN, size);
    OnwardSlipping(LockedBy(s, Planned(PLAN, 0, size)), size, BeginRun(1), begun);
    OnwardSlipping(begun, size, Tick(1), begun.(clock := 1));
    OnwardSlipping(begun.(clock := 1), size, FetchFirst(1, FirstList(size)), MidWalk(Log(size), FirstWalk(size, 0)));
  }

  const NO_VERDICT := Verdict(Unevaluated, [])

  /** Features from..to of what was delivered cannot be read. */
  ghost predicate CannotBeRead(log: seq<Revision>, answer: seq<nat>, from: nat, to: nat) {
    to <= |answer| && forall i :: from <= i < to ==> answer[i] < |log| && log[answer[i]].feature.Unreadable?
  }

  /** The next n features, none of which can be read, are rejected one by one. */
  lemma {:induction false} RejectAll(size: nat, log: seq<Revision>, w: Walk, n: nat)
    requires Reached(MidWalk(log, w), size) && CannotBeRead(log, w.answer, w.done, w.done + n)
    ensures Reached(MidWalk(log, RejectedAll(w, n)), size)
  {
    if n == 0 {
      assert RejectedAll(w, 0) == w;
    } else {
      RejectAll(size, log, w, n - 1);
      var v := RejectedAll(w, n - 1);
      assert Handled(v, Counts(0, 0, 0, 1)) == RejectedAll(w, n);
      hide Reached;
      OnwardSlipping(MidWalk(log, v), size, Reject(1, NO_VERDICT, ""), MidWalk(log, RejectedAll(w, n)));
    }
  }

  /** Another request after the revision: its list has only slipped by one place. */
  lemma {:induction false} AskAgain(size: nat, w: Walk)
    requires Reached(MidWalk(Log(size) + [REVISED], w), size) && Delivered(w) && !w.short
    requires w.list in {FirstList(size), NextList(size)} && |w.answer| in {size, size + 1}
    ensures Reached(MidWalk(Log(size) + [REVISED], NextPage(Log(size) + [REVISED], w, NextList(size))), size)
  {
    var log := Log(size) + [REVISED];
    Answers(size);
    assert StepCrosses(1, MidWalk(log, w), FetchNext(1, NextList(size)));
    hide Reached, IsAnswer, NextPage, StepCrosses;
    OnwardSlipping(MidWalk(log, w), size, FetchNext(1, NextList(size)), MidWalk(log, NextPage(log, w, NextList(size))));
  }

  /** Both pages: features that cannot be read, a revision between them, and one place slipped. */
  lemma {:induction false} Pages(size: nat)
    ensures CannotBeRead(Log(size), FirstWalk(size, 0).answer, 0, size)
    ensures CannotBeRead(Log(size) + [REVISED], NextWalk(size, size).answer, size, size + 1)
    ensures var w, log := FirstWalk(size, size), Log(size) + [REVISED];
      && Next(MidWalk(Log(size), w), Publish(REVISED), MidWalk(log, w))
      && Delivered(w) && !w.short && w.list == FirstList(size) && |w.answer| == size
      && w == RejectedAll(FirstWalk(size, 0), size) && FirstWalk(size, 0).done == 0
  {
  }

  lemma {:induction false} SecondPage(size: nat)
    ensures size > 0 ==>
      NextPage(Log(size) + [REVISED], FirstWalk(size, size), NextList(size)) == NextWalk(size, size)
    ensures NextWalk(size, size).done == size && RejectedAll(NextWalk(size, size), 1) == NextWalk(size, size + 1)
  {
    var asked := FirstWalk(size, size).answer;
    assert |asked| == size;
    assert size > 0 ==> Page(NextList(size), |asked| + 1, size) == [size + 1];
    hide FirstList, NextList, Log, Page;
  }

  lemma {:induction false} ReachNext(size: nat)
    requires 0 < size <= MAX_EVENTS_PER_REQUEST
    ensures Reached(MidWalk(Log(size) + [REVISED], NextWalk(size, size + 1)), size)
  {
    hide *;
    var log, w := Log(size) + [REVISED], FirstWalk(size, size);
    ReachFirst(size);
    Pages(size);
    RejectAll(size, Log(size), FirstWalk(size, 0), size);
    OnwardSlipping(MidWalk(Log(size), w), size, Publish(REVISED), MidWalk(log, w));
    AskAgain(size, w);
    SecondPage(size);
    RejectAll(size, log, NextWalk(size, size), 1);
  }

  /** How it ends: nothing stored, and a success that counts what was delivered. */
  function Ending(size: nat): State {
    var run := ClosedRow(Opened(1, SOURCE, Incremental, JOB_START, 0, 0), Success, Counts(0, 0, 0, size + 1), None, 1);
    State(1, None, [run], [], Log(size) + [REVISED], map[])
  }

  lemma {:induction false} Ends(size: nat, w: Walk)
    ensures Delivered(w) && w.short && w.counts == Counts(0, 0, 0, size + 1) ==>
      var s := Ending(size).(lock := Some(1), procs := map[1 := Closing]);
      Next(MidWalk(Log(size) + [REVISED], w), FinishRun(1), s) && Next(s, Release(1, true), Ending(size))
  {
    var s := MidWalk(Log(size) + [REVISED], w);
    assert w.counts == Counts(0, 0, 0, size + 1) ==>
      Closed(s.runs, 1, Success, w.counts, None, 1) == Ending(size).runs;
    assert map[1 := Closing] - {1} == map[];
  }

  /** With pages of one feature the second page was full, and a third request brings an empty one. */
  lemma {:induction false} ReachEnding(size: nat)
    requires 0 < size <= MAX_EVENTS_PER_REQUEST
    ensures Reached(Ending(size), size)
  {
    var log, w := Log(size) + [REVISED], NextWalk(size, size + 1);
    ReachNext(size);
    if size == 1 {
      AskAgain(size, w);
      w := NextPage(log, w, NextList(size));
      assert |w.answer| == 2 && w.short;
    }
    Ends(size, w);
    hide Reached, Next, MidWalk, Ending, Log, FirstList, NextList, NextPage;
    var s := Ending(size).(lock := Some(1), procs := map[1 := Closing]);
    OnwardSlipping(MidWalk(log, w), size, FinishRun(1), s);
    OnwardSlipping(s, size, Release(1, true), Ending(size));
  }

  lemma {:induction false} EndingLoses(size: nat)
    requires size > 0
    ensures AllIncremental(Ending(size).runs) && Forgotten(Ending(size), size)
  {
    var s := Ending(size);
    Shown(size, size);
    var r := s.runs[0];
    assert Cycle(s.runs, r) && FloorSecond(r.windowStart) == JOB_START && r.windowEnd == 0;
    assert LastSuccessOf(s.runs, SOURCE) == Some(r);
    assert s.log[size] == Listed(size, size);
    hide Latest;
  }

  /**
   * May the list shift while its pages are being fetched? Only if nothing still to come moves in front of what was
   * already asked for: as soon as one place is allowed, one revision between two requests loses another event's, which
   * the next cycle does not ask for again. No page size helps.
   */
  lemma {:induction false} SlipLosesExactly(size: nat, slip: nat)
    requires 0 < size <= MAX_EVENTS_PER_REQUEST
    ensures (exists h: seq<State>, steps: seq<Step>, k: nat :: LosesBySlipping(h, steps, k, size, slip)) <==> slip > 0
  {
    if slip == 0 {
      forall h: seq<State>, steps: seq<Step>, k: nat ensures !LosesBySlipping(h, steps, k, size, slip) {
        if LosesBySlipping(h, steps, k, size, slip) {
          IncrementalHistoryIsTame(h, steps, |h| - 1);
          DueIsStored(h, steps, |h| - 1, k);
        }
      }
    } else {
      ReachEnding(size);
      EndingLoses(size);
      var h, steps :| Slipping(h, steps, size, 1) && h[|h| - 1] == Ending(size);
      forall i | 0 <= i < |steps| ensures StepCrosses(slip, h[i], steps[i]) {
        assert StepCrosses(1, h[i], steps[i]);
      }
      assert LosesBySlipping(h, steps, size, size, slip);
    }
  }
}
