/** The reads of EarthquakeList while the ingestion protocol runs: what they promise holds in every history of it. */
module StableReads {
  import opened Prelude
  import opened Earthquakes
  import opened Collect
  import opened Protocol
  import opened Safety
  import opened Keyset
  import Honesty
  import EarthquakeList
  import Walk

  /** What a reader can see of a state. */
  function StoreOf(s: State): EarthquakeList.Store {
    EarthquakeList.Store(s.table, s.clock)
  }

  function Stores(h: seq<State>): seq<EarthquakeList.Store> {
    seq(|h|, i requires 0 <= i < |h| => StoreOf(h[i]))
  }

  /** To a reader every step of the protocol is one Save, or the clock moving on, or nothing. */
  lemma {:induction false} StepIsSave(h: seq<State>, steps: seq<Step>, n: nat)
    requires Execution(h, steps) && n < |steps|
    ensures EarthquakeList.StoreStep(StoreOf(h[n]), StoreOf(h[n + 1]))
  {
    hide *;
    StepAt(h, steps, n);
    var e := steps[n];
    if e.Insert? {
      InsertDecides(h[n], e.p, h[n + 1]);
      Honesty.InsertIsSave(h, steps, n, e.p);
      SaveIsStep(h[n], h[n + 1], h[n].procs[e.p].record);
    } else {
      OtherIsStep(h[n], e, h[n + 1]);
    }
  }

  lemma {:induction false} InsertDecides(s: State, p: Pid, t: State)
    requires Next(s, Insert(p), t)
    ensures p in s.procs && s.procs[p].Deciding? && t.clock == s.clock
  {
  }

  lemma {:induction false} SaveIsStep(s: State, t: State, n: Record)
    requires t.table == SaveAt(s.table, n, t.clock).0 && s.clock == t.clock
    ensures EarthquakeList.StoreStep(StoreOf(s), StoreOf(t))
  {
  }

  lemma {:induction false} OtherIsStep(s: State, e: Step, t: State)
    requires Next(s, e, t) && !e.Insert?
    ensures EarthquakeList.StoreStep(StoreOf(s), StoreOf(t))
  {
    assert t.table == s.table && s.clock <= t.clock;
  }

  lemma {:induction false} ProtocolIsStore(h: seq<State>, steps: seq<Step>)
    requires Execution(h, steps)
    ensures EarthquakeList.StoreHistory(Stores(h)) && |h| > 0
  {
    StartsEmpty(h, steps);
    var stores := Stores(h);
    forall i | 0 <= i < |stores| - 1 ensures EarthquakeList.StoreStep(stores[i], stores[i + 1]) {
      StepIsSave(h, steps, i);
    }
    hide Execution, EarthquakeList.StoreStep;
  }

  /**
   * Whatever processes do, fail at or crash in between, a read at an instant before the microsecond the clock is in
   * gets the same answer ever after.
   */
  lemma {:induction false} ReadsStay(h: seq<State>, steps: seq<Step>, early: nat, late: nat, q: EarthquakeList.Query,
      asOf: Instant, st: EarthquakeList.Statement, metric: Metric)
    requires Execution(h, steps) && early <= late < |h| && asOf < Stored(h[early].clock)
    requires EarthquakeList.Expresses(st, q, asOf)
    ensures ValidTable(h[early].table) && ValidTable(h[late].table)
    ensures EarthquakeList.Execute(h[late].table, st, metric) == EarthquakeList.Execute(h[early].table, st, metric)
  {
    ProtocolIsStore(h, steps);
    assert Stores(h)[early] == StoreOf(h[early]) && Stores(h)[late] == StoreOf(h[late]);
    hide EarthquakeList.Execute, EarthquakeList.Expresses, Execution, EarthquakeList.StoreHistory, Stored;
    EarthquakeList.AsOfStable(Stores(h), early, late, q, asOf, st, metric);
  }

  /** What request i of a walk is answered from: the table in state at[i]. */
  ghost function TablesAt(h: seq<State>, steps: seq<Step>, at: seq<nat>): (r: seq<seq<Version>>)
    requires Execution(h, steps) && forall i :: 0 <= i < |at| ==> at[i] < |h|
    ensures |r| == |at| && forall i :: 0 <= i < |at| ==> r[i] == h[at[i]].table && ValidTable(r[i])
  {
    ProtocolIsStore(h, steps);
    EarthquakeList.Tables(Stores(h), at)
  }

  /**
   * And a walk over the pages at such an instant, each request answered in a later state of the history, returns every
   * matching event exactly once and in order while collections go on around it.
   */
  lemma {:induction false} WalkDuringRuns(h: seq<State>, steps: seq<Step>, at: seq<nat>,
      sts: seq<EarthquakeList.Statement>, q: EarthquakeList.Query, asOf: Instant, metric: Metric)
    requires Execution(h, steps) && |at| == |sts| > 0 && q.limit > 0
    requires EarthquakeList.CursorOf(q).None? && EarthquakeList.Specified(q)
    requires forall i :: 0 <= i < |at| ==> at[0] <= at[i] < |h|
    requires asOf < Stored(h[at[0]].clock)
    requires EarthquakeList.Follows(TablesAt(h, steps, at), sts, q, asOf, metric, 0, None)
    ensures var rows := EarthquakeList.Matching(h[at[0]].table, q, asOf, metric);
      var rank := EarthquakeList.Ranking(EarthquakeList.NearOf(q), metric);
      && Distinct(rows, rank)
      && var all := OrderBy(rows, rank);
         EarthquakeList.Returned(TablesAt(h, steps, at), sts, q, metric, 0)
           == if |at| > Walk.FullPages(|all|, q.limit) then Some(all) else None
  {
    ProtocolIsStore(h, steps);
    assert Stores(h)[at[0]] == StoreOf(h[at[0]]);
    assert EarthquakeList.Tables(Stores(h), at) == TablesAt(h, steps, at);
    EarthquakeList.PageWalk(Stores(h), at, sts, q, asOf, metric);
  }
}
