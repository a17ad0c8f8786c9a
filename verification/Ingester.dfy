/** One collection with its run recorded whatever happens, and the incremental cycle around it. */
module Ingester {
  import opened Prelude
  import opened Runs
  import opened Earthquakes
  import opened Collect
  import opened Protocol
  import opened Safety
  import opened NoLostRevision

  /**
   * What a collection meets: the clock it plans by and the database's at both ends, the source's list, the page size
   * asked for, which requests are answered, the text of the error that breaks it off if one does, and whether the
   * statement that closes the run goes through.
   */
  datatype Circumstances = Circumstances(
    now: Instant, begunAt: Instant, closedAt: Instant, source: seq<Delivery>, requested: int, answered: nat -> bool,
    version: string, cause: string, recorded: bool)

  /** One row more, of this mode and window, and no other row touched. */
  ghost predicate AppendsRun(before: seq<Run>, after: seq<Run>, mode: Mode, windowStart: Instant, windowEnd: Instant) {
    && |after| == |before| + 1 && after[..|before|] == before
    && var run := after[|before|];
    && run.id == Runs.NextId(before) && run.sourceId == SOURCE && run.mode == mode
    && run.windowStart == Stored(windowStart) && run.windowEnd == Stored(windowEnd)
  }

  /** The table with some of the source's features handled, in order. */
  ghost predicate HandledSome(before: seq<Version>, after: seq<Version>, c: Circumstances) {
    exists n :: 0 <= n <= |c.source| && after == Ingest(before, c.source, n, Origin(SOURCE, c.version)).rows
  }

  /** And these counts are of those features, with perhaps some rejections of the page it broke off in. */
  ghost predicate Counted(before: seq<Version>, after: seq<Version>, c: Circumstances, counts: Counts) {
    exists n :: 0 <= n <= |c.source|
      && after == Ingest(before, c.source, n, Origin(SOURCE, c.version)).rows
      && CountsAll(counts, Ingest(before, c.source, n, Origin(SOURCE, c.version)).counts)
  }

  /**
   * What a collection leaves of its window. An inverted one leaves no trace. Otherwise exactly one run is recorded: a
   * success, with every feature handled and counted, if and only if nothing broke it off and the closing statement went
   * through; a failure with what was managed until then; or, if the closing statement fails, one that stays running.
   */
  ghost predicate Recorded(before: seq<Run>, after: seq<Run>, versions: seq<Version>, newer: seq<Version>, mode: Mode,
      windowStart: Instant, windowEnd: Instant, c: Circumstances, ok: bool)
  {
    if windowEnd < windowStart then !ok && after == before && newer == versions
    else
      && AppendsRun(before, after, mode, windowStart, windowEnd) && HandledSome(versions, newer, c)
      && var run := after[|before|];
      && run.result in {Running, Success, Failure} && (run.result == Success <==> ok)
      && (ok <==> c.recorded && GoesThrough(versions, c.source, c.requested, c.answered, Origin(SOURCE, c.version)))
      && (run.result == Failure <==> !ok && c.recorded && c.cause != "")
      && (run.result == Failure ==> run.error == c.cause)
      && (run.result != Running ==> Counted(versions, newer, c, run.counts))
      && (run.result != Running ==> CountsAre(versions, newer, c.source, run.counts, ok))
      && (forall k :: |versions| <= k < |newer| ==> CameFrom(newer[k], c.source, Origin(SOURCE, c.version)))
      && (ok ==>
            && Ingest(versions, c.source, |c.source|, Origin(SOURCE, c.version)) == Tally(newer, run.counts, true)
            && run.counts.Total() == |c.source|)
  }

  /** The row that was just appended, closed: its id is above every other one. */
  lemma {:induction false} ClosesTheNewOne(before: seq<Run>, run: Run, after: seq<Run>, result: Outcome, counts: Counts,
      error: Option<string>, now: Instant)
    requires WellFormed(before) && run.id == Runs.NextId(before)
    requires HasRun(before + [run], run.id) ==> ClosesOnly(before + [run], after, run.id, result, counts, error, now)
    ensures HasRun(before + [run], run.id) && |after| == |before| + 1 && after[..|before|] == before
    ensures after[|before|] == ClosedRow(run, result, counts, error, now)
  {
    assert (before + [run])[|before|] == run;
    hide ClosedRow;
  }

  /** The collection behind a manual run, a backfill and a cycle. */
  method IngestWindow(runs: IngestionRuns, table: EarthquakeTable, mode: Mode, windowStart: Instant,
      windowEnd: Instant, c: Circumstances)
    returns (ok: bool)
    requires runs.Valid() && table.Valid() && Orderly(c.source) && ClockAhead(c.source, 0, table.rows)
    modifies runs, table
    ensures runs.Valid() && table.Valid()
    ensures Recorded(old(runs.rows), runs.rows, old(table.rows), table.rows, mode, windowStart, windowEnd, c, ok)
  {
    hide Closed, WellFormed, ValidTable, NoFakeRevision, Orderly, ClockAhead, Ingest, Stored, CountsAll, ClosesOnly,
      GoesThrough, CountsAre, CameFrom;
    ghost var before := runs.rows;
    var begun := runs.Begin(SOURCE, mode, windowStart, windowEnd, c.begunAt);
    if begun.Err? {
      return false;
    }
    var counts, requests, handled, collected :=
      CollectPages(table, c.source, c.requested, c.answered, Origin(SOURCE, c.version));
    ok := false;
    if c.recorded {
      if collected {
        var done := runs.Finish(begun.value.id, counts, c.closedAt);
        ClosesTheNewOne(before, begun.value, runs.rows, Success, counts, None, c.closedAt);
        ok := done.Ok?;
      } else {
        var failed := runs.Fail(begun.value.id, Some(c.cause), counts, c.closedAt);
        if failed.Ok? {
          ClosesTheNewOne(before, begun.value, runs.rows, Failure, counts, Some(c.cause), c.closedAt);
        }
      }
    }
  }

  /** The same, over the window of a cycle: from fifteen minutes before the last success's end, and never past now. */
  ghost predicate CycleRecorded(before: seq<Run>, after: seq<Run>, versions: seq<Version>, newer: seq<Version>,
      fallback: int, c: Circumstances, ok: bool)
  {
    var last := LastSuccessOf(before, 1);
    var start := if last.None? then c.now - fallback else last.value.windowEnd - 900_000_000_000;
    Recorded(before, after, versions, newer, Incremental, if last.Some? && c.now < start then c.now else start, c.now,
             c, ok)
  }

  /** A cycle: everything changed since the last success of any mode, less the overlap, or since the fallback. */
  method IngestIncremental(runs: IngestionRuns, table: EarthquakeTable, fallback: int, c: Circumstances)
    returns (ok: bool)
    requires runs.Valid() && table.Valid() && Orderly(c.source) && ClockAhead(c.source, 0, table.rows)
    modifies runs, table
    ensures runs.Valid() && table.Valid()
    ensures CycleRecorded(old(runs.rows), runs.rows, old(table.rows), table.rows, fallback, c, ok)
  {
    hide WellFormed, ValidTable, NoFakeRevision, Orderly, ClockAhead, Recorded;
    var anchor := c.now - fallback;
    var last := runs.LastSuccess(SOURCE);
    if last.Ok? {
      anchor := last.value.windowEnd - SAFETY_OVERLAP;
      if c.now < anchor {
        anchor := c.now;
      }
    }
    ok := IngestWindow(runs, table, Incremental, anchor, c.now, c);
  }

  /**
   * What the command and the scheduler start: a cycle, a backfill, or a manual window, refused if it is inverted or
   * ends after a second reading of the clock. It is what the protocol plans for the same job.
   */
  method RunJob(runs: IngestionRuns, table: EarthquakeTable, job: Job, later: Instant, c: Circumstances)
    returns (ok: bool)
    requires runs.Valid() && table.Valid() && Orderly(c.source) && ClockAhead(c.source, 0, table.rows)
    modifies runs, table
    ensures runs.Valid() && table.Valid()
    ensures job.SinceLast? ==>
      CycleRecorded(old(runs.rows), runs.rows, old(table.rows), table.rows, job.fallback, c, ok)
    ensures job.Since? ==>
      Recorded(old(runs.rows), runs.rows, old(table.rows), table.rows, Backfill, c.now - job.since, c.now, c, ok)
    ensures job.Explicit? ==>
      var end := if job.end.Some? then job.end.value else c.now;
      if end < job.start || later < end then !ok && runs.rows == old(runs.rows) && table.rows == old(table.rows)
      else Recorded(old(runs.rows), runs.rows, old(table.rows), table.rows, Manual, job.start, end, c, ok)
    ensures var plan := PlanFor(job, old(runs.rows), c.now, later);
      if plan.None? then !ok && runs.rows == old(runs.rows) && table.rows == old(table.rows)
      else Recorded(old(runs.rows), runs.rows, old(table.rows), table.rows, plan.value.mode, plan.value.windowStart,
                    plan.value.windowEnd, c, ok)
  {
    hide Recorded, Orderly, ClockAhead, ValidTable, NoFakeRevision, WellFormed;
    match job {
      case SinceLast(fallback, _) =>
        ok := IngestIncremental(runs, table, fallback, c);
      case Since(since, _) =>
        ok := IngestWindow(runs, table, Backfill, c.now - since, c.now, c);
      case Explicit(start, end, _) =>
        var windowEnd := c.now;
        if end.Some? {
          windowEnd := end.value;
        }
        if windowEnd < start || later < windowEnd {
          return false;
        }
        ok := IngestWindow(runs, table, Manual, start, windowEnd, c);
    }
  }

  /** The coverage grows by the window when the collection was successful, and by nothing otherwise. */
  lemma {:induction false} CoverageGrows(before: seq<Run>, after: seq<Run>, versions: seq<Version>, newer: seq<Version>,
      mode: Mode, windowStart: Instant, windowEnd: Instant, c: Circumstances, ok: bool, u: Instant)
    requires Recorded(before, after, versions, newer, mode, windowStart, windowEnd, c, ok)
    ensures CoveredAt(after, u) <==> CoveredAt(before, u) || (ok && Stored(windowStart) <= u < Stored(windowEnd))
  {
    hide Stored, HandledSome, Counted, Ingest, GoesThrough, CountsAre, CameFrom;
    if windowStart <= windowEnd {
      var run := after[|before|];
      assert after == before + [run];
      assert forall r :: Succeeded(after, r) <==> Succeeded(before, r) || (r == run && ok);
      if CoveredAt(before, u) {
        var r :| Succeeded(before, r) && r.windowStart <= u < r.windowEnd;
        assert Succeeded(after, r);
      }
      if ok && run.windowStart <= u < run.windowEnd {
        assert Succeeded(after, run);
      }
    }
  }
}
