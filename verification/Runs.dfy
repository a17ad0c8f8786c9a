/** The ingestion_runs table: what was collected, over which window, and how it ended. */
module Runs {
  import opened Prelude

  datatype Outcome = Running | Success | Failure | Skipped

  datatype Mode = Incremental | Backfill | Manual

  datatype Counts = Counts(inserted: nat, updated: nat, unaltered: nat, rejected: nat) {
    function Total(): nat {
      inserted + updated + unaltered + rejected
    }
  }

  const NO_COUNTS := Counts(0, 0, 0, 0)

  datatype Run = Run(
    id: int, sourceId: int, startedAt: Instant, finishedAt: Option<Instant>,
    windowStart: Instant, windowEnd: Instant, mode: Mode, result: Outcome,
    counts: Counts, error: string)

  datatype RunError = InvertedWindow | NoSuchRun | NoRuns | EmptyMessage

  /** The CHECK constraints of the table and its ascending primary key. */
  ghost predicate WellFormed(rows: seq<Run>) {
    && (forall i :: 0 <= i < |rows| ==> WellFormedRun(rows[i]))
    && (forall i, j :: 0 <= i < j < |rows| ==> rows[i].id < rows[j].id)
  }

  ghost predicate WellFormedRun(r: Run) {
    && r.windowStart <= r.windowEnd
    && (r.result == Running <==> r.finishedAt == None)
    && (r.result == Failure ==> r.error != "")
  }

  // ---------------------------------------------------------------------------
  // What each statement does to the table
  // ---------------------------------------------------------------------------

  /** The row Begin inserts. */
  function Opened(id: int, sourceId: int, mode: Mode, windowStart: Instant, windowEnd: Instant, now: Instant): Run {
    Run(id, sourceId, now, None, Stored(windowStart), Stored(windowEnd), mode, Running, NO_COUNTS, "")
  }

  /** The row Skip inserts: already finished, and deliberately not collected. */
  function SkippedRow(id: int, sourceId: int, mode: Mode, windowStart: Instant, windowEnd: Instant,
                      reason: string, now: Instant): Run {
    Run(id, sourceId, now, Some(now), Stored(windowStart), Stored(windowEnd), mode, Skipped, NO_COUNTS, reason)
  }

  /** UPDATE ... WHERE id = runID. */
  function Closed(rows: seq<Run>, id: int, result: Outcome, counts: Counts, error: Option<string>, now: Instant)
    : (r: seq<Run>)
    ensures |r| == |rows|
  {
    seq(|rows|, i requires 0 <= i < |rows| =>
      if rows[i].id == id then ClosedRow(rows[i], result, counts, error, now) else rows[i])
  }

  function ClosedRow(r: Run, result: Outcome, counts: Counts, error: Option<string>, now: Instant): Run {
    r.(finishedAt := Some(now), result := result, counts := counts,
       error := if error.Some? then error.value else r.error)
  }

  /** The row with that id is finished with this result, counts and error, and nothing else is touched. */
  ghost predicate ClosesOnly(before: seq<Run>, after: seq<Run>, id: int, result: Outcome, counts: Counts,
      error: Option<string>, now: Instant)
  {
    && |after| == |before| && HasRun(before, id)
    && (forall i :: 0 <= i < |before| && before[i].id == id ==>
          after[i] == Run(id, before[i].sourceId, before[i].startedAt, Some(now), before[i].windowStart,
                          before[i].windowEnd, before[i].mode, result, counts,
                          if error.Some? then error.value else before[i].error))
    && (forall i :: 0 <= i < |before| && before[i].id != id ==> after[i] == before[i])
  }

  /** The next value of the id sequence: above every id handed out so far. */
  function NextId(rows: seq<Run>): int {
    if rows == [] then 1 else rows[|rows| - 1].id + 1
  }

  ghost predicate HasRun(rows: seq<Run>, id: int) {
    exists i :: 0 <= i < |rows| && rows[i].id == id
  }

  function IndexOf(rows: seq<Run>, id: int): (r: Option<nat>)
    ensures r.Some? <==> HasRun(rows, id)
    ensures r.Some? ==> r.value < |rows| && rows[r.value].id == id
  {
    if rows == [] then None
    else if rows[|rows| - 1].id == id then Some(|rows| - 1)
    else IndexOf(rows[..|rows| - 1], id)
  }

  /** ORDER BY window_end DESC, id DESC LIMIT 1, over the successful runs of one source. */
  function LastSuccessOf(rows: seq<Run>, sourceId: int): (r: Option<Run>)
    ensures r.None? <==> forall i :: 0 <= i < |rows| ==> !(rows[i].sourceId == sourceId && rows[i].result == Success)
    ensures r.Some? ==> r.value in rows && r.value.sourceId == sourceId && r.value.result == Success
    ensures r.Some? ==> forall i :: 0 <= i < |rows| && rows[i].sourceId == sourceId && rows[i].result == Success ==>
      rows[i].windowEnd < r.value.windowEnd || (rows[i].windowEnd == r.value.windowEnd && rows[i].id <= r.value.id)
  {
    if rows == [] then None
    else
      var last := rows[|rows| - 1];
      var rest := LastSuccessOf(rows[..|rows| - 1], sourceId);
      if !IsSuccess(last, sourceId) then rest
      else if rest.Some? && (last.windowEnd < rest.value.windowEnd
                             || (last.windowEnd == rest.value.windowEnd && last.id < rest.value.id)) then rest
      else Some(last)
  }

  predicate IsSuccess(r: Run, sourceId: int) {
    r.sourceId == sourceId && r.result == Success
  }

  // ---------------------------------------------------------------------------
  // The repository object
  // ---------------------------------------------------------------------------

  /** ingestion_runs and the statements the package issues against it. `now` is the database clock. */
  class IngestionRuns {
    var rows: seq<Run>

    ghost predicate Valid()
      reads this
    {
      WellFormed(rows)
    }

    constructor ()
      ensures Valid() && rows == []
    {
      rows := [];
    }

    method Begin(sourceId: int, mode: Mode, windowStart: Instant, windowEnd: Instant, now: Instant)
      returns (r: Result<Run, RunError>)
      requires Valid()
      modifies this
      ensures Valid()
      ensures r.Ok? <==> windowStart <= windowEnd
      ensures r.Err? ==> rows == old(rows) && r.error == InvertedWindow
      ensures r.Ok? ==>
        && rows == old(rows) + [r.value] && (forall i :: 0 <= i < |old(rows)| ==> old(rows)[i].id < r.value.id)
        && r.value == Opened(NextId(old(rows)), sourceId, mode, windowStart, windowEnd, now)
        && r.value == Run(r.value.id, sourceId, now, None, windowStart / 1000 * 1000, windowEnd / 1000 * 1000,
                          mode, Running, Counts(0, 0, 0, 0), "")
    {
      if windowEnd < windowStart {
        return Err(InvertedWindow);
      }
      var run := Opened(NextId(rows), sourceId, mode, windowStart, windowEnd, now);
      rows := rows + [run];
      r := Ok(run);
    }

    method Skip(sourceId: int, mode: Mode, windowStart: Instant, windowEnd: Instant, reason: string, now: Instant)
      returns (r: Result<Run, RunError>)
      requires Valid()
      modifies this
      ensures Valid()
      ensures r.Ok? <==> Stored(windowStart) <= Stored(windowEnd)
      ensures r.Err? ==> rows == old(rows) && r.error == InvertedWindow
      ensures r.Ok? ==>
        && rows == old(rows) + [r.value] && (forall i :: 0 <= i < |old(rows)| ==> old(rows)[i].id < r.value.id)
        && r.value == SkippedRow(NextId(old(rows)), sourceId, mode, windowStart, windowEnd, reason, now)
        && r.value == Run(r.value.id, sourceId, now, Some(now), windowStart / 1000 * 1000, windowEnd / 1000 * 1000,
                          mode, Skipped, Counts(0, 0, 0, 0), reason)
    {
      // Skip has no check of its own; the table's window constraint is what refuses.
      if Stored(windowEnd) < Stored(windowStart) {
        return Err(InvertedWindow);
      }
      var run := SkippedRow(NextId(rows), sourceId, mode, windowStart, windowEnd, reason, now);
      rows := rows + [run];
      r := Ok(run);
    }

    method Finish(runId: int, counts: Counts, now: Instant) returns (r: Result<Run, RunError>)
      requires Valid()
      modifies this
      ensures Valid()
      ensures r.Ok? <==> HasRun(old(rows), runId)
      ensures r.Err? ==> rows == old(rows) && r.error == NoSuchRun
      ensures r.Ok? ==> rows == Closed(old(rows), runId, Success, counts, None, now)
      ensures r.Ok? ==> ClosesOnly(old(rows), rows, runId, Success, counts, None, now)
      ensures r.Ok? ==> r.value in rows && r.value.id == runId
    {
      r := Close(runId, Success, counts, None, now);
    }

    method Fail(runId: int, cause: Option<string>, counts: Counts, now: Instant) returns (r: Result<Run, RunError>)
      requires Valid()
      modifies this
      ensures Valid()
      ensures r.Ok? <==> HasRun(old(rows), runId) && cause != Some("")
      ensures r.Err? ==> rows == old(rows) && r.error == if HasRun(old(rows), runId) then EmptyMessage else NoSuchRun
      ensures r.Ok? ==>
        var message := if cause.Some? then cause.value else "unknown error";
        && rows == Closed(old(rows), runId, Failure, counts, Some(message), now)
        && ClosesOnly(old(rows), rows, runId, Failure, counts, Some(message), now)
        && r.value in rows && r.value.id == runId
    {
      var message := "unknown error";
      if cause.Some? {
        message := cause.value;
      }
      if message == "" {
        // ingestion_runs_failure_requires_message
        return Err(if IndexOf(rows, runId).Some? then EmptyMessage else NoSuchRun);
      }
      r := Close(runId, Failure, counts, Some(message), now);
    }

    method Close(runId: int, result: Outcome, counts: Counts, error: Option<string>, now: Instant)
      returns (r: Result<Run, RunError>)
      requires Valid() && result in {Success, Failure} && (result == Failure ==> error.Some? && error.value != "")
      modifies this
      ensures Valid()
      ensures r.Ok? <==> HasRun(old(rows), runId)
      ensures r.Err? ==> rows == old(rows) && r.error == NoSuchRun
      ensures r.Ok? ==> rows == Closed(old(rows), runId, result, counts, error, now)
      ensures r.Ok? ==> ClosesOnly(old(rows), rows, runId, result, counts, error, now)
      ensures r.Ok? ==> r.value in rows && r.value.id == runId
    {
      var at := IndexOf(rows, runId);
      if at.None? {
        return Err(NoSuchRun);
      }
      rows := Closed(rows, runId, result, counts, error, now);
      r := Ok(rows[at.value]);
    }

    method LastSuccess(sourceId: int) returns (r: Result<Run, RunError>)
      requires Valid()
      ensures var last := LastSuccessOf(rows, sourceId);
        r == (if last.Some? then Ok(last.value) else Err(NoRuns))
    {
      var best: Option<Run> := None;
      var i := 0;
      while i < |rows|
        invariant 0 <= i <= |rows|
        invariant best == LastSuccessOf(rows[..i], sourceId)
      {
        PrefixStep(rows, i);
        assert rows[..i + 1][..i] == rows[..i];
        if IsSuccess(rows[i], sourceId)
           && !(best.Some? && (rows[i].windowEnd < best.value.windowEnd
                               || (rows[i].windowEnd == best.value.windowEnd && rows[i].id < best.value.id))) {
          best := Some(rows[i]);
        }
        i := i + 1;
      }
      assert rows[..i] == rows;
      r := if best.Some? then Ok(best.value) else Err(NoRuns);
    }
  }
}
