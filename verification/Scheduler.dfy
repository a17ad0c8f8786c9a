/** The advisory lock, the release closure TryLock hands out, and one scheduled cycle under it. */
module Scheduler {
  import opened Prelude
  import opened Runs
  import opened Earthquakes
  import Collect
  import Ingester
  import Protocol

  type Session = int

  /**
   * One Postgres advisory lock. It belongs to a session, which may take it several times and then has to give it
   * back as often; it is gone when the session ends.
   */
  class AdvisoryLock {
    var holder: Option<Session>
    var times: nat

    predicate Valid()
      reads this
    {
      times > 0 <==> holder.Some?
    }

    predicate FreeFor(s: Session)
      reads this
    {
      holder.None? || holder == Some(s)
    }

    constructor ()
      ensures Valid() && holder == None
    {
      holder, times := None, 0;
    }

    /** pg_try_advisory_lock */
    method Take(s: Session) returns (acquired: bool)
      requires Valid()
      modifies this
      ensures Valid()
      ensures acquired <==> old(FreeFor(s))
      ensures acquired ==> holder == Some(s) && times == old(times) + 1
      ensures !acquired ==> holder == old(holder) && times == old(times)
    {
      acquired := holder.None? || holder == Some(s);
      if acquired {
        holder, times := Some(s), times + 1;
      }
    }

    /** pg_advisory_unlock: only the holder's own call has an effect. */
    method Give(s: Session)
      requires Valid()
      modifies this
      ensures Valid()
      ensures old(holder) != Some(s) ==> holder == old(holder) && times == old(times)
      ensures old(holder) == Some(s) ==> times == old(times) - 1 && holder == (if times == 0 then None else Some(s))
    {
      if holder == Some(s) {
        times := times - 1;
        if times == 0 {
          holder := None;
        }
      }
    }
  }

  /** The closure TryLock returns: whatever it is called for the second time, it does nothing. */
  class Releaser {
    const lock: AdvisoryLock
    const session: Session
    var released: bool

    constructor (lock: AdvisoryLock, session: Session)
      ensures this.lock == lock && this.session == session && !released
    {
      this.lock, this.session, released := lock, session, false;
    }

    /** answered: the database answered the unlock; otherwise the session goes on holding the lock. */
    method Release(answered: bool)
      requires lock.Valid()
      modifies this, lock
      ensures lock.Valid() && released
      ensures old(released) || !answered || old(lock.holder) != Some(session) ==>
        lock.holder == old(lock.holder) && lock.times == old(lock.times)
      ensures !old(released) && answered && old(lock.holder) == Some(session) ==>
        lock.times == old(lock.times) - 1 && lock.holder == (if lock.times == 0 then None else Some(session))
    {
      if released {
        return;
      }
      released := true;
      if answered {
        lock.Give(session);
      }
    }
  }

  datatype Attempt = Unreachable | Busy | Acquired(release: Releaser)

  /** reached: the connection was there and the lock attempt was answered. */
  method TryLock(lock: AdvisoryLock, session: Session, reached: bool) returns (r: Attempt)
    requires lock.Valid()
    modifies lock
    ensures lock.Valid()
    ensures r.Unreachable? <==> !reached
    ensures r.Acquired? <==> reached && old(lock.FreeFor(session))
    ensures r.Acquired? ==>
      && fresh(r.release) && r.release.lock == lock && r.release.session == session && !r.release.released
      && lock.holder == Some(session) && lock.times == old(lock.times) + 1
    ensures !r.Acquired? ==> lock.holder == old(lock.holder) && lock.times == old(lock.times)
  {
    if !reached {
      return Unreachable;
    }
    var acquired := lock.Take(session);
    if !acquired {
      return Busy;
    }
    var release := new Releaser(lock, session);
    r := Acquired(release);
  }

  function Refusals(n: nat): seq<bool> {
    seq(n, i => false)
  }

  /**
   * The work a timer tick triggers, over the tables it writes to, and what can be seen of it: under whose lock it ran,
   * and what rivals were told.
   */
  class Cycle {
    const runs: IngestionRuns
    const table: EarthquakeTable
    const fallback: int
    var ranUnder: seq<Option<Session>>
    var answers: seq<bool>

    ghost predicate Ready(c: Ingester.Circumstances)
      reads runs, table
    {
      runs.Valid() && table.Valid() && Collect.Orderly(c.source) && Collect.ClockAhead(c.source, 0, table.rows)
    }

    constructor (runs: IngestionRuns, table: EarthquakeTable, fallback: int)
      ensures this.runs == runs && this.table == table && this.fallback == fallback
      ensures ranUnder == [] && answers == []
    {
      this.runs, this.table, this.fallback := runs, table, fallback;
      ranUnder, answers := [], [];
    }

    /**
     * One incremental collection under the lock this session holds. rivals: the sessions that try for the lock while
     * it is at work.
     */
    method Run(lock: AdvisoryLock, rivals: seq<Session>, c: Ingester.Circumstances) returns (ok: bool)
      requires lock.Valid() && lock.holder.Some? && lock.holder.value !in rivals && Ready(c)
      modifies this, lock, runs, table
      ensures lock.Valid() && lock.holder == old(lock.holder) && lock.times == old(lock.times)
      ensures runs.Valid() && table.Valid()
      ensures ranUnder == old(ranUnder) + [old(lock.holder)]
      ensures answers == old(answers) + Refusals(|rivals|)
      ensures Ingester.CycleRecorded(old(runs.rows), runs.rows, old(table.rows), table.rows, fallback, c, ok)
    {
      ranUnder := ranUnder + [lock.holder];
      var i := 0;
      while i < |rivals|
        invariant 0 <= i <= |rivals| && lock.Valid()
        invariant lock.holder == old(lock.holder) && lock.times == old(lock.times)
        invariant ranUnder == old(ranUnder) + [old(lock.holder)] && answers == old(answers) + Refusals(i)
        invariant runs.rows == old(runs.rows) && table.rows == old(table.rows)
      {
        var acquired := lock.Take(rivals[i]);
        answers := answers + [acquired];
        i := i + 1;
      }
      ok := Ingester.IngestIncremental(runs, table, fallback, c);
    }
  }

  datatype CycleOutcome = NotTried | SkippedAs(reason: string) | Ran(ok: bool)

  /**
   * One cycle: it runs once, under this session's lock and with every rival refused, exactly when the lock was free for
   * this session; it is recorded as skipped exactly when another held it; and it leaves the lock as it found it however
   * the cycle ended, unless the unlock itself went unanswered.
   */
  method RunOnce(lock: AdvisoryLock, session: Session, cycle: Cycle, rivals: seq<Session>, reached: bool,
                 c: Ingester.Circumstances, unlocked: bool) returns (r: CycleOutcome)
    requires lock.Valid() && session !in rivals && cycle.Ready(c)
    modifies lock, cycle, cycle.runs, cycle.table
    ensures lock.Valid() && cycle.runs.Valid() && cycle.table.Valid()
    ensures r.NotTried? <==> !reached
    ensures r.SkippedAs? <==> reached && old(lock.holder) != None && old(lock.holder) != Some(session)
    ensures r.SkippedAs? ==> r.reason == "previous cycle still running"
    ensures r.Ran? ==> cycle.ranUnder == old(cycle.ranUnder) + [Some(session)]
    ensures r.Ran? ==> cycle.answers == old(cycle.answers) + Refusals(|rivals|)
    ensures r.Ran? ==> Ingester.CycleRecorded(
      old(cycle.runs.rows), cycle.runs.rows, old(cycle.table.rows), cycle.table.rows, cycle.fallback, c, r.ok)
    ensures !r.Ran? ==> cycle.ranUnder == old(cycle.ranUnder) && cycle.answers == old(cycle.answers)
    ensures !r.Ran? ==> cycle.table.rows == old(cycle.table.rows)
    ensures r.NotTried? ==> cycle.runs.rows == old(cycle.runs.rows)
    ensures r.SkippedAs? ==>
      var id := Runs.NextId(old(cycle.runs.rows));
      cycle.runs.rows == old(cycle.runs.rows)
        + [SkippedRow(id, Protocol.SOURCE, Incremental, c.now, c.now, r.reason, c.begunAt)]
    ensures !r.Ran? || unlocked ==> lock.holder == old(lock.holder) && lock.times == old(lock.times)
    ensures r.Ran? && !unlocked ==> lock.holder == Some(session)
  {
    var attempt := TryLock(lock, session, reached);
    match attempt {
      case Unreachable => return NotTried;
      case Busy =>
        var reason := "previous cycle still running";
        var skipped := cycle.runs.Skip(Protocol.SOURCE, Incremental, c.now, c.now, reason, c.begunAt);
        return SkippedAs(reason);
      case Acquired(release) =>
        var ok := cycle.Run(lock, rivals, c);
        r := Ran(ok);
        release.Release(unlocked);
    }
  }
}
