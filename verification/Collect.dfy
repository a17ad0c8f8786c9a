/** One collection of the USGS source: paging, parsing, saving, and why repeating it is free. */
module Collect {
  import opened Prelude
  import opened Runs
  import opened Earthquakes

  /** One event as the source describes it. */
  datatype Event = Event(id: string, content: Content, updated: Option<Instant>, raw: string)

  /** A delivered feature, after the attempt to extract an event from it. */
  datatype Feature = Unreadable | Readable(event: Event)

  const PARSER_VERSION := "usgs-geojson/1"

  /**
   * A feature as one collection handles it: with the verdict the quality engine gives it and the instant the database
   * clock shows when its statement runs. Neither is news about an earthquake.
   */
  datatype Delivery = Delivery(feature: Feature, verdict: Verdict, now: Instant)

  /** The collection's own constants. */
  datatype Origin = Origin(sourceId: int, sourceVersion: string)

  /** The clock does not go back during the collection. */
  ghost predicate Orderly(ds: seq<Delivery>) {
    forall i, j :: 0 <= i <= j < |ds| ==> ds[i].now <= ds[j].now
  }

  /** The clock has not gone back since the table was last written. */
  ghost predicate StartsAfter(ds: seq<Delivery>, rows: seq<Version>) {
    forall i :: 0 <= i < |ds| ==> Before(rows, ds[i].now)
  }

  /** The same, for the deliveries still to be handled. */
  ghost predicate ClockAhead(ds: seq<Delivery>, from: nat, rows: seq<Version>) {
    forall i :: from <= i < |ds| ==> NotAfter(rows, ds[i].now)
  }

  lemma {:induction false} ClockMovesOn(ds: seq<Delivery>, at: nat, rows: seq<Version>)
    requires Orderly(ds) && at < |ds| && NotAfter(rows, ds[at].now)
    ensures ClockAhead(ds, at + 1, rows)
  {
  }

  lemma {:induction false} NextInTime(ds: seq<Delivery>, at: nat, rows: seq<Version>)
    requires at < |ds| && ClockAhead(ds, at, rows)
    ensures NotAfter(rows, ds[at].now)
  {
  }

  function RecordOf(ev: Event, verdict: Verdict, c: Origin): Record {
    Record(ev.id, c.sourceId, ev.content, verdict, PARSER_VERSION, c.sourceVersion, ev.updated, ev.raw)
  }

  // ---------------------------------------------------------------------------
  // What a collection does to the table
  // ---------------------------------------------------------------------------

  datatype Tally = Tally(rows: seq<Version>, counts: Counts, ok: bool)

  function Count(counts: Counts, outcome: SaveOutcome): Counts {
    match outcome
    case Inserted(_) => counts.(inserted := counts.inserted + 1)
    case Updated(_) => counts.(updated := counts.updated + 1)
    case Unaltered(_) => counts.(unaltered := counts.unaltered + 1)
    case BadCoordinate => counts.(rejected := counts.rejected + 1)
    case Refused => counts
  }

  function Handle(t: Tally, d: Delivery, c: Origin): (after: Tally)
    ensures after.ok && t.ok ==> after.counts.Total() == t.counts.Total() + 1
    ensures |after.rows| - |t.rows|
      == after.counts.inserted + after.counts.updated - t.counts.inserted - t.counts.updated
    ensures |t.rows| <= |after.rows| && (|t.rows| == |after.rows| ==> t.rows == after.rows)
  {
    match d.feature
    case Unreadable => t.(counts := t.counts.(rejected := t.counts.rejected + 1))
    case Readable(ev) =>
      var (rows, outcome) := SaveAt(t.rows, RecordOf(ev, d.verdict, c), d.now);
      Tally(rows, Count(t.counts, outcome), !outcome.Refused?)
  }

  /** Handling the first n features in order, stopping at the first record the store refuses. */
  function Ingest(rows: seq<Version>, ds: seq<Delivery>, n: nat, c: Origin): Tally
    requires n <= |ds|
  {
    if n == 0 then Tally(rows, NO_COUNTS, true)
    else
      var t := Ingest(rows, ds, n - 1, c);
      if !t.ok then t else Handle(t, ds[n - 1], c)
  }

  lemma {:induction false} HandleKeeps(t: Tally, d: Delivery, c: Origin)
    requires ValidTable(t.rows) && NotAfter(t.rows, d.now)
    ensures var after := Handle(t, d, c);
      && ValidTable(after.rows) && NotAfter(after.rows, d.now) && t.rows <= after.rows
      && (NoFakeRevision(t.rows) ==> NoFakeRevision(after.rows))
  {
    if d.feature.Readable? {
      SaveKeeps(t.rows, RecordOf(d.feature.event, d.verdict, c), d.now);
    }
  }

  /** Every feature handled is counted once. */
  lemma {:induction false} IngestTotal(rows: seq<Version>, ds: seq<Delivery>, n: nat, c: Origin)
    requires n <= |ds|
    ensures Ingest(rows, ds, n, c).ok ==> Ingest(rows, ds, n, c).counts.Total() == n
  {
    if n > 0 {
      IngestTotal(rows, ds, n - 1, c);
    }
  }

  /** The table grew by exactly what was inserted and updated. */
  lemma {:induction false} IngestGrowth(rows: seq<Version>, ds: seq<Delivery>, n: nat, c: Origin)
    requires n <= |ds|
    ensures var t := Ingest(rows, ds, n, c);
      |t.rows| == |rows| + t.counts.inserted + t.counts.updated
  {
    if n > 0 {
      IngestGrowth(rows, ds, n - 1, c);
    }
  }

  lemma {:induction false} IngestGrows(rows: seq<Version>, ds: seq<Delivery>, n: nat, c: Origin)
    requires n <= |ds|
    ensures var t := Ingest(rows, ds, n, c);
      |rows| <= |t.rows| && (|t.rows| == |rows| ==> t.rows == rows)
  {
    if n > 0 {
      IngestGrows(rows, ds, n - 1, c);
    }
  }

  /** One delivery of a collection. */
  lemma {:induction false} IngestOnce(rows: seq<Version>, ds: seq<Delivery>, n: nat, c: Origin)
    requires n <= |ds|
    ensures n == 0 ==> Ingest(rows, ds, n, c) == Tally(rows, NO_COUNTS, true)
    ensures n > 0 ==>
      var t := Ingest(rows, ds, n - 1, c);
      Ingest(rows, ds, n, c) == if t.ok then Handle(t, ds[n - 1], c) else t
  {
    hide Handle;
  }

  /** A whole collection keeps the table: rows are only ever appended, and no revision is fake. */
  lemma {:induction false} IngestKeeps(rows: seq<Version>, ds: seq<Delivery>, n: nat, c: Origin)
    requires n <= |ds| && ValidTable(rows) && Orderly(ds) && ClockAhead(ds, 0, rows)
    ensures var t := Ingest(rows, ds, n, c);
      && ValidTable(t.rows) && rows <= t.rows
      && ClockAhead(ds, n, t.rows)
      && (NoFakeRevision(rows) ==> NoFakeRevision(t.rows))
  {
    hide *;
    IngestOnce(rows, ds, n, c);
    if n > 0 {
      IngestKeeps(rows, ds, n - 1, c);
      var t := Ingest(rows, ds, n - 1, c);
      NextInTime(ds, n - 1, t.rows);
      if t.ok {
        HandleKeeps(t, ds[n - 1], c);
      }
      ClockMovesOn(ds, n - 1, Ingest(rows, ds, n, c).rows);
    }
  }

  // ---------------------------------------------------------------------------
  // What the counts and the rows of a collection are
  // ---------------------------------------------------------------------------

  /** The events some row is a version of. */
  ghost function EventsOf(rows: seq<Version>): set<(string, int)> {
    set i | 0 <= i < |rows| :: (rows[i].record.externalId, rows[i].record.sourceId)
  }

  /** The feature could not be read, or lies nowhere on Earth. */
  predicate Nowhere(f: Feature) {
    f.Unreadable? || !OnEarth(f.event.content)
  }

  ghost function NowhereAmong(ds: seq<Delivery>, n: nat): set<nat>
    requires n <= |ds|
  {
    set i: nat | i < n && Nowhere(ds[i].feature)
  }

  /**
   * What the counters of a collection say about the table before and after it: how many events are new, how many rows
   * revise a known one, and, once all n features are handled, how many had no place on Earth and how many said nothing
   * new.
   */
  ghost predicate CountsAre(before: seq<Version>, after: seq<Version>, ds: seq<Delivery>, counts: Counts, whole: bool) {
    && counts.inserted == |EventsOf(after) - EventsOf(before)|
    && counts.updated == |after| - |before| - counts.inserted
    && (whole ==> counts.rejected == |NowhereAmong(ds, |ds|)|)
    && (whole ==> counts.unaltered == |ds| - counts.inserted - counts.updated - counts.rejected)
  }

  /** The row is what some feature of the source said, written when that feature was handled. */
  ghost predicate CameFrom(v: Version, ds: seq<Delivery>, c: Origin) {
    exists i :: 0 <= i < |ds| && ds[i].feature.Readable? && SaysAll(v, ds[i], c)
  }

  predicate SaysAll(v: Version, d: Delivery, c: Origin)
    requires d.feature.Readable?
  {
    var ev := d.feature.event;
    && v.ingestedAt == d.now / 1000 * 1000
    && v.record == Record(ev.id, c.sourceId, ev.content.(occurredAt := ev.content.occurredAt / 1000 * 1000), d.verdict,
                          "usgs-geojson/1", c.sourceVersion, ev.updated, ev.raw)
  }

  /** What the store refuses, and with it the rest of the collection. A place not on Earth is no reason to stop. */
  ghost predicate Stops(rows: seq<Version>, d: Delivery, c: Origin) {
    && d.feature.Readable?
    && var ev := d.feature.event;
    || ev.id == "" || ev.content.occurredAt == -62_135_596_800_000_000_000
    || (OnEarth(ev.content)
        && (d.verdict.state == Unevaluated || (d.verdict.state != Valid && d.verdict.rules == []) || ev.raw == ""
            || Hurried(rows, ev.id, c.sourceId, ev.content, d.now)))
  }

  /** Which counter one more handled feature moves, if it is not refused. */
  ghost function Moved(counts: Counts, before: seq<Version>, after: seq<Version>, f: Feature, c: Origin): Counts {
    if Nowhere(f) then counts.(rejected := counts.rejected + 1)
    else if !HasVersion(before, f.event.id, c.sourceId) then counts.(inserted := counts.inserted + 1)
    else if after != before then counts.(updated := counts.updated + 1)
    else counts.(unaltered := counts.unaltered + 1)
  }

  lemma {:induction false} HandleStops(t: Tally, d: Delivery, c: Origin)
    requires t.ok && ValidTable(t.rows)
    ensures Handle(t, d, c).ok <==> !Stops(t.rows, d, c)
  {
    if d.feature.Readable? {
      var n := RecordOf(d.feature.event, d.verdict, c);
      SaveRefuses(t.rows, n, d.now);
      assert PARSER_VERSION[0] == 'u';
    }
    hide Hurried, SaveAt;
  }

  /** One feature handled: the counter that moves, and the row that is written if one is. */
  lemma {:induction false} HandleCounts(t: Tally, d: Delivery, c: Origin)
    requires t.ok
    ensures var after := Handle(t, d, c);
      && after.counts == (if after.ok then Moved(t.counts, t.rows, after.rows, d.feature, c) else t.counts)
      && (after.rows != t.rows ==>
            && after.ok && !Nowhere(d.feature) && d.feature.Readable?
            && |after.rows| == |t.rows| + 1 && after.rows[..|t.rows|] == t.rows
            && SaysAll(after.rows[|t.rows|], d, c))
      && (after.ok && !Nowhere(d.feature) && !HasVersion(t.rows, d.feature.event.id, c.sourceId) ==>
            after.rows != t.rows)
  {
    if d.feature.Readable? {
      SaveStores(t.rows, RecordOf(d.feature.event, d.verdict, c), d.now);
      SaveDecides(t.rows, RecordOf(d.feature.event, d.verdict, c), d.now);
    }
    hide HasVersion, Differs, Current;
  }

  /** One more row, and whether its event is new. */
  lemma {:induction false} EventsAppend(first: seq<Version>, rows: seq<Version>, after: seq<Version>)
    requires EventsOf(first) <= EventsOf(rows) && |after| == |rows| + 1 && after[..|rows|] == rows
    ensures var v := after[|rows|].record;
      && EventsOf(first) <= EventsOf(after)
      && |EventsOf(after) - EventsOf(first)|
           == |EventsOf(rows) - EventsOf(first)| + (if HasVersion(rows, v.externalId, v.sourceId) then 0 else 1)
  {
    assert forall i :: 0 <= i < |rows| ==> after[i] == rows[i];
    var v := (after[|rows|].record.externalId, after[|rows|].record.sourceId);
    assert EventsOf(after) == EventsOf(rows) + {v};
    assert HasVersion(rows, v.0, v.1) <==> v in EventsOf(rows);
    if v in EventsOf(rows) {
      assert EventsOf(after) == EventsOf(rows);
    } else {
      assert EventsOf(after) - EventsOf(first) == EventsOf(rows) - EventsOf(first) + {v};
    }
  }

  lemma {:induction false} NowhereNext(ds: seq<Delivery>, n: nat)
    requires n < |ds|
    ensures |NowhereAmong(ds, n + 1)| == |NowhereAmong(ds, n)| + (if Nowhere(ds[n].feature) then 1 else 0)
  {
    assert NowhereAmong(ds, n + 1) == NowhereAmong(ds, n) + (if Nowhere(ds[n].feature) then {n} else {});
    hide Nowhere;
  }

  /** Part-way through a collection: what it counted so far, and where its rows came from. */
  ghost predicate Accounted(rows: seq<Version>, t: Tally, ds: seq<Delivery>, n: nat, c: Origin) {
    && n <= |ds| && rows <= t.rows && EventsOf(rows) <= EventsOf(t.rows)
    && t.counts.inserted == |EventsOf(t.rows) - EventsOf(rows)|
    && (t.ok ==> t.counts.rejected == |NowhereAmong(ds, n)|)
    && forall k :: |rows| <= k < |t.rows| ==> CameFrom(t.rows[k], ds, c)
  }

  lemma {:induction false} AccountedStep(rows: seq<Version>, t: Tally, ds: seq<Delivery>, n: nat, c: Origin)
    requires n < |ds| && t.ok && Accounted(rows, t, ds, n, c)
    ensures Accounted(rows, Handle(t, ds[n], c), ds, n + 1, c)
  {
    hide Handle, NowhereAmong, EventsOf, HasVersion, Nowhere, CameFrom;
    var after := Handle(t, ds[n], c);
    NowhereNext(ds, n);
    HandleCounts(t, ds[n], c);
    if after.rows != t.rows {
      EventsAppend(rows, t.rows, after.rows);
      RowAppended(rows, t.rows, after.rows, ds, n, c);
    }
  }

  lemma {:induction false} AccountedStart(rows: seq<Version>, ds: seq<Delivery>, n: nat, c: Origin)
    requires n <= |ds|
    ensures Accounted(rows, Tally(rows, NO_COUNTS, true), ds, 0, c)
    ensures forall t, m: nat :: Accounted(rows, t, ds, m, c) && !t.ok ==> Accounted(rows, t, ds, n, c)
  {
    assert NowhereAmong(ds, 0) == {} && EventsOf(rows) - EventsOf(rows) == {};
    hide EventsOf, NowhereAmong, CameFrom;
  }

  /** The counters of a collection, whether it went through or stopped, and where its rows came from. */
  lemma {:induction false} IngestCounts(rows: seq<Version>, ds: seq<Delivery>, n: nat, c: Origin)
    requires n <= |ds|
    ensures Accounted(rows, Ingest(rows, ds, n, c), ds, n, c)
  {
    hide *;
    IngestOnce(rows, ds, n, c);
    AccountedStart(rows, ds, n, c);
    if n > 0 {
      IngestCounts(rows, ds, n - 1, c);
      if Ingest(rows, ds, n - 1, c).ok {
        AccountedStep(rows, Ingest(rows, ds, n - 1, c), ds, n - 1, c);
      }
    }
  }

  lemma {:induction false} RowAppended(first: seq<Version>, rows: seq<Version>, after: seq<Version>, ds: seq<Delivery>,
      i: nat, c: Origin)
    requires first <= rows && |after| == |rows| + 1 && after[..|rows|] == rows
    requires i < |ds| && ds[i].feature.Readable? && SaysAll(after[|rows|], ds[i], c)
    requires forall k :: |first| <= k < |rows| ==> CameFrom(rows[k], ds, c)
    ensures first <= after && forall k :: |first| <= k < |after| ==> CameFrom(after[k], ds, c)
  {
    assert forall k :: 0 <= k < |rows| ==> after[k] == rows[k];
    hide SaysAll;
  }

  lemma {:induction false} IngestSound(rows: seq<Version>, ds: seq<Delivery>, n: nat, c: Origin)
    requires n < |ds| && ValidTable(rows) && Orderly(ds) && StartsAfter(ds, rows)
    ensures var t := Ingest(rows, ds, n, c);
      ValidTable(t.rows) && NotAfter(t.rows, ds[n].now)
  {
    forall i | 0 <= i < |ds| ensures NotAfter(rows, ds[i].now) {
      assert Before(rows, ds[i].now);
    }
    IngestKeeps(rows, ds, n, c);
  }

  // ---------------------------------------------------------------------------
  // Repeating a collection
  // ---------------------------------------------------------------------------

  /** A feature that Save will consider: it could be read, it has a time, and its coordinates exist. */
  predicate Storable(f: Feature) {
    && f.Readable?
    && f.event.content.occurredAt != ZERO_INSTANT
    && InRange(f.event.content.latitude, f.event.content.longitude)
  }

  predicate About(d: Delivery, key: EventKey, c: Origin) {
    Storable(d.feature) && EventKey(d.feature.event.id, c.sourceId) == key
  }

  /** What the parser guarantees, and no feature carrying the one instant that Save takes for a missing one. */
  predicate Clean(f: Feature) {
    f.Readable? ==> f.event.id != "" && f.event.raw != "" && f.event.content.occurredAt != ZERO_INSTANT
  }

  /** And what the quality engine guarantees: every record was judged. */
  ghost predicate AllClean(ds: seq<Delivery>) {
    forall i {:trigger Clean(ds[i].feature)} :: 0 <= i < |ds| ==> Clean(ds[i].feature) && VerdictStorable(ds[i].verdict)
  }

  /** Repeated ids carry equal content. */
  ghost predicate Agree(ds: seq<Delivery>) {
    forall i, j {:trigger Compatible(ds[i].feature, ds[j].feature)} ::
      0 <= i < |ds| && 0 <= j < |ds| ==> Compatible(ds[i].feature, ds[j].feature)
  }

  predicate Compatible(f: Feature, g: Feature) {
    Storable(f) && Storable(g) && f.event.id == g.event.id ==>
      Normalized(f.event.content) == Normalized(g.event.content)
  }

  /** The content the first n features of a batch report for an event, if any. */
  function Reported(ds: seq<Delivery>, n: nat, key: EventKey, c: Origin): Option<Content>
    requires n <= |ds|
  {
    if n == 0 then None
    else if About(ds[n - 1], key, c) then Some(ds[n - 1].feature.event.content)
    else Reported(ds, n - 1, key, c)
  }

  lemma {:induction false} ReportedBy(ds: seq<Delivery>, n: nat, key: EventKey, c: Origin)
    requires n <= |ds|
    ensures var r := Reported(ds, n, key, c);
      && (r.Some? ==> exists i :: 0 <= i < n && About(ds[i], key, c) && ds[i].feature.event.content == r.value)
      && (r.None? ==> forall i :: 0 <= i < n ==> !About(ds[i], key, c))
  {
    if n > 0 {
      ReportedBy(ds, n - 1, key, c);
    }
  }

  /** The history of an event once a content has been reported for it. */
  function Settled(history: seq<Content>, reported: Option<Content>): seq<Content> {
    if reported.None? then history
    else if history != [] && SameContent(history[|history| - 1], reported.value) then history
    else history + [Normalized(reported.value)]
  }

  lemma {:induction false} SettledTwice(history: seq<Content>, c: Content, d: Content)
    requires Normalized(c) == Normalized(d)
    ensures Settled(history, Some(c)) == Settled(history, Some(d)) == Settled(Settled(history, Some(c)), Some(d))
  {
    if history != [] {
      NormalizedCompares(c, history[|history| - 1]);
      NormalizedCompares(d, history[|history| - 1]);
    }
  }

  /** The state of one event part-way through a batch. */
  ghost predicate Settling(rows: seq<Version>, t: Tally, reported: Option<Content>, key: EventKey) {
    && History(t.rows, key) == Settled(History(rows, key), reported)
    && (reported.None? ==> Current(t.rows, key) == Current(rows, key))
  }

  /** A delivery about another event, or about none, does not touch this one. */
  lemma {:induction false} HandleOther(t: Tally, d: Delivery, c: Origin, key: EventKey)
    requires ValidTable(t.rows) && NotAfter(t.rows, d.now) && !About(d, key, c)
    ensures var after := Handle(t, d, c);
      History(after.rows, key) == History(t.rows, key) && Current(after.rows, key) == Current(t.rows, key)
  {
    if d.feature.Readable? {
      var n := RecordOf(d.feature.event, d.verdict, c);
      SaveCurrent(t.rows, n, d.now, key);
      HistoryAppend(t.rows, NewRow(t.rows, n, d.now), key);
    }
  }

  /** A delivery about this event settles it, provided its stamp is free or not needed. */
  lemma {:induction false} HandleThis(t: Tally, d: Delivery, c: Origin, key: EventKey)
    requires ValidTable(t.rows) && NotAfter(t.rows, d.now) && About(d, key, c)
    requires Clean(d.feature) && VerdictStorable(d.verdict)
    requires !Collides(Current(t.rows, key), d.now)
      || SameContent(Current(t.rows, key).value.record.content, d.feature.event.content)
    ensures Handle(t, d, c).ok
    ensures History(Handle(t, d, c).rows, key) == Settled(History(t.rows, key), Some(d.feature.event.content))
  {
    var n := RecordOf(d.feature.event, d.verdict, c);
    SaveAdmitted(t.rows, n, d.now);
    CurrentEndsHistory(t.rows, |t.rows|, key);
    HistoryAppend(t.rows, NewRow(t.rows, n, d.now), key);
    hide SaveAt, History, Current, ValidTable, SameContent;
  }

  lemma {:induction false} SaveAdmitted(rows: seq<Version>, n: Record, now: Instant)
    requires Admissible(n) == Admit
    requires var current := Current(rows, RecordKey(n));
      !Collides(current, now) || SameContent(current.value.record.content, n.content)
    ensures var current := Current(rows, RecordKey(n));
      var (after, outcome) := SaveAt(rows, n, now);
      && !outcome.Refused?
      && after == if current.Some? && SameContent(current.value.record.content, n.content) then rows
                  else rows + [NewRow(rows, n, now)]
  {
  }

  lemma {:induction false} HandleOk(t: Tally, d: Delivery, c: Origin)
    requires Clean(d.feature) && VerdictStorable(d.verdict) && !Storable(d.feature) && t.ok
    ensures Handle(t, d, c).ok
  {
  }

  /**
   * Every per-event history after a batch in which repeated ids agree: the event's content is appended
   * unless the table already said it.
   */
  lemma {:induction false} IngestSettles(rows: seq<Version>, ds: seq<Delivery>, n: nat, c: Origin, key: EventKey)
    requires n <= |ds| && ValidTable(rows) && Orderly(ds) && StartsAfter(ds, rows) && AllClean(ds) && Agree(ds)
    ensures Ingest(rows, ds, n, c).ok
    ensures Settling(rows, Ingest(rows, ds, n, c), Reported(ds, n, key, c), key)
  {
    hide Handle, Settling, AllClean, Agree, Orderly, StartsAfter, ValidTable;
    if n == 0 {
      NothingSettled(rows, key);
    } else {
      var k := EventNamed(ds[n - 1].feature, c, key);
      IngestSettles(rows, ds, n - 1, c, key);
      IngestSettles(rows, ds, n - 1, c, k);
      IngestSound(rows, ds, n - 1, c);
      SettleStep(rows, ds, n, c, Ingest(rows, ds, n - 1, c), key, k);
    }
  }

  lemma {:induction false} NothingSettled(rows: seq<Version>, key: EventKey)
    ensures Settling(rows, Tally(rows, NO_COUNTS, true), None, key)
  {
  }

  function EventNamed(f: Feature, c: Origin, otherwise: EventKey): EventKey {
    if f.Readable? then EventKey(f.event.id, c.sourceId) else otherwise
  }

  lemma {:induction false} SettleStep(rows: seq<Version>, ds: seq<Delivery>, n: nat, c: Origin, t: Tally,
                                          key: EventKey, k: EventKey)
    requires 0 < n <= |ds| && k == EventNamed(ds[n - 1].feature, c, key)
    requires Orderly(ds) && StartsAfter(ds, rows) && AllClean(ds) && Agree(ds)
    requires t.ok && ValidTable(t.rows) && NotAfter(t.rows, ds[n - 1].now)
    requires Settling(rows, t, Reported(ds, n - 1, key, c), key)
    requires Settling(rows, t, Reported(ds, n - 1, k, c), k)
    ensures Handle(t, ds[n - 1], c).ok
    ensures Settling(rows, Handle(t, ds[n - 1], c), Reported(ds, n, key, c), key)
  {
    var d := ds[n - 1];
    assert Clean(d.feature) && VerdictStorable(d.verdict);
    if Storable(d.feature) {
      NoCollision(rows, ds, n - 1, c, t, k);
      HandleThis(t, d, c, k);
      if k == key {
        SettleAgain(rows, ds, n, c, key);
      } else {
        HandleOther(t, d, c, key);
      }
    } else {
      HandleOk(t, d, c);
      HandleOther(t, d, c, key);
    }
  }

  lemma {:induction false} SettleAgain(rows: seq<Version>, ds: seq<Delivery>, n: nat, c: Origin, key: EventKey)
    requires 0 < n <= |ds| && Agree(ds) && About(ds[n - 1], key, c)
    ensures var content := ds[n - 1].feature.event.content;
      var history := History(rows, key);
      Settled(Settled(history, Reported(ds, n - 1, key, c)), Some(content)) == Settled(history, Some(content))
  {
    var reported := Reported(ds, n - 1, key, c);
    ReportedBy(ds, n - 1, key, c);
    if reported.Some? {
      var i :| 0 <= i < n - 1 && About(ds[i], key, c) && ds[i].feature.event.content == reported.value;
      assert Compatible(ds[i].feature, ds[n - 1].feature);
      SettledTwice(History(rows, key), reported.value, ds[n - 1].feature.event.content);
    }
  }

  /** Within one batch an event is written at most once, so its stamp is never needed twice. */
  lemma {:induction false} NoCollision(rows: seq<Version>, ds: seq<Delivery>, i: nat, c: Origin, t: Tally,
      key: EventKey)
    requires i < |ds| && StartsAfter(ds, rows) && Agree(ds) && About(ds[i], key, c) && ValidTable(t.rows)
    requires Settling(rows, t, Reported(ds, i, key, c), key)
    ensures !Collides(Current(t.rows, key), ds[i].now)
      || SameContent(Current(t.rows, key).value.record.content, ds[i].feature.event.content)
  {
    var reported := Reported(ds, i, key, c);
    if reported.Some? {
      SettledKnown(rows, ds, i, i, c, t.rows, key);
    } else {
      assert Before(rows, ds[i].now);
      CurrentIsNewest(rows, |rows|, key);
    }
  }

  /** Once a batch has reported an event, the table says what any of its features say about it. */
  lemma {:induction false} SettledKnown(rows: seq<Version>, ds: seq<Delivery>, n: nat, i: nat, c: Origin,
      after: seq<Version>, key: EventKey)
    requires n <= |ds| && i < |ds| && Agree(ds) && About(ds[i], key, c) && ValidTable(after)
    requires Reported(ds, n, key, c).Some?
    requires History(after, key) == Settled(History(rows, key), Reported(ds, n, key, c))
    ensures Current(after, key).Some?
    ensures SameContent(Current(after, key).value.record.content, ds[i].feature.event.content)
  {
    var reported := Reported(ds, n, key, c);
    ReportedBy(ds, n, key, c);
    var j :| 0 <= j < n && About(ds[j], key, c) && ds[j].feature.event.content == reported.value;
    assert Compatible(ds[j].feature, ds[i].feature);
    SettledTwice(History(rows, key), reported.value, ds[i].feature.event.content);
    CurrentEndsHistory(after, |after|, key);
    var current := Current(after, key).value.record.content;
    NormalizedCompares(reported.value, current);
    NormalizedCompares(ds[i].feature.event.content, current);
  }

  ghost predicate SameFeatures(ds: seq<Delivery>, es: seq<Delivery>) {
    |ds| == |es| && forall i :: 0 <= i < |ds| ==> ds[i].feature == es[i].feature
  }

  lemma {:induction false} ReportedSame(ds: seq<Delivery>, es: seq<Delivery>, n: nat, key: EventKey, c: Origin)
    requires SameFeatures(ds, es) && n <= |ds|
    ensures Reported(ds, n, key, c) == Reported(es, n, key, c)
  {
    if n > 0 {
      ReportedSame(ds, es, n - 1, key, c);
    }
  }

  /**
   * Resumability. Running any prefix of a batch, stopping there, and then running the whole batch gives every event
   * the history one uninterrupted run would have given it.
   */
  lemma {:induction false} Resumable(rows: seq<Version>, prefix: seq<Delivery>, again: seq<Delivery>,
      whole: seq<Delivery>, c: Origin, key: EventKey)
    requires ValidTable(rows) && |prefix| <= |whole|
    requires SameFeatures(prefix, whole[..|prefix|]) && SameFeatures(again, whole)
    requires Orderly(prefix) && Orderly(again) && Orderly(whole) && Agree(whole)
    requires AllClean(prefix) && AllClean(again) && AllClean(whole)
    requires StartsAfter(prefix, rows) && StartsAfter(whole, rows)
    requires StartsAfter(again, Ingest(rows, prefix, |prefix|, c).rows)
    ensures var crashed := Ingest(rows, prefix, |prefix|, c).rows;
      History(Ingest(crashed, again, |again|, c).rows, key) == History(Ingest(rows, whole, |whole|, c).rows, key)
  {
    var crashed := Ingest(rows, prefix, |prefix|, c).rows;
    assert forall i :: 0 <= i < |prefix| ==> prefix[i].feature == whole[..|prefix|][i].feature == whole[i].feature;
    IngestSettles(rows, prefix, |prefix|, c, key);
    IngestKeeps(rows, prefix, |prefix|, c);
    IngestSettles(crashed, again, |again|, c, key);
    IngestSettles(rows, whole, |whole|, c, key);
    ReportedSame(again, whole, |again|, key, c);
    SettlesAlike(rows, prefix, whole, c, key);
  }

  /** Settling a prefix of a batch first makes no difference to settling the whole of it. */
  lemma {:induction false} SettlesAlike(rows: seq<Version>, prefix: seq<Delivery>, whole: seq<Delivery>, c: Origin,
      key: EventKey)
    requires |prefix| <= |whole| && SameFeatures(prefix, whole[..|prefix|]) && Agree(whole)
    ensures var early, all := Reported(prefix, |prefix|, key, c), Reported(whole, |whole|, key, c);
      Settled(Settled(History(rows, key), early), all) == Settled(History(rows, key), all)
  {
    var early, all := Reported(prefix, |prefix|, key, c), Reported(whole, |whole|, key, c);
    ReportedBy(prefix, |prefix|, key, c);
    ReportedBy(whole, |whole|, key, c);
    if early.Some? {
      var i :| 0 <= i < |prefix| && About(prefix[i], key, c) && prefix[i].feature.event.content == early.value;
      assert prefix[i].feature == whole[..|prefix|][i].feature == whole[i].feature;
      assert About(whole[i], key, c);
      var j :| 0 <= j < |whole| && About(whole[j], key, c) && whole[j].feature.event.content == all.value;
      assert Compatible(whole[i].feature, whole[j].feature);
      SettledTwice(History(rows, key), early.value, all.value);
    }
  }

  /** The table already says what the feature says. */
  ghost predicate Known(rows: seq<Version>, f: Feature, c: Origin) {
    Storable(f) ==>
      && Current(rows, EventKey(f.event.id, c.sourceId)).Some?
      && SameContent(Current(rows, EventKey(f.event.id, c.sourceId)).value.record.content, f.event.content)
  }

  ghost predicate Silent(rows: seq<Version>, t: Tally) {
    t.ok && t.rows == rows
  }

  lemma {:induction false} HandleKnown(t: Tally, d: Delivery, c: Origin)
    requires Clean(d.feature) && VerdictStorable(d.verdict) && t.ok
    ensures Silent(t.rows, Handle(t, d, c)) <==> Known(t.rows, d.feature, c)
  {
  }

  lemma {:induction false} SilentStep(rows: seq<Version>, t: Tally, after: Tally, d: Delivery, c: Origin)
    requires Clean(d.feature) && VerdictStorable(d.verdict)
    requires after == if t.ok then Handle(t, d, c) else t
    requires |rows| <= |t.rows| && (|rows| == |t.rows| ==> t.rows == rows)
    ensures Silent(rows, after) <==> Silent(rows, t) && Known(rows, d.feature, c)
  {
    if t.ok {
      HandleKnown(t, d, c);
    }
  }

  ghost predicate AllKnown(rows: seq<Version>, ds: seq<Delivery>, n: nat, c: Origin)
    requires n <= |ds|
  {
    forall i :: 0 <= i < n ==> Known(rows, ds[i].feature, c)
  }

  lemma {:induction false} OneMoreKnown(rows: seq<Version>, ds: seq<Delivery>, n: nat, c: Origin)
    requires n < |ds|
    ensures AllKnown(rows, ds, n + 1, c) <==> AllKnown(rows, ds, n, c) && Known(rows, ds[n].feature, c)
  {
  }

  /** A pass over a batch appends nothing if and only if the table already says everything in it. */
  lemma {:induction false} NothingNew(rows: seq<Version>, ds: seq<Delivery>, n: nat, c: Origin)
    requires n <= |ds| && AllClean(ds)
    ensures Silent(rows, Ingest(rows, ds, n, c)) <==> AllKnown(rows, ds, n, c)
  {
    if n > 0 {
      NothingNew(rows, ds, n - 1, c);
      IngestGrows(rows, ds, n - 1, c);
      OneMoreKnown(rows, ds, n - 1, c);
      assert Clean(ds[n - 1].feature) && VerdictStorable(ds[n - 1].verdict);
      hide Handle, Known, AllKnown, Silent, AllClean;
      SilentStep(rows, Ingest(rows, ds, n - 1, c), Ingest(rows, ds, n, c), ds[n - 1], c);
    }
  }

  /**
   * Idempotence. After a batch in which repeated ids agree, a further pass over the same contents appends nothing,
   * whatever the mode, the clock, the verdicts, the raw bytes, the service version or the source's updated stamps.
   */
  lemma {:induction false} Idempotent(rows: seq<Version>, ds: seq<Delivery>, again: seq<Delivery>, c: Origin,
      c2: Origin)
    requires ValidTable(rows) && c.sourceId == c2.sourceId
    requires Orderly(ds) && StartsAfter(ds, rows) && AllClean(ds) && Agree(ds)
    requires AllClean(again)
    requires forall i :: 0 <= i < |again| && again[i].feature.Readable? ==> Repeats(ds, again[i].feature)
    ensures Silent(Ingest(rows, ds, |ds|, c).rows, Ingest(Ingest(rows, ds, |ds|, c).rows, again, |again|, c2))
  {
    IngestKeeps(rows, ds, |ds|, c);
    var after := Ingest(rows, ds, |ds|, c).rows;
    forall i | 0 <= i < |again| ensures Known(after, again[i].feature, c2) {
      if Storable(again[i].feature) {
        var key := EventKey(again[i].feature.event.id, c.sourceId);
        var j :| 0 <= j < |ds| && ds[j].feature.Readable?
          && ds[j].feature.event.id == again[i].feature.event.id
          && ds[j].feature.event.content == again[i].feature.event.content;
        assert About(ds[j], key, c);
        IngestSettles(rows, ds, |ds|, c, key);
        ReportedBy(ds, |ds|, key, c);
        SettledKnown(rows, ds, |ds|, j, c, after, key);
      }
    }
    NothingNew(after, again, |again|, c2);
  }

  /** The batch has a feature with the same id and content; raw bytes and updated stamp may differ. */
  ghost predicate Repeats(ds: seq<Delivery>, f: Feature)
    requires f.Readable?
  {
    exists j :: 0 <= j < |ds| && ds[j].feature.Readable?
      && ds[j].feature.event.id == f.event.id && ds[j].feature.event.content == f.event.content
  }

  /**
   * Without that agreement a second pass can append: the smallest batch that does, two features fighting over one
   * event.
   */
  lemma {:induction false} DisagreementFlaps(ds: seq<Delivery>, again: seq<Delivery>, c: Origin)
    requires |ds| == 2 && SameFeatures(again, ds) && AllClean(ds)
    requires Storable(ds[0].feature) && Storable(ds[1].feature) && ds[0].feature.event.id == ds[1].feature.event.id
    requires !SameContent(ds[0].feature.event.content, ds[1].feature.event.content)
    requires forall i :: 0 <= i < 2 ==> VerdictStorable(ds[i].verdict) && VerdictStorable(again[i].verdict)
    requires Stored(ds[0].now) < Stored(ds[1].now) < Stored(again[0].now) < Stored(again[1].now)
    ensures var once := Ingest([], ds, |ds|, c);
      var twice := Ingest(once.rows, again, |again|, c);
      once.ok && twice.ok && |once.rows| == 2 && |twice.rows| == 4
  {
    var a, b := ds[0].feature.event.content, ds[1].feature.event.content;
    var key := EventKey(ds[0].feature.event.id, c.sourceId);
    SameContentSymmetric(a, b);
    NormalizedCompares(a, b);
    NormalizedCompares(b, a);
    assert Clean(ds[0].feature) && Clean(ds[1].feature) && Current([], key).None?;
    hide Ingest, SameContent, Normalized, ValidTable, Stored, Current, Storable, Clean, VerdictStorable;
    BothWritten([], ds, c);
    BothWritten(Ingest([], ds, 2, c).rows, again, c);
  }

  /** A pass that writes both of its features. */
  lemma {:induction false} BothWritten(rows: seq<Version>, ds: seq<Delivery>, c: Origin)
    requires |ds| == 2 && ValidTable(rows) && Before(rows, ds[0].now) && Stored(ds[0].now) < Stored(ds[1].now)
    requires forall i :: 0 <= i < 2 ==>
      Clean(ds[i].feature) && VerdictStorable(ds[i].verdict) && Storable(ds[i].feature)
    requires ds[0].feature.Readable? && ds[1].feature.Readable? && ds[0].feature.event.id == ds[1].feature.event.id
    requires var current := Current(rows, EventKey(ds[0].feature.event.id, c.sourceId));
      current.Some? ==> !SameContent(current.value.record.content, ds[0].feature.event.content)
    requires !SameContent(Normalized(ds[0].feature.event.content), ds[1].feature.event.content)
    ensures var after := Ingest(rows, ds, 2, c);
      && after.ok && |after.rows| == |rows| + 2 && ValidTable(after.rows) && NotAfter(after.rows, ds[1].now)
      && var current := Current(after.rows, EventKey(ds[0].feature.event.id, c.sourceId));
         current.Some? && current.value.record.content == Normalized(ds[1].feature.event.content)
  {
    hide Ingest, Handle, SameContent, Normalized, ValidTable, Stored, Current, Storable, Clean, VerdictStorable;
    var t1 := HandleWrites(Tally(rows, NO_COUNTS, true), ds[0], c);
    var t2 := HandleWrites(t1, ds[1], c);
    IngestTwo(rows, ds, c, t1, t2);
  }

  lemma {:induction false} SameContentSymmetric(a: Content, b: Content)
    ensures SameContent(a, b) <==> SameContent(b, a)
  {
  }

  lemma {:induction false} IngestTwo(rows: seq<Version>, ds: seq<Delivery>, c: Origin, t1: Tally, t2: Tally)
    requires |ds| == 2 && t1.ok
    requires t1 == Handle(Tally(rows, NO_COUNTS, true), ds[0], c) && t2 == Handle(t1, ds[1], c)
    ensures Ingest(rows, ds, 2, c) == t2
  {
    assert Ingest(rows, ds, 0, c) == Tally(rows, NO_COUNTS, true);
    assert Ingest(rows, ds, 1, c) == t1;
  }

  lemma {:induction false} HandleWrites(t: Tally, d: Delivery, c: Origin) returns (after: Tally)
    requires ValidTable(t.rows) && Before(t.rows, d.now) && Clean(d.feature) && VerdictStorable(d.verdict)
    requires Storable(d.feature)
    requires var current := Current(t.rows, EventKey(d.feature.event.id, c.sourceId));
      current.Some? ==> !SameContent(current.value.record.content, d.feature.event.content)
    ensures after == Handle(t, d, c) && after.ok && |after.rows| == |t.rows| + 1
    ensures ValidTable(after.rows) && NotAfter(after.rows, d.now)
    ensures Current(after.rows, EventKey(d.feature.event.id, c.sourceId)).Some?
    ensures Current(after.rows, EventKey(d.feature.event.id, c.sourceId)).value.record.content
      == Normalized(d.feature.event.content)
  {
    after := Handle(t, d, c);
    var n := RecordOf(d.feature.event, d.verdict, c);
    CurrentIsNewest(t.rows, |t.rows|, RecordKey(n));
    SaveKeeps(t.rows, n, d.now);
    SaveCurrent(t.rows, n, d.now, RecordKey(n));
  }

  // ---------------------------------------------------------------------------
  // Paging
  // ---------------------------------------------------------------------------

  const MAX_EVENTS_PER_REQUEST := 20000

  function PageSize(requested: int): (r: nat)
    ensures 0 < r <= MAX_EVENTS_PER_REQUEST == 20_000
    ensures 0 < requested <= 20_000 <==> r == requested
    ensures r != requested ==> r == 20_000
  {
    if requested <= 0 || requested > MAX_EVENTS_PER_REQUEST then MAX_EVENTS_PER_REQUEST else requested
  }

  /** What the service answers to limit and a 1-based offset. */
  function Page<T>(list: seq<T>, offset: nat, size: nat): seq<T>
    requires offset > 0
  {
    list[Min(offset - 1, |list|)..Min(offset - 1 + size, |list|)]
  }

  /** How many of the features from..to could not be read. */
  function UnreadableIn(ds: seq<Delivery>, from: nat, to: nat): nat
    requires from <= to <= |ds|
    decreases |ds| - from
  {
    if from == to then 0
    else (if ds[from].feature.Unreadable? then 1 else 0) + UnreadableIn(ds, from + 1, to)
  }

  /** Counts in which some rejections have been counted already. */
  function Ahead(counts: Counts, rejected: nat): Counts {
    counts.(rejected := counts.rejected + rejected)
  }

  /** What was counted, possibly with rejections of features that the collection never came to. */
  predicate CountsAll(counts: Counts, exact: Counts) {
    exact.rejected <= counts.rejected && counts == exact.(rejected := counts.rejected)
  }

  lemma {:induction false} CountAhead(counts: Counts, outcome: SaveOutcome, rejected: nat)
    ensures Count(Ahead(counts, rejected), outcome) == Ahead(Count(counts, outcome), rejected)
  {
  }

  /** One event, saved and counted by what Save did; `early` rejections of its page have been counted already. */
  method SaveEvent(table: EarthquakeTable, d: Delivery, counts0: Counts, ghost before: Counts, ghost early: nat,
      c: Origin)
    returns (counts: Counts, ok: bool)
    requires d.feature.Readable? && counts0 == Ahead(before, early)
    requires table.Valid() && NotAfter(table.rows, d.now)
    modifies table
    ensures table.Valid() && NotAfter(table.rows, d.now)
    ensures var t := Handle(Tally(old(table.rows), before, true), d, c);
      table.rows == t.rows && ok == t.ok && counts == Ahead(t.counts, early)
    ensures ok <==> !Stops(old(table.rows), d, c)
    ensures counts == if ok then Moved(counts0, old(table.rows), table.rows, d.feature, c) else counts0
    ensures table.rows != old(table.rows) ==>
      && |table.rows| == |old(table.rows)| + 1 && table.rows[..|old(table.rows)|] == old(table.rows)
      && SaysAll(table.rows[|old(table.rows)|], d, c)
  {
    HandleCounts(Tally(table.rows, before, true), d, c);
    HandleStops(Tally(table.rows, before, true), d, c);
    var outcome := table.Save(RecordOf(d.feature.event, d.verdict, c), d.now);
    counts, ok := Count(counts0, outcome), !outcome.Refused?;
    CountAhead(before, outcome, early);
  }

  method CountUnreadable(source: seq<Delivery>, from: nat, to: nat) returns (errors: nat)
    requires from <= to <= |source|
    ensures errors == UnreadableIn(source, from, to)
  {
    errors := 0;
    var i := from;
    while i < to
      invariant from <= i <= to && errors + UnreadableIn(source, i, to) == UnreadableIn(source, from, to)
    {
      if source[i].feature.Unreadable? {
        errors := errors + 1;
      }
      i := i + 1;
    }
  }

  /**
   * The callback of one page, the features from..to of the source: every feature that could not be read is counted
   * first, then what could be read is saved in order, until the first refused record.
   */
  method SavePage(table: EarthquakeTable, ghost rows0: seq<Version>, source: seq<Delivery>,
                  from: nat, to: nat, counts0: Counts, c: Origin)
    returns (counts: Counts, handled: nat, ok: bool)
    requires from <= to <= |source|
    requires Ingest(rows0, source, from, c) == Tally(table.rows, counts0, true)
    requires table.Valid() && Orderly(source) && ClockAhead(source, from, table.rows)
    modifies table
    ensures from <= handled <= to && (ok ==> handled == to)
    ensures var t := Ingest(rows0, source, handled, c);
      t.rows == table.rows && t.ok == ok && counts == Ahead(t.counts, UnreadableIn(source, handled, to))
    ensures table.Valid() && ClockAhead(source, handled, table.rows)
  {
    hide Handle, ClockAhead, Orderly;
    var errors := CountUnreadable(source, from, to);
    counts, handled, ok := Ahead(counts0, errors), from, true;
    ghost var exact := counts0;
    while handled < to && ok
      invariant from <= handled <= to
      invariant Ingest(rows0, source, handled, c) == Tally(table.rows, exact, ok)
      invariant counts == Ahead(exact, UnreadableIn(source, handled, to))
      invariant table.Valid() && ClockAhead(source, handled, table.rows)
    {
      NextInTime(source, handled, table.rows);
      ghost var t := Handle(Tally(table.rows, exact, true), source[handled], c);
      ghost var early := UnreadableIn(source, handled, to);
      if source[handled].feature.Readable? {
        counts, ok := SaveEvent(table, source[handled], counts, exact, early, c);
      } else {
        HandleUnreadable(Tally(table.rows, exact, true), source[handled], c);
      }
      exact := t.counts;
      ClockMovesOn(source, handled, table.rows);
      handled := handled + 1;
    }
  }

  lemma {:induction false} HandleUnreadable(t: Tally, d: Delivery, c: Origin)
    requires d.feature.Unreadable?
    ensures Handle(t, d, c) == t.(counts := Ahead(t.counts, 1))
  {
  }

  /** A collection that stopped has stopped. */
  lemma {:induction false} StoppedStays(rows: seq<Version>, ds: seq<Delivery>, n: nat, m: nat, c: Origin)
    requires n <= m <= |ds| && !Ingest(rows, ds, n, c).ok
    ensures Ingest(rows, ds, m, c) == Ingest(rows, ds, n, c)
    decreases m
  {
    if n < m {
      StoppedStays(rows, ds, n, m - 1, c);
    }
  }

  ghost predicate AllAnswered(answered: nat -> bool, n: nat) {
    forall k: nat :: k < n ==> answered(k)
  }

  /** How many requests it takes to be told that there are n features. */
  function RequestsFor(n: nat, requested: int): nat {
    n / PageSize(requested) + 1
  }

  lemma {:induction false} LastRequest(n: nat, requested: int, k: nat)
    requires k * PageSize(requested) <= n
    ensures k < RequestsFor(n, requested)
    ensures n < k * PageSize(requested) + PageSize(requested) ==> RequestsFor(n, requested) == k + 1
  {
    var size := PageSize(requested);
    hide PageSize;
    var q := n / size;
    assert q * size <= n < q * size + size;
    TimesKeepsOrder(q + 1, k, size);
    assert (q + 1) * size == q * size + size;
    if n < k * size + size {
      QuotientIs(n, size, k);
    }
  }

  /** Nothing breaks the collection off: no record is refused, and every request it takes is answered. */
  ghost predicate GoesThrough(rows: seq<Version>, source: seq<Delivery>, requested: int, answered: nat -> bool,
      c: Origin)
  {
    Ingest(rows, source, |source|, c).ok && AllAnswered(answered, RequestsFor(|source|, requested))
  }

  lemma {:induction false} BrokenOff(rows: seq<Version>, source: seq<Delivery>, requested: int,
      answered: nat -> bool, c: Origin, k: nat, handled: nat)
    requires k * PageSize(requested) <= |source| && handled <= |source|
    requires !answered(k) || !Ingest(rows, source, handled, c).ok
    ensures !GoesThrough(rows, source, requested, answered, c)
  {
    LastRequest(|source|, requested, k);
    if !Ingest(rows, source, handled, c).ok {
      StoppedStays(rows, source, handled, |source|, c);
    }
    hide Ingest, PageSize, RequestsFor;
  }

  lemma {:induction false} CountsFrom(rows: seq<Version>, ds: seq<Delivery>, n: nat, c: Origin, counts: Counts)
    requires n <= |ds| && CountsAll(counts, Ingest(rows, ds, n, c).counts)
    ensures var t := Ingest(rows, ds, n, c);
      && rows <= t.rows && CountsAre(rows, t.rows, ds, counts, false)
      && (t.ok && n == |ds| && counts == t.counts ==> CountsAre(rows, t.rows, ds, counts, true))
      && forall k :: |rows| <= k < |t.rows| ==> CameFrom(t.rows[k], ds, c)
  {
    IngestCounts(rows, ds, n, c);
    IngestGrowth(rows, ds, n, c);
    IngestTotal(rows, ds, n, c);
    hide Ingest, EventsOf, NowhereAmong, CameFrom;
  }

  lemma {:induction false} WentThrough(rows: seq<Version>, source: seq<Delivery>, requested: int,
      answered: nat -> bool, c: Origin)
    requires Ingest(rows, source, |source|, c).ok && AllAnswered(answered, RequestsFor(|source|, requested))
    ensures GoesThrough(rows, source, requested, answered, c)
  {
  }

  lemma {:induction false} AnsweredSoFar(answered: nat -> bool, n: nat)
    requires n > 0 ==> AllAnswered(answered, n - 1) && answered(n - 1)
    ensures AllAnswered(answered, n)
  {
  }

  /**
   * FetchPages driving collect, over a source that answers every page from one list. Request k gets an answer that
   * is a feature collection exactly when answered(k); the walk ends on how many features were delivered, never on
   * how many could be read.
   */
  method CollectPages(table: EarthquakeTable, source: seq<Delivery>, requested: int, answered: nat -> bool, c: Origin)
    returns (counts: Counts, requests: nat, handled: nat, ok: bool)
    requires table.Valid() && Orderly(source) && ClockAhead(source, 0, table.rows)
    modifies table
    ensures table.Valid() && handled <= |source|
    ensures Ingest(old(table.rows), source, handled, c).rows == table.rows
    ensures CountsAll(counts, Ingest(old(table.rows), source, handled, c).counts)
    ensures CountsAre(old(table.rows), table.rows, source, counts, ok)
    ensures old(table.rows) <= table.rows
    ensures forall k :: |old(table.rows)| <= k < |table.rows| ==> CameFrom(table.rows[k], source, c)
    ensures ok ==>
      && Ingest(old(table.rows), source, |source|, c) == Tally(table.rows, counts, true)
      && counts.Total() == |source|
      && requests == RequestsFor(|source|, requested)
    ensures ok <==> GoesThrough(old(table.rows), source, requested, answered, c)
  {
    hide Handle, ClockAhead, Orderly, ValidTable, NoFakeRevision, GoesThrough, AllAnswered, PageSize, RequestsFor,
      CountsAre, CameFrom;
    var size := PageSize(requested);
    var offset: nat := 1;
    counts, requests, handled, ok := NO_COUNTS, 0, 0, true;
    AnsweredSoFar(answered, 0);
    ghost var rows0 := table.rows;
    while true
      invariant handled == requests * size && offset == handled + 1 && handled <= |source|
      invariant Ingest(rows0, source, handled, c) == Tally(table.rows, counts, true)
      invariant table.Valid() && ClockAhead(source, handled, table.rows)
      invariant AllAnswered(answered, requests)
      decreases |source| - handled
    {
      requests := requests + 1;
      if !answered(requests - 1) {
        BrokenOff(rows0, source, requested, answered, c, requests - 1, handled);
        CountsFrom(rows0, source, handled, c, counts);
        return counts, requests, handled, false;
      }
      AnsweredSoFar(answered, requests);
      var page := Page(source, offset, size);
      counts, handled, ok := SavePage(table, rows0, source, offset - 1, offset - 1 + |page|, counts, c);
      IngestTotal(rows0, source, handled, c);
      CountsFrom(rows0, source, handled, c, counts);
      if !ok {
        BrokenOff(rows0, source, requested, answered, c, 0, handled);
        return;
      }
      if |page| < size {
        LastRequest(|source|, requested, requests - 1);
        WentThrough(rows0, source, requested, answered, c);
        return;
      }
      offset := offset + size;
      assert (requests - 1) * size + size == requests * size;
    }
  }

  /** What request k, counted from 0, is answered when the service's list is lists[k] at that moment. */
  function Answer<T>(lists: seq<seq<T>>, k: nat, size: nat): seq<T>
    requires k < |lists|
  {
    Page(lists[k], k * size + 1, size)
  }

  /**
   * Paging by offset over a list that changes between requests: a feature that never moves towards the front
   * is still delivered.
   */
  lemma {:induction false} NothingSkipped<T>(lists: seq<seq<T>>, size: nat, position: seq<nat>, x: T)
    requires size > 0 && |lists| == |position| > 0
    requires forall k :: 0 <= k < |lists| ==> position[k] < |lists[k]| && lists[k][position[k]] == x
    requires forall k :: 0 <= k < |lists| - 1 ==> position[k] <= position[k + 1]
    requires |Answer(lists, |lists| - 1, size)| < size
    ensures exists k :: 0 <= k < |lists| && x in Answer(lists, k, size)
  {
    var k := FirstPageReached(lists, size, position, x, 0);
    OnPage(lists[k], k * size, size, position[k]);
    assert x in Answer(lists, k, size);
  }

  lemma {:induction false} OnPage<T>(list: seq<T>, before: nat, size: nat, p: nat)
    requires before <= p < before + size && p < |list|
    ensures list[p] in Page(list, before + 1, size)
  {
    assert Page(list, before + 1, size)[p - before] == list[p];
  }

  lemma {:induction false} FirstPageReached<T>(lists: seq<seq<T>>, size: nat, position: seq<nat>, x: T,
      from: nat) returns (k: nat)
    requires size > 0 && |lists| == |position| && from < |lists| && from * size <= position[from]
    requires forall k :: 0 <= k < |lists| ==> position[k] < |lists[k]| && lists[k][position[k]] == x
    requires forall k :: 0 <= k < |lists| - 1 ==> position[k] <= position[k + 1]
    requires |Answer(lists, |lists| - 1, size)| < size
    ensures k < |lists| && k * size <= position[k] < (k + 1) * size
    decreases |lists| - from
  {
    if position[from] < (from + 1) * size {
      k := from;
    } else {
      PageIsFull(lists[from], from * size, size, position[from]);
      k := FirstPageReached(lists, size, position, x, from + 1);
    }
  }

  lemma {:induction false} PageIsFull<T>(list: seq<T>, before: nat, size: nat, p: nat)
    requires before + size <= p < |list|
    ensures |Page(list, before + 1, size)| == size
  {
  }

  /** And one that does move towards the front can be missed, although it was there for every request. */
  lemma {:induction false} ShiftedFeatureMissed<T>(a: T, b: T, c: T)
    requires a != b && b != c && a != c
    ensures var lists := [[a, b, c], [b, c]];
      && Answer(lists, 0, 2) == [a, b] && Answer(lists, 1, 2) == []
      && (forall k :: 0 <= k < 2 ==> c in lists[k])
      && (forall k :: 0 <= k < 2 ==> c !in Answer(lists, k, 2))
  {
    var lists := [[a, b, c], [b, c]];
    assert Answer(lists, 0, 2) == [a, b] && Answer(lists, 1, 2) == [];
    assert lists[0][2] == c && lists[1][1] == c;
  }

  // ---------------------------------------------------------------------------
  // One request, retried
  // ---------------------------------------------------------------------------

  datatype Attempt = Body | Transient | Permanent

  /** Every attempt before i failed in a way that is worth another try. */
  ghost predicate AllTransient(attempts: nat -> Attempt, i: nat) {
    forall k: nat :: k < i ==> attempts(k) == Transient
  }

  function Tries(maxAttempts: int): (r: nat)
    ensures r == maxAttempts || (r == 1 && maxAttempts < 1)
  {
    if maxAttempts < 1 then 1 else maxAttempts
  }

  function Power2(n: nat): nat {
    if n == 0 then 1 else 2 * Power2(n - 1)
  }

  /** cancelled(i): the context is done when attempt i (counted from 0) is about to be repeated. */
  method Fetch(attempts: nat -> Attempt, cancelled: nat -> bool, maxAttempts: int, backoff: nat)
    returns (ok: bool, made: nat, slept: nat)
    ensures 1 <= made <= Tries(maxAttempts)
    ensures AllTransient(attempts, made - 1) && (forall k: nat :: 0 < k < made ==> !cancelled(k))
    ensures ok <==> attempts(made - 1) == Body
    ensures !ok ==> attempts(made - 1) == Permanent || made == Tries(maxAttempts) || cancelled(made)
    ensures slept + backoff == backoff * Power2(made - 1)
  {
    var limit := Tries(maxAttempts);
    var wait := backoff;
    made, slept := 0, 0;
    while made < limit
      invariant 0 <= made <= limit && AllTransient(attempts, made)
      invariant forall k: nat :: 0 < k < made ==> !cancelled(k)
      invariant made == 0 ==> slept == 0 && wait == backoff
      invariant made > 0 ==> wait == backoff * Power2(made - 1) && slept + backoff == wait
    {
      if made > 0 {
        if cancelled(made) {
          return false, made, slept;
        }
        slept := slept + wait;
        wait := wait * 2;
      }
      var attempt := attempts(made);
      made := made + 1;
      if attempt != Transient {
        return attempt == Body, made, slept;
      }
    }
    ok := false;
  }
}
