/** The versioned earthquake table: what counts as a revision, and how Save appends one. */
module Earthquakes {
  import opened Prelude

  // ---------------------------------------------------------------------------
  // Data
  // ---------------------------------------------------------------------------

  /** The normalized measurements of one event: everything sameContent compares. */
  datatype Content = Content(
    occurredAt: Instant, latitude: real, longitude: real, depthKm: Option<real>,
    magnitude: Option<real>, magnitudeType: string, sourceStatus: string,
    rms: Option<real>, azimuthalGap: Option<real>, stationCount: Option<int>, minDistanceDeg: Option<real>,
    isSynthetic: bool)

  datatype QualityState = Unevaluated | Valid | Suspect | Duplicate | Outlier | Corrupted | Delayed

  datatype Verdict = Verdict(state: QualityState, rules: seq<string>)

  /** What a caller asks to write. There is no ingestion instant here: the database owns it. */
  datatype Record = Record(
    externalId: string, sourceId: int, content: Content, quality: Verdict,
    parserVersion: string, sourceVersion: string, sourceUpdatedAt: Option<Instant>, raw: string)

  /** One row: an event as it was known from ingestedAt on. */
  datatype Version = Version(id: int, ingestedAt: Instant, record: Record)

  datatype EventKey = EventKey(externalId: string, sourceId: int)

  function RecordKey(n: Record): EventKey {
    EventKey(n.externalId, n.sourceId)
  }

  function Key(v: Version): EventKey {
    RecordKey(v.record)
  }

  /** January 1 of year 1, UTC: the instant Go calls zero. */
  const ZERO_INSTANT: Instant := -62135596800 * 1_000_000_000

  // ---------------------------------------------------------------------------
  // Content comparison
  // ---------------------------------------------------------------------------

  const EPSILON: real := 0.000000001

  predicate SameInstant(a: Instant, b: Instant) {
    Stored(a) == Stored(b)
  }

  predicate SameFloat(a: Option<real>, b: Option<real>) {
    match (a, b)
    case (Some(x), Some(y)) => -EPSILON < x - y < EPSILON
    case (None, None) => true
    case _ => false
  }

  predicate SameContent(cur: Content, n: Content) {
    && SameInstant(cur.occurredAt, n.occurredAt)
    && SameFloat(Some(cur.latitude), Some(n.latitude))
    && SameFloat(Some(cur.longitude), Some(n.longitude))
    && SameFloat(cur.depthKm, n.depthKm)
    && SameFloat(cur.magnitude, n.magnitude)
    && cur.magnitudeType == n.magnitudeType
    && cur.sourceStatus == n.sourceStatus
    && SameFloat(cur.rms, n.rms)
    && SameFloat(cur.azimuthalGap, n.azimuthalGap)
    && cur.stationCount == n.stationCount
    && SameFloat(cur.minDistanceDeg, n.minDistanceDeg)
    && cur.isSynthetic == n.isSynthetic
  }

  /** One is missing where the other is not, or they are a billionth or more apart. */
  predicate Apart(a: Option<real>, b: Option<real>) {
    || a.Some? != b.Some?
    || (a.Some? && b.Some? && (a.value - b.value >= 0.000000001 || b.value - a.value >= 0.000000001))
  }

  /** Some column of the two differs: by a microsecond, by a billionth, or at all. */
  predicate Differs(a: Content, b: Content) {
    || a.occurredAt / 1000 != b.occurredAt / 1000
    || Apart(Some(a.latitude), Some(b.latitude)) || Apart(Some(a.longitude), Some(b.longitude))
    || Apart(a.depthKm, b.depthKm) || Apart(a.magnitude, b.magnitude) || Apart(a.rms, b.rms)
    || Apart(a.azimuthalGap, b.azimuthalGap) || Apart(a.minDistanceDeg, b.minDistanceDeg)
    || a.magnitudeType != b.magnitudeType || a.sourceStatus != b.sourceStatus
    || a.stationCount != b.stationCount || a.isSynthetic != b.isSynthetic
  }

  /** The comparison overlooks nothing and invents nothing. */
  lemma {:induction false} SameMeansNoDifference(a: Content, b: Content)
    ensures SameContent(a, b) <==> !Differs(a, b)
  {
    assert SameInstant(a.occurredAt, b.occurredAt) <==> a.occurredAt / 1000 == b.occurredAt / 1000 by {
      assert 1000 * (a.occurredAt / 1000) == 1000 * (b.occurredAt / 1000)
        <==> a.occurredAt / 1000 == b.occurredAt / 1000;
    }
    hide SameInstant;
  }

  /**
   * The tolerance does not compose: small drifts add up to a difference. Every record is compared with what is stored.
   */
  lemma {:induction false} ToleranceNotTransitive(c: Content)
    ensures var d := (m: real) => c.(magnitude := Some(m));
      && SameContent(d(0.0), d(0.0000000006)) && SameContent(d(0.0000000006), d(0.0000000012))
      && !SameContent(d(0.0), d(0.0000000012))
  {
    assert !SameFloat(Some(0.0), Some(0.0000000012));
  }

  /** What the columns hold after the write: the occurrence instant loses its nanoseconds. */
  function Normalized(c: Content): (r: Content)
    ensures SameContent(r, c)
  {
    c.(occurredAt := Stored(c.occurredAt))
  }

  /** Comparing never sees what normalization removed. */
  lemma {:induction false} NormalizedCompares(c: Content, d: Content)
    ensures SameContent(Normalized(c), d) <==> SameContent(c, d)
    ensures SameContent(d, Normalized(c)) <==> SameContent(d, c)
  {
  }

  // ---------------------------------------------------------------------------
  // The table
  // ---------------------------------------------------------------------------

  /** Serial ids, stamps from a clock that never goes back, and UNIQUE (external_id, source_id, ingested_at). */
  ghost predicate ValidTable(rows: seq<Version>) {
    && (forall i :: 0 <= i < |rows| ==> rows[i].id > 0)
    && (forall i, j :: 0 <= i < j < |rows| ==>
          && rows[i].id < rows[j].id
          && rows[i].ingestedAt <= rows[j].ingestedAt
          && (Key(rows[i]) == Key(rows[j]) ==> rows[i].ingestedAt < rows[j].ingestedAt))
  }

  /** No row is stamped after what the database clock stamps at `now`: a whole microsecond. */
  ghost predicate NotAfter(rows: seq<Version>, now: Instant) {
    forall i :: 0 <= i < |rows| ==> rows[i].ingestedAt <= Stored(now)
  }

  ghost predicate Before(rows: seq<Version>, now: Instant) {
    forall i :: 0 <= i < |rows| ==> rows[i].ingestedAt < Stored(now)
  }

  lemma {:induction false} ClockOnlyGoesOn(rows: seq<Version>, now: Instant, later: Instant)
    requires NotAfter(rows, now) && now <= later
    ensures NotAfter(rows, later)
  {
    StoredKeepsOrder(now, later);
  }

  predicate NewerThan(a: Version, b: Version) {
    a.ingestedAt > b.ingestedAt || (a.ingestedAt == b.ingestedAt && a.id > b.id)
  }

  /** WHERE source_id = .. AND external_id = .. ORDER BY ingested_at DESC, id DESC LIMIT 1. */
  function Current(rows: seq<Version>, key: EventKey): Option<Version> {
    CurrentAmong(rows, |rows|, key)
  }

  /** The same, over the first n rows. */
  function CurrentAmong(rows: seq<Version>, n: nat, key: EventKey): Option<Version>
    requires n <= |rows|
  {
    if n == 0 then None
    else
      var last := rows[n - 1];
      var rest := CurrentAmong(rows, n - 1, key);
      if Key(last) != key then rest
      else if rest.Some? && NewerThan(rest.value, last) then rest
      else Some(last)
  }

  /** The current version is a version of the event, none is newer, and there is none only when the event is unknown. */
  lemma {:induction false} CurrentIsNewest(rows: seq<Version>, n: nat, key: EventKey)
    requires n <= |rows|
    ensures var r := CurrentAmong(rows, n, key);
      && (r.None? <==> forall i :: 0 <= i < n ==> Key(rows[i]) != key)
      && (r.Some? ==> exists i :: 0 <= i < n && rows[i] == r.value && Key(rows[i]) == key)
      && (r.Some? ==> forall i :: 0 <= i < n && Key(rows[i]) == key ==> !NewerThan(rows[i], r.value))
  {
    if n > 0 {
      CurrentIsNewest(rows, n - 1, key);
    }
  }

  lemma {:induction false} CurrentPrefix(rows: seq<Version>, longer: seq<Version>, n: nat, key: EventKey)
    requires rows <= longer && n <= |rows|
    ensures CurrentAmong(longer, n, key) == CurrentAmong(rows, n, key)
  {
    if n > 0 {
      CurrentPrefix(rows, longer, n - 1, key);
    }
  }

  /** Appending a row makes it the current version of its event and leaves every other event alone. */
  lemma {:induction false} CurrentAppend(rows: seq<Version>, v: Version, key: EventKey)
    requires ValidTable(rows + [v])
    ensures Current(rows + [v], key) == (if Key(v) == key then Some(v) else Current(rows, key))
  {
    var longer := rows + [v];
    CurrentPrefix(rows, longer, |rows|, key);
    CurrentIsNewest(rows, |rows|, key);
    var rest := Current(rows, key);
    if rest.Some? && Key(v) == key {
      var i :| 0 <= i < |rows| && rows[i] == rest.value && Key(rows[i]) == key;
      assert longer[i] == rows[i] && longer[|rows|] == v;
    }
  }

  /** Row i is the last row about the event. */
  ghost predicate IsLatest(rows: seq<Version>, i: nat, externalId: string, sourceId: int) {
    && i < |rows| && rows[i].record.externalId == externalId && rows[i].record.sourceId == sourceId
    && forall j :: i < j < |rows| ==> rows[j].record.externalId != externalId || rows[j].record.sourceId != sourceId
  }

  /** The current version of an event is the last row about it. */
  lemma {:induction false} CurrentIsLatest(rows: seq<Version>, externalId: string, sourceId: int)
    requires ValidTable(rows)
    ensures var current := Current(rows, EventKey(externalId, sourceId));
      && (current.Some? <==> HasVersion(rows, externalId, sourceId))
      && (current.Some? ==> exists i: nat :: IsLatest(rows, i, externalId, sourceId) && rows[i] == current.value)
      && (forall i: nat :: IsLatest(rows, i, externalId, sourceId) ==> current == Some(rows[i]))
  {
    var key := EventKey(externalId, sourceId);
    CurrentIsNewest(rows, |rows|, key);
    var current := Current(rows, key);
    hide CurrentAmong;
    if current.Some? {
      var k: nat :| k < |rows| && rows[k] == current.value;
      assert Key(rows[k]) == key;
      forall j | k < j < |rows| ensures Key(rows[j]) != key {
        assert rows[k].ingestedAt <= rows[j].ingestedAt && rows[k].id < rows[j].id;
      }
      assert IsLatest(rows, k, externalId, sourceId);
    }
  }

  /** The contents an event has had, oldest first. */
  function History(rows: seq<Version>, key: EventKey): seq<Content> {
    HistoryAmong(rows, |rows|, key)
  }

  function HistoryAmong(rows: seq<Version>, n: nat, key: EventKey): seq<Content>
    requires n <= |rows|
  {
    if n == 0 then []
    else
      var rest := HistoryAmong(rows, n - 1, key);
      if Key(rows[n - 1]) == key then rest + [rows[n - 1].record.content] else rest
  }

  lemma {:induction false} HistoryPrefix(rows: seq<Version>, longer: seq<Version>, n: nat, key: EventKey)
    requires rows <= longer && n <= |rows|
    ensures HistoryAmong(longer, n, key) == HistoryAmong(rows, n, key)
  {
    if n > 0 {
      HistoryPrefix(rows, longer, n - 1, key);
    }
  }

  lemma {:induction false} HistoryAppend(rows: seq<Version>, v: Version, key: EventKey)
    ensures History(rows + [v], key)
      == (if Key(v) == key then History(rows, key) + [v.record.content] else History(rows, key))
  {
    HistoryPrefix(rows, rows + [v], |rows|, key);
  }

  /** The current version is the end of the history. */
  lemma {:induction false} CurrentEndsHistory(rows: seq<Version>, n: nat, key: EventKey)
    requires ValidTable(rows) && n <= |rows|
    ensures var current, history := CurrentAmong(rows, n, key), HistoryAmong(rows, n, key);
      && (current.None? <==> history == [])
      && (current.Some? ==> history[|history| - 1] == current.value.record.content)
  {
    if n > 0 {
      CurrentEndsHistory(rows, n - 1, key);
      CurrentIsNewest(rows, n - 1, key);
    }
  }

  /** No version repeats the one before it: every revision in the table revised something. */
  ghost predicate NoFakeRevision(rows: seq<Version>) {
    forall j :: 0 <= j < |rows| ==> Revises(rows[..j], rows[j])
  }

  ghost predicate Revises(earlier: seq<Version>, v: Version) {
    Current(earlier, Key(v)).Some? ==> !SameContent(Current(earlier, Key(v)).value.record.content, v.record.content)
  }

  lemma {:induction false} NoFakeRevisionAppend(rows: seq<Version>, v: Version)
    requires NoFakeRevision(rows) && Revises(rows, v)
    ensures NoFakeRevision(rows + [v])
  {
    forall j | 0 <= j < |rows + [v]| ensures Revises((rows + [v])[..j], (rows + [v])[j]) {
      assert (rows + [v])[..j] == rows[..j];
      if j == |rows| { assert rows[..j] == rows; }
    }
  }

  /** Two versions of one event with no version of it between them differ in content. */
  lemma {:induction false} ConsecutiveVersionsDiffer(rows: seq<Version>, i: nat, j: nat)
    requires ValidTable(rows) && NoFakeRevision(rows)
    requires i < j < |rows| && Key(rows[i]) == Key(rows[j])
    requires forall k :: i < k < j ==> Key(rows[k]) != Key(rows[j])
    ensures Differs(rows[i].record.content, rows[j].record.content)
  {
    SameMeansNoDifference(rows[i].record.content, rows[j].record.content);
    hide Differs, SameContent;
    var earlier := rows[..j];
    var cur := Current(earlier, Key(rows[j]));
    CurrentIsNewest(earlier, |earlier|, Key(rows[j]));
    assert earlier[i] == rows[i];
    assert Revises(earlier, rows[j]);
    var k :| 0 <= k < |earlier| && earlier[k] == cur.value;
    assert k <= i;
    assert !NewerThan(earlier[i], earlier[k]);
  }

  // ---------------------------------------------------------------------------
  // Save
  // ---------------------------------------------------------------------------

  datatype SaveOutcome =
    | Inserted(version: Version)
    | Updated(version: Version)
    | Unaltered(version: Version)
    | BadCoordinate
    | Refused  // a missing mandatory field, an unevaluated verdict, or a database error: the batch stops here

  predicate VerdictStorable(v: Verdict) {
    v.state != Unevaluated && (v.state != Valid ==> v.rules != [])
  }

  datatype Admission = Admit | RejectCoordinate | Refuse

  /** The checks Save runs before it touches the database, in their order. */
  function Admissible(n: Record): Admission {
    if n.externalId == "" || n.content.occurredAt == ZERO_INSTANT then Refuse
    else if !InRange(n.content.latitude, n.content.longitude) then RejectCoordinate
    else if !VerdictStorable(n.quality) || n.parserVersion == "" || n.raw == "" then Refuse
    else Admit
  }

  function NextId(rows: seq<Version>): int {
    if rows == [] then 1 else rows[|rows| - 1].id + 1
  }

  /** The row insert writes: the caller's record, normalized, stamped by the database with its microsecond. */
  function NewRow(rows: seq<Version>, n: Record, now: Instant): Version {
    Version(NextId(rows), Stored(now), n.(content := Normalized(n.content)))
  }

  ghost predicate StampTaken(rows: seq<Version>, key: EventKey, now: Instant) {
    exists i :: 0 <= i < |rows| && Key(rows[i]) == key && rows[i].ingestedAt == Stored(now)
  }

  /** Under a clock that never goes back, only the current version can hold the stamp about to be used. */
  predicate Collides(current: Option<Version>, now: Instant) {
    current.Some? && current.value.ingestedAt == Stored(now)
  }

  lemma {:induction false} CollidesMeansTaken(rows: seq<Version>, key: EventKey, now: Instant)
    requires ValidTable(rows) && NotAfter(rows, now)
    ensures Collides(Current(rows, key), now) <==> StampTaken(rows, key, now)
  {
    var current := Current(rows, key);
    CurrentIsNewest(rows, |rows|, key);
    if current.Some? {
      var k :| 0 <= k < |rows| && rows[k] == current.value;
      if i :| 0 <= i < |rows| && Key(rows[i]) == key && rows[i].ingestedAt == Stored(now) {
        assert !NewerThan(rows[i], rows[k]);
      }
    }
  }

  /** Save, as a function of the table, the record and the database clock. */
  function SaveAt(rows: seq<Version>, n: Record, now: Instant): (r: (seq<Version>, SaveOutcome))
  {
    match Admissible(n)
    case Refuse => (rows, Refused)
    case RejectCoordinate => (rows, BadCoordinate)
    case Admit =>
      var current := Current(rows, RecordKey(n));
      if current.Some? && SameContent(current.value.record.content, n.content) then (rows, Unaltered(current.value))
      else if Collides(current, now) then (rows, Refused)
      else
        var v := NewRow(rows, n, now);
        (rows + [v], if current.Some? then Updated(v) else Inserted(v))
  }

  lemma {:induction false} InsertKeepsTable(rows: seq<Version>, n: Record, now: Instant)
    requires ValidTable(rows) && NotAfter(rows, now) && !Collides(Current(rows, RecordKey(n)), now)
    ensures ValidTable(rows + [NewRow(rows, n, now)])
    ensures NotAfter(rows + [NewRow(rows, n, now)], now)
  {
    CollidesMeansTaken(rows, RecordKey(n), now);
  }

  /** What one Save keeps, whatever the outcome. */
  lemma {:induction false} SaveKeeps(rows: seq<Version>, n: Record, now: Instant)
    requires ValidTable(rows) && NotAfter(rows, now)
    ensures var (after, outcome) := SaveAt(rows, n, now);
      && ValidTable(after) && NotAfter(after, now)
      && rows <= after
      && |after| == |rows| + (if outcome.Inserted? || outcome.Updated? then 1 else 0)
      && (NoFakeRevision(rows) ==> NoFakeRevision(after))
  {
    var (after, outcome) := SaveAt(rows, n, now);
    if outcome.Inserted? || outcome.Updated? {
      InsertKeepsTable(rows, n, now);
      var v := NewRow(rows, n, now);
      if NoFakeRevision(rows) {
        if outcome.Updated? {
          NormalizedCompares(n.content, Current(rows, RecordKey(n)).value.record.content);
        }
        NoFakeRevisionAppend(rows, v);
      }
    }
  }

  /**
   * What a Save that writes has written: all the caller asked for and nothing else, the occurrence instant and the
   * stamp rounded down to the microsecond.
   */
  lemma {:induction false} SaveStores(rows: seq<Version>, n: Record, now: Instant)
    ensures var (after, outcome) := SaveAt(rows, n, now);
      outcome.Inserted? || outcome.Updated? ==>
        && after == rows + [outcome.version] && outcome.version.ingestedAt == now / 1000 * 1000
        && outcome.version.record == n.(content := n.content.(occurredAt := n.content.occurredAt / 1000 * 1000))
  {
  }

  /** The event has a version in the table. */
  ghost predicate HasVersion(rows: seq<Version>, externalId: string, sourceId: int) {
    exists i :: 0 <= i < |rows| && rows[i].record.externalId == externalId && rows[i].record.sourceId == sourceId
  }

  /** Whether a record is complete enough to be considered at all. */
  predicate Identified(n: Record) {
    n.externalId != "" && n.content.occurredAt != -62_135_596_800_000_000_000
  }

  predicate OnEarth(c: Content) {
    -90.0 <= c.latitude <= 90.0 && -180.0 <= c.longitude <= 180.0
  }

  /** Judged, with a reason unless valid, and with the provenance the columns demand. */
  predicate Documented(n: Record) {
    && n.quality.state != Unevaluated && (n.quality.state == Valid || n.quality.rules != [])
    && n.parserVersion != "" && n.raw != ""
  }

  /**
   * Which outcome a Save has: rejected on its coordinates alone; refused for what it lacks, or for a second change
   * within the microsecond of the first; otherwise new, changed or unchanged.
   */
  lemma {:induction false} SaveDecides(rows: seq<Version>, n: Record, now: Instant)
    ensures var outcome := SaveAt(rows, n, now).1;
      && (outcome.BadCoordinate? <==> Identified(n) && !OnEarth(n.content))
      && (!Identified(n) || (OnEarth(n.content) && !Documented(n)) ==> outcome.Refused?)
      && (outcome.Inserted? <==>
            Identified(n) && OnEarth(n.content) && Documented(n) && !HasVersion(rows, n.externalId, n.sourceId))
      && (Identified(n) && OnEarth(n.content) && Documented(n) && HasVersion(rows, n.externalId, n.sourceId) ==>
            var current := Current(rows, EventKey(n.externalId, n.sourceId));
            && current.Some?
            && (outcome.Unaltered? <==> !Differs(current.value.record.content, n.content))
            && (outcome.Refused? <==>
                  Differs(current.value.record.content, n.content) && current.value.ingestedAt == now / 1000 * 1000))
  {
    var current := Current(rows, RecordKey(n));
    CurrentIsNewest(rows, |rows|, RecordKey(n));
    if current.Some? {
      SameMeansNoDifference(current.value.record.content, n.content);
    }
    hide SameContent, Differs, CurrentAmong;
  }

  /** The last row about the event says something else, and was written within the same microsecond. */
  ghost predicate Hurried(rows: seq<Version>, externalId: string, sourceId: int, content: Content, now: Instant) {
    exists i: nat :: IsLatest(rows, i, externalId, sourceId) && Differs(rows[i].record.content, content)
      && rows[i].ingestedAt == now / 1000 * 1000
  }

  /** What Save refuses: what lacks something, and what comes too soon. */
  lemma {:induction false} SaveRefuses(rows: seq<Version>, n: Record, now: Instant)
    requires ValidTable(rows)
    ensures SaveAt(rows, n, now).1.Refused? <==>
      || !Identified(n)
      || (OnEarth(n.content) && (!Documented(n) || Hurried(rows, n.externalId, n.sourceId, n.content, now)))
  {
    CurrentIsLatest(rows, n.externalId, n.sourceId);
    SaveDecides(rows, n, now);
    hide SaveAt, IsLatest, Differs, HasVersion, Current, Identified, OnEarth, Documented;
  }

  /** After a successful Save the current version says what the record says; no other event moved. */
  lemma {:induction false} SaveCurrent(rows: seq<Version>, n: Record, now: Instant, key: EventKey)
    requires ValidTable(rows) && NotAfter(rows, now)
    ensures var (after, outcome) := SaveAt(rows, n, now);
      && (outcome.Inserted? || outcome.Updated? || outcome.Unaltered? ==>
            && Current(after, RecordKey(n)).Some?
            && Current(after, RecordKey(n)).value == outcome.version
            && SameContent(outcome.version.record.content, n.content))
      && (key != RecordKey(n) ==> Current(after, key) == Current(rows, key))
      && (outcome.Inserted? ==> Current(rows, RecordKey(n)).None?)
      && (outcome.Updated? ==>
            && Current(rows, RecordKey(n)).Some?
            && !SameContent(Current(rows, RecordKey(n)).value.record.content, n.content))
  {
    var (after, outcome) := SaveAt(rows, n, now);
    if outcome.Inserted? || outcome.Updated? {
      InsertKeepsTable(rows, n, now);
      CurrentAppend(rows, NewRow(rows, n, now), key);
      CurrentAppend(rows, NewRow(rows, n, now), RecordKey(n));
    }
  }

  class EarthquakeTable {
    var rows: seq<Version>

    ghost predicate Valid()
      reads this
    {
      ValidTable(rows) && NoFakeRevision(rows)
    }

    constructor ()
      ensures Valid() && rows == []
    {
      rows := [];
    }

    method CurrentVersion(key: EventKey) returns (r: Option<Version>)
      ensures r == Current(rows, key)
    {
      r := None;
      var i := 0;
      while i < |rows|
        invariant 0 <= i <= |rows|
        invariant r == CurrentAmong(rows, i, key)
      {
        if Key(rows[i]) == key && !(r.Some? && NewerThan(r.value, rows[i])) {
          r := Some(rows[i]);
        }
        i := i + 1;
      }
    }

    /** now is what the database clock says when the statement runs. */
    method Save(n: Record, now: Instant) returns (outcome: SaveOutcome)
      requires Valid() && NotAfter(rows, now)
      modifies this
      ensures Valid() && NotAfter(rows, now)
      ensures (rows, outcome) == SaveAt(old(rows), n, now)
      ensures outcome.BadCoordinate? <==> Identified(n) && !OnEarth(n.content)
      ensures outcome.Inserted? <==>
        && Identified(n) && OnEarth(n.content) && Documented(n)
        && !HasVersion(old(rows), n.externalId, n.sourceId)
      ensures outcome.Inserted? || outcome.Updated? ==>
        && rows == old(rows) + [outcome.version] && outcome.version.ingestedAt == now / 1000 * 1000
        && outcome.version.record == n.(content := n.content.(occurredAt := n.content.occurredAt / 1000 * 1000))
      ensures outcome.Refused? <==>
        || !Identified(n)
        || (OnEarth(n.content) && (!Documented(n) || Hurried(old(rows), n.externalId, n.sourceId, n.content, now)))
      ensures !(outcome.Inserted? || outcome.Updated?) ==> rows == old(rows)
      ensures outcome.Inserted? || outcome.Updated? || outcome.Unaltered? ==>
        && Current(rows, RecordKey(n)) == Some(outcome.version)
        && !Differs(outcome.version.record.content, n.content)
    {
      SaveKeeps(rows, n, now);
      SaveCurrent(rows, n, now, RecordKey(n));
      SaveStores(rows, n, now);
      SaveDecides(rows, n, now);
      SaveRefuses(rows, n, now);
      ghost var saved := SaveAt(rows, n, now).1;
      if saved.Inserted? || saved.Updated? || saved.Unaltered? {
        SameMeansNoDifference(saved.version.record.content, n.content);
      }
      hide Differs, Identified, OnEarth, Documented, HasVersion, Hurried;
      if n.externalId == "" || n.content.occurredAt == ZERO_INSTANT {
        return Refused;
      }
      if !InRange(n.content.latitude, n.content.longitude) {
        return BadCoordinate;
      }
      if !VerdictStorable(n.quality) || n.parserVersion == "" || n.raw == "" {
        return Refused;
      }
      var current := CurrentVersion(RecordKey(n));
      if current.Some? && SameContent(current.value.record.content, n.content) {
        return Unaltered(current.value);
      }
      if Collides(current, now) {
        return Refused;  // earthquakes_natural_key
      }
      var v := NewRow(rows, n, now);
      rows := rows + [v];
      outcome := if current.Some? then Updated(v) else Inserted(v);
    }
  }
}
