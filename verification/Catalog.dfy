/** The volcano catalog: identity by (source, reference), upserts, absence marking, and whole imports. */
module Catalog {
  import opened Prelude

  datatype Attributes = Attributes(
    name: string, country: string, latitude: real, longitude: real, elevationM: Option<real>, status: string)

  /** The natural key of a volcano: UNIQUE (source_id, source_ref). */
  datatype Ref = Ref(sourceId: int, sourceRef: string)

  datatype Entry = Entry(id: int, attributes: Attributes, absentSince: Option<Instant>)

  /** The volcanoes table and its id sequence. */
  datatype State = State(entries: map<Ref, Entry>, nextId: int)

  datatype Record = Record(ref: Ref, attributes: Attributes)

  datatype Outcome = Inserted | Updated | Unaltered | MissingAttribution | InvalidCoordinate

  ghost predicate ValidState(s: State) {
    && s.nextId > 0
    && (forall r :: r in s.entries ==> 0 < s.entries[r].id < s.nextId)
    && (forall r, q :: r in s.entries && q in s.entries && s.entries[r].id == s.entries[q].id ==> r == q)
  }

  /** Record.Validate: attribution first, then the coordinates. */
  function Validated(r: Record): Option<Outcome> {
    if r.ref.sourceId == 0 || r.ref.sourceRef == "" then Some(MissingAttribution)
    else if !InRange(r.attributes.latitude, r.attributes.longitude) then Some(InvalidCoordinate)
    else None
  }

  function UpsertAt(s: State, r: Record): (State, Outcome) {
    if Validated(r).Some? then (s, Validated(r).value)
    else if r.ref !in s.entries then
      (State(s.entries[r.ref := Entry(s.nextId, r.attributes, None)], s.nextId + 1), Inserted)
    else
      var existing := s.entries[r.ref];
      if existing.attributes == r.attributes && existing.absentSince.None? then (s, Unaltered)
      else (s.(entries := s.entries[r.ref := Entry(existing.id, r.attributes, None)]), Updated)
  }

  predicate Vanished(s: State, ref: Ref, sourceId: int, seen: seq<string>) {
    ref in s.entries && ref.sourceId == sourceId && s.entries[ref].absentSince.None? && ref.sourceRef !in seen
  }

  function MarkAbsentAt(s: State, sourceId: int, seen: seq<string>, now: Instant): State {
    s.(entries := map ref | ref in s.entries ::
        if Vanished(s, ref, sourceId, seen) then s.entries[ref].(absentSince := Some(now)) else s.entries[ref])
  }

  function VanishedRefs(s: State, sourceId: int, seen: seq<string>): set<Ref> {
    set ref | ref in s.entries && Vanished(s, ref, sourceId, seen)
  }

  /** Which entries a marking changes, how, and how many: every reference keeps its id and its attributes. */
  lemma {:induction false} MarkAbsentMeans(s: State, sourceId: int, seen: seq<string>, now: Instant)
    ensures var t := MarkAbsentAt(s, sourceId, seen, now);
      && t.nextId == s.nextId && t.entries.Keys == s.entries.Keys
      && (forall ref :: ref in t.entries && ref.sourceId == sourceId && ref.sourceRef !in seen ==>
            t.entries[ref].absentSince.Some?)
      && (forall ref :: ref in t.entries && t.entries[ref] != s.entries[ref] ==>
            && ref.sourceId == sourceId && ref.sourceRef !in seen && s.entries[ref].absentSince.None?
            && t.entries[ref] == s.entries[ref].(absentSince := Some(now)))
      && |VanishedRefs(s, sourceId, seen)| == |set ref | ref in s.entries && t.entries[ref] != s.entries[ref]|
  {
    var t := MarkAbsentAt(s, sourceId, seen, now);
    assert VanishedRefs(s, sourceId, seen) == set ref | ref in s.entries && t.entries[ref] != s.entries[ref];
  }

  /** The statement, written out. */
  lemma {:induction false} MarkingIs(s: State, sourceId: int, seen: seq<string>, now: Instant)
    ensures var affected := set ref | ref in s.entries && ref.sourceId == sourceId
        && s.entries[ref].absentSince.None? && ref.sourceRef !in seen;
      && affected == VanishedRefs(s, sourceId, seen)
      && (map ref | ref in s.entries ::
            if ref in affected then s.entries[ref].(absentSince := Some(now)) else s.entries[ref])
         == MarkAbsentAt(s, sourceId, seen, now).entries
  {
  }

  lemma {:induction false} MarkAbsentValid(s: State, sourceId: int, seen: seq<string>, now: Instant)
    requires ValidState(s)
    ensures ValidState(MarkAbsentAt(s, sourceId, seen, now))
  {
  }

  // ---------------------------------------------------------------------------
  // Importing a snapshot
  // ---------------------------------------------------------------------------

  /** A structurally sound row of the snapshot; its coordinates may still be impossible. */
  datatype Row = Row(line: nat, sourceRef: string, attributes: Attributes)

  datatype Rejection = Rejection(line: nat, sourceRef: string)

  datatype Report = Report(inserted: nat, updated: nat, unaltered: nat, markedAbsent: nat, rejected: seq<Rejection>)

  function RecordOf(row: Row, sourceId: int): Record {
    Record(Ref(sourceId, row.sourceRef), row.attributes)
  }

  predicate Accepted(row: Row, sourceId: int) {
    Validated(RecordOf(row, sourceId)).None?
  }

  /** What is known part-way through the upsert loop. */
  datatype Progress = Progress(state: State, report: Report, seen: seq<string>)

  function UpsertRow(p: Progress, row: Row, sourceId: int): Progress {
    var (state, outcome) := UpsertAt(p.state, RecordOf(row, sourceId));
    match outcome
    case Inserted => Progress(state, p.report.(inserted := p.report.inserted + 1), p.seen + [row.sourceRef])
    case Updated => Progress(state, p.report.(updated := p.report.updated + 1), p.seen + [row.sourceRef])
    case Unaltered => Progress(state, p.report.(unaltered := p.report.unaltered + 1), p.seen + [row.sourceRef])
    case _ => p.(report := p.report.(rejected := p.report.rejected + [Rejection(row.line, row.sourceRef)]))
  }

  /** The first n rows upserted; a rejected row is reported and left out of the seen references. */
  function UpsertRows(s: State, rows: seq<Row>, n: nat, sourceId: int, parseErrors: seq<Rejection>): Progress
    requires n <= |rows|
  {
    if n == 0 then Progress(s, Report(0, 0, 0, 0, parseErrors), [])
    else UpsertRow(UpsertRows(s, rows, n - 1, sourceId, parseErrors), rows[n - 1], sourceId)
  }

  function ImportAt(s: State, rows: seq<Row>, sourceId: int, parseErrors: seq<Rejection>, now: Instant): (State,
      Report) {
    var p := UpsertRows(s, rows, |rows|, sourceId, parseErrors);
    (MarkAbsentAt(p.state, sourceId, p.seen, now),
     p.report.(markedAbsent := |VanishedRefs(p.state, sourceId, p.seen)|))
  }

  /** The row names a volcano, of a source, at a place on Earth. */
  predicate Sound(row: Row, sourceId: int) {
    && sourceId != 0 && row.sourceRef != ""
    && -90.0 <= row.attributes.latitude <= 90.0 && -180.0 <= row.attributes.longitude <= 180.0
  }

  function SoundAmong(rows: seq<Row>, n: nat, sourceId: int): set<nat>
    requires n <= |rows|
  {
    set i: nat | i < n && Sound(rows[i], sourceId)
  }

  ghost predicate Present(s: State, ref: Ref) {
    ref in s.entries && s.entries[ref].absentSince.None?
  }

  /**
   * When row i comes up its volcano is shown with the row's attributes: by the last sound row about it before, or, if
   * there is none, by the catalog as it was.
   */
  ghost predicate ShownBefore(s: State, rows: seq<Row>, i: nat, sourceId: int)
    requires i < |rows|
  {
    var ref := Ref(sourceId, rows[i].sourceRef);
    if exists j :: 0 <= j < i && Sound(rows[j], sourceId) && rows[j].sourceRef == rows[i].sourceRef then
      exists j :: 0 <= j < i && Sound(rows[j], sourceId) && rows[j].sourceRef == rows[i].sourceRef
        && rows[j].attributes == rows[i].attributes
        && forall k :: j < k < i && Sound(rows[k], sourceId) ==> rows[k].sourceRef != rows[i].sourceRef
    else Present(s, ref) && s.entries[ref].attributes == rows[i].attributes
  }

  ghost function ShownAmong(s: State, rows: seq<Row>, n: nat, sourceId: int): set<nat>
    requires n <= |rows|
  {
    set i: nat | i < n && Sound(rows[i], sourceId) && ShownBefore(s, rows, i, sourceId)
  }

  /** What the counters of an import say about the catalog before and after it, and about the rows. */
  ghost predicate ReportIs(s: State, t: State, rows: seq<Row>, sourceId: int, parseErrors: seq<Rejection>,
      report: Report)
  {
    && report.inserted == |t.entries.Keys| - |s.entries.Keys|
    && report.unaltered == |ShownAmong(s, rows, |rows|, sourceId)|
    && report.inserted + report.updated + report.unaltered == |SoundAmong(rows, |rows|, sourceId)|
    && report.markedAbsent == |set ref | ref in t.entries && Present(s, ref) && t.entries[ref].absentSince.Some?|
    && |report.rejected| == |parseErrors| + |rows| - |SoundAmong(rows, |rows|, sourceId)|
  }

  class VolcanoCatalog {
    var entries: map<Ref, Entry>
    var nextId: int

    ghost predicate Valid()
      reads this
    {
      ValidState(Contents())
    }

    function Contents(): State
      reads this
    {
      State(entries, nextId)
    }

    constructor ()
      ensures Valid() && entries == map[]
    {
      entries, nextId := map[], 1;
    }

    method Upsert(r: Record) returns (outcome: Outcome)
      requires Valid()
      modifies this
      ensures Valid()
      ensures (Contents(), outcome) == UpsertAt(old(Contents()), r)
      ensures outcome.MissingAttribution? <==> r.ref.sourceId == 0 || r.ref.sourceRef == ""
      ensures outcome.InvalidCoordinate? <==>
        && r.ref.sourceId != 0 && r.ref.sourceRef != ""
        && !(-90.0 <= r.attributes.latitude <= 90.0 && -180.0 <= r.attributes.longitude <= 180.0)
      ensures outcome.Inserted? ==> r.ref !in old(entries) && entries[r.ref].id == old(nextId)
      ensures nextId == old(nextId) + if outcome.Inserted? then 1 else 0
      ensures outcome.Updated? ==> r.ref in old(entries) && entries[r.ref] != old(entries)[r.ref]
      ensures !outcome.Inserted? && !outcome.Updated? ==> entries == old(entries)
      ensures outcome.Inserted? || outcome.Updated? || outcome.Unaltered? ==>
        && r.ref in entries && entries[r.ref].attributes == r.attributes && entries[r.ref].absentSince == None
        && (r.ref in old(entries) ==> entries[r.ref].id == old(entries)[r.ref].id)
      ensures forall ref :: ref != r.ref ==> (ref in entries <==> ref in old(entries))
      ensures forall ref :: ref != r.ref && ref in old(entries) ==> entries[ref] == old(entries)[ref]
    {
      var invalid := Validated(r);
      if invalid.Some? {
        return invalid.value;
      }
      if r.ref !in entries {
        entries := entries[r.ref := Entry(nextId, r.attributes, None)];
        nextId := nextId + 1;
        return Inserted;
      }
      var existing := entries[r.ref];
      if existing.attributes == r.attributes && existing.absentSince.None? {
        return Unaltered;
      }
      entries := entries[r.ref := Entry(existing.id, r.attributes, None)];
      outcome := Updated;
    }

    /** One UPDATE: what it marks, what it leaves alone, and how many rows it affected. */
    method MarkAbsent(sourceId: int, seen: seq<string>, now: Instant) returns (marked: nat)
      requires Valid()
      modifies this
      ensures Valid() && nextId == old(nextId) && entries.Keys == old(entries).Keys
      ensures forall ref :: ref in entries && ref.sourceId == sourceId && ref.sourceRef !in seen ==>
        entries[ref].absentSince.Some?
      ensures forall ref :: ref in entries && entries[ref] != old(entries)[ref] ==>
        && ref.sourceId == sourceId && ref.sourceRef !in seen && old(entries)[ref].absentSince.None?
        && entries[ref] == old(entries)[ref].(absentSince := Some(now))
      ensures marked == |set ref | ref in old(entries) && entries[ref] != old(entries)[ref]|
      ensures Contents() == MarkAbsentAt(old(Contents()), sourceId, seen, now)
      ensures marked == |VanishedRefs(old(Contents()), sourceId, seen)|
    {
      var before := Contents();
      var affected := set ref | ref in entries && ref.sourceId == sourceId && entries[ref].absentSince.None?
                                && ref.sourceRef !in seen;
      entries := map ref | ref in entries ::
        if ref in affected then entries[ref].(absentSince := Some(now)) else entries[ref];
      marked := |affected|;
      MarkingIs(before, sourceId, seen, now);
      hide VanishedRefs, MarkAbsentAt, Vanished, ValidState;
      MarkAbsentMeans(before, sourceId, seen, now);
      MarkAbsentValid(before, sourceId, seen, now);
    }

    /** One row of the upsert loop: reported and seen, or reported as rejected. */
    method ImportRow(row: Row, sourceId: int, report0: Report, seen0: seq<string>)
      returns (report: Report, seen: seq<string>)
      requires Valid()
      modifies this
      ensures Valid()
      ensures Progress(Contents(), report, seen) == UpsertRow(Progress(old(Contents()), report0, seen0), row, sourceId)
      ensures !Sound(row, sourceId) ==>
        && entries == old(entries) && seen == seen0
        && report == report0.(rejected := report0.rejected + [Rejection(row.line, row.sourceRef)])
      ensures Sound(row, sourceId) ==>
        var ref := Ref(sourceId, row.sourceRef);
        && seen == seen0 + [row.sourceRef] && ref in entries && entries[ref].attributes == row.attributes
        && report ==
             if ref !in old(entries) then report0.(inserted := report0.inserted + 1)
             else if entries != old(entries) then report0.(updated := report0.updated + 1)
             else report0.(unaltered := report0.unaltered + 1)
    {
      report, seen := report0, seen0;
      var outcome := Upsert(RecordOf(row, sourceId));
      match outcome {
        case MissingAttribution =>
          report := report.(rejected := report.rejected + [Rejection(row.line, row.sourceRef)]);
        case InvalidCoordinate =>
          report := report.(rejected := report.rejected + [Rejection(row.line, row.sourceRef)]);
        case Inserted =>
          report := report.(inserted := report.inserted + 1);
          seen := seen + [row.sourceRef];
        case Updated =>
          report := report.(updated := report.updated + 1);
          seen := seen + [row.sourceRef];
        case Unaltered =>
          report := report.(unaltered := report.unaltered + 1);
          seen := seen + [row.sourceRef];
      }
      hide UpsertAt, ValidState;
    }

    /** answered(i): the database answers the statements of row i; row |rows| is the absence marking. */
    method Import(rows: seq<Row>, sourceId: int, parseErrors: seq<Rejection>, now: Instant, answered: nat -> bool)
      returns (r: Result<Report, nat>)
      requires Valid()
      modifies this
      ensures Valid()
      ensures r.Ok? <==> forall i :: 0 <= i <= |rows| ==> answered(i)
      ensures r.Ok? ==> (Contents(), r.value) == ImportAt(old(Contents()), rows, sourceId, parseErrors, now)
      ensures r.Ok? ==> ReportIs(old(Contents()), Contents(), rows, sourceId, parseErrors, r.value)
      ensures r.Err? ==>
        && r.error <= |rows|
        && Contents() == UpsertRows(old(Contents()), rows, r.error, sourceId, parseErrors).state
    {
      hide UpsertRow, UpsertAt, MarkAbsentAt, VanishedRefs, ValidState, ReportIs;
      var report := Report(0, 0, 0, 0, parseErrors);
      var seen: seq<string> := [];
      var i := 0;
      while i < |rows|
        invariant 0 <= i <= |rows| && Valid()
        invariant forall k :: 0 <= k < i ==> answered(k)
        invariant Progress(Contents(), report, seen) == UpsertRows(old(Contents()), rows, i, sourceId, parseErrors)
      {
        if !answered(i) {
          return Err(i);
        }
        report, seen := ImportRow(rows[i], sourceId, report, seen);
        i := i + 1;
      }
      if !answered(|rows|) {
        return Err(|rows|);
      }
      var marked := MarkAbsent(sourceId, seen, now);
      r := Ok(report.(markedAbsent := marked));
      ImportCounts(old(Contents()), rows, sourceId, parseErrors, now);
    }
  }

  // ---------------------------------------------------------------------------
  // What an import leaves behind
  // ---------------------------------------------------------------------------

  predicate IsAbout(row: Row, ref: Ref, sourceId: int) {
    Accepted(row, sourceId) && Ref(sourceId, row.sourceRef) == ref
  }

  /** The last accepted row of the first n about a reference: its attributes are what the upserts leave. */
  function LastAccepted(rows: seq<Row>, n: nat, ref: Ref, sourceId: int): Option<Attributes>
    requires n <= |rows|
  {
    if n == 0 then None
    else if IsAbout(rows[n - 1], ref, sourceId) then Some(rows[n - 1].attributes)
    else LastAccepted(rows, n - 1, ref, sourceId)
  }

  lemma {:induction false} LastAcceptedIs(rows: seq<Row>, n: nat, ref: Ref, sourceId: int)
    requires n <= |rows|
    ensures var last := LastAccepted(rows, n, ref, sourceId);
      && (last.Some? <==> exists i :: 0 <= i < n && IsAbout(rows[i], ref, sourceId))
      && (last.Some? ==> exists i :: 0 <= i < n && IsAbout(rows[i], ref, sourceId) && rows[i].attributes == last.value)
  {
    if n > 0 {
      LastAcceptedIs(rows, n - 1, ref, sourceId);
    }
  }

  /** One reference after n upserts: untouched, or present with the last accepted attributes and its old identity. */
  ghost predicate UpsertedAs(s: State, t: State, ref: Ref, last: Option<Attributes>) {
    && (ref in s.entries ==> ref in t.entries && t.entries[ref].id == s.entries[ref].id)
    && (last.None? ==>
          (ref in t.entries <==> ref in s.entries) && (ref in s.entries ==> t.entries[ref] == s.entries[ref]))
    && (last.Some? ==> ref in t.entries && t.entries[ref].attributes == last.value && t.entries[ref].absentSince.None?)
  }

  lemma {:induction false} UpsertsLeave(s: State, rows: seq<Row>, n: nat, sourceId: int, errors: seq<Rejection>,
      ref: Ref)
    requires n <= |rows|
    ensures var p := UpsertRows(s, rows, n, sourceId, errors);
      UpsertedAs(s, p.state, ref, LastAccepted(rows, n, ref, sourceId))
  {
    if n > 0 {
      UpsertsLeave(s, rows, n - 1, sourceId, errors, ref);
    }
  }

  lemma {:induction false} UpsertsValid(s: State, rows: seq<Row>, n: nat, sourceId: int, errors: seq<Rejection>)
    requires n <= |rows| && ValidState(s)
    ensures ValidState(UpsertRows(s, rows, n, sourceId, errors).state)
  {
    if n > 0 {
      UpsertsValid(s, rows, n - 1, sourceId, errors);
    }
  }

  lemma {:induction false} SoundIsAccepted(rows: seq<Row>, n: nat, sourceId: int)
    requires n < |rows|
    ensures Accepted(rows[n], sourceId) <==> Sound(rows[n], sourceId)
    ensures |SoundAmong(rows, n + 1, sourceId)|
      == |SoundAmong(rows, n, sourceId)| + (if Sound(rows[n], sourceId) then 1 else 0)
  {
    assert SoundAmong(rows, n + 1, sourceId)
      == SoundAmong(rows, n, sourceId) + (if Sound(rows[n], sourceId) then {n} else {});
  }

  /** The last sound row about a volcano before row n, where one is. */
  lemma {:induction false} LastBefore(rows: seq<Row>, n: nat, m: nat, sourceId: int)
    requires n <= m < |rows|
    ensures var last := LastAccepted(rows, n, Ref(sourceId, rows[m].sourceRef), sourceId);
      && (last.None? <==> forall j :: 0 <= j < n && Sound(rows[j], sourceId) ==> rows[j].sourceRef != rows[m].sourceRef)
      && (last.Some? ==>
            exists j :: 0 <= j < n && Sound(rows[j], sourceId) && rows[j].sourceRef == rows[m].sourceRef
              && rows[j].attributes == last.value
              && forall k :: j < k < n && Sound(rows[k], sourceId) ==> rows[k].sourceRef != rows[m].sourceRef)
  {
    if n > 0 {
      LastBefore(rows, n - 1, m, sourceId);
    }
  }

  /** The state a row finds shows its attributes exactly when the rows before it, or the catalog, said so. */
  lemma {:induction false} FoundShown(s: State, rows: seq<Row>, n: nat, sourceId: int, errors: seq<Rejection>)
    requires n < |rows|
    ensures var p, ref := UpsertRows(s, rows, n, sourceId, errors).state, Ref(sourceId, rows[n].sourceRef);
      ShownBefore(s, rows, n, sourceId) <==> Present(p, ref) && p.entries[ref].attributes == rows[n].attributes
  {
    var ref := Ref(sourceId, rows[n].sourceRef);
    UpsertsLeave(s, rows, n, sourceId, errors, ref);
    LastBefore(rows, n, n, sourceId);
    hide UpsertRows, LastAccepted, Sound;
  }

  lemma {:induction false} ShownNext(s: State, rows: seq<Row>, n: nat, sourceId: int)
    requires n < |rows|
    ensures |ShownAmong(s, rows, n + 1, sourceId)| == |ShownAmong(s, rows, n, sourceId)|
      + (if Sound(rows[n], sourceId) && ShownBefore(s, rows, n, sourceId) then 1 else 0)
  {
    hide Sound, ShownBefore;
    assert ShownAmong(s, rows, n + 1, sourceId) == ShownAmong(s, rows, n, sourceId)
      + (if Sound(rows[n], sourceId) && ShownBefore(s, rows, n, sourceId) then {n} else {});
  }

  /** The counters after n rows. */
  lemma {:induction false} UpsertsCount(s: State, rows: seq<Row>, n: nat, sourceId: int, errors: seq<Rejection>)
    requires n <= |rows|
    ensures var p := UpsertRows(s, rows, n, sourceId, errors);
      && p.report.inserted == |p.state.entries.Keys| - |s.entries.Keys|
      && p.report.unaltered == |ShownAmong(s, rows, n, sourceId)|
      && p.report.inserted + p.report.updated + p.report.unaltered == |SoundAmong(rows, n, sourceId)|
      && |p.report.rejected| == |errors| + n - |SoundAmong(rows, n, sourceId)|
  {
    hide ShownBefore, Sound, UpsertRow, Accepted, Present;
    if n == 0 {
      assert ShownAmong(s, rows, 0, sourceId) == {} && SoundAmong(rows, 0, sourceId) == {};
    } else {
      hide ShownAmong, SoundAmong;
      UpsertsCount(s, rows, n - 1, sourceId, errors);
      FoundShown(s, rows, n - 1, sourceId, errors);
      SoundIsAccepted(rows, n - 1, sourceId);
      ShownNext(s, rows, n - 1, sourceId);
      UpsertCounts(UpsertRows(s, rows, n - 1, sourceId, errors), rows[n - 1], sourceId);
    }
  }

  /** The counter one row moves. */
  lemma {:induction false} UpsertCounts(p: Progress, row: Row, sourceId: int)
    ensures var after, ref := UpsertRow(p, row, sourceId), Ref(sourceId, row.sourceRef);
      && after.report.inserted - p.report.inserted == |after.state.entries.Keys| - |p.state.entries.Keys|
      && (Accepted(row, sourceId) ==>
            && after.report.rejected == p.report.rejected
            && after.report.inserted + after.report.updated + after.report.unaltered
                 == p.report.inserted + p.report.updated + p.report.unaltered + 1)
      && (!Accepted(row, sourceId) ==>
            && |after.report.rejected| == |p.report.rejected| + 1
            && after.report == p.report.(rejected := after.report.rejected))
      && after.report.unaltered == p.report.unaltered
           + (if Accepted(row, sourceId) && Present(p.state, ref) && p.state.entries[ref].attributes == row.attributes
              then 1 else 0)
  {
    var ref := Ref(sourceId, row.sourceRef);
    var (state, outcome) := UpsertAt(p.state, RecordOf(row, sourceId));
    if outcome.Inserted? {
      assert state.entries.Keys == p.state.entries.Keys + {ref};
    } else {
      assert state.entries.Keys == p.state.entries.Keys;
    }
  }

  /** The seen references are exactly the accepted ones. */
  lemma {:induction false} SeenIsAccepted(s: State, rows: seq<Row>, n: nat, sourceId: int, errors: seq<Rejection>,
      ref: Ref)
    requires n <= |rows| && ref.sourceId == sourceId
    ensures var p := UpsertRows(s, rows, n, sourceId, errors);
      ref.sourceRef in p.seen <==> LastAccepted(rows, n, ref, sourceId).Some?
  {
    if n > 0 {
      SeenIsAccepted(s, rows, n - 1, sourceId, errors, ref);
      var before, after := UpsertRows(s, rows, n - 1, sourceId, errors), UpsertRows(s, rows, n, sourceId, errors);
      if Accepted(rows[n - 1], sourceId) {
        assert after.seen == before.seen + [rows[n - 1].sourceRef];
      }
    }
  }

  /**
   * After an import the present volcanoes of the source are exactly the accepted references, with the snapshot's
   * attributes. A reference the snapshot carries with an impossible coordinate is not among them: it is marked absent.
   * Identities only ever grow, and no other source is touched.
   */
  lemma {:induction false} ImportConverges(s: State, rows: seq<Row>, sourceId: int, errors: seq<Rejection>,
      now: Instant, ref: Ref)
    ensures var (t, report) := ImportAt(s, rows, sourceId, errors, now);
      var last := LastAccepted(rows, |rows|, ref, sourceId);
      && (ref in s.entries ==> ref in t.entries && t.entries[ref].id == s.entries[ref].id)
      && (ref.sourceId == sourceId ==> (Present(t, ref) <==> last.Some?))
      && (last.Some? ==> ref in t.entries && t.entries[ref].attributes == last.value)
      && (ref.sourceId == sourceId && ref in s.entries && last.None? ==>
            && t.entries[ref].attributes == s.entries[ref].attributes
            && t.entries[ref].absentSince
               == (if s.entries[ref].absentSince.None? then Some(now) else s.entries[ref].absentSince))
      && (ref.sourceId != sourceId ==>
            && (ref in t.entries <==> ref in s.entries)
            && (ref in s.entries ==> t.entries[ref] == s.entries[ref]))
      && (ref in t.entries ==> ref in s.entries || last.Some?)
  {
    UpsertsLeave(s, rows, |rows|, sourceId, errors, ref);
    LastAcceptedIs(rows, |rows|, ref, sourceId);
    if ref.sourceId == sourceId {
      SeenIsAccepted(s, rows, |rows|, sourceId, errors, ref);
    }
  }

  lemma {:induction false} ImportKeepsIdentity(s: State, rows: seq<Row>, sourceId: int, errors: seq<Rejection>,
      now: Instant)
    requires ValidState(s)
    ensures ValidState(ImportAt(s, rows, sourceId, errors, now).0)
  {
    UpsertsValid(s, rows, |rows|, sourceId, errors);
  }

  /** The report of an import counts what it did to the catalog and to each row. */
  lemma {:induction false} ImportCounts(s: State, rows: seq<Row>, sourceId: int, errors: seq<Rejection>, now: Instant)
    ensures var (t, report) := ImportAt(s, rows, sourceId, errors, now);
      ReportIs(s, t, rows, sourceId, errors, report)
  {
    var p := UpsertRows(s, rows, |rows|, sourceId, errors);
    var (t, report) := ImportAt(s, rows, sourceId, errors, now);
    UpsertsCount(s, rows, |rows|, sourceId, errors);
    assert t.entries.Keys == p.state.entries.Keys;
    forall ref ensures
        ref in VanishedRefs(p.state, sourceId, p.seen)
        <==> ref in t.entries && Present(s, ref) && t.entries[ref].absentSince.Some?
    {
      UpsertsLeave(s, rows, |rows|, sourceId, errors, ref);
      if ref.sourceId == sourceId {
        SeenIsAccepted(s, rows, |rows|, sourceId, errors, ref);
      } else {
        LastAcceptedIs(rows, |rows|, ref, sourceId);
      }
    }
    assert VanishedRefs(p.state, sourceId, p.seen)
      == set ref | ref in t.entries && Present(s, ref) && t.entries[ref].absentSince.Some?;
  }

  /** When no two sound rows are about one volcano, the unaltered ones are those the catalog showed already. */
  lemma {:induction false} UnalteredWereShown(s: State, rows: seq<Row>, sourceId: int)
    requires forall i, j :: 0 <= i < j < |rows| && Sound(rows[i], sourceId) && Sound(rows[j], sourceId) ==>
      rows[i].sourceRef != rows[j].sourceRef
    ensures ShownAmong(s, rows, |rows|, sourceId) == set i: nat | i < |rows| && Sound(rows[i], sourceId)
      && Present(s, Ref(sourceId, rows[i].sourceRef))
      && s.entries[Ref(sourceId, rows[i].sourceRef)].attributes == rows[i].attributes
  {
    hide Sound, Present;
  }

  // ---------------------------------------------------------------------------
  // Importing again
  // ---------------------------------------------------------------------------

  /** The catalog already shows exactly what the rows say. */
  ghost predicate Shows(s: State, rows: seq<Row>, sourceId: int) {
    forall ref :: LastAccepted(rows, |rows|, ref, sourceId).Some? ==>
      Present(s, ref) && s.entries[ref].attributes == LastAccepted(rows, |rows|, ref, sourceId).value
  }

  /** Accepted rows that repeat a reference repeat its attributes. */
  ghost predicate Consistent(rows: seq<Row>, sourceId: int) {
    forall i, j :: 0 <= i < |rows| && 0 <= j < |rows| && Accepted(rows[i], sourceId) && Accepted(rows[j], sourceId) ==>
      rows[i].sourceRef == rows[j].sourceRef ==> rows[i].attributes == rows[j].attributes
  }

  lemma {:induction false} UpsertRowRejects(p: Progress, row: Row, sourceId: int)
    ensures var after := UpsertRow(p, row, sourceId);
      && after.seen == (if Accepted(row, sourceId) then p.seen + [row.sourceRef] else p.seen)
      && after.report.rejected
         == (if Accepted(row, sourceId) then p.report.rejected
             else p.report.rejected + [Rejection(row.line, row.sourceRef)])
  {
  }

  /** The rejections a snapshot produces depend on the snapshot alone. */
  lemma {:induction false} SameRejections(s: State, t: State, rows: seq<Row>, n: nat, sourceId: int,
      errors: seq<Rejection>)
    requires n <= |rows|
    ensures var p, q := UpsertRows(s, rows, n, sourceId, errors), UpsertRows(t, rows, n, sourceId, errors);
      p.report.rejected == q.report.rejected && p.seen == q.seen
  {
    hide *;
    RejectsOnce(s, rows, n, sourceId, errors);
    RejectsOnce(t, rows, n, sourceId, errors);
    if n > 0 {
      SameRejections(s, t, rows, n - 1, sourceId, errors);
    }
  }

  /** What one more row adds to the rejections and to the seen references. */
  lemma {:induction false} RejectsOnce(s: State, rows: seq<Row>, n: nat, sourceId: int, errors: seq<Rejection>)
    requires n <= |rows|
    ensures var after := UpsertRows(s, rows, n, sourceId, errors);
      && (n == 0 ==> after.seen == [] && after.report.rejected == errors)
      && (n > 0 ==>
            var p, row := UpsertRows(s, rows, n - 1, sourceId, errors), rows[n - 1];
            && after.seen == (if Accepted(row, sourceId) then p.seen + [row.sourceRef] else p.seen)
            && after.report.rejected
               == (if Accepted(row, sourceId) then p.report.rejected
                   else p.report.rejected + [Rejection(row.line, row.sourceRef)]))
  {
    if n > 0 {
      UpsertRowRejects(UpsertRows(s, rows, n - 1, sourceId, errors), rows[n - 1], sourceId);
    }
    hide UpsertRow;
  }

  /** Upserting consistent rows the catalog already shows changes nothing. */
  lemma {:induction false} NothingToUpsert(s: State, rows: seq<Row>, n: nat, sourceId: int, errors: seq<Rejection>)
    requires n <= |rows| && Shows(s, rows, sourceId) && Consistent(rows, sourceId)
    ensures var p := UpsertRows(s, rows, n, sourceId, errors);
      p.state == s && p.report.inserted == p.report.updated == 0
  {
    if n > 0 {
      NothingToUpsert(s, rows, n - 1, sourceId, errors);
      if Accepted(rows[n - 1], sourceId) {
        var ref := Ref(sourceId, rows[n - 1].sourceRef);
        LastAcceptedIs(rows, |rows|, ref, sourceId);
      }
    }
  }

  /** Whatever the order and repetitions, no row is inserted when the catalog already knows every accepted reference. */
  lemma {:induction false} NothingToInsert(s: State, rows: seq<Row>, n: nat, sourceId: int, errors: seq<Rejection>)
    requires n <= |rows| && Shows(s, rows, sourceId)
    ensures var p := UpsertRows(s, rows, n, sourceId, errors);
      p.state.nextId == s.nextId && p.report.inserted == 0 && p.state.entries.Keys == s.entries.Keys
  {
    if n > 0 {
      NothingToInsert(s, rows, n - 1, sourceId, errors);
      if Accepted(rows[n - 1], sourceId) {
        var ref := Ref(sourceId, rows[n - 1].sourceRef);
        LastAcceptedIs(rows, |rows|, ref, sourceId);
        assert ref in s.entries;
      }
    }
  }

  /** If no row counted as an update, every accepted row found its own attributes already there. */
  lemma {:induction false} NoUpdatesMeansEqual(s: State, rows: seq<Row>, n: nat, sourceId: int, errors: seq<Rejection>)
    requires n <= |rows| && Shows(s, rows, sourceId)
    requires UpsertRows(s, rows, n, sourceId, errors).report.updated == 0
    ensures UpsertRows(s, rows, n, sourceId, errors).state == s
    ensures forall i :: 0 <= i < n && Accepted(rows[i], sourceId) ==>
      LastAccepted(rows, |rows|, Ref(sourceId, rows[i].sourceRef), sourceId) == Some(rows[i].attributes)
  {
    if n > 0 {
      NoUpdatesMeansEqual(s, rows, n - 1, sourceId, errors);
      if Accepted(rows[n - 1], sourceId) {
        LastAcceptedIs(rows, |rows|, Ref(sourceId, rows[n - 1].sourceRef), sourceId);
      }
    }
  }

  /**
   * Importing the same snapshot again, whenever that happens, leaves every entry as it was, inserts nothing, marks
   * nothing and rejects the same rows. It reports no update either if and only if rows that repeat a reference agree;
   * two rows that disagree about one volcano are reported as updated on every import.
   */
  lemma {:induction false} ReimportChangesNothing(s: State, rows: seq<Row>, sourceId: int, errors: seq<Rejection>,
      now: Instant, later: Instant)
    ensures var (t, first) := ImportAt(s, rows, sourceId, errors, now);
      var (u, second) := ImportAt(t, rows, sourceId, errors, later);
      && u == t
      && second.inserted == 0 && second.markedAbsent == 0 && second.rejected == first.rejected
      && (second.updated == 0 <==> Consistent(rows, sourceId))
  {
    var (t, first) := ImportAt(s, rows, sourceId, errors, now);
    var p := UpsertRows(t, rows, |rows|, sourceId, errors);
    forall ref ensures LastAccepted(rows, |rows|, ref, sourceId).Some? ==>
        Present(t, ref) && t.entries[ref].attributes == LastAccepted(rows, |rows|, ref, sourceId).value {
      LastAcceptedIs(rows, |rows|, ref, sourceId);
      ImportConverges(s, rows, sourceId, errors, now, ref);
    }
    SameRejections(s, t, rows, |rows|, sourceId, errors);
    NothingToInsert(t, rows, |rows|, sourceId, errors);
    NothingVanishes(s, rows, sourceId, errors, now);
    UpsertsRestore(t, rows, sourceId, errors);
    if Consistent(rows, sourceId) {
      NothingToUpsert(t, rows, |rows|, sourceId, errors);
    }
    if p.report.updated == 0 {
      NoUpdatesMeansEqual(t, rows, |rows|, sourceId, errors);
    }
  }

  /** Even when rows disagree, the last one about each reference wins again. */
  lemma {:induction false} UpsertsRestore(s: State, rows: seq<Row>, sourceId: int, errors: seq<Rejection>)
    requires Shows(s, rows, sourceId)
    ensures UpsertRows(s, rows, |rows|, sourceId, errors).state == s
  {
    var p := UpsertRows(s, rows, |rows|, sourceId, errors);
    NothingToInsert(s, rows, |rows|, sourceId, errors);
    forall ref | ref in s.entries ensures p.state.entries[ref] == s.entries[ref] {
      UpsertsLeave(s, rows, |rows|, sourceId, errors, ref);
    }
    assert p.state.entries == s.entries;
  }

  lemma {:induction false} NothingVanishes(s: State, rows: seq<Row>, sourceId: int, errors: seq<Rejection>,
      now: Instant)
    requires Shows(ImportAt(s, rows, sourceId, errors, now).0, rows, sourceId)
    ensures var t := ImportAt(s, rows, sourceId, errors, now).0;
      var p := UpsertRows(t, rows, |rows|, sourceId, errors);
      VanishedRefs(p.state, sourceId, p.seen) == {}
      && MarkAbsentAt(p.state, sourceId, p.seen, now) == p.state
  {
    var t := ImportAt(s, rows, sourceId, errors, now).0;
    var p := UpsertRows(t, rows, |rows|, sourceId, errors);
    UpsertsRestore(t, rows, sourceId, errors);
    forall ref | ref in t.entries ensures !Vanished(p.state, ref, sourceId, p.seen) {
      if ref.sourceId == sourceId {
        ImportConverges(s, rows, sourceId, errors, now, ref);
        SeenIsAccepted(t, rows, |rows|, sourceId, errors, ref);
      }
    }
    assert MarkAbsentAt(p.state, sourceId, p.seen, now).entries == p.state.entries;
  }

  /** The same catalog as far as anyone can read it: attributes and presence, not the instants of marking. */
  ghost predicate ReadsAlike(s: State, t: State) {
    && s.entries.Keys == t.entries.Keys
    && forall ref :: ref in s.entries ==>
      s.entries[ref].attributes == t.entries[ref].attributes && (Present(s, ref) <==> Present(t, ref))
  }

  /** An import that broke after any number of rows, followed by a full one, reaches the catalog of a full one alone. */
  lemma {:induction false} AbortedImportRecovers(s: State, rows: seq<Row>, n: nat, sourceId: int,
      errors: seq<Rejection>, now: Instant, later: Instant)
    requires n <= |rows|
    ensures var aborted := UpsertRows(s, rows, n, sourceId, errors).state;
      ReadsAlike(ImportAt(aborted, rows, sourceId, errors, later).0, ImportAt(s, rows, sourceId, errors, now).0)
  {
    var aborted := UpsertRows(s, rows, n, sourceId, errors).state;
    var t, u := ImportAt(aborted, rows, sourceId, errors, later).0, ImportAt(s, rows, sourceId, errors, now).0;
    forall ref ensures (ref in t.entries <==> ref in u.entries)
        && (ref in t.entries ==>
              t.entries[ref].attributes == u.entries[ref].attributes && (Present(t, ref) <==> Present(u, ref))) {
      RecoversAt(s, rows, n, sourceId, errors, now, later, ref);
    }
  }

  lemma {:induction false} RecoversAt(s: State, rows: seq<Row>, n: nat, sourceId: int, errors: seq<Rejection>,
                                      now: Instant, later: Instant, ref: Ref)
    requires n <= |rows|
    ensures var aborted := UpsertRows(s, rows, n, sourceId, errors).state;
      var t, u := ImportAt(aborted, rows, sourceId, errors, later).0, ImportAt(s, rows, sourceId, errors, now).0;
      && (ref in t.entries <==> ref in u.entries)
      && (ref in t.entries ==>
            t.entries[ref].attributes == u.entries[ref].attributes && (Present(t, ref) <==> Present(u, ref)))
  {
    var aborted := UpsertRows(s, rows, n, sourceId, errors).state;
    UpsertsLeave(s, rows, n, sourceId, errors, ref);
    LastAcceptedIs(rows, n, ref, sourceId);
    LastAcceptedIs(rows, |rows|, ref, sourceId);
    ImportConverges(s, rows, sourceId, errors, now, ref);
    ImportConverges(aborted, rows, sourceId, errors, later, ref);
  }
}
