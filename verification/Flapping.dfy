/** Collecting the same features over and over: either the second pass finds nothing to do, or no pass ever will. */
module Flapping {
  import opened Prelude
  import opened Earthquakes
  import opened Collect

  function EventOf(f: Feature, c: Origin): EventKey
    requires f.Readable?
  {
    EventKey(f.event.id, c.sourceId)
  }

  predicate Agrees(v: Option<Version>, content: Content) {
    v.Some? && SameContent(v.value.record.content, content)
  }

  /** What the table holds of the event was written from feature i of the batch. */
  predicate WrittenFrom(v: Option<Version>, ds: seq<Delivery>, i: nat, key: EventKey, c: Origin) {
    i < |ds| && About(ds[i], key, c) && v.Some? && v.value.record.content == Normalized(ds[i].feature.event.content)
  }

  predicate Contradicts(v: Option<Version>, ds: seq<Delivery>, j: nat, key: EventKey, c: Origin) {
    j < |ds| && About(ds[j], key, c) && !Agrees(v, ds[j].feature.event.content)
  }

  /** The event's current version was written from a feature of the batch, and another feature contradicts it. */
  ghost predicate Flaps(v: Option<Version>, ds: seq<Delivery>, key: EventKey, c: Origin) {
    (exists i :: WrittenFrom(v, ds, i, key, c)) && (exists j :: Contradicts(v, ds, j, key, c))
  }

  lemma {:induction false} ContradictedMeansUnknown(rows: seq<Version>, ds: seq<Delivery>, j: nat, key: EventKey,
      c: Origin)
    requires Contradicts(Current(rows, key), ds, j, key, c)
    ensures !AllKnown(rows, ds, |ds|, c)
  {
    assert !Known(rows, ds[j].feature, c);
  }

  lemma {:induction false} FlappingMeansUnknown(rows: seq<Version>, ds: seq<Delivery>, key: EventKey, c: Origin)
    requires Flaps(Current(rows, key), ds, key, c)
    ensures !AllKnown(rows, ds, |ds|, c)
  {
    var j :| Contradicts(Current(rows, key), ds, j, key, c);
    ContradictedMeansUnknown(rows, ds, j, key, c);
  }

  /** Saving a feature that contradicts what is there, or being refused: what becomes of its event. */
  lemma {:induction false} HandleAbout(t: Tally, d: Delivery, key: EventKey, c: Origin)
    requires ValidTable(t.rows) && NotAfter(t.rows, d.now) && About(d, key, c)
    ensures var after := Handle(t, d, c);
      var content := d.feature.event.content;
      if Agrees(Current(t.rows, key), content) || !after.ok then Current(after.rows, key) == Current(t.rows, key)
      else Current(after.rows, key).Some? && Current(after.rows, key).value.record.content == Normalized(content)
  {
    SaveCurrent(t.rows, RecordOf(d.feature.event, d.verdict, c), d.now, key);
  }

  lemma {:induction false} NewVersionSays(a: Content, b: Content)
    ensures SameContent(Normalized(a), b) <==> SameContent(a, b)
    ensures SameContent(Normalized(a), b) <==> SameContent(Normalized(b), a)
  {
    SameContentSymmetric(a, b);
    NormalizedCompares(a, b);
    NormalizedCompares(b, a);
  }

  /** A feature that replaces a version written from feature i is in turn contradicted by feature i. */
  lemma {:induction false} FlapsOn(v: Option<Version>, w: Option<Version>, ds: seq<Delivery>, i: nat, n: nat,
      key: EventKey, c: Origin)
    requires WrittenFrom(v, ds, i, key, c) && WrittenFrom(w, ds, n, key, c)
    requires !Agrees(v, ds[n].feature.event.content)
    ensures Contradicts(w, ds, i, key, c)
  {
    NewVersionSays(ds[i].feature.event.content, ds[n].feature.event.content);
  }

  /** A flapping event goes on flapping through any pass over the same features, stopped or not. */
  lemma {:induction false} FlappingStays(rows: seq<Version>, ds: seq<Delivery>, again: seq<Delivery>, n: nat,
      key: EventKey, c: Origin)
    requires n <= |again| && SameFeatures(again, ds)
    requires ValidTable(rows) && Orderly(again) && ClockAhead(again, 0, rows) && Flaps(Current(rows, key), ds, key, c)
    ensures Flaps(Current(Ingest(rows, again, n, c).rows, key), ds, key, c)
  {
    hide *;
    IngestOnce(rows, again, n, c);
    if n > 0 {
      SameFeature(again, ds, n - 1);
      FlappingStays(rows, ds, again, n - 1, key, c);
      IngestKeeps(rows, again, n - 1, c);
      var t, d := Ingest(rows, again, n - 1, c), again[n - 1];
      NextInTime(again, n - 1, t.rows);
      if About(d, key, c) {
        FlappingStep(t, ds, n - 1, d, key, c);
      } else {
        HandleOther(t, d, c, key);
      }
    }
  }

  lemma {:induction false} SameFeature(again: seq<Delivery>, ds: seq<Delivery>, i: nat)
    requires SameFeatures(again, ds) && i < |again|
    ensures |again| == |ds| && again[i].feature == ds[i].feature
  {
  }

  lemma {:induction false} FlappingStep(t: Tally, ds: seq<Delivery>, n: nat, d: Delivery, key: EventKey, c: Origin)
    requires n < |ds| && d.feature == ds[n].feature && About(d, key, c)
    requires ValidTable(t.rows) && NotAfter(t.rows, d.now) && Flaps(Current(t.rows, key), ds, key, c)
    ensures Flaps(Current(Handle(t, d, c).rows, key), ds, key, c)
  {
    HandleAbout(t, d, key, c);
    var v, w := Current(t.rows, key), Current(Handle(t, d, c).rows, key);
    if v != w {
      var i :| WrittenFrom(v, ds, i, key, c);
      assert WrittenFrom(w, ds, n, key, c);
      FlapsOn(v, w, ds, i, n, key, c);
    }
  }

  /**
   * Part-way through a first pass: the event is as it was and agrees with what was read, or was written from the
   * batch.
   */
  ghost predicate Passed(before: Option<Version>, v: Option<Version>, ds: seq<Delivery>, n: nat, key: EventKey,
      c: Origin) {
    || (v == before
        && forall i :: 0 <= i < n <= |ds| && About(ds[i], key, c) ==> Agrees(v, ds[i].feature.event.content))
    || exists i :: WrittenFrom(v, ds, i, key, c)
  }

  lemma {:induction false} FirstPass(rows: seq<Version>, ds: seq<Delivery>, n: nat, key: EventKey, c: Origin)
    requires n <= |ds| && ValidTable(rows) && Orderly(ds) && ClockAhead(ds, 0, rows) && Ingest(rows, ds, n, c).ok
    ensures Passed(Current(rows, key), Current(Ingest(rows, ds, n, c).rows, key), ds, n, key, c)
  {
    if n > 0 {
      FirstPass(rows, ds, n - 1, key, c);
      IngestKeeps(rows, ds, n - 1, c);
      var t, d := Ingest(rows, ds, n - 1, c), ds[n - 1];
      NextInTime(ds, n - 1, t.rows);
      if About(d, key, c) {
        HandleAbout(t, d, key, c);
        var w := Current(Handle(t, d, c).rows, key);
        assert w == Current(t.rows, key) || WrittenFrom(w, ds, n - 1, key, c);
      } else {
        HandleOther(t, d, c, key);
      }
    }
  }

  /** After a completed pass the table says every storable feature of the batch, or some event flaps. */
  lemma {:induction false} SettlesOrFlaps(rows: seq<Version>, ds: seq<Delivery>, c: Origin)
    requires ValidTable(rows) && Orderly(ds) && ClockAhead(ds, 0, rows) && Ingest(rows, ds, |ds|, c).ok
    ensures var after := Ingest(rows, ds, |ds|, c).rows;
      AllKnown(after, ds, |ds|, c) <==> forall key :: !Flaps(Current(after, key), ds, key, c)
  {
    var after := Ingest(rows, ds, |ds|, c).rows;
    if AllKnown(after, ds, |ds|, c) {
      forall key ensures !Flaps(Current(after, key), ds, key, c) {
        if Flaps(Current(after, key), ds, key, c) { FlappingMeansUnknown(after, ds, key, c); }
      }
    } else {
      var j :| 0 <= j < |ds| && !Known(after, ds[j].feature, c);
      var key := EventOf(ds[j].feature, c);
      FirstPass(rows, ds, |ds|, key, c);
      assert Contradicts(Current(after, key), ds, j, key, c);
      assert Flaps(Current(after, key), ds, key, c);
    }
  }

  // ---------------------------------------------------------------------------
  // Any number of passes
  // ---------------------------------------------------------------------------

  /** The table after the first k passes. */
  function After(rows: seq<Version>, passes: seq<seq<Delivery>>, k: nat, c: Origin): seq<Version>
    requires k <= |passes|
  {
    if k == 0 then rows
    else
      var before := After(rows, passes, k - 1, c);
      Ingest(before, passes[k - 1], |passes[k - 1]|, c).rows
  }

  /** Each pass delivers the features of ds again, under a clock that only goes on. */
  ghost predicate Repeated(rows: seq<Version>, ds: seq<Delivery>, passes: seq<seq<Delivery>>, c: Origin) {
    forall k {:trigger PassAt(rows, ds, passes, k, c)} :: 0 <= k < |passes| ==> PassAt(rows, ds, passes, k, c)
  }

  ghost predicate PassAt(rows: seq<Version>, ds: seq<Delivery>, passes: seq<seq<Delivery>>, k: nat, c: Origin)
    requires k < |passes|
  {
    PassOf(After(rows, passes, k, c), ds, passes[k])
  }

  ghost predicate PassOf(rows: seq<Version>, ds: seq<Delivery>, pass: seq<Delivery>) {
    SameFeatures(pass, ds) && AllClean(pass) && Orderly(pass) && ClockAhead(pass, 0, rows)
  }

  lemma {:induction false} PassSilent(rows: seq<Version>, ds: seq<Delivery>, pass: seq<Delivery>, c: Origin)
    requires PassOf(rows, ds, pass)
    ensures Silent(rows, Ingest(rows, pass, |pass|, c)) <==> AllKnown(rows, ds, |ds|, c)
  {
    NothingNew(rows, pass, |pass|, c);
    assert forall i :: 0 <= i < |ds| ==> pass[i].feature == ds[i].feature;
  }

  lemma {:induction false} StaysSettled(rows: seq<Version>, ds: seq<Delivery>, passes: seq<seq<Delivery>>, k: nat,
      c: Origin)
    requires k <= |passes| && Repeated(rows, ds, passes, c) && AllKnown(rows, ds, |ds|, c)
    ensures After(rows, passes, k, c) == rows
  {
    if k > 0 {
      var before, pass := After(rows, passes, k - 1, c), passes[k - 1];
      assert PassAt(rows, ds, passes, k - 1, c);
      hide AllKnown, Ingest, PassOf, Repeated;
      StaysSettled(rows, ds, passes, k - 1, c);
      PassSilent(rows, ds, pass, c);
    }
  }

  lemma {:induction false} StaysFlapping(rows: seq<Version>, ds: seq<Delivery>, passes: seq<seq<Delivery>>, k: nat,
      key: EventKey, c: Origin)
    requires k <= |passes| && ValidTable(rows) && Repeated(rows, ds, passes, c) && Flaps(Current(rows, key), ds, key, c)
    ensures ValidTable(After(rows, passes, k, c)) && Flaps(Current(After(rows, passes, k, c), key), ds, key, c)
  {
    hide ValidTable, Flaps, Current, Ingest, Orderly, ClockAhead, SameFeatures, NoFakeRevision;
    if k > 0 {
      assert PassAt(rows, ds, passes, k - 1, c);
      StaysFlapping(rows, ds, passes, k - 1, key, c);
      var pass := passes[k - 1];
      IngestKeeps(After(rows, passes, k - 1, c), pass, |pass|, c);
      FlappingStays(After(rows, passes, k - 1, c), ds, pass, |pass|, key, c);
    }
  }

  /**
   * Now or never. After a completed pass every later pass over the same features is silent, or none is: each appends
   * something or is stopped by a refused record. They are silent exactly when the table left by the first pass says
   * every storable feature of the batch.
   */
  lemma {:induction false} NowOrNever(rows: seq<Version>, ds: seq<Delivery>, passes: seq<seq<Delivery>>, k: nat,
      c: Origin)
    requires ValidTable(rows) && Orderly(ds) && ClockAhead(ds, 0, rows) && Ingest(rows, ds, |ds|, c).ok
    requires var after := Ingest(rows, ds, |ds|, c).rows;
      k < |passes| && Repeated(after, ds, passes, c)
    ensures var after := Ingest(rows, ds, |ds|, c).rows;
      var before := After(after, passes, k, c);
      Silent(before, Ingest(before, passes[k], |passes[k]|, c)) <==> AllKnown(after, ds, |ds|, c)
  {
    var after := Ingest(rows, ds, |ds|, c).rows;
    var before := After(after, passes, k, c);
    assert PassAt(after, ds, passes, k, c);
    hide *;
    PassSilent(before, ds, passes[k], c);
    SettlesOrFlaps(rows, ds, c);
    if AllKnown(after, ds, |ds|, c) {
      StaysSettled(after, ds, passes, k, c);
    } else {
      var key :| Flaps(Current(after, key), ds, key, c);
      IngestKeeps(rows, ds, |ds|, c);
      StaysFlapping(after, ds, passes, k, key, c);
      FlappingMeansUnknown(before, ds, key, c);
    }
  }

  // ---------------------------------------------------------------------------
  // Events the table did not know
  // ---------------------------------------------------------------------------

  /** The first of the first n features about an event. */
  function First(ds: seq<Delivery>, n: nat, key: EventKey, c: Origin): (r: Option<nat>)
    requires n <= |ds|
    ensures r.None? ==> forall i :: 0 <= i < n ==> !About(ds[i], key, c)
    ensures r.Some? ==> r.value < n && About(ds[r.value], key, c)
    ensures r.Some? ==> forall i :: 0 <= i < r.value ==> !About(ds[i], key, c)
  {
    if n == 0 then None
    else if First(ds, n - 1, key, c).Some? then First(ds, n - 1, key, c)
    else if About(ds[n - 1], key, c) then Some(n - 1)
    else None
  }

  /** Feature i says of its event what the batch's first feature about that event says. */
  ghost predicate AgreesWithFirst(ds: seq<Delivery>, i: nat, key: EventKey, c: Origin)
    requires i < |ds|
  {
    About(ds[i], key, c) ==>
      && First(ds, |ds|, key, c).Some?
      && First(ds, |ds|, key, c).value < |ds|
      && ds[First(ds, |ds|, key, c).value].feature.Readable?
      && SameContent(ds[First(ds, |ds|, key, c).value].feature.event.content, ds[i].feature.event.content)
  }

  /**
   * Part-way through a pass over an unknown event: still the first feature, or flapping because one disagreed with it.
   */
  ghost predicate FirstHolds(v: Option<Version>, ds: seq<Delivery>, n: nat, f: nat, key: EventKey, c: Origin)
    requires f < |ds| && n <= |ds| && About(ds[f], key, c)
  {
    if n <= f then v.None?
    else if forall i :: 0 <= i < n && About(ds[i], key, c) ==>
      SameContent(ds[f].feature.event.content, ds[i].feature.event.content)
    then WrittenFrom(v, ds, f, key, c)
    else Flaps(v, ds, key, c)
  }

  lemma {:induction false} FirstStays(rows: seq<Version>, ds: seq<Delivery>, n: nat, f: nat, key: EventKey, c: Origin)
    requires n <= |ds| && ValidTable(rows) && Orderly(ds) && ClockAhead(ds, 0, rows) && Ingest(rows, ds, n, c).ok
    requires f < |ds| && About(ds[f], key, c) && forall i :: 0 <= i < f ==> !About(ds[i], key, c)
    requires Current(rows, key).None?
    ensures FirstHolds(Current(Ingest(rows, ds, n, c).rows, key), ds, n, f, key, c)
  {
    if n > 0 {
      FirstStays(rows, ds, n - 1, f, key, c);
      IngestKeeps(rows, ds, n - 1, c);
      var t, d := Ingest(rows, ds, n - 1, c), ds[n - 1];
      NextInTime(ds, n - 1, t.rows);
      hide Handle, ValidTable, Orderly, ClockAhead, NotAfter, NoFakeRevision, Current;
      if About(d, key, c) {
        HandleAbout(t, d, key, c);
        FirstStep(Current(t.rows, key), Current(Handle(t, d, c).rows, key), ds, n, f, key, c);
      } else {
        HandleOther(t, d, c, key);
        SkipStep(Current(t.rows, key), ds, n, f, key, c);
      }
    }
  }

  lemma {:induction false} SkipStep(v: Option<Version>, ds: seq<Delivery>, n: nat, f: nat, key: EventKey, c: Origin)
    requires 0 < n <= |ds| && f < |ds| && About(ds[f], key, c) && !About(ds[n - 1], key, c)
    requires FirstHolds(v, ds, n - 1, f, key, c)
    ensures FirstHolds(v, ds, n, f, key, c)
  {
    assert f != n - 1;
  }

  lemma {:induction false} FirstStep(v: Option<Version>, w: Option<Version>, ds: seq<Delivery>, n: nat, f: nat,
      key: EventKey, c: Origin)
    requires 0 < n <= |ds| && f < |ds| && About(ds[f], key, c) && About(ds[n - 1], key, c)
    requires forall i :: 0 <= i < f ==> !About(ds[i], key, c)
    requires FirstHolds(v, ds, n - 1, f, key, c)
    requires if Agrees(v, ds[n - 1].feature.event.content) then w == v
             else w.Some? && w.value.record.content == Normalized(ds[n - 1].feature.event.content)
    ensures FirstHolds(w, ds, n, f, key, c)
  {
    var first, now := ds[f].feature.event.content, ds[n - 1].feature.event.content;
    NewVersionSays(first, now);
    NewVersionSays(first, first);
    if w != v {
      assert WrittenFrom(w, ds, n - 1, key, c);
      if f < n - 1 {
        var i :| WrittenFrom(v, ds, i, key, c);
        FlapsOn(v, w, ds, i, n - 1, key, c);
      }
    }
  }

  /**
   * When the batch's events were all unknown, later passes are silent exactly when every feature says what the batch's
   * first feature about its event says. With a tolerance that does not compose, two features that disagree with each
   * other can still both agree with the first.
   */
  lemma {:induction false} FirstFeatureDecides(rows: seq<Version>, ds: seq<Delivery>, c: Origin)
    requires ValidTable(rows) && Orderly(ds) && ClockAhead(ds, 0, rows) && Ingest(rows, ds, |ds|, c).ok
    requires forall i :: 0 <= i < |ds| && Storable(ds[i].feature) ==> Current(rows, EventOf(ds[i].feature, c)).None?
    ensures AllKnown(Ingest(rows, ds, |ds|, c).rows, ds, |ds|, c)
      <==> forall i :: 0 <= i < |ds| && Storable(ds[i].feature) ==> AgreesWithFirst(ds, i, EventOf(ds[i].feature, c), c)
  {
    var after := Ingest(rows, ds, |ds|, c).rows;
    forall i | 0 <= i < |ds| && Storable(ds[i].feature)
      ensures !Known(after, ds[i].feature, c) ==>
        exists j :: 0 <= j < |ds| && Storable(ds[j].feature) && !AgreesWithFirst(ds, j, EventOf(ds[j].feature, c), c)
      ensures !AgreesWithFirst(ds, i, EventOf(ds[i].feature, c), c) ==> !AllKnown(after, ds, |ds|, c)
    {
      EventDecides(rows, ds, i, EventOf(ds[i].feature, c), c);
    }
  }

  lemma {:induction false} EventDecides(rows: seq<Version>, ds: seq<Delivery>, i: nat, key: EventKey, c: Origin)
    requires ValidTable(rows) && Orderly(ds) && ClockAhead(ds, 0, rows) && Ingest(rows, ds, |ds|, c).ok
    requires i < |ds| && About(ds[i], key, c) && Current(rows, key).None?
    ensures var after := Ingest(rows, ds, |ds|, c).rows;
      && (!Known(after, ds[i].feature, c) ==>
            exists j :: 0 <= j < |ds| && Storable(ds[j].feature)
                        && !AgreesWithFirst(ds, j, EventOf(ds[j].feature, c), c))
      && (!AgreesWithFirst(ds, i, key, c) ==> !AllKnown(after, ds, |ds|, c))
  {
    var after := Ingest(rows, ds, |ds|, c).rows;
    var f := First(ds, |ds|, key, c).value;
    FirstStays(rows, ds, |ds|, f, key, c);
    FirstVersionDecides(Current(after, key), ds, f, i, key, c);
    hide Ingest, First, FirstHolds, ValidTable, Orderly, ClockAhead;
    if !AgreesWithFirst(ds, i, key, c) {
      var x :| Contradicts(Current(after, key), ds, x, key, c);
      ContradictedMeansUnknown(after, ds, x, key, c);
    } else if !Known(after, ds[i].feature, c) {
      var j :| 0 <= j < |ds| && About(ds[j], key, c)
        && !SameContent(ds[f].feature.event.content, ds[j].feature.event.content);
      assert !AgreesWithFirst(ds, j, key, c);
    }
  }

  lemma {:induction false} FirstVersionDecides(v: Option<Version>, ds: seq<Delivery>, f: nat, i: nat, key: EventKey,
      c: Origin)
    requires f < |ds| && i < |ds| && About(ds[f], key, c) && About(ds[i], key, c)
    requires FirstHolds(v, ds, |ds|, f, key, c)
    ensures !SameContent(ds[f].feature.event.content, ds[i].feature.event.content) ==>
      exists j :: Contradicts(v, ds, j, key, c)
    ensures !Agrees(v, ds[i].feature.event.content) ==>
      exists j :: 0 <= j < |ds| && About(ds[j], key, c)
                  && !SameContent(ds[f].feature.event.content, ds[j].feature.event.content)
  {
    NewVersionSays(ds[f].feature.event.content, ds[i].feature.event.content);
  }

  /** Two features of one event disagree, and yet a pass finds nothing to do: the table says something in between. */
  lemma {:induction false} DisagreementCanBeSilent(rows: seq<Version>, ds: seq<Delivery>, x: Content, key: EventKey,
      c: Origin)
    requires |ds| == 2 && AllClean(ds) && About(ds[0], key, c) && About(ds[1], key, c)
    requires ds[0].feature.event.content == x.(magnitude := Some(0.0))
    requires ds[1].feature.event.content == x.(magnitude := Some(0.0000000012))
    requires var v := Current(rows, key); v.Some? && v.value.record.content == x.(magnitude := Some(0.0000000006))
    ensures !SameContent(ds[0].feature.event.content, ds[1].feature.event.content)
    ensures Silent(rows, Ingest(rows, ds, |ds|, c))
  {
    assert !SameFloat(Some(0.0), Some(0.0000000012));
    assert Known(rows, ds[0].feature, c) && Known(rows, ds[1].feature, c);
    NothingNew(rows, ds, |ds|, c);
  }
}
