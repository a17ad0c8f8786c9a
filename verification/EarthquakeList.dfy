/** Reading earthquakes as known at an instant: the query List builds, what it means, and paging through it. */
module EarthquakeList {
  import opened Prelude
  import opened Earthquakes
  import opened Keyset
  import AsOf
  import Walk

  datatype Provenance = Unspecified | RealOnly | SyntheticOnly | Everything

  datatype Query = Query(
    sourceId: Option<int>, externalId: Option<string>,
    occurredFrom: Option<Instant>, occurredTo: Option<Instant>, asOf: Option<Instant>, provenance: Provenance,
    minMagnitude: Option<real>, qualityStates: set<QualityState>,
    nearLatitude: Option<real>, nearLongitude: Option<real>, radiusKm: Option<real>,
    afterId: int, afterDistanceKm: Option<real>, limit: int)

  datatype ListError = ProvenanceUnspecified | FutureAsOf | HalfProximity | InvalidCoordinate | CursorWithoutDistance

  // ---------------------------------------------------------------------------
  // The statement List sends
  // ---------------------------------------------------------------------------

  datatype Predicate =
    | SourceIs(sourceId: int)
    | ExternalIs(externalId: string)
    | OccurredAtOrAfter(from: Instant)
    | OccurredAtOrBefore(to: Instant)
    | MagnitudeAtLeast(floor: real)
    | SyntheticIs(synthetic: bool)
    | QualityAmong(states: set<QualityState>)
    | WithinKm(radius: real)
    | AfterPair(distance: real, id: int)
    | AfterId(id: int)

  /** A predicate on a row whose distance column holds km; comparing with NULL is never true. */
  predicate Holds(p: Predicate, v: Version, km: Option<real>) {
    match p
    case SourceIs(s) => v.record.sourceId == s
    case ExternalIs(e) => v.record.externalId == e
    case OccurredAtOrAfter(from) => from <= v.record.content.occurredAt
    case OccurredAtOrBefore(to) => v.record.content.occurredAt <= to
    case MagnitudeAtLeast(floor) => v.record.content.magnitude.Some? && floor <= v.record.content.magnitude.value
    case SyntheticIs(b) => v.record.content.isSynthetic == b
    case QualityAmong(states) => v.record.quality.state in states
    case WithinKm(radius) => km.Some? && km.value <= radius
    case AfterPair(d, i) => km.Some? && Less(Rank(d, i), Rank(km.value, v.id))
    case AfterId(i) => i < v.id
  }

  predicate HoldAll(ps: seq<Predicate>, v: Version, km: Option<real>) {
    forall i :: 0 <= i < |ps| ==> Holds(ps[i], v, km)
  }

  /** identity runs inside the subquery, before DISTINCT ON; business runs outside it, on the chosen versions. */
  datatype Statement = Statement(
    asOf: Instant, identity: seq<Predicate>, business: seq<Predicate>, near: Option<Point>, limit: Option<nat>)

  function Km(v: Version, near: Option<Point>, metric: Metric): Option<real> {
    if near.None? then None
    else Some(metric(Point(v.record.content.latitude, v.record.content.longitude), near.value))
  }

  /** ORDER BY distance_km, id near a point; ORDER BY id otherwise. */
  function RankOf(v: Version, near: Option<Point>, metric: Metric): Rank {
    Rank(if near.None? then 0.0 else Km(v, near, metric).value, v.id)
  }

  function Ranking(near: Option<Point>, metric: Metric): Version -> Rank {
    (v: Version) => RankOf(v, near, metric)
  }

  ghost function Rows(table: seq<Version>): set<Version> {
    set v | v in table
  }

  /** The rows of the outer SELECT, before ORDER BY and LIMIT. */
  ghost function Selected(table: seq<Version>, st: Statement, metric: Metric): set<Version> {
    set v | v in AsOf.Newest(Rows(table), Key, (v: Version) => v.ingestedAt,
                             (v: Version) => v.ingestedAt <= st.asOf && HoldAll(st.identity, v, None))
            && HoldAll(st.business, v, Km(v, st.near, metric))
  }

  ghost function Execute(table: seq<Version>, st: Statement, metric: Metric): seq<Version>
    requires ValidTable(table)
  {
    RowsRanked(table, Selected(table, st, metric), st.near, metric);
    var all := OrderBy(Selected(table, st, metric), Ranking(st.near, metric));
    if st.limit.Some? && st.limit.value < |all| then all[..st.limit.value] else all
  }

  /** Rows of a table have distinct ids, so every order that ends in the id is total. */
  lemma {:induction false} RowsRanked(table: seq<Version>, rows: set<Version>, near: Option<Point>, metric: Metric)
    requires ValidTable(table) && rows <= Rows(table)
    ensures Distinct(rows, Ranking(near, metric))
  {
    forall v, w | v in rows && w in rows && v.id == w.id ensures v == w {
      var i :| 0 <= i < |table| && table[i] == v;
      var j :| 0 <= j < |table| && table[j] == w;
    }
  }

  // ---------------------------------------------------------------------------
  // What the caller asked
  // ---------------------------------------------------------------------------

  function NearOf(q: Query): Option<Point> {
    if q.nearLatitude.Some? && q.nearLongitude.Some? then Some(Point(q.nearLatitude.value, q.nearLongitude.value))
    else None
  }

  predicate IdentityMatches(q: Query, key: EventKey) {
    && (q.sourceId.Some? ==> key.sourceId == q.sourceId.value)
    && (q.externalId.Some? ==> key.externalId == q.externalId.value)
  }

  /** When it occurred and how strong it was. An unknown magnitude is not above any floor. */
  predicate EventMatches(q: Query, v: Version) {
    var c := v.record.content;
    && (q.occurredFrom.Some? ==> q.occurredFrom.value <= c.occurredAt)
    && (q.occurredTo.Some? ==> c.occurredAt <= q.occurredTo.value)
    && (q.minMagnitude.Some? ==> c.magnitude.Some? && q.minMagnitude.value <= c.magnitude.value)
  }

  /** The version answers the caller's filters. */
  predicate BusinessMatches(q: Query, v: Version, km: Option<real>) {
    && EventMatches(q, v)
    && (q.provenance == RealOnly ==> !v.record.content.isSynthetic)
    && (q.provenance == SyntheticOnly ==> v.record.content.isSynthetic)
    && (q.qualityStates != {} ==> v.record.quality.state in q.qualityStates)
    && (q.radiusKm.Some? ==> km.Some? && km.value <= q.radiusKm.value)
  }

  /** Where the page resumes: a distance-ordered page on (distance, id), any other on the id alone. */
  function CursorOf(q: Query): Option<Rank> {
    if q.nearLatitude.Some? then
      if q.afterDistanceKm.Some? then Some(Rank(q.afterDistanceKm.value, q.afterId)) else None
    else if q.afterId > 0 then Some(Rank(0.0, q.afterId)) else None
  }

  /**
   * v is what was known at asOf of its event, and it answers the query: first the version, then every filter, column
   * by column.
   */
  ghost predicate Answers(table: seq<Version>, q: Query, asOf: Instant, metric: Metric, v: Version) {
    var r, c := v.record, v.record.content;
    && v in table && v.ingestedAt <= asOf
    && (forall w :: w in table && w.record.externalId == r.externalId && w.record.sourceId == r.sourceId ==>
          w.ingestedAt <= v.ingestedAt || asOf < w.ingestedAt)
    && (q.sourceId.Some? ==> r.sourceId == q.sourceId.value)
    && (q.externalId.Some? ==> r.externalId == q.externalId.value)
    && (q.occurredFrom.Some? ==> q.occurredFrom.value <= c.occurredAt)
    && (q.occurredTo.Some? ==> c.occurredAt <= q.occurredTo.value)
    && (q.minMagnitude.Some? ==> c.magnitude.Some? && c.magnitude.value >= q.minMagnitude.value)
    && !(q.provenance == RealOnly && c.isSynthetic) && !(q.provenance == SyntheticOnly && !c.isSynthetic)
    && (q.qualityStates == {} || r.quality.state in q.qualityStates)
    && (q.radiusKm.Some? ==>
          && q.nearLatitude.Some? && q.nearLongitude.Some?
          && metric(Point(c.latitude, c.longitude), Point(q.nearLatitude.value, q.nearLongitude.value))
               <= q.radiusKm.value)
  }

  /** v comes before w in the order the caller asked for: by distance and then by id, or by id alone. */
  predicate Precedes(q: Query, metric: Metric, v: Version, w: Version) {
    if q.nearLatitude.Some? && q.nearLongitude.Some? then
      var here := Point(q.nearLatitude.value, q.nearLongitude.value);
      var a := metric(Point(v.record.content.latitude, v.record.content.longitude), here);
      var b := metric(Point(w.record.content.latitude, w.record.content.longitude), here);
      a < b || (a == b && v.id < w.id)
    else v.id < w.id
  }

  /** v comes after the place in that order the caller asked to resume at, if there is one. */
  predicate Resumes(q: Query, metric: Metric, v: Version) {
    if q.nearLatitude.Some? && q.nearLongitude.Some? then
      var here := Point(q.nearLatitude.value, q.nearLongitude.value);
      var a := metric(Point(v.record.content.latitude, v.record.content.longitude), here);
      q.afterDistanceKm.None? || q.afterDistanceKm.value < a || (q.afterDistanceKm.value == a && q.afterId < v.id)
    else q.afterId <= 0 || q.afterId < v.id
  }

  ghost function Matching(table: seq<Version>, q: Query, asOf: Instant, metric: Metric): set<Version> {
    set v | v in Rows(table) && Answers(table, q, asOf, metric, v)
  }

  /** The page the caller should get; without a limit, everything past the cursor. */
  ghost function PageOf(table: seq<Version>, q: Query, asOf: Instant, metric: Metric): seq<Version>
    requires ValidTable(table)
  {
    RowsRanked(table, Matching(table, q, asOf, metric), NearOf(q), metric);
    var rank := Ranking(NearOf(q), metric);
    if q.limit > 0 then Walk.Page(Matching(table, q, asOf, metric), rank, CursorOf(q), q.limit)
    else OrderBy(Walk.After(Matching(table, q, asOf, metric), rank, CursorOf(q)), rank)
  }

  // ---------------------------------------------------------------------------
  // List
  // ---------------------------------------------------------------------------

  /** Some of latitude, longitude and radius, but not all. */
  predicate HalfSpecified(q: Query) {
    && (q.nearLatitude.Some? || q.nearLongitude.Some? || q.radiusKm.Some?)
    && !(q.nearLatitude.Some? && q.nearLongitude.Some? && q.radiusKm.Some?)
  }

  /** The statement asks exactly what the caller asked, and only identity runs before the version is chosen. */
  ghost predicate Expresses(st: Statement, q: Query, asOf: Instant) {
    && st.asOf == asOf && st.near == NearOf(q)
    && st.limit == (if q.limit > 0 then Some(q.limit) else None)
    && (forall v :: HoldAll(st.identity, v, None) <==> IdentityMatches(q, Key(v)))
    && (forall v: Version, km: Option<real> :: (km.Some? <==> NearOf(q).Some?) ==>
          (HoldAll(st.business, v, km)
           <==> BusinessMatches(q, v, km) && Walk.Past(CursorOf(q), Rank(if km.Some? then km.value else 0.0, v.id))))
  }

  lemma {:induction false} HoldAppend(ps: seq<Predicate>, p: Predicate, v: Version, km: Option<real>)
    ensures HoldAll(ps + [p], v, km) <==> HoldAll(ps, v, km) && Holds(p, v, km)
  {
    if HoldAll(ps + [p], v, km) {
      assert (ps + [p])[|ps|] == p;
      forall i | 0 <= i < |ps| ensures Holds(ps[i], v, km) {
        assert (ps + [p])[i] == ps[i];
      }
    }
  }

  method Add(ps: seq<Predicate>, p: Predicate) returns (r: seq<Predicate>)
    ensures forall v, km :: HoldAll(r, v, km) <==> HoldAll(ps, v, km) && Holds(p, v, km)
  {
    r := ps + [p];
    forall v, km ensures HoldAll(r, v, km) <==> HoldAll(ps, v, km) && Holds(p, v, km) {
      HoldAppend(ps, p, v, km);
    }
  }

  /** The predicates that may run before the version is chosen: those over columns of the natural key. */
  method IdentityPredicates(q: Query) returns (identity: seq<Predicate>)
    ensures forall v :: HoldAll(identity, v, None) <==> IdentityMatches(q, Key(v))
  {
    identity := [];
    if q.sourceId.Some? {
      identity := Add(identity, SourceIs(q.sourceId.value));
    }
    if q.externalId.Some? {
      identity := Add(identity, ExternalIs(q.externalId.value));
    }
  }

  method EventPredicates(q: Query) returns (business: seq<Predicate>)
    ensures forall v, km :: HoldAll(business, v, km) <==> EventMatches(q, v)
  {
    business := [];
    if q.occurredFrom.Some? {
      business := Add(business, OccurredAtOrAfter(q.occurredFrom.value));
    }
    if q.occurredTo.Some? {
      business := Add(business, OccurredAtOrBefore(q.occurredTo.value));
    }
    if q.minMagnitude.Some? {
      business := Add(business, MagnitudeAtLeast(q.minMagnitude.value));
    }
  }

  /** Every filter that is not about identity, to run on the chosen versions. */
  method BusinessPredicates(q: Query) returns (business: seq<Predicate>)
    ensures forall v, km :: HoldAll(business, v, km) <==> BusinessMatches(q, v, km)
  {
    business := EventPredicates(q);
    hide HoldAll, EventMatches;
    match q.provenance {
      case RealOnly => business := Add(business, SyntheticIs(false));
      case SyntheticOnly => business := Add(business, SyntheticIs(true));
      case _ =>
    }
    if q.qualityStates != {} {
      business := Add(business, QualityAmong(q.qualityStates));
    }
    if q.radiusKm.Some? {
      business := Add(business, WithinKm(q.radiusKm.value));
    }
  }

  method List(q: Query, now: Instant) returns (r: Result<Statement, ListError>)
    ensures r == Err(ProvenanceUnspecified) <==> q.provenance == Unspecified
    ensures r == Err(FutureAsOf) <==> q.provenance != Unspecified && q.asOf.Some? && now < q.asOf.value
    ensures r == Err(HalfProximity) <==>
      && q.provenance != Unspecified && (q.asOf.Some? ==> q.asOf.value <= now)
      && !(q.nearLatitude.Some? && q.nearLongitude.Some? && q.radiusKm.Some?)
      && !(q.nearLatitude.None? && q.nearLongitude.None? && q.radiusKm.None?)
    ensures r == Err(InvalidCoordinate) <==>
      && q.provenance != Unspecified && (q.asOf.Some? ==> q.asOf.value <= now)
      && q.nearLatitude.Some? && q.nearLongitude.Some? && q.radiusKm.Some?
      && !(-90.0 <= q.nearLatitude.value <= 90.0 && -180.0 <= q.nearLongitude.value <= 180.0)
    ensures r == Err(CursorWithoutDistance) <==>
      && q.provenance != Unspecified && (q.asOf.Some? ==> q.asOf.value <= now)
      && q.nearLatitude.Some? && q.nearLongitude.Some? && q.radiusKm.Some?
      && -90.0 <= q.nearLatitude.value <= 90.0 && -180.0 <= q.nearLongitude.value <= 180.0
      && q.afterId > 0 && q.afterDistanceKm.None?
    ensures r.Ok? ==> (q.nearLatitude.Some? <==> q.nearLongitude.Some?)
    ensures r.Ok? ==> Expresses(r.value, q, if q.asOf.Some? then q.asOf.value else now) && r.value.asOf <= now
  {
    if q.provenance == Unspecified {
      return Err(ProvenanceUnspecified);
    }
    var asOf := now;
    if q.asOf.Some? {
      asOf := q.asOf.value;
      if now < asOf {
        return Err(FutureAsOf);
      }
    }
    var identity := IdentityPredicates(q);
    if HalfSpecified(q) {
      return Err(HalfProximity);
    }
    if q.nearLatitude.Some? && !InRange(q.nearLatitude.value, q.nearLongitude.value) {
      return Err(InvalidCoordinate);
    }
    var business := BusinessPredicates(q);
    if q.nearLatitude.Some? {
      if q.afterId > 0 && q.afterDistanceKm.None? {
        return Err(CursorWithoutDistance);
      }
      if q.afterDistanceKm.Some? {
        business := Add(business, AfterPair(q.afterDistanceKm.value, q.afterId));
      }
    } else if q.afterId > 0 {
      business := Add(business, AfterId(q.afterId));
    }
    r := Ok(Statement(asOf, identity, business, NearOf(q), if q.limit > 0 then Some(q.limit) else None));
  }

  // ---------------------------------------------------------------------------
  // The statement means what the caller asked
  // ---------------------------------------------------------------------------

  /**
   * Filter pushdown is sound: choosing the version among the rows that pass the identity filters and then applying
   * the rest answers the query exactly as choosing every event's version first and then applying every filter.
   */
  lemma {:induction false} ListRefinesNaiveRead(table: seq<Version>, q: Query, asOf: Instant, st: Statement,
      metric: Metric)
    requires ValidTable(table) && Expresses(st, q, asOf)
    ensures Execute(table, st, metric) == PageOf(table, q, asOf, metric)
  {
    var rank := Ranking(NearOf(q), metric);
    RowsRanked(table, Matching(table, q, asOf, metric), NearOf(q), metric);
    forall v ensures v in Selected(table, st, metric)
        <==> v in Walk.After(Matching(table, q, asOf, metric), rank, CursorOf(q)) {
      SelectedMeans(table, q, asOf, st, metric, v);
    }
    assert Selected(table, st, metric) == Walk.After(Matching(table, q, asOf, metric), rank, CursorOf(q));
  }

  lemma {:induction false} SelectedMeans(table: seq<Version>, q: Query, asOf: Instant, st: Statement, metric: Metric,
      v: Version)
    requires ValidTable(table) && Expresses(st, q, asOf)
    ensures v in Selected(table, st, metric)
      <==> v in table && Answers(table, q, asOf, metric, v) && Walk.Past(CursorOf(q), RankOf(v, NearOf(q), metric))
  {
    var km := Km(v, st.near, metric);
    assert HoldAll(st.business, v, km)
      <==> BusinessMatches(q, v, km) && Walk.Past(CursorOf(q), Rank(if km.Some? then km.value else 0.0, v.id));
    forall w ensures HoldAll(st.identity, w, None) <==> IdentityMatches(q, Key(w)) {
    }
  }

  lemma {:induction false} PrecedesIs(q: Query, metric: Metric, v: Version, w: Version)
    requires q.nearLatitude.Some? <==> q.nearLongitude.Some?
    ensures Precedes(q, metric, v, w) <==> Less(RankOf(v, NearOf(q), metric), RankOf(w, NearOf(q), metric))
    ensures Resumes(q, metric, v) <==> Walk.Past(CursorOf(q), RankOf(v, NearOf(q), metric))
  {
  }

  /**
   * What the statement returns, in the columns and the caller's own terms: rows that answer the query and come after
   * the place to resume at, in order; and of those all, or, when there are more than the limit, the first ones.
   */
  lemma {:induction false} ListReads(table: seq<Version>, q: Query, asOf: Instant, st: Statement, metric: Metric)
    requires ValidTable(table) && Expresses(st, q, asOf) && (q.nearLatitude.Some? <==> q.nearLongitude.Some?)
    ensures var out := Execute(table, st, metric);
      && (forall i, j :: 0 <= i < j < |out| ==> Precedes(q, metric, out[i], out[j]))
      && (forall v :: v in out ==> Answers(table, q, asOf, metric, v) && Resumes(q, metric, v))
      && (forall v :: Answers(table, q, asOf, metric, v) && Resumes(q, metric, v) && v !in out ==>
            0 < q.limit == |out| && forall w :: w in out ==> Precedes(q, metric, w, v))
      && (q.limit > 0 ==> |out| <= q.limit)
  {
    var rows, rank := Matching(table, q, asOf, metric), Ranking(NearOf(q), metric);
    ListRefinesNaiveRead(table, q, asOf, st, metric);
    RowsRanked(table, rows, NearOf(q), metric);
    if q.limit > 0 {
      Walk.PageIs(rows, rank, CursorOf(q), q.limit);
    } else {
      OrderByLists(Walk.After(rows, rank, CursorOf(q)), rank);
    }
    hide Answers, Precedes, Resumes, Execute, Expresses, NearOf, OrderBy, Walk.Page, CursorOf;
    forall v, w ensures Precedes(q, metric, v, w) <==> Less(rank(v), rank(w)) {
      PrecedesIs(q, metric, v, w);
    }
    forall v ensures Resumes(q, metric, v) <==> Walk.Past(CursorOf(q), rank(v)) {
      PrecedesIs(q, metric, v, v);
    }
  }

  /** Near a point, without a limit or a place to resume at. */
  lemma {:induction false} NearListing(table: seq<Version>, q: Query, asOf: Instant, st: Statement, metric: Metric)
    requires ValidTable(table) && Expresses(st, q, asOf) && q.limit <= 0 && q.afterDistanceKm.None?
    requires q.nearLatitude.Some? && q.nearLongitude.Some? && q.radiusKm.Some?
    ensures var out, here := Execute(table, st, metric), Point(q.nearLatitude.value, q.nearLongitude.value);
      var away := (v: Version) => metric(Point(v.record.content.latitude, v.record.content.longitude), here);
      && (forall v :: v in out ==> away(v) <= q.radiusKm.value)
      && (forall v :: v in out <==> Answers(table, q, asOf, metric, v))
      && (forall i, j :: 0 <= i < j < |out| ==>
            away(out[i]) < away(out[j]) || (away(out[i]) == away(out[j]) && out[i].id < out[j].id))
  {
    ListReads(table, q, asOf, st, metric);
    hide Execute, Expresses;
  }

  /** Nothing learned after asOf is returned, one version is returned per event, and it is the newest by then. */
  lemma {:induction false} NoLeakage(table: seq<Version>, q: Query, asOf: Instant, st: Statement, metric: Metric,
      i: nat, j: nat)
    requires ValidTable(table) && Expresses(st, q, asOf)
    requires i < |Execute(table, st, metric)| && j < |Execute(table, st, metric)|
    ensures var out := Execute(table, st, metric);
      && out[i] in table && out[i].ingestedAt <= asOf
      && (Key(out[i]) == Key(out[j]) ==> i == j)
      && (forall w :: w in table && Key(w) == Key(out[i]) && w.ingestedAt <= asOf ==>
            w.ingestedAt <= out[i].ingestedAt)
  {
    var out := Execute(table, st, metric);
    Executed(table, st, metric);
    SelectedMeans(table, q, asOf, st, metric, out[i]);
    SelectedMeans(table, q, asOf, st, metric, out[j]);
    assert i < j ==> Less(RankOf(out[i], st.near, metric), RankOf(out[j], st.near, metric));
    assert j < i ==> Less(RankOf(out[j], st.near, metric), RankOf(out[i], st.near, metric));
    if Key(out[i]) == Key(out[j]) {
      SameVersion(table, out[i], out[j]);
    }
  }

  /** The rows of the answer are selected ones, in ascending rank. */
  lemma {:induction false} Executed(table: seq<Version>, st: Statement, metric: Metric)
    requires ValidTable(table)
    ensures var out := Execute(table, st, metric);
      && (forall v :: v in out ==> v in Selected(table, st, metric))
      && (forall i, j :: 0 <= i < j < |out| ==> Less(RankOf(out[i], st.near, metric), RankOf(out[j], st.near, metric)))
  {
    RowsRanked(table, Selected(table, st, metric), st.near, metric);
    OrderByLists(Selected(table, st, metric), Ranking(st.near, metric));
  }

  lemma {:induction false} SameVersion(table: seq<Version>, v: Version, w: Version)
    requires ValidTable(table) && v in table && w in table && Key(v) == Key(w) && v.ingestedAt == w.ingestedAt
    ensures v == w
  {
    var i :| 0 <= i < |table| && table[i] == v;
    var j :| 0 <= j < |table| && table[j] == w;
  }

  // ---------------------------------------------------------------------------
  // Stability over histories
  // ---------------------------------------------------------------------------

  /** A history of the table: each later state keeps every row, and the rows it adds are stamped after asOf. */
  ghost predicate OnlyLaterRows(before: seq<Version>, after: seq<Version>, asOf: Instant) {
    before <= after && forall i :: |before| <= i < |after| ==> asOf < after[i].ingestedAt
  }

  /** The store's life: each step is one Save by the database clock, or the clock moving on. */
  datatype Store = Store(rows: seq<Version>, clock: Instant)

  ghost predicate StoreStep(s: Store, t: Store) {
    && s.clock <= t.clock
    && (t.rows == s.rows || exists n :: t.rows == SaveAt(s.rows, n, t.clock).0)
  }

  ghost predicate StoreHistory(h: seq<Store>) {
    && |h| > 0 && ValidTable(h[0].rows) && NotAfter(h[0].rows, h[0].clock)
    && forall i :: 0 <= i < |h| - 1 ==> StoreStep(h[i], h[i + 1])
  }

  lemma {:induction false} StoreStepKeeps(s: Store, t: Store, asOf: Instant)
    requires StoreStep(s, t) && ValidTable(s.rows) && NotAfter(s.rows, s.clock)
    ensures ValidTable(t.rows) && NotAfter(t.rows, t.clock) && s.clock <= t.clock
    ensures asOf < Stored(t.clock) ==> OnlyLaterRows(s.rows, t.rows, asOf)
    ensures asOf < Stored(s.clock) ==> asOf < Stored(t.clock)
  {
    ClockOnlyGoesOn(s.rows, s.clock, t.clock);
    StoredKeepsOrder(s.clock, t.clock);
    hide Stored, NotAfter;
    if t.rows != s.rows {
      var n :| t.rows == SaveAt(s.rows, n, t.clock).0;
      SaveKeeps(s.rows, n, t.clock);
    }
  }

  lemma {:induction false} StoreSound(h: seq<Store>, k: nat)
    requires StoreHistory(h) && k < |h|
    ensures ValidTable(h[k].rows) && NotAfter(h[k].rows, h[k].clock)
  {
    if k > 0 {
      StoreSound(h, k - 1);
      assert StoreStep(h[k - 1], h[k]);
      StoreStepKeeps(h[k - 1], h[k], h[k].clock);
    }
  }

  lemma {:induction false} OnlyLaterRowsChain(a: seq<Version>, b: seq<Version>, c: seq<Version>, asOf: Instant)
    requires OnlyLaterRows(a, b, asOf) && OnlyLaterRows(b, c, asOf)
    ensures OnlyLaterRows(a, c, asOf)
  {
    forall i | |a| <= i < |c| ensures asOf < c[i].ingestedAt {
      if i < |b| { assert c[i] == b[i]; }
    }
  }

  lemma {:induction false} StoreGrows(h: seq<Store>, early: nat, late: nat, asOf: Instant)
    requires StoreHistory(h) && early <= late < |h| && asOf < Stored(h[early].clock)
    ensures asOf < Stored(h[late].clock) && OnlyLaterRows(h[early].rows, h[late].rows, asOf)
    decreases late
  {
    hide OnlyLaterRows, ValidTable, NotAfter, StoreStep;
    if early == late {
      NoRowsYet(h[early].rows, asOf);
    } else {
      StoreSound(h, late - 1);
      StoreGrows(h, early, late - 1, asOf);
      assert StoreStep(h[late - 1], h[late]);
      StoreStepKeeps(h[late - 1], h[late], asOf);
      OnlyLaterRowsChain(h[early].rows, h[late - 1].rows, h[late].rows, asOf);
    }
  }

  lemma {:induction false} NoRowsYet(rows: seq<Version>, asOf: Instant)
    ensures OnlyLaterRows(rows, rows, asOf)
  {
  }

  lemma {:induction false} LaterRowsDoNotMatter(before: seq<Version>, after: seq<Version>, q: Query, asOf: Instant,
      metric: Metric)
    requires OnlyLaterRows(before, after, asOf)
    ensures Matching(after, q, asOf, metric) == Matching(before, q, asOf, metric)
  {
    assert forall v :: v in before ==> v in after;
    forall v | v in after && v.ingestedAt <= asOf ensures v in before {
      var i :| 0 <= i < |after| && after[i] == v;
      assert before == after[..|before|];
      assert i < |before|;
    }
    forall v ensures v in Matching(after, q, asOf, metric) <==> v in Matching(before, q, asOf, metric) {
    }
  }

  /**
   * For an instant before the microsecond the clock is in, no later Save changes the answer: the past, once read,
   * stays read.
   */
  lemma {:induction false} AsOfStable(h: seq<Store>, early: nat, late: nat, q: Query, asOf: Instant, st: Statement,
      metric: Metric)
    requires StoreHistory(h) && early <= late < |h| && asOf < Stored(h[early].clock)
    requires Expresses(st, q, asOf)
    ensures ValidTable(h[early].rows) && ValidTable(h[late].rows)
    ensures Execute(h[late].rows, st, metric) == Execute(h[early].rows, st, metric)
  {
    StoreSound(h, early);
    StoreSound(h, late);
    StoreGrows(h, early, late, asOf);
    ListRefinesNaiveRead(h[early].rows, q, asOf, st, metric);
    ListRefinesNaiveRead(h[late].rows, q, asOf, st, metric);
    LaterRowsDoNotMatter(h[early].rows, h[late].rows, q, asOf, metric);
  }

  /** From the start of that microsecond on the answer may still change: the very next Save can carry its stamp. */
  lemma {:induction false} AsOfNowMayChange(n: Record, clock: Instant, asOf: Instant, q: Query, metric: Metric)
    requires Admissible(n) == Admit && q.sourceId.None? && q.externalId.None? && Stored(clock) <= asOf
    requires BusinessMatches(q, NewRow([], n, clock), Km(NewRow([], n, clock), NearOf(q), metric))
    ensures var h := [Store([], clock), Store(SaveAt([], n, clock).0, clock)];
      StoreHistory(h) && Matching(h[0].rows, q, asOf, metric) != Matching(h[1].rows, q, asOf, metric)
  {
    var h := [Store([], clock), Store(SaveAt([], n, clock).0, clock)];
    assert h[1].rows == [NewRow([], n, clock)];
    assert StoreStep(h[0], h[1]);
    assert h[1].rows[0] in Matching(h[1].rows, q, asOf, metric);
    assert Matching(h[0].rows, q, asOf, metric) == {};
  }

  // ---------------------------------------------------------------------------
  // Walking the pages
  // ---------------------------------------------------------------------------

  /** The handler's next cursor after a page, and the query that resumes there. */
  function Resuming(q: Query, cursor: Option<Rank>): Query {
    if cursor.None? then q
    else q.(afterId := cursor.value.id,
            afterDistanceKm := if q.nearLatitude.Some? then Some(cursor.value.distance) else None)
  }

  /** The set the walk is over does not depend on where it resumes; the resumed query resumes exactly there. */
  lemma {:induction false} ResumingMeans(table: seq<Version>, q: Query, cursor: Option<Rank>, asOf: Instant,
      metric: Metric)
    requires CursorOf(q).None?
    requires cursor.Some? ==> cursor.value.id > 0 && (q.nearLatitude.None? ==> cursor.value.distance == 0.0)
    ensures CursorOf(Resuming(q, cursor)) == cursor
    ensures Matching(table, Resuming(q, cursor), asOf, metric) == Matching(table, q, asOf, metric)
  {
    forall v ensures Answers(table, Resuming(q, cursor), asOf, metric, v) <==> Answers(table, q, asOf, metric, v) {
    }
  }

  /** The page a resumed request is answered with is the page of the walk. */
  lemma {:induction false} ResumedPage(table: seq<Version>, q: Query, cursor: Option<Rank>, asOf: Instant,
      st: Statement, metric: Metric)
    requires ValidTable(table) && q.limit > 0 && CursorOf(q).None? && Specified(q)
    requires cursor.Some? ==> exists v :: v in table && cursor.value == RankOf(v, NearOf(q), metric)
    requires Expresses(st, Resuming(q, cursor), asOf)
    ensures Distinct(Matching(table, q, asOf, metric), Ranking(NearOf(q), metric))
    ensures Execute(table, st, metric)
      == Walk.Page(Matching(table, q, asOf, metric), Ranking(NearOf(q), metric), cursor, q.limit)
  {
    RowsRanked(table, Matching(table, q, asOf, metric), NearOf(q), metric);
    ResumingMeans(table, q, cursor, asOf, metric);
    ListRefinesNaiveRead(table, Resuming(q, cursor), asOf, st, metric);
    assert NearOf(Resuming(q, cursor)) == NearOf(q);
  }

  /** A latitude comes with a longitude: any other query is refused. */
  predicate Specified(q: Query) {
    NearOf(q).Some? <==> q.nearLatitude.Some?
  }

  ghost predicate AllValid(tables: seq<seq<Version>>) {
    forall i :: 0 <= i < |tables| ==> ValidTable(tables[i])
  }

  /** The cursor after the i-th request's page. */
  ghost function NextAfter(tables: seq<seq<Version>>, sts: seq<Statement>, q: Query, metric: Metric, i: nat)
    : Option<Rank>
    requires i < |tables| == |sts| && AllValid(tables) && q.limit > 0
  {
    Walk.NextCursor(Execute(tables[i], sts[i], metric), Ranking(NearOf(q), metric), q.limit)
  }

  /** From request i on, each statement is the one List makes of the query resumed where the page before it ended. */
  ghost predicate Follows(tables: seq<seq<Version>>, sts: seq<Statement>, q: Query, asOf: Instant, metric: Metric,
      i: nat, cursor: Option<Rank>)
    requires |tables| == |sts| && AllValid(tables) && q.limit > 0
    decreases |tables| - i
  {
    i < |tables| ==>
      && Expresses(sts[i], Resuming(q, cursor), asOf)
      && (NextAfter(tables, sts, q, metric, i).Some? ==>
            Follows(tables, sts, q, asOf, metric, i + 1, NextAfter(tables, sts, q, metric, i)))
  }

  /** Everything the requests from i on return, request i being answered from tables[i]. None: no last page yet. */
  ghost function Returned(tables: seq<seq<Version>>, sts: seq<Statement>, q: Query, metric: Metric, i: nat)
    : Option<seq<Version>>
    requires |tables| == |sts| && AllValid(tables) && q.limit > 0
    decreases |tables| - i
  {
    if i >= |tables| then None
    else
      var page := Execute(tables[i], sts[i], metric);
      if NextAfter(tables, sts, q, metric, i).None? then Some(page)
      else
        var rest := Returned(tables, sts, q, metric, i + 1);
        if rest.None? then None else Some(page + rest.value)
  }

  /** Every table answers the query with the same rows, and has all of them. */
  ghost predicate SameAnswers(tables: seq<seq<Version>>, q: Query, asOf: Instant, metric: Metric, rows: set<Version>) {
    forall i :: 0 <= i < |tables| ==> Matching(tables[i], q, asOf, metric) == rows
  }

  ghost predicate RankOfSome(cursor: Option<Rank>, rows: set<Version>, near: Option<Point>, metric: Metric) {
    cursor.Some? ==> exists v :: v in rows && cursor.value == RankOf(v, near, metric)
  }

  function Copies(rows: set<Version>, n: nat): (r: seq<set<Version>>)
    ensures |r| == n && Walk.Unchanging(r, rows)
  {
    seq(n, i => rows)
  }

  /** The walk over pages of the same rows, n requests long. */
  ghost function CollectedFrom(rows: set<Version>, rank: Version -> Rank, n: nat, cursor: Option<Rank>, limit: nat)
    : Option<seq<Version>>
    requires Distinct(rows, rank)
  {
    Walk.UnchangingDistinct(Copies(rows, n), rows, rank);
    Walk.Collected(Copies(rows, n), rank, cursor, limit)
  }

  lemma {:induction false} CollectedFromOnce(rows: set<Version>, rank: Version -> Rank, n: nat, cursor: Option<Rank>,
      limit: nat)
    requires Distinct(rows, rank)
    ensures n == 0 ==> CollectedFrom(rows, rank, n, cursor, limit) == None
    ensures n > 0 ==>
      var page := Walk.Page(rows, rank, cursor, limit);
      var next := Walk.NextCursor(page, rank, limit);
      CollectedFrom(rows, rank, n, cursor, limit) ==
        if next.None? then Some(page)
        else if CollectedFrom(rows, rank, n - 1, next, limit).None? then None
        else Some(page + CollectedFrom(rows, rank, n - 1, next, limit).value)
  {
    Walk.UnchangingDistinct(Copies(rows, n), rows, rank);
    if n == 0 {
      assert Copies(rows, 0) == [];
    } else {
      CopiesTail(rows, n);
      Walk.UnchangingDistinct(Copies(rows, n - 1), rows, rank);
      hide Copies, Distinct, Walk.Page, Walk.NextCursor, Walk.Unchanging, Walk.Collected;
      Walk.CollectedOnce(Copies(rows, n), rows, Copies(rows, n - 1), rank, cursor, limit);
    }
  }

  /** The statements' walk is the walk over pages of the matching rows. */
  lemma {:induction false} ReturnedIsCollected(tables: seq<seq<Version>>, sts: seq<Statement>, q: Query, asOf: Instant,
      metric: Metric, rows: set<Version>, i: nat, cursor: Option<Rank>)
    requires |tables| == |sts| && AllValid(tables) && i <= |tables| && q.limit > 0 && CursorOf(q).None? && Specified(q)
    requires SameAnswers(tables, q, asOf, metric, rows) && RankOfSome(cursor, rows, NearOf(q), metric)
    requires Distinct(rows, Ranking(NearOf(q), metric))
    requires Follows(tables, sts, q, asOf, metric, i, cursor)
    ensures Returned(tables, sts, q, metric, i)
      == CollectedFrom(rows, Ranking(NearOf(q), metric), |tables| - i, cursor, q.limit)
    decreases |tables| - i
  {
    hide *;
    ReturnedOnce(tables, sts, q, metric, i);
    CollectedFromOnce(rows, Ranking(NearOf(q), metric), |tables| - i, cursor, q.limit);
    if i < |tables| {
      FollowsOn(tables, sts, q, asOf, metric, i, cursor, rows);
      OnePage(tables[i], q, cursor, asOf, sts[i], metric, rows);
      var next := NextAfter(tables, sts, q, metric, i);
      if next.Some? {
        ReturnedIsCollected(tables, sts, q, asOf, metric, rows, i + 1, next);
      }
    }
  }

  lemma {:induction false} ReturnedOnce(tables: seq<seq<Version>>, sts: seq<Statement>, q: Query, metric: Metric,
      i: nat)
    requires |tables| == |sts| && AllValid(tables) && q.limit > 0
    ensures i >= |tables| ==> Returned(tables, sts, q, metric, i) == None
    ensures i < |tables| ==>
      var next := NextAfter(tables, sts, q, metric, i);
      && ValidTable(tables[i])
      && next == Walk.NextCursor(Execute(tables[i], sts[i], metric), Ranking(NearOf(q), metric), q.limit)
      && Returned(tables, sts, q, metric, i) ==
           if next.None? then Some(Execute(tables[i], sts[i], metric))
           else if Returned(tables, sts, q, metric, i + 1).None? then None
           else Some(Execute(tables[i], sts[i], metric) + Returned(tables, sts, q, metric, i + 1).value)
  {
    hide Execute, Walk.NextCursor, Ranking, ValidTable;
  }

  lemma {:induction false} FollowsOn(tables: seq<seq<Version>>, sts: seq<Statement>, q: Query, asOf: Instant,
      metric: Metric, i: nat, cursor: Option<Rank>, rows: set<Version>)
    requires i < |tables| == |sts| && AllValid(tables) && q.limit > 0
    requires SameAnswers(tables, q, asOf, metric, rows) && Follows(tables, sts, q, asOf, metric, i, cursor)
    ensures ValidTable(tables[i]) && Matching(tables[i], q, asOf, metric) == rows
    ensures Expresses(sts[i], Resuming(q, cursor), asOf)
    ensures var next := NextAfter(tables, sts, q, metric, i);
      next.Some? ==> Follows(tables, sts, q, asOf, metric, i + 1, next)
  {
    hide Expresses, Matching, Execute, Resuming, Walk.NextCursor, ValidTable;
  }

  lemma {:induction false} CopiesTail(rows: set<Version>, n: nat)
    requires n > 0
    ensures Copies(rows, n)[0] == rows && Copies(rows, n)[1..] == Copies(rows, n - 1)
  {
  }

  /** One request of the walk, and the cursor it hands out. */
  lemma {:induction false} OnePage(table: seq<Version>, q: Query, cursor: Option<Rank>, asOf: Instant, st: Statement,
      metric: Metric, rows: set<Version>)
    requires ValidTable(table) && q.limit > 0 && CursorOf(q).None? && Specified(q)
    requires Matching(table, q, asOf, metric) == rows && RankOfSome(cursor, rows, NearOf(q), metric)
    requires Expresses(st, Resuming(q, cursor), asOf)
    ensures Distinct(rows, Ranking(NearOf(q), metric))
    ensures Execute(table, st, metric) == Walk.Page(rows, Ranking(NearOf(q), metric), cursor, q.limit)
    ensures RankOfSome(Walk.NextCursor(Execute(table, st, metric), Ranking(NearOf(q), metric), q.limit),
                       rows, NearOf(q), metric)
  {
    assert forall v :: v in rows ==> v in table;
    hide Matching, Expresses, Execute, ValidTable, Resuming;
    ResumedPage(table, q, cursor, asOf, st, metric);
    CursorOnPage(rows, NearOf(q), metric, cursor, q.limit);
  }

  /** A page hands out the rank of one of its rows. */
  lemma {:induction false} CursorOnPage(rows: set<Version>, near: Option<Point>, metric: Metric, cursor: Option<Rank>,
      limit: nat)
    requires Distinct(rows, Ranking(near, metric))
    ensures var page := Walk.Page(rows, Ranking(near, metric), cursor, limit);
      RankOfSome(Walk.NextCursor(page, Ranking(near, metric), limit), rows, near, metric)
  {
    var page := Walk.Page(rows, Ranking(near, metric), cursor, limit);
    var rest := Walk.After(rows, Ranking(near, metric), cursor);
    OrderByLists(rest, Ranking(near, metric));
    var all := OrderBy(rest, Ranking(near, metric));
    if |page| == limit && limit > 0 {
      var last := page[limit - 1];
      assert last == all[limit - 1] && last in rest && last in rows;
      assert RankOf(last, near, metric) == Ranking(near, metric)(last);
    }
  }

  lemma {:induction false} HistoryValid(h: seq<Store>)
    requires StoreHistory(h)
    ensures forall k :: 0 <= k < |h| ==> ValidTable(h[k].rows)
  {
    forall k | 0 <= k < |h| ensures ValidTable(h[k].rows) {
      StoreSound(h, k);
    }
  }

  /** What request i is answered from: the table as it is by then. */
  ghost function Tables(h: seq<Store>, at: seq<nat>): (r: seq<seq<Version>>)
    requires StoreHistory(h) && forall i :: 0 <= i < |at| ==> at[i] < |h|
    ensures |r| == |at| && AllValid(r)
  {
    HistoryValid(h);
    seq(|at|, i requires 0 <= i < |at| => h[at[i]].rows)
  }

  /** At a past instant every request finds the same rows, whatever was saved before it. */
  lemma {:induction false} TablesAgree(h: seq<Store>, at: seq<nat>, q: Query, asOf: Instant, metric: Metric)
    requires StoreHistory(h) && |at| > 0
    requires forall i :: 0 <= i < |at| ==> at[0] <= at[i] < |h|
    requires asOf < Stored(h[at[0]].clock)
    ensures SameAnswers(Tables(h, at), q, asOf, metric, Matching(h[at[0]].rows, q, asOf, metric))
  {
    forall i | 0 <= i < |at|
      ensures Matching(Tables(h, at)[i], q, asOf, metric) == Matching(h[at[0]].rows, q, asOf, metric)
    {
      StoreGrows(h, at[0], at[i], asOf);
      LaterRowsDoNotMatter(h[at[0]].rows, h[at[i]].rows, q, asOf, metric);
    }
  }

  /**
   * A walk at a fixed past instant. Request i executes the statement List makes of the query resumed at the cursor the
   * page before it handed out, on the table as it is by then. Together the requests return every matching event exactly
   * once and in order, by id or by (distance, id) however many distances tie, whatever is saved between them; and they
   * are one more than the full pages.
   */
  lemma {:induction false} PageWalk(h: seq<Store>, at: seq<nat>, sts: seq<Statement>, q: Query, asOf: Instant,
      metric: Metric)
    requires StoreHistory(h) && |at| == |sts| > 0 && q.limit > 0 && CursorOf(q).None? && Specified(q)
    requires forall i :: 0 <= i < |at| ==> at[0] <= at[i] < |h|
    requires asOf < Stored(h[at[0]].clock)
    requires Follows(Tables(h, at), sts, q, asOf, metric, 0, None)
    ensures var rows := Matching(h[at[0]].rows, q, asOf, metric);
      && Distinct(rows, Ranking(NearOf(q), metric))
      && var all := OrderBy(rows, Ranking(NearOf(q), metric));
         Returned(Tables(h, at), sts, q, metric, 0)
           == if |at| > Walk.FullPages(|all|, q.limit) then Some(all) else None
  {
    var rows := Matching(h[at[0]].rows, q, asOf, metric);
    TablesAgree(h, at, q, asOf, metric);
    StoreSound(h, at[0]);
    RowsRanked(h[at[0]].rows, rows, NearOf(q), metric);
    WalkOver(Tables(h, at), sts, q, asOf, metric, rows);
  }

  lemma {:induction false} WalkOver(tables: seq<seq<Version>>, sts: seq<Statement>, q: Query, asOf: Instant,
      metric: Metric, rows: set<Version>)
    requires |tables| == |sts| && AllValid(tables) && q.limit > 0 && CursorOf(q).None? && Specified(q)
    requires SameAnswers(tables, q, asOf, metric, rows) && Distinct(rows, Ranking(NearOf(q), metric))
    requires Follows(tables, sts, q, asOf, metric, 0, None)
    ensures var all := OrderBy(rows, Ranking(NearOf(q), metric));
      Returned(tables, sts, q, metric, 0) == if |tables| > Walk.FullPages(|all|, q.limit) then Some(all) else None
  {
    var rank := Ranking(NearOf(q), metric);
    hide *;
    assert RankOfSome(None, rows, NearOf(q), metric) by { NoCursorYet(rows, NearOf(q), metric); }
    ReturnedIsCollected(tables, sts, q, asOf, metric, rows, 0, None);
    WalkFromStart(rows, rank, |tables|, q.limit);
  }

  lemma {:induction false} NoCursorYet(rows: set<Version>, near: Option<Point>, metric: Metric)
    ensures RankOfSome(None, rows, near, metric)
  {
  }

  lemma {:induction false} WalkFromStart(rows: set<Version>, rank: Version -> Rank, n: nat, limit: nat)
    requires Distinct(rows, rank) && limit > 0
    ensures var all := OrderBy(rows, rank);
      CollectedFrom(rows, rank, n, None, limit) == if n > Walk.FullPages(|all|, limit) then Some(all) else None
  {
    assert OrderBy(rows, rank)[0..] == OrderBy(rows, rank);
    assert Walk.CursorAt(OrderBy(rows, rank), rank, 0) == None;
    hide OrderBy, Walk.FullPages, Walk.Collected, Distinct, Copies;
    Walk.WalkVisitsAll(Copies(rows, n), rows, rank, limit, 0);
  }
}
