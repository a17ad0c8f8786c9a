/** The second as-of read: observations, whose natural key is (volcano, kind, observed instant, source). */
module Observations {
  import opened Prelude
  import opened Keyset
  import AsOf
  import Walk

  datatype Observation = Observation(
    id: int, volcanoId: int, kind: string, observedAt: Instant, ingestedAt: Instant,
    value: string, isSynthetic: bool, sourceId: int)

  datatype NaturalKey = NaturalKey(volcanoId: int, kind: string, observedAt: Instant, sourceId: int)

  function NaturalKeyOf(o: Observation): NaturalKey {
    NaturalKey(o.volcanoId, o.kind, o.observedAt, o.sourceId)
  }

  function StampOf(o: Observation): Instant {
    o.ingestedAt
  }

  datatype Provenance = Unspecified | RealOnly | SyntheticOnly | Everything

  datatype Query = Query(
    volcanoId: Option<int>, kind: Option<string>, observedFrom: Option<Instant>, observedTo: Option<Instant>,
    asOf: Option<Instant>, provenance: Provenance, limit: int)

  datatype ListError = ProvenanceUnspecified | FutureAsOf

  // ---------------------------------------------------------------------------
  // The statement
  // ---------------------------------------------------------------------------

  datatype Predicate =
    | VolcanoIs(volcanoId: int)
    | KindIs(kind: string)
    | ObservedAtOrAfter(start: Instant)
    | ObservedAtOrBefore(end: Instant)
    | SyntheticIs(synthetic: bool)

  predicate Holds(p: Predicate, o: Observation) {
    match p
    case VolcanoIs(v) => o.volcanoId == v
    case KindIs(k) => o.kind == k
    case ObservedAtOrAfter(t) => t <= o.observedAt
    case ObservedAtOrBefore(t) => o.observedAt <= t
    case SyntheticIs(b) => o.isSynthetic == b
  }

  predicate HoldAll(ps: seq<Predicate>, o: Observation) {
    forall i :: 0 <= i < |ps| ==> Holds(ps[i], o)
  }

  /** Every predicate of this statement runs inside the subquery, before the version is chosen. */
  datatype Statement = Statement(asOf: Instant, inner: seq<Predicate>, limit: Option<nat>)

  ghost function Selected(table: set<Observation>, st: Statement): set<Observation> {
    AsOf.Newest(table, NaturalKeyOf, StampOf, (o: Observation) => o.ingestedAt <= st.asOf && HoldAll(st.inner, o))
  }

  /** ORDER BY observed_at, id. */
  function RankOf(o: Observation): Rank {
    Rank(o.observedAt as real, o.id)
  }

  /** A primary key, and UNIQUE (natural key, ingested_at). */
  ghost predicate ValidTable(table: set<Observation>) {
    && AsOf.UniqueStamps(table, NaturalKeyOf, StampOf)
    && forall o, p :: o in table && p in table && o.id == p.id ==> o == p
  }

  ghost function Execute(table: set<Observation>, st: Statement): seq<Observation>
    requires ValidTable(table)
  {
    assert Distinct(Selected(table, st), RankOf);
    var all := OrderBy(Selected(table, st), RankOf);
    if st.limit.Some? && st.limit.value < |all| then all[..st.limit.value] else all
  }

  // ---------------------------------------------------------------------------
  // What the caller asked
  // ---------------------------------------------------------------------------

  /** The filters over natural-key columns. */
  predicate KeyMatches(q: Query, k: NaturalKey) {
    && (q.volcanoId.Some? ==> k.volcanoId == q.volcanoId.value)
    && (q.kind.Some? ==> k.kind == q.kind.value)
    && (q.observedFrom.Some? ==> q.observedFrom.value <= k.observedAt)
    && (q.observedTo.Some? ==> k.observedAt <= q.observedTo.value)
  }

  predicate ProvenanceMatches(p: Provenance, o: Observation) {
    (p == RealOnly ==> !o.isSynthetic) && (p == SyntheticOnly ==> o.isSynthetic)
  }

  /** o is the newest observation by asOf of its volcano, kind, instant and source. */
  ghost predicate KnownAt(table: set<Observation>, asOf: Instant, o: Observation) {
    && o in table && o.ingestedAt <= asOf
    && forall p :: p in table && p.volcanoId == o.volcanoId && p.kind == o.kind && p.observedAt == o.observedAt
                   && p.sourceId == o.sourceId ==>
         p.ingestedAt <= o.ingestedAt || asOf < p.ingestedAt
  }

  /** What was known of each natural key at asOf, and then every filter, column by column. */
  ghost predicate Answers(table: set<Observation>, q: Query, asOf: Instant, o: Observation) {
    && KnownAt(table, asOf, o)
    && (q.volcanoId.Some? ==> o.volcanoId == q.volcanoId.value)
    && (q.kind.Some? ==> o.kind == q.kind.value)
    && (q.observedFrom.Some? ==> o.observedAt >= q.observedFrom.value)
    && (q.observedTo.Some? ==> o.observedAt <= q.observedTo.value)
    && !(q.provenance == RealOnly && o.isSynthetic) && !(q.provenance == SyntheticOnly && !o.isSynthetic)
  }

  ghost function Matching(table: set<Observation>, q: Query, asOf: Instant): set<Observation> {
    set o | o in table && Answers(table, q, asOf, o)
  }

  ghost predicate Expresses(st: Statement, q: Query, asOf: Instant) {
    && st.asOf == asOf
    && st.limit == (if q.limit > 0 then Some(q.limit) else None)
    && forall o :: HoldAll(st.inner, o) <==> KeyMatches(q, NaturalKeyOf(o)) && ProvenanceMatches(q.provenance, o)
  }

  method Add(ps: seq<Predicate>, p: Predicate) returns (r: seq<Predicate>)
    ensures forall o :: HoldAll(r, o) <==> HoldAll(ps, o) && Holds(p, o)
  {
    r := ps + [p];
    forall o ensures HoldAll(r, o) <==> HoldAll(ps, o) && Holds(p, o) {
      if HoldAll(r, o) {
        assert r[|ps|] == p;
        forall i | 0 <= i < |ps| ensures Holds(ps[i], o) {
          assert r[i] == ps[i];
        }
      }
    }
  }

  method List(q: Query, now: Instant) returns (r: Result<Statement, ListError>)
    ensures r.Err? <==> q.provenance == Unspecified || (q.asOf.Some? && now < q.asOf.value)
    ensures r.Err? ==>
      r.error == (if q.provenance == Unspecified then ProvenanceUnspecified else FutureAsOf)
    ensures r.Ok? ==> Expresses(r.value, q, if q.asOf.Some? then q.asOf.value else now) && r.value.asOf <= now
  {
    if q.provenance == Unspecified {
      return Err(ProvenanceUnspecified);
    }
    var asOf := now;
    if q.asOf.Some? {
      asOf := q.asOf.value;
      if now < asOf {
        return Err(FutureAsOf);
      }
    }
    var inner: seq<Predicate> := [];
    if q.volcanoId.Some? {
      inner := Add(inner, VolcanoIs(q.volcanoId.value));
    }
    if q.kind.Some? {
      inner := Add(inner, KindIs(q.kind.value));
    }
    if q.observedFrom.Some? {
      inner := Add(inner, ObservedAtOrAfter(q.observedFrom.value));
    }
    if q.observedTo.Some? {
      inner := Add(inner, ObservedAtOrBefore(q.observedTo.value));
    }
    assert forall o :: HoldAll(inner, o) <==> KeyMatches(q, NaturalKeyOf(o));
    match q.provenance {
      case RealOnly => inner := Add(inner, SyntheticIs(false));
      case SyntheticOnly => inner := Add(inner, SyntheticIs(true));
      case _ =>
    }
    r := Ok(Statement(asOf, inner, if q.limit > 0 then Some(q.limit) else None));
  }

  // ---------------------------------------------------------------------------
  // What the statement means
  // ---------------------------------------------------------------------------

  /** No natural key the query is about has a version of the asked provenance that another provenance superseded. */
  ghost predicate ProvenanceKept(table: set<Observation>, q: Query, asOf: Instant) {
    forall o, n :: o in table && o.ingestedAt <= asOf
                   && KeyMatches(q, NaturalKeyOf(o)) && ProvenanceMatches(q.provenance, o)
                   && n in AsOf.Newest(table, NaturalKeyOf, StampOf, Known(asOf))
                   && NaturalKeyOf(n) == NaturalKeyOf(o)
      ==> ProvenanceMatches(q.provenance, n)
  }

  /**
   * The statement answers the query, for the asked provenance too, if and only if no version of that provenance
   * was superseded by one of another: the provenance filter runs before the version is chosen.
   */
  lemma {:induction false} ListExact(table: set<Observation>, q: Query, asOf: Instant, st: Statement)
    requires ValidTable(table) && Expresses(st, q, asOf)
    ensures Selected(table, st) == Matching(table, q, asOf) <==> ProvenanceKept(table, q, asOf)
  {
    var known, key, prov := Known(asOf), KeyFilter(q), ProvenanceFilter(q);
    var keyed := (o: Observation) => AsOf.Both(known, key, o);
    AsOf.PushdownOfKeyFilter(table, NaturalKeyOf, StampOf, known, key);
    AsOf.PushdownExact(table, NaturalKeyOf, StampOf, keyed, prov);
    SelectedFiltersFirst(table, q, asOf, st, keyed);
    NewestKeyed(table, q, asOf, keyed);
    MatchingFiltersAfter(table, q, asOf, keyed);
    KeptMeans(table, q, asOf, keyed);
  }

  function Known(asOf: Instant): Observation -> bool {
    (o: Observation) => o.ingestedAt <= asOf
  }

  function KeyFilter(q: Query): Observation -> bool {
    (o: Observation) => KeyMatches(q, NaturalKeyOf(o))
  }

  function ProvenanceFilter(q: Query): Observation -> bool {
    (o: Observation) => ProvenanceMatches(q.provenance, o)
  }

  /** The naive read, in terms of the natural key. */
  lemma {:induction false} MatchingIs(table: set<Observation>, q: Query, asOf: Instant, o: Observation)
    ensures o in Matching(table, q, asOf) <==>
      && o in AsOf.Newest(table, NaturalKeyOf, StampOf, Known(asOf))
      && KeyMatches(q, NaturalKeyOf(o)) && ProvenanceMatches(q.provenance, o)
  {
  }

  ghost predicate IsKeyed(keyed: Observation -> bool, q: Query, asOf: Instant) {
    forall o :: keyed(o) == (o.ingestedAt <= asOf && KeyMatches(q, NaturalKeyOf(o)))
  }

  lemma {:induction false} SelectedFiltersFirst(table: set<Observation>, q: Query, asOf: Instant, st: Statement,
      keyed: Observation -> bool)
    requires Expresses(st, q, asOf) && IsKeyed(keyed, q, asOf)
    ensures AsOf.FilterFirst(table, NaturalKeyOf, StampOf, keyed, ProvenanceFilter(q)) == Selected(table, st)
  {
    var prov := ProvenanceFilter(q);
    AsOf.NewestCongruent(table, NaturalKeyOf, StampOf, (o: Observation) => AsOf.Both(keyed, prov, o),
                         (o: Observation) => o.ingestedAt <= st.asOf && HoldAll(st.inner, o));
  }

  /** For a natural key the query is about, being newest of it does not depend on the key filter. */
  lemma {:induction false} NewestKeyed(table: set<Observation>, q: Query, asOf: Instant, keyed: Observation -> bool)
    requires IsKeyed(keyed, q, asOf)
    ensures forall n ::
      n in AsOf.Newest(table, NaturalKeyOf, StampOf, keyed) <==>
      KeyMatches(q, NaturalKeyOf(n)) && n in AsOf.Newest(table, NaturalKeyOf, StampOf, Known(asOf))
  {
  }

  lemma {:induction false} MatchingFiltersAfter(table: set<Observation>, q: Query, asOf: Instant,
      keyed: Observation -> bool)
    requires IsKeyed(keyed, q, asOf)
    ensures AsOf.FilterAfter(table, NaturalKeyOf, StampOf, keyed, ProvenanceFilter(q)) == Matching(table, q, asOf)
  {
    NewestKeyed(table, q, asOf, keyed);
    hide AsOf.Newest, Matching;
    forall o ensures o in AsOf.FilterAfter(table, NaturalKeyOf, StampOf, keyed, ProvenanceFilter(q))
        <==> o in Matching(table, q, asOf) {
      MatchingIs(table, q, asOf, o);
    }
  }

  lemma {:induction false} KeptMeans(table: set<Observation>, q: Query, asOf: Instant, keyed: Observation -> bool)
    requires IsKeyed(keyed, q, asOf)
    ensures ProvenanceKept(table, q, asOf) <==>
      AsOf.NothingSuperseded(table, NaturalKeyOf, StampOf, keyed, ProvenanceFilter(q))
  {
    hide AsOf.Newest;
    NewestKeyed(table, q, asOf, keyed);
  }

  /** The order of the answer: by observed instant and then by id. */
  predicate Precedes(o: Observation, p: Observation) {
    o.observedAt < p.observedAt || (o.observedAt == p.observedAt && o.id < p.id)
  }

  /** The rows the statement selects, in order; and of those all, or, past a limit, the first ones. */
  lemma {:induction false} ExecuteReads(table: set<Observation>, st: Statement)
    requires ValidTable(table)
    ensures var out := Execute(table, st);
      && (forall i, j :: 0 <= i < j < |out| ==>
            out[i].observedAt < out[j].observedAt
            || (out[i].observedAt == out[j].observedAt && out[i].id < out[j].id))
      && (forall o :: o in out ==> o in Selected(table, st))
      && (forall o :: o in Selected(table, st) && o !in out ==>
            st.limit == Some(|out|) && forall p :: p in out ==> Precedes(p, o))
      && (st.limit.Some? ==> |out| <= st.limit.value)
  {
    var rows := Selected(table, st);
    assert Distinct(rows, RankOf);
    OrderByLists(rows, RankOf);
    var all, out := OrderBy(rows, RankOf), Execute(table, st);
    assert forall o, p :: Less(RankOf(o), RankOf(p)) <==> Precedes(o, p);
    hide Execute, Selected, ValidTable, OrderBy, Precedes, Less, RankOf;
    if st.limit.Some? {
      Walk.FirstOnes(all, RankOf, st.limit.value);
    }
  }

  /** With every provenance asked for, the answer is the naive read: what was known of each key, filtered, in order. */
  lemma {:induction false} ListRefinesNaiveRead(table: set<Observation>, q: Query, asOf: Instant, st: Statement)
    requires ValidTable(table) && Expresses(st, q, asOf) && q.provenance == Everything
    ensures var out := Execute(table, st);
      && (forall i, j :: 0 <= i < j < |out| ==>
            out[i].observedAt < out[j].observedAt
            || (out[i].observedAt == out[j].observedAt && out[i].id < out[j].id))
      && (forall o :: o in out ==> Answers(table, q, asOf, o))
      && (forall o :: Answers(table, q, asOf, o) && o !in out ==>
            0 < q.limit == |out| && forall p :: p in out ==> Precedes(p, o))
      && (q.limit > 0 ==> |out| <= q.limit)
  {
    ListExact(table, q, asOf, st);
    assert ProvenanceKept(table, q, asOf);
    ExecuteReads(table, st);
    hide Execute, Selected, Answers, ValidTable, ProvenanceKept;
  }

  /** A real value replaced by a synthetic one is still returned to a caller who asks for real data only. */
  lemma {:induction false} SupersededRealReturned(v1: Observation, v2: Observation, st: Statement, q: Query)
    requires NaturalKeyOf(v1) == NaturalKeyOf(v2) && v1.ingestedAt < v2.ingestedAt && v1.id < v2.id
    requires !v1.isSynthetic && v2.isSynthetic && q.provenance == RealOnly
    requires KeyMatches(q, NaturalKeyOf(v1)) && Expresses(st, q, v2.ingestedAt)
    ensures ValidTable({v1, v2}) && v1 in Selected({v1, v2}, st) && Matching({v1, v2}, q, v2.ingestedAt) == {}
  {
    assert HoldAll(st.inner, v1) && !HoldAll(st.inner, v2);
    assert v2 in {v1, v2};
  }
}
