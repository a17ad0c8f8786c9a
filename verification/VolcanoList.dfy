/** Listing the volcano catalog: the query List builds, what it means, and loading the whole catalog page by page. */
module VolcanoList {
  import opened Prelude
  import opened Keyset
  import Catalog
  import Like
  import Walk

  /** One row of the volcanoes table. */
  datatype Volcano = Volcano(ref: Catalog.Ref, entry: Catalog.Entry)

  datatype Near = Near(latitude: real, longitude: real, radiusM: real)

  datatype Query = Query(
    near: Option<Near>, country: string, search: string, status: string, includeAbsent: bool,
    limit: int, afterId: int, afterDistanceM: Option<real>)

  datatype Predicate =
    | WithinMeters(radius: real)
    | AfterPair(distance: real, id: int)
    | AfterId(id: int)
    | CountryIs(country: string)
    | StatusIs(status: string)
    | NameOrCountryLike(pattern: string)
    | StillPresent

  datatype Statement = Statement(near: Option<Point>, where: seq<Predicate>, limit: nat)

  /** A predicate on a row whose distance column holds metres; fold is the case folding of ILIKE. */
  ghost predicate Holds(p: Predicate, v: Volcano, metres: Option<real>, fold: char -> char) {
    match p
    case WithinMeters(radius) => metres.Some? && metres.value <= radius
    case AfterPair(d, i) => metres.Some? && Less(Rank(d, i), Rank(metres.value, v.entry.id))
    case AfterId(i) => i < v.entry.id
    case CountryIs(c) => v.entry.attributes.country == c
    case StatusIs(s) => v.entry.attributes.status == s
    case NameOrCountryLike(pattern) =>
      Like.Matches(pattern, v.entry.attributes.name, fold) || Like.Matches(pattern, v.entry.attributes.country, fold)
    case StillPresent => v.entry.absentSince.None?
  }

  ghost predicate HoldAll(ps: seq<Predicate>, v: Volcano, metres: Option<real>, fold: char -> char) {
    forall i :: 0 <= i < |ps| ==> Holds(ps[i], v, metres, fold)
  }

  function Metres(v: Volcano, near: Option<Point>, metric: Metric): Option<real> {
    if near.None? then None
    else Some(metric(Point(v.entry.attributes.latitude, v.entry.attributes.longitude), near.value))
  }

  function RankOf(v: Volcano, near: Option<Point>, metric: Metric): Rank {
    Rank(if near.None? then 0.0 else Metres(v, near, metric).value, v.entry.id)
  }

  function Ranking(near: Option<Point>, metric: Metric): Volcano -> Rank {
    (v: Volcano) => RankOf(v, near, metric)
  }

  function Rows(s: Catalog.State): set<Volcano> {
    set ref | ref in s.entries :: Volcano(ref, s.entries[ref])
  }

  lemma {:induction false} RowsRanked(s: Catalog.State, rows: set<Volcano>, near: Option<Point>, metric: Metric)
    requires Catalog.ValidState(s) && rows <= Rows(s)
    ensures Distinct(rows, Ranking(near, metric))
  {
  }

  ghost function Selected(s: Catalog.State, st: Statement, metric: Metric, fold: char -> char): set<Volcano> {
    set v | v in Rows(s) && HoldAll(st.where, v, Metres(v, st.near, metric), fold)
  }

  ghost function Execute(s: Catalog.State, st: Statement, metric: Metric, fold: char -> char): seq<Volcano>
    requires Catalog.ValidState(s)
  {
    RowsRanked(s, Selected(s, st, metric, fold), st.near, metric);
    var all := OrderBy(Selected(s, st, metric, fold), Ranking(st.near, metric));
    if st.limit < |all| then all[..st.limit] else all
  }

  // ---------------------------------------------------------------------------
  // What the caller asked
  // ---------------------------------------------------------------------------

  function NearOf(q: Query): Option<Point> {
    if q.near.Some? then Some(Point(q.near.value.latitude, q.near.value.longitude)) else None
  }

  /** A distance-ordered page resumes on (distance, id); a cursor that carries no distance does not move it at all. */
  function CursorOf(q: Query): Option<Rank> {
    if q.near.Some? then
      if q.afterDistanceM.Some? then Some(Rank(q.afterDistanceM.value, q.afterId)) else None
    else if q.afterId > 0 then Some(Rank(0.0, q.afterId)) else None
  }

  ghost predicate NameOrCountryContains(v: Volcano, search: string, fold: char -> char) {
    Like.Contains(v.entry.attributes.name, search, fold) || Like.Contains(v.entry.attributes.country, search, fold)
  }

  /** The filters that do not depend on a point. */
  ghost predicate Filtered(q: Query, v: Volcano, fold: char -> char) {
    && (q.country != "" ==> v.entry.attributes.country == q.country)
    && (q.status != "" ==> v.entry.attributes.status == q.status)
    && (q.search != "" ==> NameOrCountryContains(v, q.search, fold))
    && (!q.includeAbsent ==> v.entry.absentSince.None?)
  }

  /** The volcano answers every filter; a search term is text that its name or country contains, wildcards included. */
  ghost predicate Wanted(q: Query, v: Volcano, metres: Option<real>, fold: char -> char) {
    (q.near.Some? ==> metres.Some? && metres.value <= q.near.value.radiusM) && Filtered(q, v, fold)
  }

  /** The volcano is in the catalog and answers the query, column by column. */
  ghost predicate Answers(s: Catalog.State, q: Query, metric: Metric, fold: char -> char, v: Volcano) {
    var a := v.entry.attributes;
    && v.ref in s.entries && v.entry == s.entries[v.ref]
    && (q.near.Some? ==>
          metric(Point(a.latitude, a.longitude), Point(q.near.value.latitude, q.near.value.longitude))
            <= q.near.value.radiusM)
    && (q.country == "" || a.country == q.country) && (q.status == "" || a.status == q.status)
    && (q.search == "" || Like.Contains(a.name, q.search, fold) || Like.Contains(a.country, q.search, fold))
    && (q.includeAbsent || v.entry.absentSince == None)
  }

  /** v comes before w: by distance and then by id, or by id alone. */
  predicate Precedes(q: Query, metric: Metric, v: Volcano, w: Volcano) {
    if q.near.Some? then
      var here := Point(q.near.value.latitude, q.near.value.longitude);
      var a := metric(Point(v.entry.attributes.latitude, v.entry.attributes.longitude), here);
      var b := metric(Point(w.entry.attributes.latitude, w.entry.attributes.longitude), here);
      a < b || (a == b && v.entry.id < w.entry.id)
    else v.entry.id < w.entry.id
  }

  /** v comes after the place to resume at; near a point an id without a distance is no such place. */
  predicate Resumes(q: Query, metric: Metric, v: Volcano) {
    if q.near.Some? then
      var here := Point(q.near.value.latitude, q.near.value.longitude);
      var a := metric(Point(v.entry.attributes.latitude, v.entry.attributes.longitude), here);
      q.afterDistanceM.None? || q.afterDistanceM.value < a || (q.afterDistanceM.value == a && q.afterId < v.entry.id)
    else q.afterId <= 0 || q.afterId < v.entry.id
  }

  ghost function Matching(s: Catalog.State, q: Query, metric: Metric, fold: char -> char): set<Volcano> {
    set v | v in Rows(s) && Answers(s, q, metric, fold, v)
  }

  lemma {:induction false} AnswersIs(s: Catalog.State, q: Query, metric: Metric, fold: char -> char, v: Volcano)
    ensures v in Matching(s, q, metric, fold) <==> v in Rows(s) && Wanted(q, v, Metres(v, NearOf(q), metric), fold)
    ensures Resumes(q, metric, v) <==> Walk.Past(CursorOf(q), RankOf(v, NearOf(q), metric))
    ensures forall w ::
      Precedes(q, metric, v, w) <==> Less(RankOf(v, NearOf(q), metric), RankOf(w, NearOf(q), metric))
  {
    hide Like.Contains;
  }

  ghost predicate Expresses(st: Statement, q: Query, fold: char -> char) {
    && st.near == NearOf(q) && st.limit == q.limit
    && forall v: Volcano, metres: Option<real> :: (metres.Some? <==> q.near.Some?) ==>
         (HoldAll(st.where, v, metres, fold)
          <==> Wanted(q, v, metres, fold)
               && Walk.Past(CursorOf(q), Rank(if metres.Some? then metres.value else 0.0, v.entry.id)))
  }

  // ---------------------------------------------------------------------------
  // List
  // ---------------------------------------------------------------------------

  method Add(ps: seq<Predicate>, p: Predicate, ghost fold: char -> char) returns (r: seq<Predicate>)
    ensures forall v, m :: HoldAll(r, v, m, fold) <==> HoldAll(ps, v, m, fold) && Holds(p, v, m, fold)
  {
    r := ps + [p];
    forall v, m ensures HoldAll(r, v, m, fold) <==> HoldAll(ps, v, m, fold) && Holds(p, v, m, fold) {
      assert r[|ps|] == p && forall i :: 0 <= i < |ps| ==> r[i] == ps[i];
    }
  }

  /** The search condition: its pattern matches exactly the rows that contain the term. */
  lemma {:induction false} SearchIsContainment(search: string, v: Volcano, metres: Option<real>, fold: char -> char)
    ensures Holds(NameOrCountryLike(Like.SearchPattern(search)), v, metres, fold)
      <==> NameOrCountryContains(v, search, fold)
  {
    Like.SearchMeansContains(search, v.entry.attributes.name, fold);
    Like.SearchMeansContains(search, v.entry.attributes.country, fold);
  }

  method AddFilters(where0: seq<Predicate>, q: Query, ghost fold: char -> char) returns (where: seq<Predicate>)
    ensures forall v, m :: HoldAll(where, v, m, fold) <==> HoldAll(where0, v, m, fold) && Filtered(q, v, fold)
  {
    hide HoldAll, Like.Matches, Like.Contains, NameOrCountryContains;
    where := where0;
    if q.country != "" {
      where := Add(where, CountryIs(q.country), fold);
    }
    if q.status != "" {
      where := Add(where, StatusIs(q.status), fold);
    }
    if q.search != "" {
      var pattern := Like.SearchPattern(q.search);
      where := Add(where, NameOrCountryLike(pattern), fold);
      forall v, m ensures Holds(NameOrCountryLike(pattern), v, m, fold) <==> NameOrCountryContains(v, q.search, fold) {
        SearchIsContainment(q.search, v, m, fold);
      }
    }
    if !q.includeAbsent {
      where := Add(where, StillPresent, fold);
    }
  }

  method List(q: Query, ghost fold: char -> char) returns (r: Option<Statement>)
    ensures r.None? <==>
      || q.limit <= 0
      || (q.near.Some? && q.near.value.radiusM <= 0.0)
      || (q.near.Some? && !(-90.0 <= q.near.value.latitude <= 90.0 && -180.0 <= q.near.value.longitude <= 180.0))
    ensures r.Some? ==> Expresses(r.value, q, fold)
  {
    if q.limit <= 0 {
      return None;
    }
    var where: seq<Predicate> := [];
    assert forall v, m :: HoldAll(where, v, m, fold);
    hide HoldAll, Filtered;
    if q.near.Some? {
      if !InRange(q.near.value.latitude, q.near.value.longitude) || q.near.value.radiusM <= 0.0 {
        return None;
      }
      where := Add(where, WithinMeters(q.near.value.radiusM), fold);
      if q.afterDistanceM.Some? {
        where := Add(where, AfterPair(q.afterDistanceM.value, q.afterId), fold);
      }
    } else if q.afterId > 0 {
      where := Add(where, AfterId(q.afterId), fold);
    }
    where := AddFilters(where, q, fold);
    r := Some(Statement(NearOf(q), where, q.limit));
  }

  /** The page a request gets is the page of the volcanoes that answer it, wherever it resumes. */
  lemma {:induction false} ListAnswersQuery(s: Catalog.State, q: Query, st: Statement, metric: Metric,
      fold: char -> char)
    requires Catalog.ValidState(s) && Expresses(st, q, fold) && q.limit > 0
    ensures Distinct(Matching(s, q, metric, fold), Ranking(NearOf(q), metric))
    ensures Execute(s, st, metric, fold)
      == Walk.Page(Matching(s, q, metric, fold), Ranking(NearOf(q), metric), CursorOf(q), q.limit)
  {
    var rank := Ranking(NearOf(q), metric);
    RowsRanked(s, Matching(s, q, metric, fold), NearOf(q), metric);
    forall v ensures v in Selected(s, st, metric, fold)
        <==> v in Walk.After(Matching(s, q, metric, fold), rank, CursorOf(q)) {
      AnswersIs(s, q, metric, fold, v);
    }
    assert Selected(s, st, metric, fold) == Walk.After(Matching(s, q, metric, fold), rank, CursorOf(q));
  }

  /** What the statement returns, in the columns and the caller's own terms. */
  lemma {:induction false} ListReads(s: Catalog.State, q: Query, st: Statement, metric: Metric, fold: char -> char)
    requires Catalog.ValidState(s) && Expresses(st, q, fold) && q.limit > 0
    ensures var out := Execute(s, st, metric, fold);
      && (forall i, j :: 0 <= i < j < |out| ==> Precedes(q, metric, out[i], out[j]))
      && (forall v :: v in out ==> Answers(s, q, metric, fold, v) && Resumes(q, metric, v))
      && (forall v :: Answers(s, q, metric, fold, v) && Resumes(q, metric, v) && v !in out ==>
            |out| == q.limit && forall w :: w in out ==> Precedes(q, metric, w, v))
      && |out| <= q.limit
  {
    var rows, rank := Matching(s, q, metric, fold), Ranking(NearOf(q), metric);
    ListAnswersQuery(s, q, st, metric, fold);
    Walk.PageIs(rows, rank, CursorOf(q), q.limit);
    assert forall v :: Answers(s, q, metric, fold, v) <==> v in rows;
    hide Answers, Precedes, Resumes, Execute, Expresses, NearOf, Walk.Page, CursorOf, Matching;
    forall v, w ensures Precedes(q, metric, v, w) <==> Less(rank(v), rank(w)) {
      AnswersIs(s, q, metric, fold, v);
    }
    forall v ensures Resumes(q, metric, v) <==> Walk.Past(CursorOf(q), rank(v)) {
      AnswersIs(s, q, metric, fold, v);
    }
  }

  /** A near-point listing given a cursor without a distance starts over: its page is the first, whatever the id. */
  lemma {:induction false} NearCursorWithoutDistanceRestarts(s: Catalog.State, q: Query, afterId: int, st: Statement,
      first: Statement, metric: Metric, fold: char -> char)
    requires Catalog.ValidState(s) && q.limit > 0 && q.near.Some? && q.afterDistanceM.None? && q.afterId == 0
    requires Expresses(st, q.(afterId := afterId), fold) && Expresses(first, q, fold)
    ensures Execute(s, st, metric, fold) == Execute(s, first, metric, fold)
  {
    var resumed := q.(afterId := afterId);
    assert forall v, metres :: Wanted(resumed, v, metres, fold) <==> Wanted(q, v, metres, fold);
    assert NearOf(resumed) == NearOf(q);
    assert Matching(s, resumed, metric, fold) == Matching(s, q, metric, fold);
    hide Expresses, Execute, Matching;
    ListAnswersQuery(s, resumed, st, metric, fold);
    ListAnswersQuery(s, q, first, metric, fold);
  }

  // ---------------------------------------------------------------------------
  // Following the cursor
  // ---------------------------------------------------------------------------

  /** The query the handler builds from the cursor it handed out: the distance goes along in distance order only. */
  function Resuming(q: Query, cursor: Option<Rank>): Query {
    if cursor.None? then q
    else q.(afterId := cursor.value.id, afterDistanceM := if q.near.Some? then Some(cursor.value.distance) else None)
  }

  /** A resumed request gets the page of the walk, in id order and in (distance, id) order alike. */
  lemma {:induction false} ResumedPage(s: Catalog.State, q: Query, cursor: Option<Rank>, st: Statement,
      metric: Metric, fold: char -> char)
    requires Catalog.ValidState(s) && q.limit > 0 && CursorOf(q).None?
    requires cursor.Some? ==> exists v :: v in Rows(s) && cursor.value == RankOf(v, NearOf(q), metric)
    requires Expresses(st, Resuming(q, cursor), fold)
    ensures Distinct(Matching(s, q, metric, fold), Ranking(NearOf(q), metric))
    ensures Execute(s, st, metric, fold)
      == Walk.Page(Matching(s, q, metric, fold), Ranking(NearOf(q), metric), cursor, q.limit)
  {
    var resumed := Resuming(q, cursor);
    assert NearOf(resumed) == NearOf(q) && CursorOf(resumed) == cursor;
    assert Matching(s, resumed, metric, fold) == Matching(s, q, metric, fold);
    hide Expresses, Execute, Matching;
    ListAnswersQuery(s, resumed, st, metric, fold);
  }

  // ---------------------------------------------------------------------------
  // Loading the whole catalog
  // ---------------------------------------------------------------------------

  const PAGE_LIMIT := 500
  const MAX_PAGES := 100

  /** What the client asks for: no filter, the largest page, from the start. */
  function WholeCatalog(): Query {
    Query(None, "", "", "", false, PAGE_LIMIT, 0, None)
  }

  function Present(s: Catalog.State): set<Volcano> {
    set ref | ref in s.entries && s.entries[ref].absentSince.None? :: Volcano(ref, s.entries[ref])
  }

  function IdRank(v: Volcano): Rank {
    Rank(0.0, v.entry.id)
  }

  lemma {:induction false} PresentIsMatching(s: Catalog.State, metric: Metric, fold: char -> char)
    requires Catalog.ValidState(s)
    ensures Present(s) == Matching(s, WholeCatalog(), metric, fold)
    ensures Distinct(Present(s), IdRank)
  {
  }

  ghost predicate RankOfSome(cursor: Option<Rank>, rows: set<Volcano>) {
    cursor.Some? ==> exists v :: v in rows && cursor.value == IdRank(v)
  }

  /** What the statement of any such request returns: a page of the present volcanoes. */
  lemma {:induction false} CatalogPage(s: Catalog.State, cursor: Option<Rank>, st: Statement, metric: Metric,
      fold: char -> char)
    requires Catalog.ValidState(s) && Expresses(st, Resuming(WholeCatalog(), cursor), fold)
    requires RankOfSome(cursor, Present(s))
    ensures Distinct(Present(s), IdRank)
    ensures Execute(s, st, metric, fold) == Walk.Page(Present(s), IdRank, cursor, PAGE_LIMIT)
  {
    if cursor.Some? {
      var v :| v in Present(s) && cursor.value == IdRank(v);
      assert v in Rows(s) && cursor.value == RankOf(v, None, metric);
    }
    PresentIsMatching(s, metric, fold);
    hide Expresses, Execute, Matching, Distinct;
    ResumedPage(s, WholeCatalog(), cursor, st, metric, fold);
    Walk.SameRanks(Present(s), Ranking(None, metric), IdRank, cursor, PAGE_LIMIT);
  }

  /** One request of the client: the handler's query, the statement List makes of it, its rows, and the next cursor. */
  method GetPage(s: Catalog.State, cursor: Option<Rank>, ghost metric: Metric, ghost fold: char -> char)
    returns (data: seq<Volcano>, next: Option<Rank>)
    requires Catalog.ValidState(s) && RankOfSome(cursor, Present(s))
    ensures exists st :: Expresses(st, Resuming(WholeCatalog(), cursor), fold) && data == Execute(s, st, metric, fold)
    ensures Distinct(Present(s), IdRank) && data == Walk.Page(Present(s), IdRank, cursor, PAGE_LIMIT)
    ensures next == Walk.NextCursor(data, IdRank, PAGE_LIMIT)
  {
    var st := List(Resuming(WholeCatalog(), cursor), fold);
    CatalogPage(s, cursor, st.value, metric, fold);
    data := Walk.Page(Present(s), IdRank, cursor, PAGE_LIMIT);
    next := Walk.NextCursor(data, IdRank, PAGE_LIMIT);
  }

  /** The catalog as the client should see it. */
  lemma {:induction false} PresentListing(s: Catalog.State, metric: Metric, fold: char -> char)
    requires Catalog.ValidState(s)
    ensures Distinct(Present(s), IdRank)
    ensures var all := OrderBy(Present(s), IdRank);
      && |all| == |Present(s)|
      && (forall i, j :: 0 <= i < j < |all| ==> all[i].entry.id < all[j].entry.id)
      && forall v :: v in all <==> v.ref in s.entries && v.entry == s.entries[v.ref] && v.entry.absentSince == None
    ensures PAGE_LIMIT == 500 && MAX_PAGES == 100
  {
    PresentIsMatching(s, metric, fold);
    OrderByLists(Present(s), IdRank);
    hide OrderBy;
  }

  /**
   * The client's walk over a catalog that does not change while it runs: every present volcano once, in id order,
   * exactly when there are fewer than 50000 of them; otherwise an error, never a truncated list.
   */
  method FetchAllVolcanoes(s: Catalog.State, ghost metric: Metric, ghost fold: char -> char)
    returns (volcanoes: seq<Volcano>, ok: bool)
    requires Catalog.ValidState(s)
    ensures Distinct(Present(s), IdRank)
    ensures ok <==> |Present(s)| < 50_000
    ensures ok ==> volcanoes == OrderBy(Present(s), IdRank)
    ensures ok ==> forall i, j :: 0 <= i < j < |volcanoes| ==> volcanoes[i].entry.id < volcanoes[j].entry.id
    ensures ok ==> forall v :: v in volcanoes <==>
      v.ref in s.entries && v.entry == s.entries[v.ref] && v.entry.absentSince == None
  {
    hide *;
    PresentListing(s, metric, fold);
    ghost var present := Present(s);
    ghost var all := OrderBy(present, IdRank);
    WalkStart(present, all);
    volcanoes := [];
    var cursor: Option<Rank> := None;
    var page := 0;
    while page < MAX_PAGES
      invariant 0 <= page <= MAX_PAGES && |volcanoes| == 500 * page <= |all|
      invariant volcanoes == all[..|volcanoes|]
      invariant cursor == Walk.CursorAt(all, IdRank, |volcanoes|) && RankOfSome(cursor, present)
    {
      WalkOn(present, all, volcanoes);
      var data, next := GetPage(s, cursor, metric, fold);
      volcanoes := volcanoes + data;
      if next.None? {
        return volcanoes, true;
      }
      cursor := next;
      page := page + 1;
    }
    ok := false;
  }

  lemma {:induction false} WalkStart(present: set<Volcano>, all: seq<Volcano>)
    ensures Walk.CursorAt(all, IdRank, 0) == None && RankOfSome(None, present)
  {
  }

  /** One more page of the walk: all the rest when it is short, and a cursor just past it when it is full. */
  lemma {:induction false} WalkOn(present: set<Volcano>, all: seq<Volcano>, got: seq<Volcano>)
    requires Distinct(present, IdRank) && all == OrderBy(present, IdRank) && |got| <= |all| && got == all[..|got|]
    ensures var data := Walk.Page(present, IdRank, Walk.CursorAt(all, IdRank, |got|), PAGE_LIMIT);
      var next := Walk.NextCursor(data, IdRank, PAGE_LIMIT);
      && RankOfSome(next, present)
      && (|all| < |got| + PAGE_LIMIT ==> next.None? && got + data == all)
      && (|got| + PAGE_LIMIT <= |all| ==>
            && next.Some? && got + data == all[..|got| + PAGE_LIMIT] && |got + data| == |got| + PAGE_LIMIT
            && next == Walk.CursorAt(all, IdRank, |got| + PAGE_LIMIT))
  {
    var k := |got|;
    assert PAGE_LIMIT == 500;
    hide *;
    Slices(all, k);
    LastOnPage(present, all, k);
    if k + PAGE_LIMIT <= |all| {
      Walk.FullPageAt(present, IdRank, PAGE_LIMIT, k);
    } else {
      Walk.ShortPageAt(present, IdRank, PAGE_LIMIT, k);
    }
  }

  lemma {:induction false} Slices(all: seq<Volcano>, k: nat)
    requires k <= |all|
    ensures all[..k] + all[k..|all|] == all
    ensures k + PAGE_LIMIT <= |all| ==> all[..k] + all[k..k + PAGE_LIMIT] == all[..k + PAGE_LIMIT]
  {
  }

  lemma {:induction false} LastOnPage(present: set<Volcano>, all: seq<Volcano>, k: nat)
    requires Distinct(present, IdRank) && all == OrderBy(present, IdRank)
    ensures RankOfSome(None, present)
    ensures k + PAGE_LIMIT <= |all| ==> RankOfSome(Walk.CursorAt(all, IdRank, k + PAGE_LIMIT), present)
  {
    OrderByLists(present, IdRank);
    assert k + PAGE_LIMIT <= |all| ==> all[k + PAGE_LIMIT - 1] in present;
  }
}
