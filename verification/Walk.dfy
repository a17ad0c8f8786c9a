/** Following next_cursor page by page until a page comes back without one. */
module Walk {
  import opened Prelude
  import opened Keyset

  predicate Past(cursor: Option<Rank>, r: Rank) {
    cursor.None? || Less(cursor.value, r)
  }

  /** The rows a page resuming at the cursor may return. */
  function After<T(!new, ==)>(rows: set<T>, rank: T -> Rank, cursor: Option<Rank>): set<T> {
    set x | x in rows && Past(cursor, rank(x))
  }

  /** ... WHERE rank > cursor ORDER BY rank LIMIT limit. */
  function Page<T(!new, ==)>(rows: set<T>, rank: T -> Rank, cursor: Option<Rank>, limit: nat): seq<T>
    requires Distinct(rows, rank)
  {
    var all := OrderBy(After(rows, rank, cursor), rank);
    if limit < |all| then all[..limit] else all
  }

  ghost predicate AllBefore<T(!new)>(s: seq<T>, rank: T -> Rank, x: T) {
    forall y :: y in s ==> Less(rank(y), rank(x))
  }

  /** What a limit leaves out comes after everything it keeps. */
  lemma {:induction false} FirstOnes<T(!new)>(all: seq<T>, rank: T -> Rank, limit: nat)
    requires Ascending(all, rank)
    ensures var first := if limit < |all| then all[..limit] else all;
      && |first| <= limit && Ascending(first, rank) && (forall x :: x in first ==> x in all)
      && (forall x :: x in all && x !in first ==> |first| == limit && AllBefore(first, rank, x))
  {
    if limit < |all| {
      var first := all[..limit];
      forall i | 0 <= i < limit ensures all[i] in first {
        assert first[i] == all[i];
      }
      forall x | x in all && x !in first ensures AllBefore(first, rank, x) {
        var i :| 0 <= i < |all| && all[i] == x;
      }
    }
  }

  /** What is on a page: the first rows, up to the limit, of those past the cursor. */
  lemma {:induction false} PageIs<T(!new)>(rows: set<T>, rank: T -> Rank, cursor: Option<Rank>, limit: nat)
    requires Distinct(rows, rank)
    ensures var page := Page(rows, rank, cursor, limit);
      && |page| <= limit && Ascending(page, rank)
      && (forall x :: x in page ==> x in rows && Past(cursor, rank(x)))
      && (forall x :: x in rows && Past(cursor, rank(x)) && x !in page ==>
            |page| == limit && AllBefore(page, rank, x))
  {
    var all, page := OrderBy(After(rows, rank, cursor), rank), Page(rows, rank, cursor, limit);
    OrderByLists(After(rows, rank, cursor), rank);
    assert page == if limit < |all| then all[..limit] else all;
    assert forall x :: x in all <==> x in rows && Past(cursor, rank(x));
    hide *;
    FirstOnes(all, rank, limit);
  }

  /** A full page may have a successor, and says where it resumes; a short page is the last. */
  function NextCursor<T>(page: seq<T>, rank: T -> Rank, limit: nat): Option<Rank> {
    if |page| == limit && limit > 0 then Some(rank(page[|page| - 1])) else None
  }

  /** The whole walk, request i being answered from answers[i]. None: the requests ran out before the pages did. */
  function Collected<T(!new, ==)>(answers: seq<set<T>>, rank: T -> Rank, cursor: Option<Rank>,
      limit: nat): Option<seq<T>>
    requires forall i :: 0 <= i < |answers| ==> Distinct(answers[i], rank)
  {
    if answers == [] then None
    else
      var page := Page(answers[0], rank, cursor, limit);
      var next := NextCursor(page, rank, limit);
      if next.None? then Some(page)
      else
        var rest := Collected(answers[1..], rank, next, limit);
        if rest.None? then None else Some(page + rest.value)
  }

  ghost predicate Unchanging<T(!new)>(answers: seq<set<T>>, rows: set<T>) {
    forall i :: 0 <= i < |answers| ==> answers[i] == rows
  }

  /** The cursor after the first k rows of a listing. */
  function CursorAt<T>(all: seq<T>, rank: T -> Rank, k: nat): Option<Rank>
    requires k <= |all|
  {
    if k == 0 then None else Some(rank(all[k - 1]))
  }

  lemma {:induction false} PastCursor<T(!new)>(all: seq<T>, rank: T -> Rank, k: nat, x: T)
    requires Ascending(all, rank) && k <= |all| && x in all
    ensures x in all[k..] <==> Past(CursorAt(all, rank, k), rank(x))
  {
    var i :| 0 <= i < |all| && all[i] == x;
    if i >= k {
      assert all[k..][i - k] == x;
    } else {
      forall j | 0 <= j < |all| - k ensures all[k..][j] != x {
        assert all[k..][j] == all[k + j] && Less(rank(all[i]), rank(all[k + j]));
      }
    }
  }

  /** Resuming after the k-th row of a listing gives the rest of the listing. */
  lemma {:induction false} ResumeAt<T(!new)>(rows: set<T>, rank: T -> Rank, k: nat)
    requires Distinct(rows, rank) && k <= |OrderBy(rows, rank)|
    ensures var all := OrderBy(rows, rank);
      OrderBy(After(rows, rank, CursorAt(all, rank, k)), rank) == all[k..]
  {
    var all := OrderBy(rows, rank);
    OrderByLists(rows, rank);
    var rest := After(rows, rank, CursorAt(all, rank, k));
    OrderByLists(rest, rank);
    forall x ensures x in OrderBy(rest, rank) <==> x in all[k..] {
      if x in all {
        PastCursor(all, rank, k, x);
      }
    }
    AscendingUnique(OrderBy(rest, rank), all[k..], rank);
  }

  lemma {:induction false} PageAt<T(!new)>(rows: set<T>, rank: T -> Rank, limit: nat, k: nat)
    requires Distinct(rows, rank) && k <= |OrderBy(rows, rank)|
    ensures var all := OrderBy(rows, rank);
      Page(rows, rank, CursorAt(all, rank, k), limit) == all[k..Min(k + limit, |all|)]
  {
    ResumeAt(rows, rank, k);
    var all := OrderBy(rows, rank);
    if limit < |all| - k {
      assert all[k..][..limit] == all[k..k + limit];
    }
  }

  lemma {:induction false} NextAt<T>(all: seq<T>, rank: T -> Rank, limit: nat, k: nat)
    requires k <= |all| && limit > 0
    ensures NextCursor(all[k..Min(k + limit, |all|)], rank, limit)
      == if k + limit <= |all| then CursorAt(all, rank, k + limit) else None
  {
  }

  /** How many full pages a listing of n rows has. */
  function FullPages(n: nat, limit: nat): nat
    requires limit > 0
  {
    n / limit
  }

  lemma {:induction false} FullPagesStep(n: nat, limit: nat)
    requires limit > 0
    ensures FullPages(n, limit) == if n < limit then 0 else FullPages(n - limit, limit) + 1
  {
    if n < limit {
      QuotientIs(n, limit, 0);
    } else {
      QuotientStep(n, limit);
    }
  }

  lemma {:induction false} UnchangingTail<T(!new)>(answers: seq<set<T>>, rows: set<T>)
    requires Unchanging(answers, rows) && answers != []
    ensures answers[0] == rows && Unchanging(answers[1..], rows)
  {
  }

  lemma {:induction false} UnchangingDistinct<T(!new)>(answers: seq<set<T>>, rows: set<T>, rank: T -> Rank)
    requires Unchanging(answers, rows) && Distinct(rows, rank)
    ensures forall i :: 0 <= i < |answers| ==> Distinct(answers[i], rank)
  {
  }

  lemma {:induction false} CollectedNothing<T(!new)>(rank: T -> Rank, cursor: Option<Rank>, limit: nat)
    ensures Collected([], rank, cursor, limit) == None
  {
  }

  /** One request of a walk. */
  lemma {:induction false} CollectedOnce<T(!new)>(answers: seq<set<T>>, rows: set<T>, rest: seq<set<T>>,
      rank: T -> Rank,
      cursor: Option<Rank>, limit: nat)
    requires answers != [] && answers[0] == rows && answers[1..] == rest
    requires forall i :: 0 <= i < |answers| ==> Distinct(answers[i], rank)
    requires forall i :: 0 <= i < |rest| ==> Distinct(rest[i], rank)
    requires Distinct(rows, rank)
    ensures var page := Page(rows, rank, cursor, limit);
      var next := NextCursor(page, rank, limit);
      Collected(answers, rank, cursor, limit) ==
        if next.None? then Some(page)
        else if Collected(rest, rank, next, limit).None? then None
        else Some(page + Collected(rest, rank, next, limit).value)
  {
  }

  /** A page in the middle of a listing is full and hands out the cursor after it. */
  lemma {:induction false} FullPageAt<T(!new)>(rows: set<T>, rank: T -> Rank, limit: nat, k: nat)
    requires Distinct(rows, rank) && limit > 0 && k + limit <= |OrderBy(rows, rank)|
    ensures var all := OrderBy(rows, rank);
      && Page(rows, rank, CursorAt(all, rank, k), limit) == all[k..k + limit]
      && NextCursor(all[k..k + limit], rank, limit) == CursorAt(all, rank, k + limit)
      && CursorAt(all, rank, k + limit).Some?
  {
    PageAt(rows, rank, limit, k);
    NextAt(OrderBy(rows, rank), rank, limit, k);
    hide Page, OrderBy, NextCursor, Distinct;
  }

  /** The page that is not full is the last. */
  lemma {:induction false} ShortPageAt<T(!new)>(rows: set<T>, rank: T -> Rank, limit: nat, k: nat)
    requires Distinct(rows, rank) && limit > 0 && k <= |OrderBy(rows, rank)| < k + limit
    ensures var all := OrderBy(rows, rank);
      && Page(rows, rank, CursorAt(all, rank, k), limit) == all[k..|all|]
      && NextCursor(all[k..|all|], rank, limit) == None
  {
    PageAt(rows, rank, limit, k);
    NextAt(OrderBy(rows, rank), rank, limit, k);
    hide Page, OrderBy, NextCursor, Distinct, CursorAt;
  }

  /**
   * As long as every request is answered from the same rows, the walk returns every row exactly once and in order,
   * with any positive limit, and it needs one request more than the number of full pages.
   */
  lemma {:induction false} WalkVisitsAll<T(!new)>(answers: seq<set<T>>, rows: set<T>, rank: T -> Rank, limit: nat,
      k: nat)
    requires Distinct(rows, rank) && Unchanging(answers, rows) && limit > 0 && k <= |OrderBy(rows, rank)|
    ensures forall i :: 0 <= i < |answers| ==> Distinct(answers[i], rank)
    ensures var all := OrderBy(rows, rank);
      Collected(answers, rank, CursorAt(all, rank, k), limit)
        == if |answers| > FullPages(|all| - k, limit) then Some(all[k..]) else None
    decreases |answers|
  {
    hide *;
    UnchangingDistinct(answers, rows, rank);
    var all := OrderBy(rows, rank);
    if answers == [] {
      CollectedNothing(rank, CursorAt(all, rank, k), limit);
    } else {
      UnchangingTail(answers, rows);
      FullPagesStep(|all| - k, limit);
      if k + limit <= |all| {
        FullPageAt(rows, rank, limit, k);
        WalkVisitsAll(answers[1..], rows, rank, limit, k + limit);
        FullPageFirst(answers, rank, CursorAt(all, rank, k), limit, all, k);
      } else {
        ShortPageAt(rows, rank, limit, k);
        ShortPageLast(answers, rank, CursorAt(all, rank, k), limit, all, k);
      }
    }
  }

  lemma {:induction false} ShortPageLast<T(!new)>(answers: seq<set<T>>, rank: T -> Rank, cursor: Option<Rank>,
      limit: nat, all: seq<T>, k: nat)
    requires answers != [] && forall i :: 0 <= i < |answers| ==> Distinct(answers[i], rank)
    requires k <= |all| && Page(answers[0], rank, cursor, limit) == all[k..|all|]
    requires NextCursor(all[k..|all|], rank, limit).None?
    ensures Collected(answers, rank, cursor, limit) == Some(all[k..])
  {
    assert all[k..|all|] == all[k..];
  }

  /** A walk whose first page is full is that page and the walk from there. */
  lemma {:induction false} FullPageFirst<T(!new)>(answers: seq<set<T>>, rank: T -> Rank, cursor: Option<Rank>,
      limit: nat, all: seq<T>, k: nat)
    requires answers != [] && forall i :: 0 <= i < |answers| ==> Distinct(answers[i], rank)
    requires k + limit <= |all| && Page(answers[0], rank, cursor, limit) == all[k..k + limit]
    requires NextCursor(all[k..k + limit], rank, limit).Some?
    requires forall i :: 0 <= i < |answers[1..]| ==> Distinct(answers[1..][i], rank)
    ensures var rest := Collected(answers[1..], rank, NextCursor(all[k..k + limit], rank, limit), limit);
      && (rest.None? ==> Collected(answers, rank, cursor, limit) == None)
      && (rest == Some(all[k + limit..]) ==> Collected(answers, rank, cursor, limit) == Some(all[k..]))
  {
    assert all[k..k + limit] + all[k + limit..] == all[k..];
  }

  /** A page depends on the ranks of its rows alone. */
  lemma {:induction false} SameRanks<T(!new)>(rows: set<T>, r1: T -> Rank, r2: T -> Rank, cursor: Option<Rank>,
      limit: nat)
    requires Distinct(rows, r1) && Distinct(rows, r2) && forall x :: r1(x) == r2(x)
    ensures OrderBy(rows, r1) == OrderBy(rows, r2)
    ensures Page(rows, r1, cursor, limit) == Page(rows, r2, cursor, limit)
  {
    SameOrder(rows, r1, r2);
    assert After(rows, r1, cursor) == After(rows, r2, cursor);
    SameOrder(After(rows, r1, cursor), r1, r2);
  }

  lemma {:induction false} SameOrder<T(!new)>(rows: set<T>, r1: T -> Rank, r2: T -> Rank)
    requires Distinct(rows, r1) && Distinct(rows, r2) && forall x :: r1(x) == r2(x)
    ensures OrderBy(rows, r1) == OrderBy(rows, r2)
  {
    OrderByLists(rows, r1);
    OrderByLists(rows, r2);
    AscendingUnique(OrderBy(rows, r1), OrderBy(rows, r2), r1);
  }
}
