/** The order every paged listing uses: (distance, id), with distance constant when a listing is ordered by id alone. */
module Keyset {
  import opened Prelude

  datatype Rank = Rank(distance: real, id: int)

  predicate Less(a: Rank, b: Rank) {
    a.distance < b.distance || (a.distance == b.distance && a.id < b.id)
  }

  ghost predicate Ascending<T>(s: seq<T>, rank: T -> Rank) {
    forall i, j :: 0 <= i < j < |s| ==> Less(rank(s[i]), rank(s[j]))
  }

  lemma {:induction false} SomeMember<T>(t: seq<T>)
    ensures t == [] || exists x :: x in t
  {
    if t != [] {
      assert t[0] in t;
    }
  }

  /** Two ascending sequences over the same elements are the same sequence. */
  lemma {:induction false} AscendingUnique<T>(s: seq<T>, t: seq<T>, rank: T -> Rank)
    requires Ascending(s, rank) && Ascending(t, rank)
    requires forall x :: x in s <==> x in t
    ensures s == t
  {
    if s == [] {
      SomeMember(t);
    } else {
      assert s[0] in t;
      var k :| 0 <= k < |t| && t[k] == s[0];
      assert t[0] in s;
      var m :| 0 <= m < |s| && s[m] == t[0];
      assert k == 0 && m == 0;
      forall x ensures x in s[1..] <==> x in t[1..] {
        if x in s[1..] {
          var i :| 1 <= i < |s| && s[i] == x;
          assert Less(rank(s[0]), rank(x));
          assert x in t;
        }
        if x in t[1..] {
          var i :| 1 <= i < |t| && t[i] == x;
          assert Less(rank(t[0]), rank(x));
          assert x in s;
        }
      }
      AscendingUnique(s[1..], t[1..], rank);
      assert s == [s[0]] + s[1..] && t == [t[0]] + t[1..];
    }
  }

  // ---------------------------------------------------------------------------
  // ORDER BY over a set of rows with distinct ranks
  // ---------------------------------------------------------------------------

  ghost predicate Distinct<T(!new)>(rows: set<T>, rank: T -> Rank) {
    forall x, y :: x in rows && y in rows && rank(x) == rank(y) ==> x == y
  }

  predicate IsLeast<T>(x: T, rows: set<T>, rank: T -> Rank) {
    x in rows && forall y | y in rows :: y == x || Less(rank(x), rank(y))
  }

  lemma {:induction false} LeastExists<T(!new)>(rows: set<T>, rank: T -> Rank) returns (x: T)
    requires rows != {} && Distinct(rows, rank)
    ensures IsLeast(x, rows, rank)
    decreases |rows|
  {
    var first :| first in rows;
    x := first;
    var rest := rows - {first};
    assert rows == rest + {first};
    if rest != {} {
      var y := LeastExists(rest, rank);
      assert rank(first) != rank(y);
      if Less(rank(y), rank(first)) {
        x := y;
      }
    }
  }

  function OrderBy<T(!new, ==)>(rows: set<T>, rank: T -> Rank): seq<T>
    requires Distinct(rows, rank)
    decreases |rows|
  {
    if rows == {} then []
    else
      var least := (assert exists x :: IsLeast(x, rows, rank) by { var x := LeastExists(rows, rank); }
                    var x :| IsLeast(x, rows, rank); x);
      [least] + OrderBy(rows - {least}, rank)
  }

  lemma {:induction false} OrderByLists<T(!new)>(rows: set<T>, rank: T -> Rank)
    requires Distinct(rows, rank)
    ensures var s := OrderBy(rows, rank);
      Ascending(s, rank) && |s| == |rows| && forall x :: x in s <==> x in rows
    decreases |rows|
  {
    if rows != {} {
      var least := OrderBy(rows, rank)[0];
      assert IsLeast(least, rows, rank);
      OrderByLists(rows - {least}, rank);
    }
  }
}
