/**
 * Reading a bitemporal table: SELECT DISTINCT ON (natural key) ... WHERE .. ORDER BY natural key, ingested_at DESC.
 * Everything here is about any row type, any natural key and any filter.
 */
module AsOf {

  /** The newest row of each key, among the rows the WHERE clause keeps. */
  ghost function Newest<T(!new), K>(rows: set<T>, key: T -> K, stamp: T -> int, keep: T -> bool): set<T> {
    set v | v in rows && IsNewest(v, rows, key, stamp, keep)
  }

  ghost predicate IsNewest<T(!new), K>(v: T, rows: set<T>, key: T -> K, stamp: T -> int, keep: T -> bool) {
    keep(v) && forall w :: w in rows && keep(w) && key(w) == key(v) ==> stamp(w) <= stamp(v)
  }

  /** UNIQUE (natural key, ingested_at). */
  ghost predicate UniqueStamps<T(!new), K>(rows: set<T>, key: T -> K, stamp: T -> int) {
    forall v, w :: v in rows && w in rows && key(v) == key(w) && stamp(v) == stamp(w) ==> v == w
  }

  lemma {:induction false} NewestCongruent<T(!new), K>(rows: set<T>, key: T -> K, stamp: T -> int, k1: T -> bool,
      k2: T -> bool)
    requires forall v :: k1(v) == k2(v)
    ensures Newest(rows, key, stamp, k1) == Newest(rows, key, stamp, k2)
  {
  }

  /** Every key that has a kept row has a newest kept row at least as new. */
  lemma {:induction false} NewestExists<T(!new), K>(rows: set<T>, key: T -> K, stamp: T -> int, keep: T -> bool,
      v: T) returns (n: T)
    requires v in rows && keep(v)
    ensures n in Newest(rows, key, stamp, keep) && key(n) == key(v) && stamp(v) <= stamp(n)
  {
    n := NewestAmong(rows, rows, key, stamp, keep, v);
  }

  lemma {:induction false} NewestAmong<T(!new), K>(part: set<T>, rows: set<T>, key: T -> K, stamp: T -> int,
      keep: T -> bool, v: T)
    returns (n: T)
    requires part <= rows && v in rows && keep(v)
    ensures n in rows && keep(n) && key(n) == key(v) && stamp(v) <= stamp(n)
    ensures forall w :: w in part && keep(w) && key(w) == key(v) ==> stamp(w) <= stamp(n)
    decreases |part|
  {
    if part == {} {
      n := v;
    } else {
      var x :| x in part;
      n := NewestAmong(part - {x}, rows, key, stamp, keep, v);
      if keep(x) && key(x) == key(v) && stamp(n) < stamp(x) {
        n := x;
      }
    }
  }

  lemma {:induction false} OnePerKey<T(!new), K>(rows: set<T>, key: T -> K, stamp: T -> int, keep: T -> bool, v: T,
      w: T)
    requires UniqueStamps(rows, key, stamp)
    requires v in Newest(rows, key, stamp, keep) && w in Newest(rows, key, stamp, keep) && key(v) == key(w)
    ensures v == w
  {
  }

  ghost predicate Both<T>(keep: T -> bool, p: T -> bool, v: T) {
    keep(v) && p(v)
  }

  /** Filtering before the version is chosen. */
  ghost function FilterFirst<T(!new), K>(rows: set<T>, key: T -> K, stamp: T -> int, keep: T -> bool,
      p: T -> bool): set<T> {
    Newest(rows, key, stamp, v => Both(keep, p, v))
  }

  /** Filtering the chosen versions. */
  ghost function FilterAfter<T(!new), K>(rows: set<T>, key: T -> K, stamp: T -> int, keep: T -> bool,
      p: T -> bool): set<T> {
    set v | v in Newest(rows, key, stamp, keep) && p(v)
  }

  /** No key has a kept row that passes the filter while its newest kept row does not. */
  ghost predicate NothingSuperseded<T(!new), K>(rows: set<T>, key: T -> K, stamp: T -> int, keep: T -> bool,
      p: T -> bool) {
    forall v, n :: v in rows && keep(v) && p(v) && n in Newest(rows, key, stamp, keep) && key(n) == key(v) ==> p(n)
  }

  /**
   * A filter may run before the version is chosen if and only if no key has a superseded row that passes it
   * while the current one does not. Otherwise the superseded row is returned as current knowledge.
   */
  lemma {:induction false} PushdownExact<T(!new), K>(rows: set<T>, key: T -> K, stamp: T -> int, keep: T -> bool,
      p: T -> bool)
    requires UniqueStamps(rows, key, stamp)
    ensures FilterFirst(rows, key, stamp, keep, p) == FilterAfter(rows, key, stamp, keep, p)
      <==> NothingSuperseded(rows, key, stamp, keep, p)
  {
    var first, after := FilterFirst(rows, key, stamp, keep, p), FilterAfter(rows, key, stamp, keep, p);
    if NothingSuperseded(rows, key, stamp, keep, p) {
      forall v ensures v in first <==> v in after {
        if v in first {
          var n := NewestExists(rows, key, stamp, keep, v);
          assert Both(keep, p, n);
          assert v == n;
        }
        if v in after {
          assert Both(keep, p, v);
        }
      }
    }
    if first == after {
      forall v, n | v in rows && keep(v) && p(v) && n in Newest(rows, key, stamp, keep) && key(n) == key(v)
        ensures p(n)
      {
        var both := (x: T) => Both(keep, p, x);
        assert both(v);
        var f := NewestExists(rows, key, stamp, both, v);
        assert f in first;
        OnePerKey(rows, key, stamp, keep, f, n);
      }
    }
  }

  /** A filter over columns of the natural key may always run first. */
  lemma {:induction false} PushdownOfKeyFilter<T(!new), K>(rows: set<T>, key: T -> K, stamp: T -> int,
      keep: T -> bool, p: T -> bool)
    requires UniqueStamps(rows, key, stamp)
    requires forall v, w :: v in rows && w in rows && key(v) == key(w) ==> p(v) == p(w)
    ensures FilterFirst(rows, key, stamp, keep, p) == FilterAfter(rows, key, stamp, keep, p)
  {
    PushdownExact(rows, key, stamp, keep, p);
  }
}
