/** Option, Result, instants, and small sequence helpers. */
module Prelude {
  datatype Option<+T> = None | Some(value: T)

  datatype Result<+T, +E> = Ok(value: T) | Err(error: E)

  /** An instant, in nanoseconds since the Unix epoch. */
  type Instant = int

  /** The database keeps microseconds: a written instant is rounded down to one. */
  function Stored(t: Instant): Instant {
    t / 1000 * 1000
  }

  lemma {:induction false} StoredKeepsOrder(a: Instant, b: Instant)
    requires a <= b
    ensures Stored(a) <= Stored(b)
  {
  }

  function Min(a: int, b: int): int {
    if a <= b then a else b
  }

  function Max(a: int, b: int): int {
    if a >= b then a else b
  }

  datatype Point = Point(latitude: real, longitude: real)

  /** Distance on the globe, in whatever unit the caller works in: any function of two points. */
  type Metric = (Point, Point) -> real

  /** Coordinates that exist on Earth. */
  predicate InRange(latitude: real, longitude: real) {
    -90.0 <= latitude <= 90.0 && -180.0 <= longitude <= 180.0
  }

  lemma {:induction false} PrefixStep<T>(s: seq<T>, i: nat)
    requires i < |s|
    ensures s[..i + 1] == s[..i] + [s[i]]
  {
  }

  lemma {:induction false} TimesKeepsOrder(a: int, b: int, size: nat)
    ensures a <= b ==> a * size <= b * size
  {
  }

  lemma {:induction false} QuotientIs(n: nat, d: nat, q: nat)
    requires d > 0 && q * d <= n < q * d + d
    ensures n / d == q
  {
    var p, r := n / d, n % d;
    assert n == p * d + r && 0 <= r < d;
    TimesKeepsOrder(q + 1, p, d);
    TimesKeepsOrder(p + 1, q, d);
    assert (q + 1) * d == q * d + d && (p + 1) * d == p * d + d;
  }

  lemma {:induction false} QuotientStep(n: nat, d: nat)
    requires 0 < d <= n
    ensures n / d == (n - d) / d + 1
  {
    var q := (n - d) / d;
    assert n - d == q * d + (n - d) % d;
    assert (q + 1) * d == q * d + d;
    QuotientIs(n, d, q + 1);
  }
}
