/** Time arithmetic of the age-bucket window: the constants, Ruby's
    `Float#ceil` and floored `Float#%`, the expired-window count and the
    re-alignment of the head expiry to the window grid. Time is an exact
    real number of seconds. */
module WindowMath {

  /** Total retention, in seconds. */
  const MAX_AGE: int := 10 * 60
  /** Number of age buckets in the ring. */
  const WINDOW_COUNT: nat := 5
  /** Width of one bucket: MAX_AGE / WINDOW_COUNT, a Float in the source. */
  const WINDOW_INTERVAL: real := (MAX_AGE as real) / (WINDOW_COUNT as real)

  lemma IntervalValue()
    ensures WINDOW_INTERVAL == 120.0
    ensures (WINDOW_COUNT as real) * WINDOW_INTERVAL == MAX_AGE as real
  {
  }

  function Min(a: int, b: int): int {
    if a <= b then a else b
  }

  function Max(a: int, b: int): int {
    if a >= b then a else b
  }

  /** True when `x` is a whole number. */
  predicate IsWhole(x: real) {
    x.Floor as real == x
  }

  /** Ruby's `Float#ceil`: the least integer not below `x`. */
  function Ceil(x: real): (c: int)
    ensures x <= c as real < x + 1.0
  {
    -((-x).Floor)
  }

  /** Ruby's `Float#%` for a positive divisor: the remainder takes the sign
      of the divisor (floored division), unlike Dafny's or C's. */
  function FloorMod(x: real, m: real): (r: real)
    requires m > 0.0
    ensures 0.0 <= r < m
    ensures IsWhole((x - r) / m)
  {
    var f := (x / m).Floor as real;
    var r := x - m * f;
    ScaleBounds(f, x, m);
    assert 0.0 <= r < m;
    assert (x - r) / m == f;
    r
  }

  /** Scaling `f <= x / m < f + 1` by a positive `m`. */
  lemma ScaleBounds(f: real, x: real, m: real)
    requires m > 0.0 && f <= x / m < f + 1.0
    ensures m * f <= x
    ensures x < m * f + m
  {
    var q := x / m;
    assert m * q == x;
    assert m * f <= m * q;
    calc {
      x;
    ==
      m * q;
    <
      m * (f + 1.0);
    ==
      m * f + m;
    }
  }

  /** The negation of a whole number is whole. */
  lemma WholeNeg(x: real)
    requires IsWhole(x)
    ensures IsWhole(-x)
  {
    assert -x == (-(x.Floor)) as real;
  }

  /** `t` lies on the grid of expiry times through `origin`: the two are a
      whole number of window intervals apart. */
  predicate OnGrid(t: real, origin: real) {
    IsWhole((t - origin) / WINDOW_INTERVAL)
  }

  /** How many window intervals lie between `from` and `to` (rounded down). */
  function Steps(from: real, to: real): int {
    ((to - from) / WINDOW_INTERVAL).Floor
  }

  /** The grid point of `[now, now + WINDOW_INTERVAL)` lies `j` whole
      intervals after the origin when `now` is in the `j`-th interval. */
  lemma GridLanding(e: real, e': real, now: real, j: int)
    requires 1 <= j && OnGrid(e', e) && now <= e' < now + WINDOW_INTERVAL
    requires e + ((j - 1) as real) * WINDOW_INTERVAL < now
    requires now <= e + (j as real) * WINDOW_INTERVAL
    ensures Steps(e, e') == j
  {
    var g := e + (j as real) * WINDOW_INTERVAL;
    IntervalValue();
    assert (g - e) / WINDOW_INTERVAL == j as real;
    GridTrans(g, e, e');
    GridUnique(g, e', now);
  }

  /** A grid point is its origin plus its number of steps. */
  lemma GridPoint(t: real, origin: real)
    requires OnGrid(t, origin)
    ensures t == origin + (Steps(origin, t) as real) * WINDOW_INTERVAL
  {
  }

  /** Being on a common grid is transitive and symmetric. */
  lemma GridTrans(a: real, b: real, c: real)
    requires OnGrid(a, b) && OnGrid(c, b)
    ensures OnGrid(a, c)
  {
    var i := Steps(b, a);
    var j := Steps(b, c);
    GridPoint(a, b);
    GridPoint(c, b);
    assert (a - c) / WINDOW_INTERVAL == (i - j) as real;
  }

  /** Two points of one grid within one interval of the same instant coincide. */
  lemma GridUnique(a: real, b: real, now: real)
    requires OnGrid(a, b)
    requires now <= a < now + WINDOW_INTERVAL
    requires now <= b < now + WINDOW_INTERVAL
    ensures a == b
  {
    IntervalValue();
    GridPoint(a, b);
    var s := Steps(b, a);
    assert -WINDOW_INTERVAL < (s as real) * WINDOW_INTERVAL < WINDOW_INTERVAL;
    assert s == 0;
  }

  /** Walking the grid in two hops ends where one hop does: a point of the
      grid through `mid`, itself on the grid through `origin`, that lies in
      the same one-interval span as a point `b` of the origin's grid is `b`. */
  lemma GridCompose(origin: real, mid: real, a: real, b: real, now: real)
    requires OnGrid(mid, origin) && OnGrid(a, mid) && OnGrid(b, origin)
    requires now <= a < now + WINDOW_INTERVAL
    requires now <= b < now + WINDOW_INTERVAL
    ensures a == b
  {
    assert OnGrid(origin, origin);
    GridTrans(origin, origin, mid);
    GridTrans(a, mid, origin);
    GridTrans(a, origin, b);
    GridUnique(a, b, now);
  }

  /** A grid point strictly less than four intervals before `e` lies at
      least five intervals before it. */
  lemma GridGap(t: real, e: real)
    requires OnGrid(t, e)
    requires t < e - ((WINDOW_COUNT - 1) as real) * WINDOW_INTERVAL
    ensures t <= e - (WINDOW_COUNT as real) * WINDOW_INTERVAL
  {
    IntervalValue();
    GridPoint(t, e);
  }

  /** `expired_window_count`: the number of whole or partial window
      intervals elapsed since the head expired, capped at WINDOW_COUNT. */
  function ExpiredWindowCount(expiresAt: real, now: real): (c: int)
    ensures c <= WINDOW_COUNT
    ensures c < WINDOW_COUNT ==>
      ((c - 1) as real) * WINDOW_INTERVAL < now - expiresAt <= (c as real) * WINDOW_INTERVAL
    ensures c == WINDOW_COUNT ==>
      now - expiresAt > ((WINDOW_COUNT - 1) as real) * WINDOW_INTERVAL
    ensures now > expiresAt ==> 1 <= c
  {
    var elapsedIntervals := (now - expiresAt) / WINDOW_INTERVAL;
    Min(WINDOW_COUNT, Ceil(elapsedIntervals))
  }

  /** `next_window_expiration`: the first instant of the grid through the
      current expiry that is not before `now`. */
  function NextWindowExpiration(expiresAt: real, now: real): (e: real)
    ensures now <= e < now + WINDOW_INTERVAL
    ensures OnGrid(e, expiresAt)
  {
    IntervalValue();
    var delta := FloorMod(expiresAt - now, WINDOW_INTERVAL);
    WholeNeg(((expiresAt - now) - delta) / WINDOW_INTERVAL);
    assert (now + delta - expiresAt) / WINDOW_INTERVAL
        == -(((expiresAt - now) - delta) / WINDOW_INTERVAL);
    now + delta
  }

  /** When the head has expired, the expired-window count is the number of
      grid steps the expiry moves forward, capped at WINDOW_COUNT. */
  lemma {:induction false} ExpiredCountIsSteps(expiresAt: real, now: real)
    requires now > expiresAt
    ensures Steps(expiresAt, NextWindowExpiration(expiresAt, now)) >= 1
    ensures ExpiredWindowCount(expiresAt, now)
         == Min(WINDOW_COUNT, Steps(expiresAt, NextWindowExpiration(expiresAt, now)))
  {
    var e := NextWindowExpiration(expiresAt, now);
    var k := Steps(expiresAt, e);
    GridPoint(e, expiresAt);
    var d := now - expiresAt;
    // e is the grid point in [now, now + interval); so is expiresAt + Ceil(d/I)*I.
    var c := Ceil(d / WINDOW_INTERVAL);
    var g := expiresAt + (c as real) * WINDOW_INTERVAL;
    assert d <= (c as real) * WINDOW_INTERVAL < d + WINDOW_INTERVAL;
    assert now <= g < now + WINDOW_INTERVAL;
    assert (g - expiresAt) / WINDOW_INTERVAL == c as real;
    GridTrans(g, expiresAt, e);
    GridUnique(g, e, now);
    assert k == c;
  }
}
