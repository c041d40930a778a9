/** SlidingQuantileEstimator: the age-bucket ring specialised to quantile
    estimators. The same ring as the generic sample stream, except that a
    missing builder block falls back to the quantile library's estimator and
    the ingest method is `observe`. An estimator is modelled by the
    observations it has been fed. */
module SlidingEstimator {
  import opened Outcomes
  import opened WindowMath
  import opened AgeRing

  /** The builder used when `initialize` gets no block. */
  const DefaultBuilder: Builder := Builder("Quantile::Estimator")

  /** The estimator's attributes: its builder block and the ring of
      per-window observation histories. */
  datatype Estimator = Estimator(builder: Builder, ring: Ring<real>)

  /** `initialize(&qe_builder)`: never fails; WINDOW_COUNT fresh estimators,
      head at slot 0, first expiry one interval after `now`. */
  function New(block: Option<Builder>, now: real): (e: Estimator)
    ensures block.Some? ==> e.builder == block.value
    ensures block.None? ==> e.builder == DefaultBuilder
    ensures Valid(e.ring)
    ensures Ordered(e.ring) == Empties(WINDOW_COUNT)
    ensures e.ring.headIndex == 0
    ensures e.ring.expiresAt == now + WINDOW_INTERVAL
  {
    Estimator(block.GetOr(DefaultBuilder), Fresh(now))
  }

  /** `observe(value)`: refresh, feed `value` to every window once, return
      it. With no expiry due every window just grows by `value`. */
  function Observe(e: Estimator, value: real, now: real): (res: (Estimator, real))
    requires Valid(e.ring)
    ensures res.1 == value
    ensures res.0.builder == e.builder
    ensures Valid(res.0.ring) && res.0.ring.expiresAt >= now
    ensures res.0.ring.expiresAt == Refresh(e.ring, now).expiresAt
    ensures res.0.ring.headIndex == Refresh(e.ring, now).headIndex
    ensures now <= e.ring.expiresAt ==>
      && res.0.ring.headIndex == e.ring.headIndex
      && res.0.ring.expiresAt == e.ring.expiresAt
      && forall i :: 0 <= i < WINDOW_COUNT ==> res.0.ring.windows[i] == e.ring.windows[i] + [value]
    ensures forall p :: 0 <= p < WINDOW_COUNT ==>
      Ordered(res.0.ring)[p] == Ordered(Refresh(e.ring, now))[p] + [value]
  {
    var (ring', v) := Record(e.ring, value, now);
    (e.(ring := ring'), v)
  }

  /** `head_window`: refresh, then return the oldest live window. */
  function HeadWindow(e: Estimator, now: real): (res: (Estimator, seq<real>))
    requires Valid(e.ring)
    ensures res.0.builder == e.builder
    ensures Valid(res.0.ring) && res.0.ring.expiresAt >= now
    ensures res.0.ring == Refresh(e.ring, now)
    ensures res.1 == Ordered(res.0.ring)[0]
    ensures now <= e.ring.expiresAt ==> res.0 == e && res.1 == Ordered(e.ring)[0]
    ensures now > e.ring.expiresAt ==>
      var k := Steps(e.ring.expiresAt, res.0.ring.expiresAt);
      1 <= k && res.1 == (if k < WINDOW_COUNT then Ordered(e.ring)[k] else [])
  {
    HeadWindowRefreshes(e.ring, now);
    var (ring', head) := AgeRing.HeadWindow(e.ring, now);
    (e.(ring := ring'), head)
  }

  /** Observations fed one after another at one instant. */
  function ObserveAll(e: Estimator, values: seq<real>, now: real): (e': Estimator)
    requires Valid(e.ring)
    ensures Valid(e'.ring) && e'.builder == e.builder
    ensures now <= e.ring.expiresAt ==>
      && e'.ring.headIndex == e.ring.headIndex
      && e'.ring.expiresAt == e.ring.expiresAt
      && forall i :: 0 <= i < WINDOW_COUNT ==> e'.ring.windows[i] == e.ring.windows[i] + values
    decreases |values|
  {
    if |values| == 0 then e
    else
      var e1 := Observe(e, values[0], now).0;
      var e' := ObserveAll(e1, values[1..], now);
      assert [values[0]] + values[1..] == values;
      e'
  }

  /** The estimator of the `#windows` contexts: `samples` observed at
      `start` by a freshly built estimator. */
  function Seeded(block: Option<Builder>, start: real, samples: seq<real>): (e: Estimator)
    ensures Valid(e.ring)
  {
    ObserveAll(New(block, start), samples, start)
  }

  /** "every window should have all samples": observations made before the
      first expiry reach every window, in order, whatever the builder. */
  lemma {:induction false} SeededWindows(block: Option<Builder>, start: real, samples: seq<real>)
    ensures Seeded(block, start, samples).ring.expiresAt == start + WINDOW_INTERVAL
    ensures Seeded(block, start, samples).ring.headIndex == 0
    ensures AllHold(Seeded(block, start, samples).ring.windows, samples)
  {
    var e0 := New(block, start);
    IntervalValue();
    forall i | 0 <= i < WINDOW_COUNT
      ensures e0.ring.windows[i] == []
    {
      OrderedIndex(e0.ring, i);
    }
  }

  /** "just before first window expires": a read changes nothing, every
      window still holds every sample. */
  lemma BeforeFirstExpiry(block: Option<Builder>, start: real, samples: seq<real>)
    ensures HeadWindow(Seeded(block, start, samples), start + WINDOW_INTERVAL - 0.1).1 == samples
    ensures AllHold(HeadWindow(Seeded(block, start, samples), start + WINDOW_INTERVAL - 0.1).0.ring.windows, samples)
  {
    SeededWindows(block, start, samples);
    OrderedIndex(Seeded(block, start, samples).ring, 0);
  }

  /** "just after first window expires": the head still holds every sample,
      so does every window but the newest, and the newest is empty. */
  lemma AfterFirstExpiry(block: Option<Builder>, start: real, samples: seq<real>)
    ensures HeadWindow(Seeded(block, start, samples), start + WINDOW_INTERVAL + 0.1).1 == samples
    ensures AllHold(Ordered(HeadWindow(Seeded(block, start, samples), start + WINDOW_INTERVAL + 0.1).0.ring)[..WINDOW_COUNT - 1], samples)
    ensures Ordered(HeadWindow(Seeded(block, start, samples), start + WINDOW_INTERVAL + 0.1).0.ring)[WINDOW_COUNT - 1] == []
  {
    SeededWindows(block, start, samples);
    var e := Seeded(block, start, samples);
    IntervalValue();
    RefreshOneInterval(e.ring, start + WINDOW_INTERVAL + 0.1);
    forall p | 0 <= p < WINDOW_COUNT
      ensures Ordered(e.ring)[p] == samples
    {
      OrderedIndex(e.ring, p);
    }
  }
}
