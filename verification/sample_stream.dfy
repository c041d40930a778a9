/** WindowedSampleStream: the generic age-bucket ring over accumulators
    built by a caller-supplied block and fed through a configurable method
    (`add` unless the options name another). */
module SampleStream {
  import opened Outcomes
  import opened WindowMath
  import opened AgeRing

  /** The stream's attributes: its builder block, the name of the method
      that feeds an accumulator, and the ring. */
  datatype Stream<T> = Stream(builder: Builder, addMethod: string, ring: Ring<T>)

  const MissingBuilder: string := "missing observer_builder block"

  /** `initialize(opts, &observer_builder)`: raises without a block;
      otherwise WINDOW_COUNT fresh accumulators, head at slot 0, first expiry
      one interval after `now`. */
  function New<T>(builder: Option<Builder>, addMethod: Option<string>, now: real)
    : (r: Result<Stream<T>>)
    ensures r.Failure? <==> builder.None?
    ensures r.Failure? ==> r.error == MissingBuilder
    ensures r.Success? ==>
      && r.value.builder == builder.value
      && (addMethod.Some? ==> r.value.addMethod == addMethod.value)
      && (addMethod.None? ==> r.value.addMethod == "add")
      && Valid(r.value.ring)
      && Ordered(r.value.ring) == Empties(WINDOW_COUNT)
      && r.value.ring.headIndex == 0
      && r.value.ring.expiresAt == now + WINDOW_INTERVAL
  {
    match builder
    case None => Failure(MissingBuilder)
    case Some(b) => Success(Stream(b, addMethod.GetOr("add"), Fresh(now)))
  }

  /** `add(value)`: refresh, feed `value` to every window once, return it.
      With no expiry due every window just grows by `value`; otherwise the
      expired generations are replaced first. */
  function Add<T>(s: Stream<T>, value: T, now: real): (res: (Stream<T>, T))
    requires Valid(s.ring)
    ensures res.1 == value
    ensures res.0.builder == s.builder && res.0.addMethod == s.addMethod
    ensures Valid(res.0.ring) && res.0.ring.expiresAt >= now
    ensures res.0.ring.expiresAt == Refresh(s.ring, now).expiresAt
    ensures res.0.ring.headIndex == Refresh(s.ring, now).headIndex
    ensures now <= s.ring.expiresAt ==>
      && res.0.ring.headIndex == s.ring.headIndex
      && res.0.ring.expiresAt == s.ring.expiresAt
      && forall i :: 0 <= i < WINDOW_COUNT ==> res.0.ring.windows[i] == s.ring.windows[i] + [value]
    ensures forall p :: 0 <= p < WINDOW_COUNT ==>
      Ordered(res.0.ring)[p] == Ordered(Refresh(s.ring, now))[p] + [value]
  {
    var (ring', v) := Record(s.ring, value, now);
    (s.(ring := ring'), v)
  }

  /** `head_window`: refresh, then return the oldest live accumulator. */
  function HeadWindow<T>(s: Stream<T>, now: real): (res: (Stream<T>, seq<T>))
    requires Valid(s.ring)
    ensures res.0.builder == s.builder && res.0.addMethod == s.addMethod
    ensures Valid(res.0.ring) && res.0.ring.expiresAt >= now
    ensures res.0.ring == Refresh(s.ring, now)
    ensures res.1 == Ordered(res.0.ring)[0]
    ensures now <= s.ring.expiresAt ==> res.0 == s && res.1 == Ordered(s.ring)[0]
    ensures now > s.ring.expiresAt ==>
      var k := Steps(s.ring.expiresAt, res.0.ring.expiresAt);
      1 <= k && res.1 == (if k < WINDOW_COUNT then Ordered(s.ring)[k] else [])
  {
    HeadWindowRefreshes(s.ring, now);
    var (ring', head) := AgeRing.HeadWindow(s.ring, now);
    (s.(ring := ring'), head)
  }

  /** `batch.each { |v| add(v) }` at one instant. */
  function AddAll<T>(s: Stream<T>, batch: seq<T>, now: real): (s': Stream<T>)
    requires Valid(s.ring)
    ensures Valid(s'.ring)
    ensures now <= s.ring.expiresAt ==>
      && s'.ring.headIndex == s.ring.headIndex
      && s'.ring.expiresAt == s.ring.expiresAt
      && forall i :: 0 <= i < WINDOW_COUNT ==> s'.ring.windows[i] == s.ring.windows[i] + batch
    decreases |batch|
  {
    if |batch| == 0 then s
    else
      var s' := AddAll(Add(s, batch[0], now).0, batch[1..], now);
      assert [batch[0]] + batch[1..] == batch;
      s'
  }

  /** The samples of several batches, in order. */
  function Flatten<T>(batches: seq<seq<T>>): seq<T> {
    if |batches| == 0 then [] else Flatten(batches[..|batches| - 1]) + batches[|batches| - 1]
  }

  /** Two extensions in turn are one extension by both batches. */
  lemma AppendedTwice<T>(c: seq<seq<T>>, b: seq<seq<T>>, a: seq<seq<T>>, x: seq<T>, y: seq<T>)
    requires Appended(b, a, x) && Appended(c, b, y)
    ensures Appended(c, a, x + y)
  {
    forall p | 0 <= p < WINDOW_COUNT
      ensures c[p] == a[p] + (x + y)
    {
      assert c[p] == (a[p] + x) + y;
    }
  }

  /** Adding a batch at one instant refreshes once and then appends the
      whole batch, in order, to every window. */
  lemma AddAllAppends<T>(s: Stream<T>, batch: seq<T>, now: real)
    requires Valid(s.ring)
    ensures Refresh(AddAll(s, batch, now).ring, now).expiresAt == Refresh(s.ring, now).expiresAt
    ensures Appended(Ordered(Refresh(AddAll(s, batch, now).ring, now)), Ordered(Refresh(s.ring, now)), batch)
  {
    var o := Ordered(Refresh(s.ring, now));
    OrderedIndex(Refresh(s.ring, now), 0);
    if |batch| == 0 {
      assert Appended(o, o, batch);
    } else {
      var s1 := Add(s, batch[0], now).0;
      var s' := AddAll(s1, batch[1..], now);
      assert AddAll(s, batch, now) == s';
      assert Refresh(s'.ring, now) == s'.ring;
      OrderedIndex(s1.ring, 0);
      OrderedAppend(s1.ring, s'.ring, batch[1..]);
      assert Appended(Ordered(s1.ring), o, [batch[0]]);
      AppendedTwice(Ordered(s'.ring), Ordered(s1.ring), o, [batch[0]], batch[1..]);
      assert [batch[0]] + batch[1..] == batch;
    }
  }

  /** When the test adds batch `i`: at `start` for the first, just after
      the i-th interval boundary for the others. */
  function BatchTime(start: real, i: nat): real {
    if i == 0 then start else start + (i as real) * WINDOW_INTERVAL + 0.1
  }

  /** The timeline of "expires with interspersed samples": starting from
      `s`, each batch is added at its time and the head is read. */
  function Timeline<T>(s: Stream<T>, start: real, batches: seq<seq<T>>): (s': Stream<T>)
    requires Valid(s.ring)
    ensures Valid(s'.ring)
  {
    if |batches| == 0 then s
    else
      var n := |batches| - 1;
      TimelineStep(Timeline(s, start, batches[..n]), start, n, batches[n])
  }

  /** Batch `n` of the timeline: added at its time, then the head read. */
  function TimelineStep<T>(prev: Stream<T>, start: real, n: nat, batch: seq<T>): (s': Stream<T>)
    requires Valid(prev.ring)
    ensures Valid(s'.ring)
  {
    var t := BatchTime(start, n);
    HeadWindow(AddAll(prev, batch, t), t).0
  }

  lemma FlattenSnoc<T>(batches: seq<seq<T>>, a: nat, n: nat)
    requires a <= n < |batches|
    ensures Flatten(batches[a..n + 1]) == Flatten(batches[a..n]) + batches[n]
  {
    assert batches[a..n + 1][..n - a] == batches[a..n];
  }

  /** One batch added, then the head read, less than one interval after
      the head expired: the oldest generation is retired, the expiry moves
      one interval on, and every window grows by the batch. */
  lemma BatchAfterBoundary<T>(s: Stream<T>, batch: seq<T>, t: real)
    requires Valid(s.ring) && s.ring.expiresAt < t <= s.ring.expiresAt + WINDOW_INTERVAL
    ensures HeadWindow(AddAll(s, batch, t), t).0.ring.expiresAt
         == s.ring.expiresAt + WINDOW_INTERVAL
    ensures forall p :: 0 <= p < WINDOW_COUNT - 1 ==>
      Ordered(HeadWindow(AddAll(s, batch, t), t).0.ring)[p] == Ordered(s.ring)[p + 1] + batch
    ensures Ordered(HeadWindow(AddAll(s, batch, t), t).0.ring)[WINDOW_COUNT - 1] == batch
  {
    AddAllAppends(s, batch, t);
    RefreshOneInterval(s.ring, t);
    assert Ordered(Refresh(s.ring, t))[WINDOW_COUNT - 1] == [];
  }

  /** One batch added, then the head read, before the head expires: every
      window grows by the batch and nothing else changes. */
  lemma BatchBeforeExpiry<T>(s: Stream<T>, batch: seq<T>, t: real)
    requires Valid(s.ring) && t <= s.ring.expiresAt
    ensures HeadWindow(AddAll(s, batch, t), t).0.ring.expiresAt == s.ring.expiresAt
    ensures forall p :: 0 <= p < WINDOW_COUNT ==>
      Ordered(HeadWindow(AddAll(s, batch, t), t).0.ring)[p] == Ordered(s.ring)[p] + batch
  {
    AddAllAppends(s, batch, t);
  }

  /** The windows, oldest first, hold the last `WINDOW_COUNT - p` batches
      at position `p`. */
  ghost predicate HoldsRecent<T>(o: seq<seq<T>>, batches: seq<seq<T>>) {
    && |o| == WINDOW_COUNT
    && forall p :: 0 <= p < WINDOW_COUNT ==>
         o[p] == Flatten(batches[Max(0, |batches| - WINDOW_COUNT + p)..])
  }

  /** The whole ring along the timeline: after `n >= 1` batches the head
      expires at `start + n` intervals and the window at ordered position
      `p` holds the last `WINDOW_COUNT - p` batches, in order. */
  lemma {:induction false} TimelineWindows<T>(s: Stream<T>, start: real, batches: seq<seq<T>>)
    requires Valid(s.ring) && Ordered(s.ring) == Empties(WINDOW_COUNT)
    requires s.ring.expiresAt == start + WINDOW_INTERVAL
    requires |batches| >= 1
    ensures Timeline(s, start, batches).ring.expiresAt
         == start + (|batches| as real) * WINDOW_INTERVAL
    ensures HoldsRecent(Ordered(Timeline(s, start, batches).ring), batches)
  {
    IntervalValue();
    if |batches| == 1 {
      TimelineBase(s, start, batches);
    } else {
      TimelineWindows(s, start, batches[..|batches| - 1]);
      TimelineInduct(s, start, batches);
    }
  }

  lemma TimelineBase<T>(s: Stream<T>, start: real, batches: seq<seq<T>>)
    requires Valid(s.ring) && Ordered(s.ring) == Empties(WINDOW_COUNT)
    requires s.ring.expiresAt == start + WINDOW_INTERVAL
    requires |batches| == 1
    ensures Timeline(s, start, batches).ring.expiresAt == start + WINDOW_INTERVAL
    ensures HoldsRecent(Ordered(Timeline(s, start, batches).ring), batches)
  {
    assert Timeline(s, start, batches) == TimelineStep(s, start, 0, batches[0]);
    TimelineFirst(s, batches[0], start);
    assert batches == [batches[0]];
  }

  lemma TimelineInduct<T>(s: Stream<T>, start: real, batches: seq<seq<T>>)
    requires Valid(s.ring) && |batches| >= 2
    requires Timeline(s, start, batches[..|batches| - 1]).ring.expiresAt
         == start + ((|batches| - 1) as real) * WINDOW_INTERVAL
    requires HoldsRecent(Ordered(Timeline(s, start, batches[..|batches| - 1]).ring),
                         batches[..|batches| - 1])
    ensures Timeline(s, start, batches).ring.expiresAt
         == start + (|batches| as real) * WINDOW_INTERVAL
    ensures HoldsRecent(Ordered(Timeline(s, start, batches).ring), batches)
  {
    var n := |batches| - 1;
    var prev := Timeline(s, start, batches[..n]);
    IntervalValue();
    assert Timeline(s, start, batches) == TimelineStep(prev, start, n, batches[n]);
    TimelineNext(prev, start, batches);
  }

  /** The first batch of the timeline lands in every window. */
  lemma TimelineFirst<T>(s: Stream<T>, batch: seq<T>, start: real)
    requires Valid(s.ring) && Ordered(s.ring) == Empties(WINDOW_COUNT)
    requires s.ring.expiresAt == start + WINDOW_INTERVAL
    ensures TimelineStep(s, start, 0, batch).ring.expiresAt == start + WINDOW_INTERVAL
    ensures HoldsRecent(Ordered(TimelineStep(s, start, 0, batch).ring), [batch])
  {
    IntervalValue();
    BatchBeforeExpiry(s, batch, start);
    assert [batch][0..] == [batch];
    assert Flatten([batch]) == [] + batch;
  }

  /** A later batch of the timeline: one generation retires, every window
      grows by the batch. */
  lemma TimelineNext<T>(prev: Stream<T>, start: real, batches: seq<seq<T>>)
    requires |batches| >= 2 && Valid(prev.ring)
    requires prev.ring.expiresAt == start + ((|batches| - 1) as real) * WINDOW_INTERVAL
    requires HoldsRecent(Ordered(prev.ring), batches[..|batches| - 1])
    ensures
      var next := TimelineStep(prev, start, |batches| - 1, batches[|batches| - 1]);
      && next.ring.expiresAt == start + (|batches| as real) * WINDOW_INTERVAL
      && HoldsRecent(Ordered(next.ring), batches)
  {
    var n := |batches| - 1;
    var t := BatchTime(start, n);
    var next := HeadWindow(AddAll(prev, batches[n], t), t).0;
    IntervalValue();
    assert t == prev.ring.expiresAt + 0.1;
    BatchAfterBoundary(prev, batches[n], t);
    OrderedIndex(next.ring, 0);
    HoldsRecentStep(batches, Ordered(prev.ring), Ordered(next.ring));
  }

  /** Retiring the oldest generation and appending a batch to every window
      keeps the windows holding the recent batches. */
  lemma HoldsRecentStep<T>(batches: seq<seq<T>>, prev: seq<seq<T>>, next: seq<seq<T>>)
    requires |batches| >= 2 && |next| == WINDOW_COUNT
    requires HoldsRecent(prev, batches[..|batches| - 1])
    requires forall q :: 0 <= q < WINDOW_COUNT - 1 ==> next[q] == prev[q + 1] + batches[|batches| - 1]
    requires next[WINDOW_COUNT - 1] == batches[|batches| - 1]
    ensures HoldsRecent(next, batches)
  {
    forall p | 0 <= p < WINDOW_COUNT
      ensures next[p] == Flatten(batches[Max(0, |batches| - WINDOW_COUNT + p)..])
    {
      TimelineWindow(batches, |batches| - 1, p, prev, next);
    }
  }

  /** The per-window step of TimelineWindows. */
  lemma TimelineWindow<T>(batches: seq<seq<T>>, n: nat, p: nat, prev: seq<seq<T>>, next: seq<seq<T>>)
    requires 1 <= n < |batches| && p < WINDOW_COUNT
    requires |prev| == WINDOW_COUNT && |next| == WINDOW_COUNT
    requires forall q :: 0 <= q < WINDOW_COUNT ==> prev[q] == Flatten(batches[..n][Max(0, n - WINDOW_COUNT + q)..])
    requires forall q :: 0 <= q < WINDOW_COUNT - 1 ==> next[q] == prev[q + 1] + batches[n]
    requires next[WINDOW_COUNT - 1] == batches[n]
    requires n + 1 == |batches|
    ensures next[p] == Flatten(batches[Max(0, |batches| - WINDOW_COUNT + p)..])
  {
    var a := Max(0, |batches| - WINDOW_COUNT + p);
    if p < WINDOW_COUNT - 1 {
      assert batches[..n][Max(0, n - WINDOW_COUNT + p + 1)..] == batches[a..n];
    } else {
      assert a == n;
      assert batches[a..n] == [];
    }
    FlattenSnoc(batches, a, n);
    assert batches[a..] == batches[a..n + 1];
  }

  /** windowed_sample_stream_spec.rb, "expires with interspersed samples":
      right after batch `n` is added, the head holds the last WINDOW_COUNT
      batches, in order. */
  lemma InterspersedSamples<T>(builder: Builder, start: real, batches: seq<seq<T>>)
    requires |batches| >= 1
    ensures
      var s' := Timeline(New<T>(Some(builder), Some("observe"), start).value, start, batches);
      HeadWindow(s', BatchTime(start, |batches| - 1)).1
        == Flatten(batches[Max(0, |batches| - WINDOW_COUNT)..])
  {
    var s := New<T>(Some(builder), Some("observe"), start).value;
    var s' := Timeline(s, start, batches);
    TimelineWindows(s, start, batches);
    IntervalValue();
    assert BatchTime(start, |batches| - 1) <= s'.ring.expiresAt;
  }

  /** The same spec, at the next batch time before adding: the oldest of
      those batches has expired. */
  lemma InterspersedExpiry<T>(builder: Builder, start: real, batches: seq<seq<T>>)
    requires |batches| >= 1
    ensures
      var s' := Timeline(New<T>(Some(builder), Some("observe"), start).value, start, batches);
      HeadWindow(s', BatchTime(start, |batches|)).1
        == Flatten(batches[Max(0, |batches| - WINDOW_COUNT + 1)..])
  {
    var s := New<T>(Some(builder), Some("observe"), start).value;
    var s' := Timeline(s, start, batches);
    TimelineWindows(s, start, batches);
    IntervalValue();
    ReadNextInterval(s', batches, BatchTime(start, |batches|));
  }

  /** A read less than one interval after the head expired reports the
      second-oldest window: all the recent batches but the oldest. */
  lemma ReadNextInterval<T>(s: Stream<T>, batches: seq<seq<T>>, t: real)
    requires Valid(s.ring) && HoldsRecent(Ordered(s.ring), batches)
    requires s.ring.expiresAt < t <= s.ring.expiresAt + WINDOW_INTERVAL
    ensures HeadWindow(s, t).1 == Flatten(batches[Max(0, |batches| - WINDOW_COUNT + 1)..])
  {
    RefreshOneInterval(s.ring, t);
    assert Ordered(Refresh(s.ring, t))[0] == Ordered(s.ring)[1];
    HeadWindowRefreshes(s.ring, t);
  }

  /** The stream of the `#windows` contexts: `samples` added at `start`. */
  function Seeded<T>(builder: Builder, start: real, samples: seq<T>): (s: Stream<T>)
    ensures Valid(s.ring)
  {
    AddAll(New<T>(Some(builder), Some("observe"), start).value, samples, start)
  }

  /** "every window should have all samples". */
  lemma SeededWindows<T>(builder: Builder, start: real, samples: seq<T>)
    ensures Seeded(builder, start, samples).ring.expiresAt == start + WINDOW_INTERVAL
    ensures AllHold(Seeded(builder, start, samples).ring.windows, samples)
  {
    var s0 := New<T>(Some(builder), Some("observe"), start).value;
    var s := Seeded(builder, start, samples);
    IntervalValue();
    AddAllAppends(s0, samples, start);
    assert Refresh(s0.ring, start) == s0.ring;
    assert s.ring.headIndex == 0;
    forall i | 0 <= i < WINDOW_COUNT
      ensures s.ring.windows[i] == samples
    {
      OrderedIndex(s.ring, i);
    }
  }

  /** "just before first window expires": nothing has changed, and the
      head holds every sample. */
  lemma BeforeFirstExpiry<T>(builder: Builder, start: real, samples: seq<T>)
    ensures HeadWindow(Seeded(builder, start, samples), start + WINDOW_INTERVAL - 0.1).1 == samples
    ensures AllHold(HeadWindow(Seeded(builder, start, samples), start + WINDOW_INTERVAL - 0.1).0.ring.windows, samples)
  {
    SeededWindows(builder, start, samples);
    var s := Seeded(builder, start, samples);
    OrderedIndex(s.ring, 0);
  }

  /** "just after first window expires": the head still holds every
      sample, so does every window but the newest, and the newest is empty. */
  lemma AfterFirstExpiry<T>(builder: Builder, start: real, samples: seq<T>)
    ensures HeadWindow(Seeded(builder, start, samples), start + WINDOW_INTERVAL + 0.1).1 == samples
    ensures AllHold(Ordered(HeadWindow(Seeded(builder, start, samples), start + WINDOW_INTERVAL + 0.1).0.ring)[..WINDOW_COUNT - 1], samples)
    ensures Ordered(HeadWindow(Seeded(builder, start, samples), start + WINDOW_INTERVAL + 0.1).0.ring)[WINDOW_COUNT - 1] == []
  {
    SeededWindows(builder, start, samples);
    var s := Seeded(builder, start, samples);
    IntervalValue();
    RefreshOneInterval(s.ring, start + WINDOW_INTERVAL + 0.1);
    forall p | 0 <= p < WINDOW_COUNT
      ensures Ordered(s.ring)[p] == samples
    {
      OrderedIndex(s.ring, p);
    }
  }
}
