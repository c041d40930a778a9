/** The age-bucket ring shared by WindowedSampleStream and
    SlidingQuantileEstimator: WINDOW_COUNT accumulators, a head index and
    the head's expiry time. An accumulator is represented by the sequence
    of samples it has ingested since it was built; a freshly built one is
    empty. */
module AgeRing {
  import opened WindowMath

  /** The caller-supplied block that builds accumulators, known here only by
      the name of what it builds. */
  datatype Builder = Builder(builds: string)

  datatype Ring<T> = Ring(windows: seq<seq<T>>, headIndex: int, expiresAt: real)

  /** The ring shape the Ruby classes maintain. */
  predicate Valid<T>(r: Ring<T>) {
    |r.windows| == WINDOW_COUNT && 0 <= r.headIndex < WINDOW_COUNT
  }

  /** `n` freshly built accumulators. */
  function Empties<T>(n: nat): seq<seq<T>> {
    seq(n, _ => [])
  }

  /** A window sequence read from the oldest generation: the `c` oldest
      generations retired and `c` fresh ones appended as the newest. */
  function Retired<T>(o: seq<seq<T>>, c: nat): seq<seq<T>>
    requires c <= |o|
  {
    o[c..] + Empties(c)
  }

  /** Every window holds exactly `samples`. */
  predicate AllHold<T(==)>(windows: seq<seq<T>>, samples: seq<T>) {
    forall i :: 0 <= i < |windows| ==> windows[i] == samples
  }

  /** The windows read from the head onwards, oldest generation first:
      `windows.rotate(head_window_index)`. */
  function Ordered<T>(r: Ring<T>): seq<seq<T>>
    requires Valid(r)
  {
    r.windows[r.headIndex..] + r.windows[..r.headIndex]
  }

  /** Position `p` of the ordered view is slot `(head + p) mod WINDOW_COUNT`. */
  lemma OrderedIndex<T>(r: Ring<T>, p: int)
    requires Valid(r) && 0 <= p < WINDOW_COUNT
    ensures |Ordered(r)| == WINDOW_COUNT
    ensures Ordered(r)[p] == r.windows[(r.headIndex + p) % WINDOW_COUNT]
  {
  }

  /** The ring built by `initialize`: WINDOW_COUNT fresh accumulators, head
      at slot 0, first expiry one interval after construction. */
  function Fresh<T>(now: real): (r: Ring<T>)
    ensures Valid(r)
    ensures Ordered(r) == Empties(WINDOW_COUNT)
    ensures r.headIndex == 0 && r.expiresAt == now + WINDOW_INTERVAL
  {
    Ring(seq(WINDOW_COUNT, _ => []), 0, now + WINDOW_INTERVAL)
  }

  /** One turn of the `times` loop in `refresh_windows!`: the head slot gets
      a fresh accumulator and the head index advances. */
  function RetireHead<T>(r: Ring<T>): (r': Ring<T>)
    requires Valid(r)
    ensures Valid(r') && r'.expiresAt == r.expiresAt
    ensures r'.headIndex == (r.headIndex + 1) % WINDOW_COUNT
    ensures Ordered(r') == Retired(Ordered(r), 1)
  {
    var r' := Ring(r.windows[r.headIndex := []], (r.headIndex + 1) % WINDOW_COUNT, r.expiresAt);
    forall p | 0 <= p < WINDOW_COUNT
      ensures Ordered(r')[p] == Retired(Ordered(r), 1)[p]
    {
      RetireHeadAt(r, p);
    }
    r'
  }

  /** One position of the ordered view after the head is retired. */
  lemma RetireHeadAt<T>(r: Ring<T>, p: int)
    requires Valid(r) && 0 <= p < WINDOW_COUNT
    ensures
      var r' := Ring(r.windows[r.headIndex := []], (r.headIndex + 1) % WINDOW_COUNT, r.expiresAt);
      Ordered(r')[p] == Retired(Ordered(r), 1)[p]
  {
    var h := r.headIndex;
    var r' := Ring(r.windows[h := []], (h + 1) % WINDOW_COUNT, r.expiresAt);
    var slot := (h + 1 + p) % WINDOW_COUNT;
    assert ((h + 1) % WINDOW_COUNT + p) % WINDOW_COUNT == slot;
    OrderedIndex(r', p);
    if p < WINDOW_COUNT - 1 {
      assert slot != h;
      OrderedIndex(r, p + 1);
      assert Retired(Ordered(r), 1)[p] == Ordered(r)[p + 1];
    } else {
      assert slot == h;
      assert Retired(Ordered(r), 1)[p] == [];
    }
  }

  /** `n.times { … }`: retire the head `n` times (nothing when `n <= 0`). */
  function RetireTimes<T>(r: Ring<T>, n: int): (r': Ring<T>)
    requires Valid(r)
    ensures Valid(r') && r'.expiresAt == r.expiresAt
    ensures r'.headIndex == (r.headIndex + if n <= 0 then 0 else n) % WINDOW_COUNT
    ensures 0 <= n <= WINDOW_COUNT ==> Ordered(r') == Retired(Ordered(r), n)
    decreases n
  {
    if n <= 0 then r
    else
      var r1 := RetireHead(r);
      var r' := RetireTimes(r1, n - 1);
      assert r'.headIndex == (r.headIndex + n) % WINDOW_COUNT by {
        ModAdvance(r.headIndex, n - 1);
      }
      if n <= WINDOW_COUNT then
        OrderedIndex(r, 0);
        RetiredStep(Ordered(r), Ordered(r1), Ordered(r'), n);
        r'
      else
        r'
  }

  /** One retirement followed by `n - 1` more is `n` retirements. */
  lemma RetiredStep<T>(o: seq<seq<T>>, o1: seq<seq<T>>, o2: seq<seq<T>>, n: nat)
    requires |o| == WINDOW_COUNT && 1 <= n <= WINDOW_COUNT
    requires o1 == Retired(o, 1) && o2 == Retired(o1, n - 1)
    ensures o2 == Retired(o, n)
  {
    RetiredTwice(o, 1, n - 1);
  }

  /** Advancing by one and then by `k` more, modulo WINDOW_COUNT. */
  lemma ModAdvance(h: int, k: nat)
    requires 0 <= h < WINDOW_COUNT
    ensures ((h + 1) % WINDOW_COUNT + k) % WINDOW_COUNT == (h + 1 + k) % WINDOW_COUNT
  {
    if h + 1 == WINDOW_COUNT {
      assert (h + 1 + k) % WINDOW_COUNT == k % WINDOW_COUNT;
    }
  }

  /** `refresh_windows!` at time `now`. Nothing happens unless the head has
      expired, so a clock that stands still or runs backwards changes
      nothing. Otherwise the expiry moves forward by a whole number `k >= 1`
      of intervals to the first grid instant not before `now`, and the
      `min(k, WINDOW_COUNT)` oldest generations are replaced by fresh
      accumulators at the young end. */
  function Refresh<T>(r: Ring<T>, now: real): (r': Ring<T>)
    requires Valid(r)
    ensures Valid(r')
    ensures now <= r.expiresAt ==> r' == r
    ensures now > r.expiresAt ==>
      && now <= r'.expiresAt < now + WINDOW_INTERVAL
      && OnGrid(r'.expiresAt, r.expiresAt)
      && Steps(r.expiresAt, r'.expiresAt) >= 1
      && r'.headIndex
         == (r.headIndex + Min(WINDOW_COUNT, Steps(r.expiresAt, r'.expiresAt))) % WINDOW_COUNT
      && Ordered(r')
         == Retired(Ordered(r), Min(WINDOW_COUNT, Steps(r.expiresAt, r'.expiresAt)))
  {
    if !(now > r.expiresAt) then r
    else
      var retired := RetireTimes(r, ExpiredWindowCount(r.expiresAt, now));
      ExpiredCountIsSteps(r.expiresAt, now);
      retired.(expiresAt := NextWindowExpiration(r.expiresAt, now))
  }

  /** The same refresh seen slot by slot: with `c` generations retired,
      the `c` slots from the old head onwards now hold fresh accumulators and
      every other slot keeps its accumulator. */
  lemma RefreshSlots<T>(r: Ring<T>, now: real, i: int)
    requires Valid(r) && now > r.expiresAt && 0 <= i < WINDOW_COUNT
    ensures
      var c := Min(WINDOW_COUNT, Steps(r.expiresAt, Refresh(r, now).expiresAt));
      Refresh(r, now).windows[i]
        == if (i - r.headIndex) % WINDOW_COUNT < c then [] else r.windows[i]
  {
    var r' := Refresh(r, now);
    RotatedSlot(r, r', Min(WINDOW_COUNT, Steps(r.expiresAt, r'.expiresAt)), i);
  }

  /** Slot `i` of a ring whose head moved on by `c` after `c` retirements. */
  lemma RotatedSlot<T>(r: Ring<T>, r': Ring<T>, c: int, i: int)
    requires Valid(r) && Valid(r') && 0 <= c <= WINDOW_COUNT && 0 <= i < WINDOW_COUNT
    requires r'.headIndex == (r.headIndex + c) % WINDOW_COUNT
    requires Ordered(r') == Retired(Ordered(r), c)
    ensures r'.windows[i] == if (i - r.headIndex) % WINDOW_COUNT < c then [] else r.windows[i]
  {
    var q := (i - r.headIndex) % WINDOW_COUNT;
    var q' := if q >= c then q - c else q - c + WINDOW_COUNT;
    SlotPosition(r.headIndex, c, i);
    OrderedAt(r, q, i);
    OrderedAt(r', q', i);
    ShiftedSlot(Ordered(r), Ordered(r'), c, q, q');
  }

  /** The ordered position `q` that lands on slot `i`. */
  lemma OrderedAt<T>(r: Ring<T>, q: int, i: int)
    requires Valid(r) && 0 <= q < WINDOW_COUNT && (r.headIndex + q) % WINDOW_COUNT == i
    ensures Ordered(r)[q] == r.windows[i]
  {
    OrderedIndex(r, q);
  }

  /** Position `q` of a view reappears `c` places earlier after `c`
      retirements, or wraps round to a fresh accumulator. */
  lemma ShiftedSlot<T>(o: seq<seq<T>>, o': seq<seq<T>>, c: int, q: int, q': int)
    requires |o| == WINDOW_COUNT && 0 <= c <= WINDOW_COUNT && 0 <= q < WINDOW_COUNT
    requires o' == Retired(o, c)
    requires q' == if q >= c then q - c else q - c + WINDOW_COUNT
    ensures 0 <= q' < WINDOW_COUNT
    ensures o'[q'] == if q < c then [] else o[q]
  {
    RetiredAt(o, c, q');
  }

  /** Position `k` of a ring view after `c` retirements. */
  lemma RetiredAt<T>(o: seq<seq<T>>, c: int, k: int)
    requires |o| == WINDOW_COUNT && 0 <= c <= WINDOW_COUNT && 0 <= k < WINDOW_COUNT
    ensures Retired(o, c)[k] == if k + c < WINDOW_COUNT then o[k + c] else []
  {
  }

  /** Index arithmetic behind `RotatedSlot`: slot `i` sits at ordered
      position `q` under head `h`, and at `q - c` (mod WINDOW_COUNT) under
      head `h + c`. */
  lemma SlotPosition(h: int, c: int, i: int)
    requires 0 <= h < WINDOW_COUNT && 0 <= c <= WINDOW_COUNT && 0 <= i < WINDOW_COUNT
    ensures
      var q := (i - h) % WINDOW_COUNT;
      var q' := if q >= c then q - c else q - c + WINDOW_COUNT;
      && (h + q) % WINDOW_COUNT == i
      && ((h + c) % WINDOW_COUNT + q') % WINDOW_COUNT == i
  {
  }

  /** A refresh at an instant that is itself a grid point moves the expiry
      exactly to that instant: the new expiry is not later than `now`. */
  lemma RefreshLandsOnNow<T>(r: Ring<T>, now: real)
    requires Valid(r) && now > r.expiresAt && OnGrid(now, r.expiresAt)
    ensures Refresh(r, now).expiresAt == now
  {
    IntervalValue();
    GridTrans(now, r.expiresAt, Refresh(r, now).expiresAt);
    GridUnique(now, Refresh(r, now).expiresAt, now);
  }

  /** After a refresh the head has not expired, so a second refresh at the
      same instant does nothing. */
  lemma RefreshIdempotent<T>(r: Ring<T>, now: real)
    requires Valid(r)
    ensures Refresh(r, now).expiresAt >= now
    ensures Refresh(Refresh(r, now), now) == Refresh(r, now)
  {
  }

  /** A ring of fresh accumulators stays one under any refresh: retiring
      empty generations only brings in more empty ones. */
  lemma RefreshEmpty<T>(r: Ring<T>, now: real)
    requires Valid(r) && Ordered(r) == Empties(WINDOW_COUNT)
    ensures Ordered(Refresh(r, now)) == Empties(WINDOW_COUNT)
  {
  }

  /** The broadcast of `add`/`observe`: every accumulator ingests the
      value once, at the end of its history. */
  function Ingest<T>(r: Ring<T>, value: T): (r': Ring<T>)
    requires Valid(r)
    ensures Valid(r') && r'.headIndex == r.headIndex && r'.expiresAt == r.expiresAt
    ensures forall i :: 0 <= i < WINDOW_COUNT ==> r'.windows[i] == r.windows[i] + [value]
    ensures forall p :: 0 <= p < WINDOW_COUNT ==> Ordered(r')[p] == Ordered(r)[p] + [value]
  {
    var r' := r.(windows := seq(WINDOW_COUNT, i requires 0 <= i < WINDOW_COUNT => r.windows[i] + [value]));
    forall p | 0 <= p < WINDOW_COUNT
      ensures Ordered(r')[p] == Ordered(r)[p] + [value]
    {
      OrderedIndex(r, p);
      OrderedIndex(r', p);
    }
    r'
  }

  /** `after` is `before` with every window extended by `batch`. */
  ghost predicate Appended<T>(after: seq<seq<T>>, before: seq<seq<T>>, batch: seq<T>) {
    && |after| == |before| == WINDOW_COUNT
    && forall p :: 0 <= p < WINDOW_COUNT ==> after[p] == before[p] + batch
  }

  /** Extending every slot extends every window of the ordered view. */
  lemma OrderedAppend<T>(r: Ring<T>, r': Ring<T>, batch: seq<T>)
    requires Valid(r) && Valid(r') && r'.headIndex == r.headIndex
    requires forall i :: 0 <= i < WINDOW_COUNT ==> r'.windows[i] == r.windows[i] + batch
    ensures Appended(Ordered(r'), Ordered(r), batch)
  {
    forall p | 0 <= p < WINDOW_COUNT
      ensures Ordered(r')[p] == Ordered(r)[p] + batch
    {
      OrderedIndex(r, p);
      OrderedIndex(r', p);
    }
  }

  /** `add`/`observe`: refresh, broadcast the value to every window, and
      return the value unchanged. */
  function Record<T>(r: Ring<T>, value: T, now: real): (res: (Ring<T>, T))
    requires Valid(r)
    ensures Valid(res.0) && res.1 == value
    ensures res.0.expiresAt >= now
    ensures res.0.expiresAt == Refresh(r, now).expiresAt
    ensures res.0.headIndex == Refresh(r, now).headIndex
    ensures now <= r.expiresAt ==>
      res.0.headIndex == r.headIndex && res.0.expiresAt == r.expiresAt &&
      forall i :: 0 <= i < WINDOW_COUNT ==> res.0.windows[i] == r.windows[i] + [value]
    ensures now > r.expiresAt ==>
      var c := Min(WINDOW_COUNT, Steps(r.expiresAt, res.0.expiresAt));
      && 1 <= c
      && forall p :: 0 <= p < WINDOW_COUNT ==>
           Ordered(res.0)[p] == Retired(Ordered(r), c)[p] + [value]
  {
    (Ingest(Refresh(r, now), value), value)
  }

  /** `head_window`: refresh, then hand out the head accumulator. The head
      is the oldest generation that survives the refresh, or a fresh one when
      all WINDOW_COUNT generations have expired. */
  function HeadWindow<T>(r: Ring<T>, now: real): (res: (Ring<T>, seq<T>))
    requires Valid(r)
    ensures Valid(res.0) && res.0.expiresAt >= now
    ensures res.0.expiresAt == Refresh(r, now).expiresAt
    ensures res.1 == Ordered(res.0)[0]
    ensures now <= r.expiresAt ==> res.0 == r && res.1 == Ordered(r)[0]
    ensures now > r.expiresAt ==>
      var k := Steps(r.expiresAt, res.0.expiresAt);
      1 <= k && res.1 == (if k < WINDOW_COUNT then Ordered(r)[k] else [])
  {
    var r' := Refresh(r, now);
    OrderedIndex(r', 0);
    (r', r'.windows[r'.headIndex])
  }

  /** A refresh less than one interval after the head expired retires
      exactly the head and moves the expiry one interval on. */
  lemma RefreshOneInterval<T>(r: Ring<T>, now: real)
    requires Valid(r) && r.expiresAt < now <= r.expiresAt + WINDOW_INTERVAL
    ensures Refresh(r, now).expiresAt == r.expiresAt + WINDOW_INTERVAL
    ensures Ordered(Refresh(r, now)) == Retired(Ordered(r), 1)
  {
    var e := r.expiresAt;
    var e' := Refresh(r, now).expiresAt;
    IntervalValue();
    assert OnGrid(e + WINDOW_INTERVAL, e);
    GridTrans(e + WINDOW_INTERVAL, e, e');
    GridUnique(e + WINDOW_INTERVAL, e', now);
    assert Steps(e, e') == 1;
  }

  /** The ring a read leaves behind is the refreshed ring. */
  lemma HeadWindowRefreshes<T>(r: Ring<T>, now: real)
    requires Valid(r)
    ensures HeadWindow(r, now).0 == Refresh(r, now)
  {
  }

  /** A read made `j` intervals (the last one possibly partial) after the
      head expired reports the generation `j` places behind the head, or a
      fresh accumulator once all WINDOW_COUNT generations are gone. */
  lemma HeadAfterIntervals<T>(r: Ring<T>, now: real, j: int)
    requires Valid(r) && 1 <= j
    requires r.expiresAt + ((j - 1) as real) * WINDOW_INTERVAL < now
    requires now <= r.expiresAt + (j as real) * WINDOW_INTERVAL
    ensures HeadWindow(r, now).1 == if j < WINDOW_COUNT then Ordered(r)[j] else []
  {
    GridLanding(r.expiresAt, Refresh(r, now).expiresAt, now, j);
  }

  /** Applying two retirements in turn is one retirement of their total,
      capped at the ring size. */
  lemma {:induction false} RetiredTwice<T>(o: seq<seq<T>>, a: nat, b: nat)
    requires |o| == WINDOW_COUNT && a <= WINDOW_COUNT && b <= WINDOW_COUNT
    ensures Retired(Retired(o, a), b) == Retired(o, Min(WINDOW_COUNT, a + b))
  {
    var lhs := Retired(Retired(o, a), b);
    var rhs := Retired(o, Min(WINDOW_COUNT, a + b));
    assert |lhs| == |rhs|;
    forall p | 0 <= p < WINDOW_COUNT
      ensures lhs[p] == rhs[p]
    {
      if a + b + p < WINDOW_COUNT {
        assert lhs[p] == Retired(o, a)[b + p] == o[a + b + p];
      }
    }
  }

  /** Reading the ring in between does not change what a later access sees:
      refreshing at `t1` and then at `t2 >= t1` gives the same expiry and
      the same windows, oldest first, as refreshing at `t2` alone. Only the
      internal head index may differ, when the ring was wholly retired. */
  lemma {:induction false} RefreshCompose<T>(r: Ring<T>, t1: real, t2: real)
    requires Valid(r) && t1 <= t2
    ensures Refresh(Refresh(r, t1), t2).expiresAt == Refresh(r, t2).expiresAt
    ensures Ordered(Refresh(Refresh(r, t1), t2)) == Ordered(Refresh(r, t2))
  {
    var r1 := Refresh(r, t1);
    if t1 <= r.expiresAt {
      assert r1 == r;
    } else if t2 <= r1.expiresAt {
      RefreshComposeQuiet(r, t1, t2);
    } else {
      RefreshComposeBoth(r, t1, t2);
    }
  }

  /** The second refresh finds the head still live. */
  lemma RefreshComposeQuiet<T>(r: Ring<T>, t1: real, t2: real)
    requires Valid(r) && t1 <= t2
    requires t1 > r.expiresAt && t2 <= Refresh(r, t1).expiresAt
    ensures Refresh(r, t1).expiresAt == Refresh(r, t2).expiresAt
    ensures Ordered(Refresh(r, t1)) == Ordered(Refresh(r, t2))
  {
    var e1 := Refresh(r, t1).expiresAt;
    var e2 := Refresh(r, t2).expiresAt;
    GridTrans(e1, r.expiresAt, e2);
    GridUnique(e1, e2, t2);
  }

  /** Both refreshes retire generations; their counts add up. */
  lemma RefreshComposeBoth<T>(r: Ring<T>, t1: real, t2: real)
    requires Valid(r) && t1 <= t2
    requires t1 > r.expiresAt && t2 > Refresh(r, t1).expiresAt
    ensures Refresh(Refresh(r, t1), t2).expiresAt == Refresh(r, t2).expiresAt
    ensures Ordered(Refresh(Refresh(r, t1), t2)) == Ordered(Refresh(r, t2))
  {
    var e := r.expiresAt;
    var r1 := Refresh(r, t1);
    var e1 := r1.expiresAt;
    var e2 := Refresh(r, t2).expiresAt;
    ComposeExpiry(r, t1, t2);
    StepsAdd(e, e1, e2);
    var a := Steps(e, e1);
    var b := Steps(e1, e2);
    assert Min(WINDOW_COUNT, Min(WINDOW_COUNT, a) + Min(WINDOW_COUNT, b)) == Min(WINDOW_COUNT, a + b);
    RetiredTwice(Ordered(r), Min(WINDOW_COUNT, a), Min(WINDOW_COUNT, b));
  }

  /** Two refreshes that both find the head expired land on the expiry a
      single refresh at the later time reaches. */
  lemma ComposeExpiry<T>(r: Ring<T>, t1: real, t2: real)
    requires Valid(r) && t1 <= t2
    requires t1 > r.expiresAt && t2 > Refresh(r, t1).expiresAt
    ensures Refresh(Refresh(r, t1), t2).expiresAt == Refresh(r, t2).expiresAt
    ensures OnGrid(Refresh(r, t1).expiresAt, r.expiresAt)
    ensures OnGrid(Refresh(r, t2).expiresAt, Refresh(r, t1).expiresAt)
  {
    var r1 := Refresh(r, t1);
    GridCompose(r.expiresAt, r1.expiresAt, Refresh(r1, t2).expiresAt, Refresh(r, t2).expiresAt, t2);
  }

  /** Steps along one grid add up. */
  lemma StepsAdd(a: real, b: real, c: real)
    requires OnGrid(b, a) && OnGrid(c, b)
    ensures Steps(a, c) == Steps(a, b) + Steps(b, c)
  {
    GridPoint(b, a);
    GridPoint(c, b);
    assert (c - a) / WINDOW_INTERVAL == (Steps(a, b) + Steps(b, c)) as real;
  }
}
