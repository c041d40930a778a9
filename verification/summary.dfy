/** Summary: one sliding quantile estimator per label set, the `Value`
    snapshot built from an estimator's head window, and `Value`'s Ruby
    equality. The quantile library is abstract: an estimator's head window is
    the sequence of observations it holds, its `sum` and `observations` are
    that sequence's sum and length, and its `query` is a caller-supplied
    function of the window and the quantile. */
module SummaryMetric {
  import opened Outcomes
  import opened WindowMath
  import opened AgeRing
  import SlidingEstimator

  /** A label set: label name to label value. */
  type Labels = map<string, string>

  /** The quantile library's `query(q)` on an estimator holding the given
      observations; `None` stands for Ruby's nil. */
  type Query = (seq<real>, real) -> Option<real>

  /** The sum of a sequence of observations. */
  function Sum(xs: seq<real>): real {
    if |xs| == 0 then 0.0 else Sum(xs[..|xs| - 1]) + xs[|xs| - 1]
  }

  // ---------------------------------------------------------------------
  // Summary::Value

  /** A snapshot: sum, count and quantile map of one estimator. */
  datatype Value = Value(sum: real, total: nat, quantiles: map<real, Option<real>>)

  /** The loop of `Value.build`: each invariant's quantile is mapped to the
      estimator's answer for it; a quantile listed twice is written twice
      with the same answer. */
  function Quantiles(invariants: seq<real>, query: Query, window: seq<real>)
    : (m: map<real, Option<real>>)
    ensures m.Keys == set q | q in invariants
    ensures forall q :: q in m ==> m[q] == query(window, q)
  {
    if |invariants| == 0 then map[]
    else
      var init := invariants[..|invariants| - 1];
      var q := invariants[|invariants| - 1];
      assert invariants == init + [q];
      Quantiles(init, query, window)[q := query(window, q)]
  }

  /** `Value.build(estimator)`: the estimator's sum, its observation count,
      and one quantile entry per invariant, each the estimator's answer. */
  function Build(invariants: seq<real>, query: Query, window: seq<real>): (v: Value)
    ensures v.sum == Sum(window) && v.total == |window|
    ensures v.quantiles.Keys == set q | q in invariants
    ensures forall q :: q in v.quantiles ==> v.quantiles[q] == query(window, q)
  {
    Value(Sum(window), |window|, Quantiles(invariants, query, window))
  }

  /** One more observation adds one to the total and its value to the sum,
      and leaves the quantile keys alone. */
  lemma BuildObserve(invariants: seq<real>, query: Query, window: seq<real>, x: real)
    ensures Build(invariants, query, window + [x]).total == Build(invariants, query, window).total + 1
    ensures Build(invariants, query, window + [x]).sum == Build(invariants, query, window).sum + x
    ensures Build(invariants, query, window + [x]).quantiles.Keys
         == Build(invariants, query, window).quantiles.Keys
  {
    assert (window + [x])[..|window|] == window;
  }

  // ---------------------------------------------------------------------
  // Ruby equality on Value

  /** A Ruby object as far as `Value#==` and `Value#eql?` can see it: an
      instance of Value itself, of a subclass of Value (told apart by an
      id), or of some unrelated class such as Hash. */
  datatype Obj =
    | ValueInstance(subclass: Option<nat>, fields: Value)
    | Foreign(classId: nat)

  /** `obj.class`, as a comparable identity. */
  datatype Class = ValueClass | ValueSubclass(id: nat) | OtherClass(id: nat)

  function ClassOf(o: Obj): Class {
    match o
    case ValueInstance(None, _) => ValueClass
    case ValueInstance(Some(k), _) => ValueSubclass(k)
    case Foreign(k) => OtherClass(k)
  }

  /** `obj.is_a?(Value)`: Value and its subclasses. */
  predicate IsAValue(o: Obj) {
    !ClassOf(o).OtherClass?
  }

  /** `Value#==`: the other object is a Value (or subclass instance) with
      equal total, sum and quantiles. */
  function Equals(self: Obj, other: Obj): (b: bool)
    requires self.ValueInstance?
    ensures b <==> other.ValueInstance? && other.fields == self.fields
  {
    && IsAValue(other)
    && self.fields.total == other.fields.total
    && self.fields.sum == other.fields.sum
    && self.fields.quantiles == other.fields.quantiles
  }

  /** `Value#eql?`: the same class exactly, and `==`. */
  function Eql(self: Obj, other: Obj): (b: bool)
    requires self.ValueInstance?
    ensures b <==> other == self
  {
    ClassOf(other) == ClassOf(self) && Equals(self, other)
  }

  /** `==` is an equivalence on Values: reflexive, symmetric, transitive. */
  lemma EqualsEquivalence(a: Obj, b: Obj, c: Obj)
    requires a.ValueInstance? && b.ValueInstance? && c.ValueInstance?
    ensures Equals(a, a)
    ensures Equals(a, b) ==> Equals(b, a)
    ensures Equals(a, b) && Equals(b, c) ==> Equals(a, c)
  {
  }

  /** `eql?` is the stricter of the two. */
  lemma EqlImpliesEquals(a: Obj, b: Obj)
    requires a.ValueInstance?
    ensures Eql(a, b) ==> Equals(a, b)
  {
  }

  /** A subclass instance with the same fields is `==` but not `eql?`, and
      no object of an unrelated class (a Hash literal, say) is either. */
  lemma EqualityWitnesses(v: Value, k: nat, other: nat)
    ensures Equals(ValueInstance(None, v), ValueInstance(Some(k), v))
    ensures !Eql(ValueInstance(None, v), ValueInstance(Some(k), v))
    ensures !Equals(ValueInstance(None, v), Foreign(other))
    ensures !Eql(ValueInstance(None, v), Foreign(other))
  {
  }

  // ---------------------------------------------------------------------
  // Summary

  /** The metric's store: an estimator per label set seen so far. */
  datatype Summary = Summary(series: map<Labels, SlidingEstimator.Estimator>)

  predicate ValidSummary(s: Summary) {
    forall k :: k in s.series ==> Valid(s.series[k].ring)
  }

  /** `@values[labels]`: the stored estimator, or `default` (a fresh
      estimator with the default builder) for an unseen label set. */
  function Lookup(s: Summary, labels: Labels, now: real): (e: SlidingEstimator.Estimator)
    requires ValidSummary(s)
    ensures Valid(e.ring)
    ensures labels in s.series ==> e == s.series[labels]
    ensures labels !in s.series ==>
      && e.builder == SlidingEstimator.DefaultBuilder
      && Ordered(e.ring) == Empties(WINDOW_COUNT)
      && e.ring.headIndex == 0
      && e.ring.expiresAt == now + WINDOW_INTERVAL
  {
    if labels in s.series then s.series[labels] else SlidingEstimator.New(None, now)
  }

  /** `add(labels, value)`: observe `value` in that label set's estimator
      (created on first use) and return it; no other estimator changes. */
  function Add(s: Summary, labels: Labels, value: real, now: real): (res: (Summary, real))
    requires ValidSummary(s)
    ensures ValidSummary(res.0) && res.1 == value
    ensures res.0.series.Keys == s.series.Keys + {labels}
    ensures forall k :: k in s.series && k != labels ==> res.0.series[k] == s.series[k]
    ensures res.0.series[labels].builder == Lookup(s, labels, now).builder
    ensures res.0.series[labels].ring.expiresAt == Refresh(Lookup(s, labels, now).ring, now).expiresAt
    ensures res.0.series[labels].ring.headIndex == Refresh(Lookup(s, labels, now).ring, now).headIndex
    ensures forall p :: 0 <= p < WINDOW_COUNT ==>
      Ordered(res.0.series[labels].ring)[p] == Ordered(Refresh(Lookup(s, labels, now).ring, now))[p] + [value]
  {
    var (e', v) := SlidingEstimator.Observe(Lookup(s, labels, now), value, now);
    (Summary(s.series[labels := e']), v)
  }

  /** What any other label set looks up, stored or defaulted, is the same
      before and after an `add`. */
  lemma LookupAfterAdd(s: Summary, labels: Labels, value: real, now: real, other: Labels, t: real)
    requires ValidSummary(s) && other != labels
    ensures Lookup(Add(s, labels, value, now).0, other, t) == Lookup(s, other, t)
  {
  }

  /** `get(labels)`: the snapshot of that label set's head window. Reading
      refreshes the estimator in place; an unseen label set gets a fresh
      default estimator, which the store keeps from then on, as it does for
      `add`. */
  function Get(s: Summary, labels: Labels, invariants: seq<real>, query: Query, now: real)
    : (res: (Value, Summary))
    requires ValidSummary(s)
    ensures ValidSummary(res.1)
    ensures res.1.series.Keys == s.series.Keys + {labels}
    ensures forall k :: k in s.series && k != labels ==> res.1.series[k] == s.series[k]
    ensures res.1.series[labels].builder == Lookup(s, labels, now).builder
    ensures res.1.series[labels].ring == Refresh(Lookup(s, labels, now).ring, now)
    ensures res.0 == Build(invariants, query, Ordered(Refresh(Lookup(s, labels, now).ring, now))[0])
  {
    var (e', head) := SlidingEstimator.HeadWindow(Lookup(s, labels, now), now);
    var s' := Summary(s.series[labels := e']);
    (Build(invariants, query, head), s')
  }

  /** `values`: one snapshot per stored label set, every estimator refreshed. */
  function Values(s: Summary, invariants: seq<real>, query: Query, now: real)
    : (res: (map<Labels, Value>, Summary))
    requires ValidSummary(s)
    ensures res.0.Keys == s.series.Keys
    ensures forall k :: k in res.0 ==>
      res.0[k] == Build(invariants, query, Ordered(Refresh(s.series[k].ring, now))[0])
    ensures ValidSummary(res.1) && res.1.series.Keys == s.series.Keys
    ensures forall k :: k in res.1.series ==> res.1.series[k].ring == Refresh(s.series[k].ring, now)
  {
    var snapshots := map k | k in s.series ::
      Build(invariants, query, SlidingEstimator.HeadWindow(s.series[k], now).1);
    var refreshed := map k | k in s.series :: SlidingEstimator.HeadWindow(s.series[k], now).0;
    (snapshots, Summary(refreshed))
  }

  /** `values` reports, for every stored label set, what `get` would, and
      leaves its estimator as `get` would. */
  lemma ValuesAgreeWithGet(s: Summary, labels: Labels, invariants: seq<real>, query: Query, now: real)
    requires ValidSummary(s) && labels in s.series
    ensures labels in Values(s, invariants, query, now).0
    ensures Values(s, invariants, query, now).0[labels] == Get(s, labels, invariants, query, now).0
    ensures Values(s, invariants, query, now).1.series[labels]
         == Get(s, labels, invariants, query, now).1.series[labels]
  {
  }

  /** A `get` does not change what a later `get`, of any label set and with
      no call in between, reports. It is not invisible altogether: a `get`
      of an unseen label set stores a default estimator, which `values` then
      lists and whose window grid starts at that `get`. */
  lemma GetKeepsReadings(s: Summary, labels: Labels, other: Labels, invariants: seq<real>,
                         query: Query, now: real, later: real)
    requires ValidSummary(s) && now <= later
    ensures
      var s' := Get(s, labels, invariants, query, now).1;
      Get(s', other, invariants, query, later).0 == Get(s, other, invariants, query, later).0
  {
    var s' := Get(s, labels, invariants, query, now).1;
    if other == labels {
      if labels in s.series {
        RefreshCompose(s.series[labels].ring, now, later);
      } else {
        var start := SlidingEstimator.New(None, now).ring;
        RefreshEmpty(start, now);
        RefreshEmpty(Refresh(start, now), later);
        RefreshEmpty(SlidingEstimator.New(None, later).ring, later);
      }
    }
  }

  /** Adding `value` then reading at the same instant reports one more
      observation, `value` more in the sum, and quantiles over the window
      that now ends in `value`; the same holds for an unseen label set. */
  lemma AddThenGet(s: Summary, labels: Labels, value: real, invariants: seq<real>,
                   query: Query, now: real)
    requires ValidSummary(s)
    ensures
      var before := Get(s, labels, invariants, query, now).0;
      var after := Get(Add(s, labels, value, now).0, labels, invariants, query, now).0;
      && after.total == before.total + 1
      && after.sum == before.sum + value
      && after.quantiles.Keys == before.quantiles.Keys
  {
    var e := Lookup(s, labels, now);
    var s' := Add(s, labels, value, now).0;
    var window := Ordered(Refresh(e.ring, now))[0];
    assert Refresh(s'.series[labels].ring, now) == s'.series[labels].ring;
    BuildObserve(invariants, query, window, value);
  }

  // ---------------------------------------------------------------------
  // The summary's own scenarios

  /** Several values added to one label set at one instant. */
  function AddEach(s: Summary, labels: Labels, values: seq<real>, now: real): (s': Summary)
    requires ValidSummary(s)
    ensures ValidSummary(s')
    decreases |values|
  {
    if |values| == 0 then s else AddEach(Add(s, labels, values[0], now).0, labels, values[1..], now)
  }

  /** Adding a batch to a label set stores the estimator that observed the
      whole batch; other label sets are untouched. */
  lemma {:induction false} AddEachObserves(s: Summary, labels: Labels, values: seq<real>, now: real)
    requires ValidSummary(s) && |values| > 0
    ensures labels in AddEach(s, labels, values, now).series
    ensures AddEach(s, labels, values, now).series[labels]
         == SlidingEstimator.ObserveAll(Lookup(s, labels, now), values, now)
    decreases |values|
  {
    var s1 := Add(s, labels, values[0], now).0;
    if |values| > 1 {
      AddEachObserves(s1, labels, values[1..], now);
    }
  }

  /** The four values of summary_spec.rb "#get". */
  const SpecSamples: seq<real> := [3.0, 5.2, 13.0, 4.0]

  /** Adding the four values at `t0` to an empty summary stores one
      estimator, whose every window holds all four. */
  lemma ScenarioStore(labels: Labels, t0: real)
    ensures
      var s := AddEach(Summary(map[]), labels, SpecSamples, t0);
      && labels in s.series
      && s.series[labels].ring.expiresAt == t0 + WINDOW_INTERVAL
      && AllHold(Ordered(s.series[labels].ring), SpecSamples)
  {
    var s := AddEach(Summary(map[]), labels, SpecSamples, t0);
    AddEachObserves(Summary(map[]), labels, SpecSamples, t0);
    var e := s.series[labels];
    assert e == SlidingEstimator.Seeded(None, t0, SpecSamples);
    SlidingEstimator.SeededWindows(None, t0, SpecSamples);
    forall p | 0 <= p < WINDOW_COUNT
      ensures Ordered(e.ring)[p] == SpecSamples
    {
      OrderedIndex(e.ring, p);
    }
  }

  /** Reads of a ring whose every window holds `samples` and whose head
      expires at `t0` plus one interval: 595 and 600 seconds after `t0` the
      head still holds them, 605 seconds after it the head is empty. */
  lemma ScenarioReads(r: Ring<real>, t0: real, samples: seq<real>)
    requires Valid(r) && r.expiresAt == t0 + WINDOW_INTERVAL
    requires AllHold(Ordered(r), samples)
    ensures HeadWindow(r, t0 + 595.0).1 == samples
    ensures HeadWindow(r, t0 + 600.0).1 == samples
    ensures HeadWindow(r, t0 + 605.0).1 == []
  {
    IntervalValue();
    OrderedIndex(r, 4);
    HeadAfterIntervals(r, t0 + 595.0, 4);
    HeadAfterIntervals(r, t0 + 600.0, 4);
    HeadAfterIntervals(r, t0 + 605.0, 5);
  }

  /** summary_spec.rb "#get" and "expiration": four values added at `t0`
      are all reported 595 seconds later, still all at exactly 600 seconds,
      and none at 605 seconds, where every quantile is the library's answer
      for an empty estimator. */
  lemma ExpirationScenario(labels: Labels, invariants: seq<real>, query: Query, t0: real)
    ensures
      var s := AddEach(Summary(map[]), labels, SpecSamples, t0);
      && Get(s, labels, invariants, query, t0 + 595.0).0 == Build(invariants, query, SpecSamples)
      && Get(s, labels, invariants, query, t0 + 600.0).0 == Build(invariants, query, SpecSamples)
      && Get(s, labels, invariants, query, t0 + 605.0).0 == Build(invariants, query, [])
  {
    var s := AddEach(Summary(map[]), labels, SpecSamples, t0);
    ScenarioStore(labels, t0);
    ScenarioReads(s.series[labels].ring, t0, SpecSamples);
  }

  /** The snapshot totals the scenario expects: sum 25.2 over 4 values, and
      an empty snapshot after expiry. */
  lemma ScenarioTotals(invariants: seq<real>, query: Query)
    ensures Build(invariants, query, SpecSamples).sum == 25.2
    ensures Build(invariants, query, SpecSamples).total == 4
    ensures Build(invariants, query, []).sum == 0.0
    ensures Build(invariants, query, []).total == 0
  {
    assert Sum([3.0]) == 3.0 by { assert [3.0][..0] == []; }
    assert Sum([3.0, 5.2]) == 8.2 by { assert [3.0, 5.2][..1] == [3.0]; }
    assert Sum([3.0, 5.2, 13.0]) == 21.2 by { assert [3.0, 5.2, 13.0][..2] == [3.0, 5.2]; }
    assert SpecSamples[..3] == [3.0, 5.2, 13.0];
  }

  /** summary_spec.rb "uses nil as default value": an unseen label set
      reports an empty snapshot, and from then on the store holds a fresh
      default estimator for it. */
  lemma UnseenLabels(s: Summary, labels: Labels, invariants: seq<real>, query: Query, now: real)
    requires ValidSummary(s) && labels !in s.series
    ensures Get(s, labels, invariants, query, now).0 == Build(invariants, query, [])
    ensures Get(s, labels, invariants, query, now).1 == Summary(s.series[labels := SlidingEstimator.New(None, now)])
  {
    OrderedIndex(SlidingEstimator.New(None, now).ring, 0);
  }

  /** A `get` of an unseen label set leaves a trace: `values` lists that
      label set afterwards, and did not before. */
  lemma GetListsUnseen(s: Summary, labels: Labels, invariants: seq<real>, query: Query,
                       now: real, later: real)
    requires ValidSummary(s) && labels !in s.series
    ensures labels !in Values(s, invariants, query, later).0
    ensures labels in Values(Get(s, labels, invariants, query, now).1, invariants, query, later).0
  {
  }

  /** A ring whose head expires at 240 has lost all its generations by 730. */
  lemma EmptyAt730(r: Ring<real>)
    requires Valid(r) && r.expiresAt == 240.0
    ensures Ordered(Refresh(r, 730.0))[0] == []
  {
    IntervalValue();
    HeadWindowRefreshes(r, 730.0);
    HeadAfterIntervals(r, 730.0, 5);
  }

  /** A ring whose head expires at 250 still reports its youngest
      generation at 730. */
  lemma YoungestAt730(r: Ring<real>)
    requires Valid(r) && r.expiresAt == 250.0
    ensures Ordered(Refresh(r, 730.0))[0] == Ordered(r)[4]
  {
    IntervalValue();
    HeadWindowRefreshes(r, 730.0);
    HeadAfterIntervals(r, 730.0, 4);
  }

  /** With a `get` at 0, the value added at 130 falls in the generation
      that expires at 240 and is gone by 730. */
  lemma GetThenAddExpires(s: Summary, labels: Labels, invariants: seq<real>, query: Query)
    requires ValidSummary(s) && labels !in s.series
    ensures
      var early := Get(s, labels, invariants, query, 0.0).1;
      Get(Add(early, labels, 1.0, 130.0).0, labels, invariants, query, 730.0).0.total == 0
  {
    IntervalValue();
    var early := Get(s, labels, invariants, query, 0.0).1;
    RefreshOneInterval(early.series[labels].ring, 130.0);
    EmptyAt730(Add(early, labels, 1.0, 130.0).0.series[labels].ring);
  }

  /** Without the `get`, the grid starts at 130 and the value is still
      reported at 730. */
  lemma AddAloneKept(s: Summary, labels: Labels, invariants: seq<real>, query: Query)
    requires ValidSummary(s) && labels !in s.series
    ensures Get(Add(s, labels, 1.0, 130.0).0, labels, invariants, query, 730.0).0.total == 1
  {
    IntervalValue();
    var r := Add(s, labels, 1.0, 130.0).0.series[labels].ring;
    assert Ordered(r)[4] == [1.0];
    YoungestAt730(r);
  }

  /** A `get` of an unseen label set starts its window grid, and so changes
      what a later `add` and `get` report. */
  lemma GetStartsGrid(s: Summary, labels: Labels, invariants: seq<real>, query: Query)
    requires ValidSummary(s) && labels !in s.series
    ensures
      var early := Get(s, labels, invariants, query, 0.0).1;
      Get(Add(early, labels, 1.0, 130.0).0, labels, invariants, query, 730.0).0.total == 0
    ensures Get(Add(s, labels, 1.0, 130.0).0, labels, invariants, query, 730.0).0.total == 1
  {
    GetThenAddExpires(s, labels, invariants, query);
    AddAloneKept(s, labels, invariants, query);
  }

  /** The first value added to a label set is all its snapshot holds. */
  lemma FirstValue(s: Summary, labels: Labels, value: real, invariants: seq<real>,
                   query: Query, now: real)
    requires ValidSummary(s) && labels !in s.series
    ensures Get(Add(s, labels, value, now).0, labels, invariants, query, now).0
         == Build(invariants, query, [value])
  {
    var blank := SlidingEstimator.New(None, now);
    var s' := Add(s, labels, value, now).0;
    assert Refresh(blank.ring, now) == blank.ring;
    assert Ordered(blank.ring)[0] == [];
    assert Refresh(s'.series[labels].ring, now) == s'.series[labels].ring;
  }

  /** The label sets reported after two fresh label sets are added. */
  lemma TwoAddsKeys(s: Summary, bar: Labels, foo: Labels, invariants: seq<real>,
                    query: Query, now: real)
    requires ValidSummary(s) && bar !in s.series && foo !in s.series && bar != foo
    ensures
      var s2 := Add(Add(s, bar, 3.0, now).0, foo, 5.0, now).0;
      forall k :: k in Values(s2, invariants, query, now).0 <==> k in s.series || k == bar || k == foo
  {
    var s1 := Add(s, bar, 3.0, now).0;
    var s2 := Add(s1, foo, 5.0, now).0;
    var vs := Values(s2, invariants, query, now).0;
    forall k
      ensures k in vs <==> k in s.series || k == bar || k == foo
    {
      assert k in vs <==> k in s2.series.Keys;
      assert k in s2.series.Keys <==> k in s1.series.Keys || k == foo;
      assert k in s1.series.Keys <==> k in s.series.Keys || k == bar;
    }
  }

  /** The snapshots of the two fresh label sets after the two additions. */
  lemma TwoAddsGets(s: Summary, bar: Labels, foo: Labels, invariants: seq<real>,
                    query: Query, now: real)
    requires ValidSummary(s) && bar !in s.series && foo !in s.series && bar != foo
    ensures
      var s2 := Add(Add(s, bar, 3.0, now).0, foo, 5.0, now).0;
      && Get(s2, bar, invariants, query, now).0 == Build(invariants, query, [3.0])
      && Get(s2, foo, invariants, query, now).0 == Build(invariants, query, [5.0])
  {
    var s1 := Add(s, bar, 3.0, now).0;
    var s2 := Add(s1, foo, 5.0, now).0;
    FirstValue(s, bar, 3.0, invariants, query, now);
    assert foo !in s1.series;
    FirstValue(s1, foo, 5.0, invariants, query, now);
    assert Lookup(s2, bar, now) == Lookup(s1, bar, now);
  }

  /** summary_spec.rb "#values": two label sets not seen before, each fed
      one value, are reported with one snapshot each over that one value,
      next to the label sets already there. */
  lemma ValuesScenario(s: Summary, bar: Labels, foo: Labels, invariants: seq<real>,
                       query: Query, now: real)
    requires ValidSummary(s) && bar !in s.series && foo !in s.series && bar != foo
    ensures
      var vs := Values(Add(Add(s, bar, 3.0, now).0, foo, 5.0, now).0, invariants, query, now).0;
      && (forall k :: k in vs <==> k in s.series || k == bar || k == foo)
      && vs[bar] == Build(invariants, query, [3.0])
      && vs[foo] == Build(invariants, query, [5.0])
  {
    var s2 := Add(Add(s, bar, 3.0, now).0, foo, 5.0, now).0;
    TwoAddsKeys(s, bar, foo, invariants, query, now);
    TwoAddsGets(s, bar, foo, invariants, query, now);
    ValuesAgreeWithGet(s2, bar, invariants, query, now);
    ValuesAgreeWithGet(s2, foo, invariants, query, now);
  }
}
