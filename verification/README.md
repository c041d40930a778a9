# Age-bucket sliding window of the Ruby Prometheus client, in Dafny

This project models the summary sliding window of the Ruby Prometheus client.
Each series keeps a ring of WINDOW_COUNT (5) accumulators. Every observation is
broadcast to all of them. A read reports the oldest one, the head. Once the
head's expiry has passed, `refresh_windows!` replaces up to WINDOW_COUNT
generations with fresh accumulators. It then moves the expiry forward along a
fixed grid of WINDOW_INTERVAL (120 s) steps, which keeps a sample in the
reported head for between MAX_AGE - WINDOW_INTERVAL (480 s) and MAX_AGE
(600 s).

The modules follow the program's structure:

- `WindowMath` (window_math.dfy): the constants and Ruby's arithmetic.
  - `Float#ceil` and the floored `Float#%`, written out.
  - `expired_window_count` and `next_window_expiration`.
  - The expiry grid: `OnGrid`, and `Steps`, the number of intervals between two instants.
- `AgeRing` (age_ring.dfy): the ring that both classes share.
  - An accumulator is the sequence of values it has ingested, as in the test doubles of the repository's specs.
  - A fresh accumulator is the empty sequence.
  - The builder block is recorded by name.
  - `Ordered` is the ring read from the head, `windows.rotate(head_window_index)`.
  - `Retired(o, c)` is `o` with its `c` oldest generations replaced by fresh ones at the young end.
- `RingRetention` (ring_retention.dfy): what the ring means over any sequence of calls.
  - Every sample carries an epoch, the head expiry in force when it was broadcast.
  - Window `p` holds exactly the samples whose epoch is after a threshold that grows with `p`.
  - This yields the retention bound the code actually provides, which is looser than the one the class comment states (see below).
- `SampleStream` (sample_stream.dfy): `WindowedSampleStream`, with the scenarios of its spec file.
- `SlidingEstimator` (sliding_quantile_estimator.dfy): `SlidingQuantileEstimator`, with the scenarios of its spec file.
- `SummaryMetric` (summary.dfy): `Summary::Value` with its two Ruby equalities, and `Summary#add`, `#get` and `#values`.
  - The summary is a map from label set to estimator.
  - The quantile library's `query` is a parameter.
- `Outcomes` (outcomes.dfy): `Option` and `Result`.

Time is an explicit `now: real` argument to every operation that reads the
clock.

### Behaviour worth knowing, and where a comment disagrees with the code

The model follows the code throughout.

- The class comment of `WindowedSampleStream`
  (lib/prometheus/client/windowed_sample_stream.rb:7-11) says samples
  observed MAX_AGE - WINDOW_INTERVAL (480 s) ago or before are discarded.
  The code keeps them longer.
  - `SummaryMetric.ExpirationScenario` proves that values recorded when a
    series is created are still reported 595 s later, and still at exactly
    600 s.
  - The bound the code does keep is `RingRetention.Retention`: a sample is
    reported by every read less than 480 s after it was recorded, and by no
    read more than 600 s after.
  - The comment of `SlidingQuantileEstimator`
    (lib/prometheus/client/sliding_quantile_estimator.rb:7-11) says its
    quantiles only account for observations added in the last 10 minutes.
    That upper bound holds: the last clause of `RingRetention.Retention`
    shows no read more than 600 s after an observation reports it. What the
    comment does not say is that an observation between 480 s and 600 s old
    may already be gone, depending on where it fell in its window.
- `next_window_expiration` (lib/prometheus/client/windowed_sample_stream.rb:48-51)
  returns `now + ((expiry - now) % WINDOW_INTERVAL)`. This is the first grid
  instant not before `now`, so after a refresh at an instant that lies on the
  grid the new expiry equals `now` itself rather than a later instant.
  `AgeRing.RefreshLandsOnNow` proves it.
- `summary.rb` calls `head_value` at lines 61 and 69, and the estimator spec
  does too (sliding_quantile_estimator_spec.rb:68). The estimator defines only
  `head_window` (sliding_quantile_estimator.rb:39-43). The model reads the
  head through `head_window`.
- `get` (lib/prometheus/client/summary.rb:57-63) looks its label set up in
  `@values` as `add` does, so a `get` of an unseen label set stores a default
  estimator. A later `get` reports the same as if the first had not happened
  (`SummaryMetric.GetKeepsReadings`), but the first `get` can still be seen
  afterwards:
  - `values` lists the label set (`SummaryMetric.GetListsUnseen`).
  - The estimator's window grid starts at that `get`, so a later `add` and
    `get` can report a different total than without it
    (`SummaryMetric.GetStartsGrid`).

## Model

| member | source | states |
|---|---|---|
| WindowMath.Ceil | lib/prometheus/client/windowed_sample_stream.rb:55-56 | the result is the least integer not below the argument |
| WindowMath.FloorMod | lib/prometheus/client/windowed_sample_stream.rb:49 | Ruby's floored `Float#%` for a positive modulus: the result lies in `[0, m)` and differs from the dividend by a whole multiple of `m` |
| WindowMath.ExpiredWindowCount | lib/prometheus/client/windowed_sample_stream.rb:53-57 | the count is at most WINDOW_COUNT; below the cap, the elapsed time lies in the count's interval; at the cap, more than four intervals have passed; the count is at least 1 once the head has expired |
| WindowMath.NextWindowExpiration | lib/prometheus/client/windowed_sample_stream.rb:48-51 | the new expiry lies in `[now, now + WINDOW_INTERVAL)` and on the grid of the old expiry |
| WindowMath.ExpiredCountIsSteps | lib/prometheus/client/windowed_sample_stream.rb:53-66 | once the head has expired, the number of windows replaced is the number of grid steps the expiry moves (at least 1), capped at WINDOW_COUNT |
| WindowMath.GridLanding | lib/prometheus/client/windowed_sample_stream.rb:48-51 | if `now` lies in the `j`-th interval after the old expiry, the new expiry is exactly `j` steps on |
| AgeRing.Fresh | lib/prometheus/client/windowed_sample_stream.rb:24-26 | WINDOW_COUNT empty accumulators, head index 0, expiry one interval after construction |
| AgeRing.RetireHead | lib/prometheus/client/windowed_sample_stream.rb:63-64 | one turn of the loop retires the oldest generation and adds a fresh one at the young end; the head index advances by one modulo WINDOW_COUNT; the expiry is untouched |
| AgeRing.RetireTimes | lib/prometheus/client/windowed_sample_stream.rb:62-65 | `n` turns advance the head by `n` modulo WINDOW_COUNT and, for `n <= WINDOW_COUNT`, retire exactly the `n` oldest generations |
| AgeRing.Refresh | lib/prometheus/client/windowed_sample_stream.rb:59-67 | nothing changes while `now <= expiry`, even if the clock went back; otherwise the expiry moves to the grid point in `[now, now + WINDOW_INTERVAL)`, `min(WINDOW_COUNT, steps) >= 1` oldest generations are replaced by fresh ones, and the head index advances by that many modulo WINDOW_COUNT |
| AgeRing.RefreshSlots | lib/prometheus/client/windowed_sample_stream.rb:62-65 | slot by slot: the replaced slots, counted from the old head, become empty, and every other slot keeps its accumulator |
| AgeRing.RefreshLandsOnNow | lib/prometheus/client/windowed_sample_stream.rb:48-51 | a refresh at an instant on the grid sets the expiry to that very instant |
| AgeRing.RefreshIdempotent | lib/prometheus/client/windowed_sample_stream.rb:59-61 | after a refresh the head is live at `now`, so refreshing again at the same instant changes nothing |
| AgeRing.RefreshEmpty | lib/prometheus/client/windowed_sample_stream.rb:59-67 | a ring whose generations are all empty keeps them all empty through any refresh |
| AgeRing.RefreshCompose | lib/prometheus/client/windowed_sample_stream.rb:59-67 | refreshing at `t1` and then at `t2 >= t1` leaves the same expiry and the same generations, oldest first, as refreshing at `t2` alone |
| AgeRing.RefreshOneInterval | lib/prometheus/client/windowed_sample_stream.rb:53-66 | a refresh less than one interval after expiry retires exactly one generation and moves the expiry one interval on |
| AgeRing.Ingest | lib/prometheus/client/windowed_sample_stream.rb:35-37 | every window ingests the value once, at the end of its history; the head and the expiry do not move |
| AgeRing.Record | lib/prometheus/client/windowed_sample_stream.rb:33-39 | returns the value unchanged; the expiry and head index are those the refresh at `now` sets; with no expiry due, each slot gains exactly that value; otherwise the retired ring, oldest first, gains it in every window |
| AgeRing.HeadWindow | lib/prometheus/client/windowed_sample_stream.rb:41-44 | the expiry is the one the refresh at `now` sets; the reported window is the oldest generation surviving the refresh: the old head if not expired, otherwise the generation `k` behind it after the `k` grid steps the expiry moved, or an empty one when all have gone |
| AgeRing.HeadAfterIntervals | lib/prometheus/client/windowed_sample_stream.rb:41-57 | a read in the `j`-th interval after expiry reports the generation `j` places behind the head, or an empty window from the fifth interval on |
| RingRetention.RunConsistent | lib/prometheus/client/windowed_sample_stream.rb:33-67 | for any sequence of adds and reads, whatever the clock does, window `p` holds, in order, exactly the logged samples whose epoch is after its threshold |
| RingRetention.RunLogsAdds | lib/prometheus/client/windowed_sample_stream.rb:33-39 | the log holds exactly the added values with their times, in call order |
| RingRetention.Retention | lib/prometheus/client/windowed_sample_stream.rb:33-67 | after any chronological run, a read at `t` reports exactly the samples after the read bound, in order; every sample recorded less than MAX_AGE - WINDOW_INTERVAL before `t` is among them, and none recorded more than MAX_AGE before `t` is (the class comment at lines 7-11 claims the tighter MAX_AGE - WINDOW_INTERVAL, which the code does not meet) |
| SampleStream.New | lib/prometheus/client/windowed_sample_stream.rb:19-27 | fails with "missing observer_builder block" exactly when no block is given; otherwise keeps the block, takes the add method from the options or `add`, and builds the fresh ring |
| SampleStream.Add | lib/prometheus/client/windowed_sample_stream.rb:33-39 | returns the value; builder and add method are kept; the expiry and head index are those the refresh at `now` sets; with no expiry due every slot gains the value; in any case every window of the refreshed ring, oldest first, gains it |
| SampleStream.HeadWindow | lib/prometheus/client/windowed_sample_stream.rb:41-44 | leaves exactly the ring the refresh at `now` produces, and reports its oldest generation; a read before expiry changes nothing |
| SampleStream.AddAllAppends | lib/prometheus/client/windowed_sample_stream.rb:33-39 | adding a batch at one instant is one refresh followed by appending the whole batch to every window |
| SampleStream.SeededWindows | spec/prometheus/client/windowed_sample_stream_spec.rb:47-62 | samples added right after construction reach every window, in order |
| SampleStream.BeforeFirstExpiry | spec/prometheus/client/windowed_sample_stream_spec.rb:64-70 | a read just before the first expiry reports every sample and leaves every window holding them |
| SampleStream.AfterFirstExpiry | spec/prometheus/client/windowed_sample_stream_spec.rb:72-83 | a read just after the first expiry reports every sample; all windows but the newest still hold them, and the newest is empty |
| SampleStream.TimelineWindows | spec/prometheus/client/windowed_sample_stream_spec.rb:85-139 | after batch `n` of the interspersed timeline, window `p` holds the last WINDOW_COUNT - `p` batches in order |
| SampleStream.InterspersedSamples | spec/prometheus/client/windowed_sample_stream_spec.rb:85-139 | right after a batch is added, the head reports the last WINDOW_COUNT batches, concatenated in order |
| SampleStream.InterspersedExpiry | spec/prometheus/client/windowed_sample_stream_spec.rb:104-136 | at the next batch time, before anything is added, the oldest of those batches has gone from the head |
| SlidingEstimator.New | lib/prometheus/client/sliding_quantile_estimator.rb:19-25 | never fails; a missing block becomes the `Quantile::Estimator` builder; WINDOW_COUNT empty windows, head 0, expiry one interval on |
| SlidingEstimator.Observe | lib/prometheus/client/sliding_quantile_estimator.rb:31-37 | returns the value and keeps the builder; the expiry and head index are those the refresh at `now` sets; with no expiry due every slot gains the value; every window of the refreshed ring gains it |
| SlidingEstimator.HeadWindow | lib/prometheus/client/sliding_quantile_estimator.rb:39-66 | the estimator left behind holds the refreshed ring, and the report is its oldest surviving generation |
| SlidingEstimator.SeededWindows | spec/prometheus/client/sliding_quantile_estimator_spec.rb:40-56 | observations made right after construction reach every window, in order, whatever the builder |
| SlidingEstimator.BeforeFirstExpiry | spec/prometheus/client/sliding_quantile_estimator_spec.rb:58-63 | just before the first expiry every window still holds every sample |
| SlidingEstimator.AfterFirstExpiry | spec/prometheus/client/sliding_quantile_estimator_spec.rb:65-75 | just after the first expiry the head holds every sample, all but the newest window hold them, and the newest is empty |
| SummaryMetric.Quantiles | lib/prometheus/client/summary.rb:22-25 | the keys are exactly the invariants' quantiles, each mapped to the estimator's answer for it |
| SummaryMetric.Build | lib/prometheus/client/summary.rb:21-32 | sum is the sum of the observations, total is their count, and the quantile map is as in `Quantiles` |
| SummaryMetric.BuildObserve | lib/prometheus/client/summary.rb:27-31 | one more observation adds one to the total and its value to the sum, and keeps the quantile keys |
| SummaryMetric.Equals | lib/prometheus/client/summary.rb:34-39 | `==` holds exactly when the other object is a Value, of any subclass, with the same total, sum and quantiles |
| SummaryMetric.Eql | lib/prometheus/client/summary.rb:41-43 | `eql?` holds exactly when the other object is of the very same class with the same fields |
| SummaryMetric.EqualsEquivalence | lib/prometheus/client/summary.rb:34-39 | `==` is reflexive, symmetric and transitive on Values |
| SummaryMetric.EqlImpliesEquals | lib/prometheus/client/summary.rb:41-43 | `eql?` implies `==` |
| SummaryMetric.EqualityWitnesses | lib/prometheus/client/summary.rb:34-43 | a subclass instance with the same fields is `==` but not `eql?`; an object of an unrelated class such as a Hash is neither |
| SummaryMetric.Lookup | lib/prometheus/client/summary.rb:76-78 | a stored label set gets its own estimator; an unseen one gets `default`, a fresh estimator with the `Quantile::Estimator` builder, empty windows, head 0 and expiry one interval on |
| SummaryMetric.LookupAfterAdd | lib/prometheus/client/summary.rb:51-54 | after an `add` to one label set, every other label set looks up exactly what it did before |
| SummaryMetric.Add | lib/prometheus/client/summary.rb:51-54 | returns the value; the label set is stored from now on; every other estimator is unchanged; the label set's estimator (the default for a new one) keeps its builder, takes the expiry and head index of its refresh at `now`, and gains the value in every refreshed window |
| SummaryMetric.Get | lib/prometheus/client/summary.rb:57-63 | reports the Value built from the refreshed head of that label set's estimator, or of a fresh default one; that estimator, refreshed, is stored under the label set from now on; every other estimator is unchanged |
| SummaryMetric.Values | lib/prometheus/client/summary.rb:66-72 | one Value per stored label set and no other, each built from that estimator's refreshed head |
| SummaryMetric.ValuesAgreeWithGet | lib/prometheus/client/summary.rb:57-72 | for every stored label set, `values` reports what `get` would, and leaves the estimator as `get` would |
| SummaryMetric.GetKeepsReadings | lib/prometheus/client/summary.rb:57-63 | a `get` does not change what a later `get`, of any label set and with no call in between, reports |
| SummaryMetric.AddThenGet | spec/prometheus/client/summary_spec.rb:14-20 | adding a value changes what `get` reports: one more in the total, the value more in the sum |
| SummaryMetric.AddEachObserves | lib/prometheus/client/summary.rb:51-54 | adding a batch to a label set stores the estimator that observed the whole batch |
| SummaryMetric.ExpirationScenario | spec/prometheus/client/summary_spec.rb:30-71 | four values added at `t0` are all reported 595 s later and still at exactly 600 s; at 605 s the report is that of an empty estimator |
| SummaryMetric.ScenarioTotals | spec/prometheus/client/summary_spec.rb:46-51 | those four values give sum 25.2 and total 4; the expired report has sum 0 and total 0 |
| SummaryMetric.UnseenLabels | spec/prometheus/client/summary_spec.rb:53-55 | an unseen label set reports an empty estimator's Value, and the store then holds a fresh default estimator for it and nothing else new |
| SummaryMetric.GetListsUnseen | lib/prometheus/client/summary.rb:57-72 | `values` lists an unseen label set after a `get` of it, and not before |
| SummaryMetric.GetStartsGrid | lib/prometheus/client/summary.rb:51-63 | from a store without the label set: `get` at 0, `add` of 1 at 130 and `get` at 730 report total 0, while the same `add` and `get` without the first `get` report total 1 |
| SummaryMetric.FirstValue | lib/prometheus/client/summary.rb:51-63 | the first value added to a label set is all its snapshot holds |
| SummaryMetric.ValuesScenario | spec/prometheus/client/summary_spec.rb:74-83 | after one value each is added to two new label sets, `values` reports those two next to the existing ones, each built from its one value |

## Left out

- The quantile estimator library is not part of this model. `invariants` is a sequence of quantiles. `query` is an arbitrary function of the window and the quantile. `sum` and `observations` are the window's sum and length.
- The concrete quantile numbers the summary specs expect (0.5 => 4 and so on) depend on that library and are not stated.
- `synchronize` and all locking: every operation is atomic.
- The `Metric` base class is not part of this model: `label_set_for`, label validation, and how `@values` materialises defaults.
  - The model takes `@values` to be a hash that stores its default on first access. `add` (lib/prometheus/client/summary.rb:53) depends on that to keep its observation, and `get` (lib/prometheus/client/summary.rb:61) goes through the same lookup. So `SummaryMetric.Get` also stores a fresh default estimator for an unseen label set: `values` lists that label set afterwards, and the estimator's window grid starts at the instant of the first `get`.
- The real clock and Timecop: time is the `now` argument.
  - Times are exact reals, not IEEE doubles, so rounding at boundaries is not modelled.
- The builder block and `send(observer_add_method, …)` are recorded by name only. Every accumulator ingests by appending the value, as the specs' test doubles do.
  - Every builder call is taken to return a new, unshared, empty accumulator, and `head_window` is taken to return a snapshot of the head. A Ruby block that returned one shared object would alias all five windows, and the object `head_window` returns is the live accumulator, which later `add`s keep changing.
- `SummaryMetric.Values` reports a map, which has no order. The order of the Hash `values` builds, the insertion order of `@values`, is not modelled.
- The text exposition format and its spec.
- Assertions of summary_spec.rb that cannot hold against this code:
  - They compare a Value with a Hash literal through `eql` (lines 43, 54, 61, 67). `SummaryMetric.EqualityWitnesses` shows that such a comparison is false.
  - They compare the result of `values`, a Hash of Values, with a Hash of Hash literals through `eql` (lines 79-82), which fails for the same reason. `SummaryMetric.ValuesScenario` states what `values` does return.
  - They name a `Summary::SlidingWindowEstimator` constant (line 27), which the code does not define. The model uses MAX_AGE.
- `SummaryMetric.EqualsEquivalence`: observed values, `sum` and the quantile answers are exact reals, with no NaN, no infinities and no rounding. In Ruby a Value whose sum is NaN, after `observe(Float::NAN)`, is not `==` to itself, so `==` is reflexive only in the model.
- `RingRetention.Retention`: the retention bound is stated for chronological runs (a clock that never goes back). `RingRetention.RunConsistent` covers arbitrary clocks.
