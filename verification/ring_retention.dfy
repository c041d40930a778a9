/** What the ring means over a whole run. Every recorded sample is logged
    with the time it was recorded and its epoch: the head expiry in force
    when it was broadcast. The window at ordered position `p` then holds,
    in record order, exactly the samples whose epoch lies after a threshold
    that grows with `p`, and the head holds those of the last WINDOW_COUNT
    intervals. With a clock that never runs backwards this yields the
    retention the code provides: a sample recorded at time T is reported
    by every read before T + MAX_AGE - WINDOW_INTERVAL and by no read after
    T + MAX_AGE. The class comment of windowed_sample_stream.rb claims the
    tighter MAX_AGE - WINDOW_INTERVAL; the code keeps samples longer. */
module RingRetention {
  import opened WindowMath
  import opened AgeRing

  /** A recorded sample: its value, when it was recorded, and its epoch. */
  datatype Entry<T> = Entry(value: T, at: real, epoch: real)

  /** One call on the ring: `add`/`observe` or `head_window`. */
  datatype Op<T> = Add(at: real, value: T) | Read(at: real)

  /** The samples of `log` whose epoch is after `bound`, in record order. */
  function Keep<T>(log: seq<Entry<T>>, bound: real): seq<T> {
    if |log| == 0 then []
    else
      var last := log[|log| - 1];
      Keep(log[..|log| - 1], bound) + (if last.epoch > bound then [last.value] else [])
  }

  /** The epoch threshold of the window at ordered position `p` when the
      head expires at `e`: that window holds the samples with a later epoch. */
  function Threshold(e: real, p: int): real {
    e - ((WINDOW_COUNT - p) as real) * WINDOW_INTERVAL
  }

  /** The ring holds exactly what the log says it should. */
  ghost predicate Consistent<T>(r: Ring<T>, log: seq<Entry<T>>) {
    && Valid(r)
    && (forall i :: 0 <= i < |log| ==>
          log[i].epoch <= r.expiresAt && OnGrid(log[i].epoch, r.expiresAt))
    && (forall p :: 0 <= p < WINDOW_COUNT ==>
          Ordered(r)[p] == Keep(log, Threshold(r.expiresAt, p)))
  }

  /** One call, with its effect on the log. */
  function Step<T>(r: Ring<T>, log: seq<Entry<T>>, op: Op<T>): (Ring<T>, seq<Entry<T>>)
    requires Valid(r)
  {
    match op
    case Add(t, v) =>
      var r' := Record(r, v, t).0;
      (r', log + [Entry(v, t, r'.expiresAt)])
    case Read(t) => (HeadWindow(r, t).0, log)
  }

  /** A sequence of calls, oldest first, starting from `r` with an empty log. */
  function Run<T>(r: Ring<T>, ops: seq<Op<T>>): (res: (Ring<T>, seq<Entry<T>>))
    requires Valid(r)
    ensures Valid(res.0)
  {
    if |ops| == 0 then (r, [])
    else
      var prev := Run(r, ops[..|ops| - 1]);
      Step(prev.0, prev.1, ops[|ops| - 1])
  }

  /** The `(value, time)` pairs of the `Add` calls, in order. */
  function Adds<T>(ops: seq<Op<T>>): seq<(T, real)> {
    if |ops| == 0 then []
    else
      Adds(ops[..|ops| - 1])
      + (match ops[|ops| - 1] case Add(t, v) => [(v, t)] case Read(_) => [])
  }

  /** Calls that never go back in time, none before `t0`. */
  predicate Chronological<T>(t0: real, ops: seq<Op<T>>) {
    && (forall i :: 0 <= i < |ops| ==> t0 <= ops[i].at)
    && (forall i, j :: 0 <= i < j < |ops| ==> ops[i].at <= ops[j].at)
  }

  /** The time of the latest call, or `t0` before any. */
  function LastTime<T>(t0: real, ops: seq<Op<T>>): real {
    if |ops| == 0 then t0 else ops[|ops| - 1].at
  }

  lemma {:induction false} KeepAppend<T>(log: seq<Entry<T>>, x: Entry<T>, bound: real)
    ensures Keep(log + [x], bound)
         == Keep(log, bound) + (if x.epoch > bound then [x.value] else [])
  {
    assert (log + [x])[..|log|] == log;
  }

  /** Nothing is kept when every epoch is at or before the bound. */
  lemma {:induction false} KeepNone<T>(log: seq<Entry<T>>, bound: real)
    requires forall i :: 0 <= i < |log| ==> log[i].epoch <= bound
    ensures Keep(log, bound) == []
  {
    if |log| > 0 {
      KeepNone(log[..|log| - 1], bound);
    }
  }

  /** The empty ring built at construction agrees with the empty log. */
  lemma FreshConsistent<T>(t0: real)
    ensures Consistent(Fresh<T>(t0), [])
  {
    var r := Fresh<T>(t0);
    forall p | 0 <= p < WINDOW_COUNT
      ensures Ordered(r)[p] == Keep([], Threshold(r.expiresAt, p))
    {
    }
  }

  /** A refresh, at any time (even one earlier than before), keeps the ring
      in agreement with the log: retired generations are exactly those whose
      threshold has moved past every logged epoch. */
  lemma RefreshConsistent<T>(r: Ring<T>, log: seq<Entry<T>>, now: real)
    requires Consistent(r, log)
    ensures Consistent(Refresh(r, now), log)
  {
    if now > r.expiresAt {
      var e' := Refresh(r, now).expiresAt;
      forall i | 0 <= i < |log|
        ensures log[i].epoch <= e' && OnGrid(log[i].epoch, e')
      {
        GridTrans(log[i].epoch, r.expiresAt, e');
      }
      forall p | 0 <= p < WINDOW_COUNT
        ensures Ordered(Refresh(r, now))[p] == Keep(log, Threshold(e', p))
      {
        RefreshWindow(r, log, now, p);
      }
    }
  }

  /** One window after a refresh: a survivor keeps its threshold, now
      counted from the new expiry; a fresh one has a threshold no logged
      epoch passes. */
  lemma RefreshWindow<T>(r: Ring<T>, log: seq<Entry<T>>, now: real, p: int)
    requires Consistent(r, log) && now > r.expiresAt && 0 <= p < WINDOW_COUNT
    ensures Ordered(Refresh(r, now))[p] == Keep(log, Threshold(Refresh(r, now).expiresAt, p))
  {
    var e := r.expiresAt;
    var e' := Refresh(r, now).expiresAt;
    var c := Min(WINDOW_COUNT, Steps(e, e'));
    OrderedIndex(r, 0);
    if p + c < WINDOW_COUNT {
      SurvivorWindow(Ordered(r), log, e, e', c, p);
    } else {
      FreshWindow(Ordered(r), log, e, e', c, p);
    }
  }

  /** A window that survives a retirement of `c` generations moves `c`
      places towards the head and keeps its contents. */
  lemma SurvivorWindow<T>(o: seq<seq<T>>, log: seq<Entry<T>>, e: real, e': real, c: int, p: int)
    requires |o| == WINDOW_COUNT && OnGrid(e', e) && 0 <= p
    requires 0 <= c == Min(WINDOW_COUNT, Steps(e, e')) && p + c < WINDOW_COUNT
    requires o[p + c] == Keep(log, Threshold(e, p + c))
    ensures Retired(o, c)[p] == Keep(log, Threshold(e', p))
  {
    ThresholdShift(e, e', p, c);
  }

  /** A window built by the refresh is empty, and no logged epoch passes
      its threshold. */
  lemma FreshWindow<T>(o: seq<seq<T>>, log: seq<Entry<T>>, e: real, e': real, c: int, p: int)
    requires |o| == WINDOW_COUNT && OnGrid(e', e) && p < WINDOW_COUNT
    requires 0 <= c == Min(WINDOW_COUNT, Steps(e, e')) && p + c >= WINDOW_COUNT
    requires forall i :: 0 <= i < |log| ==> log[i].epoch <= e
    ensures Retired(o, c)[p] == Keep(log, Threshold(e', p))
  {
    ThresholdPast(e, e', p);
    KeepNone(log, Threshold(e', p));
  }

  /** A surviving window's threshold, counted from the new expiry. */
  lemma ThresholdShift(e: real, e': real, p: int, c: int)
    requires OnGrid(e', e) && 0 <= p && c == Min(WINDOW_COUNT, Steps(e, e')) && p + c < WINDOW_COUNT
    ensures Threshold(e', p) == Threshold(e, p + c)
  {
    IntervalValue();
    GridPoint(e', e);
    var k := Steps(e, e');
    assert c == k;
    assert e' == e + (k as real) * 120.0;
    assert ((WINDOW_COUNT - p) as real) == ((WINDOW_COUNT - (p + k)) as real) + k as real;
  }

  /** A fresh window's threshold is not before the old expiry. */
  lemma ThresholdPast(e: real, e': real, p: int)
    requires OnGrid(e', e) && p + Min(WINDOW_COUNT, Steps(e, e')) >= WINDOW_COUNT
    ensures Threshold(e', p) >= e
  {
    IntervalValue();
    GridPoint(e', e);
  }

  /** Broadcasting a sample extends every window by it; its epoch is the
      current expiry, after every window's threshold. */
  lemma IngestConsistent<T>(r: Ring<T>, log: seq<Entry<T>>, v: T, t: real)
    requires Consistent(r, log)
    ensures Consistent(Ingest(r, v), log + [Entry(v, t, r.expiresAt)])
  {
    var r' := Ingest(r, v);
    var log' := log + [Entry(v, t, r.expiresAt)];
    assert OnGrid(r.expiresAt, r.expiresAt);
    forall p | 0 <= p < WINDOW_COUNT
      ensures Ordered(r')[p] == Keep(log', Threshold(r.expiresAt, p))
    {
      KeepAppend(log, Entry(v, t, r.expiresAt), Threshold(r.expiresAt, p));
    }
  }

  lemma StepConsistent<T>(r: Ring<T>, log: seq<Entry<T>>, op: Op<T>)
    requires Consistent(r, log)
    ensures Consistent(Step(r, log, op).0, Step(r, log, op).1)
  {
    RefreshConsistent(r, log, op.at);
    if op.Add? {
      IngestConsistent(Refresh(r, op.at), log, op.value, op.at);
    }
  }

  /** Whatever the calls and however the clock moves, the ring built at
      construction stays in agreement with its log. */
  lemma {:induction false} RunConsistent<T>(t0: real, ops: seq<Op<T>>)
    ensures Consistent(Run(Fresh<T>(t0), ops).0, Run(Fresh<T>(t0), ops).1)
  {
    if |ops| == 0 {
      FreshConsistent<T>(t0);
    } else {
      RunConsistent(t0, ops[..|ops| - 1]);
      var prev := Run(Fresh<T>(t0), ops[..|ops| - 1]);
      StepConsistent(prev.0, prev.1, ops[|ops| - 1]);
    }
  }

  /** The log records exactly the `Add` calls, in order. */
  lemma {:induction false} RunLogsAdds<T>(r: Ring<T>, ops: seq<Op<T>>)
    requires Valid(r)
    ensures |Run(r, ops).1| == |Adds(ops)|
    ensures forall i :: 0 <= i < |Adds(ops)| ==>
      Run(r, ops).1[i].value == Adds(ops)[i].0 && Run(r, ops).1[i].at == Adds(ops)[i].1
  {
    if |ops| > 0 {
      RunLogsAdds(r, ops[..|ops| - 1]);
    }
  }

  /** Time facts kept by a chronological run: the expiry is at most one
      interval after the latest call, and each sample's epoch lies between
      its recording time and one interval later. */
  ghost predicate Timely<T>(r: Ring<T>, log: seq<Entry<T>>, last: real) {
    && r.expiresAt <= last + WINDOW_INTERVAL
    && forall i :: 0 <= i < |log| ==>
         log[i].at <= last && log[i].at <= log[i].epoch <= log[i].at + WINDOW_INTERVAL
  }

  lemma StepTimely<T>(r: Ring<T>, log: seq<Entry<T>>, last: real, op: Op<T>)
    requires Valid(r) && Timely(r, log, last) && last <= op.at
    ensures Timely(Step(r, log, op).0, Step(r, log, op).1, op.at)
  {
  }

  lemma {:induction false} RunTimely<T>(t0: real, ops: seq<Op<T>>)
    requires Chronological(t0, ops)
    ensures Timely(Run(Fresh<T>(t0), ops).0, Run(Fresh<T>(t0), ops).1, LastTime(t0, ops))
  {
    if |ops| > 0 {
      var init := ops[..|ops| - 1];
      assert Chronological(t0, init);
      RunTimely(t0, init);
      var prev := Run(Fresh<T>(t0), init);
      StepTimely(prev.0, prev.1, LastTime(t0, init), ops[|ops| - 1]);
    }
  }

  /** After a chronological run, the ring a read at `t` leaves behind
      agrees with the log, and the log is timely for `t`. */
  lemma ReadState<T>(t0: real, ops: seq<Op<T>>, t: real)
    requires Chronological(t0, ops) && LastTime(t0, ops) <= t
    ensures
      var run := Run(Fresh<T>(t0), ops);
      var r' := HeadWindow(run.0, t).0;
      Consistent(r', run.1) && Timely(r', run.1, t)
  {
    var run := Run(Fresh<T>(t0), ops);
    RunConsistent(t0, ops);
    RunTimely(t0, ops);
    StepConsistent(run.0, run.1, Read(t));
    StepTimely(run.0, run.1, LastTime(t0, ops), Read(t));
  }

  /** In a ring refreshed at `t` and kept in agreement with a timely log,
      the head holds the samples with epoch after the read bound; a sample
      recorded less than MAX_AGE - WINDOW_INTERVAL before `t` has such an
      epoch, and one recorded more than MAX_AGE before `t` does not. */
  lemma ReadBounds<T>(r: Ring<T>, log: seq<Entry<T>>, t: real)
    requires Consistent(r, log) && Timely(r, log, t) && t <= r.expiresAt
    ensures Ordered(r)[0] == Keep(log, r.expiresAt - MAX_AGE as real)
    ensures forall i :: 0 <= i < |log| && t < log[i].at + (MAX_AGE as real) - WINDOW_INTERVAL
                        ==> log[i].epoch > r.expiresAt - MAX_AGE as real
    ensures forall i :: 0 <= i < |log| && t > log[i].at + MAX_AGE as real
                        ==> log[i].epoch <= r.expiresAt - MAX_AGE as real
  {
    IntervalValue();
    assert Threshold(r.expiresAt, 0) == r.expiresAt - MAX_AGE as real;
    forall i | 0 <= i < |log| && t > log[i].at + MAX_AGE as real
      ensures log[i].epoch <= r.expiresAt - MAX_AGE as real
    {
      GridGap(log[i].epoch, r.expiresAt);
    }
  }

  /** The retention theorem. After any chronological run from construction
      at `t0`, a `head_window` read at `t` returns, in record order, the
      recorded samples with epoch after `bound`; every sample recorded
      less than MAX_AGE - WINDOW_INTERVAL before `t` is among them, and no
      sample recorded more than MAX_AGE before `t` is. */
  lemma Retention<T>(t0: real, ops: seq<Op<T>>, t: real)
    requires Chronological(t0, ops) && LastTime(t0, ops) <= t
    ensures
      var run := Run(Fresh<T>(t0), ops);
      var read := HeadWindow(run.0, t);
      var bound := read.0.expiresAt - MAX_AGE as real;
      && read.1 == Keep(run.1, bound)
      && (forall i :: 0 <= i < |run.1| && t < run.1[i].at + (MAX_AGE as real) - WINDOW_INTERVAL
            ==> run.1[i].epoch > bound)
      && (forall i :: 0 <= i < |run.1| && t > run.1[i].at + MAX_AGE as real
            ==> run.1[i].epoch <= bound)
  {
    var run := Run(Fresh<T>(t0), ops);
    ReadState(t0, ops, t);
    ReadBounds(HeadWindow(run.0, t).0, run.1, t);
  }
}
