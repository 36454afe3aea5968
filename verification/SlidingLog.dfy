// Whole runs of the sliding window: the ring against the log of admissions,
// and what the sixteen-segment approximation does and does not guarantee.
module SlidingLog {
  import opened Arithmetic
  import opened Policies
  import opened Windows

  /** One request of a run; policies may change revision but not period. */
  datatype Attempt = Attempt(policy: Policy, cost: int, now: int)

  ghost predicate ValidAttempt(a: Attempt, period: int)
  {
    0 < period && a.policy.period == period && 1 <= a.cost <= a.policy.Limit()
  }

  ghost predicate ValidRun(run: seq<Attempt>, period: int)
  {
    forall i :: 0 <= i < |run| ==> ValidAttempt(run[i], period)
  }

  /** The ring with the clock it has observed and the log of everything it admitted. */
  datatype Tracked = Tracked(segs: seq<Segment>, observed: int, log: seq<Entry>)

  function Start(now: int): Tracked { Tracked(EmptySegments(), now, []) }

  function Attempted(t: Tracked, a: Attempt): SlidingResult
    requires |t.segs| == SEGMENTS && 0 < a.policy.period
  {
    SlidingStep(t.segs, a.policy, a.cost, Max(a.now, t.observed))
  }

  function Track(t: Tracked, a: Attempt): (r: Tracked)
    requires |t.segs| == SEGMENTS && 0 < a.policy.period
    ensures |r.segs| == SEGMENTS
  {
    var now := Max(a.now, t.observed);
    var r := Attempted(t, a);
    Tracked(r.segs, now, if r.rejected then t.log else t.log + [Entry(now, a.cost)])
  }

  function TrackRun(t: Tracked, run: seq<Attempt>): (r: Tracked)
    requires |t.segs| == SEGMENTS && forall i :: 0 <= i < |run| ==> 0 < run[i].policy.period
    ensures |r.segs| == SEGMENTS
  {
    if run == [] then t else Track(TrackRun(t, run[..|run| - 1]), run[|run| - 1])
  }

  ghost predicate Faithful(t: Tracked, period: int) requires 0 < period { RingLog(t.segs, t.log, period, t.observed) }

  lemma {:induction false} StartFaithful(now: int, period: int)
    requires 0 < period
    ensures Faithful(Start(now), period)
  {
    LiveSpan(now, period);
    forall o ensures LiveUsed(EmptySegments(), o) == 0 { NothingLive(EmptySegments(), o); }
  }

  lemma {:induction false} NothingLive(segs: seq<Segment>, o: int)
    requires forall j :: 0 <= j < |segs| ==> Live(segs[j], o) == 0
    ensures LiveUsed(segs, o) == 0
  {
    if segs != [] { NothingLive(segs[..|segs| - 1], o); }
  }

  lemma {:induction false} TrackFaithful(t: Tracked, a: Attempt, period: int)
    requires ValidAttempt(a, period) && |t.segs| == SEGMENTS && Faithful(t, period)
    ensures Faithful(Track(t, a), period)
  {
    var now := Max(a.now, t.observed);
    var next := Track(t, a);
    LiveSpan(now, period);
    PlacedStep(t.segs, a.policy, t.observed, a.cost, now);
    DivMonotone(t.observed - period, now - period, Width(period));
    forall o | o >= Oldest(now, period) ensures LiveUsed(next.segs, o) == LogSince(next.log, Width(period), o) {
      StepUsage(t.segs, a.policy, t.observed, a.cost, now, o);
      assert next.log != t.log ==> next.log[..|next.log| - 1] == t.log;
    }
  }

  /** Ring refines log: over every run, across limit changes and clock rollback, before the epoch too,
      usage of the ring is the logged cost of the current window. */
  lemma {:induction false} RingRefinesLog(start: int, run: seq<Attempt>, period: int)
    requires 0 < period && ValidRun(run, period)
    ensures Faithful(TrackRun(Start(start), run), period)
  {
    if run == [] {
      StartFaithful(start, period);
    } else {
      RingRefinesLog(start, run[..|run| - 1], period);
      TrackFaithful(TrackRun(Start(start), run[..|run| - 1]), run[|run| - 1], period);
    }
  }

  /** ... slot by slot: each live segment holds exactly the cost logged for it. */
  lemma {:induction false} SlotHoldsSegment(t: Tracked, period: int, i: int)
    requires 0 < period && |t.segs| == SEGMENTS && Faithful(t, period) && i > Oldest(t.observed, period)
    ensures LogAt(t.log, Width(period), i) ==
              var s := t.segs[i % SEGMENTS]; if s.index == i then s.used else 0
  {
    LogDifference(t.log, Width(period), i);
    SlotDifference(t.segs, period, t.observed, SEGMENTS, i);
    assert t.segs[..SEGMENTS] == t.segs;
  }

  lemma {:induction false} LogDifference(log: seq<Entry>, width: int, i: int)
    requires 0 < width
    ensures LogAt(log, width, i) == LogSince(log, width, i - 1) - LogSince(log, width, i)
  {
    if log != [] { LogDifference(log[..|log| - 1], width, i); }
  }

  lemma {:induction false} SlotDifference(segs: seq<Segment>, period: int, observed: int, n: int, i: int)
    requires 0 < period && Placed(segs, period, observed) && 0 <= n <= SEGMENTS
    ensures LiveUsed(segs[..n], i - 1) - LiveUsed(segs[..n], i) ==
              var s := segs[i % SEGMENTS]; if i % SEGMENTS < n && s.index == i then s.used else 0
  {
    if n > 0 {
      assert segs[..n][..n - 1] == segs[..n - 1];
      SlotDifference(segs, period, observed, n - 1, i);
    }
  }

  // ------------------------------------------------------------------ safety

  /** Cost admitted at instants in [from, to]. */
  ghost function Between(log: seq<Entry>, from: int, to: int): int
  {
    if log == [] then 0
    else
      var e := log[|log| - 1];
      Between(log[..|log| - 1], from, to) + if from <= e.time <= to then e.cost else 0
  }

  /** Each admission found its window, itself included, within the limit. */
  ghost predicate Bounded(log: seq<Entry>, period: int, limit: int)
    requires 0 < period && 1 <= Width(period)
  {
    forall k :: 0 <= k < |log| ==> LogSince(log[..k + 1], Width(period), Oldest(log[k].time, period)) <= limit
  }

  /** An interval no longer than period - width lies inside the window of its last admission. */
  lemma {:induction false} IntervalInWindow(log: seq<Entry>, period: int, from: int, last: int)
    requires 0 < period && 1 <= Width(period) && last - from <= period - Width(period)
    requires forall k :: 0 <= k < |log| ==> log[k].cost >= 0
    ensures forall to :: Between(log, from, to) <= LogSince(log, Width(period), Oldest(last, period))
  {
    if log != [] {
      IntervalInWindow(log[..|log| - 1], period, from, last);
      var e, w := log[|log| - 1], Width(period);
      if e.time >= from {
        DivMonotone(last - period, e.time - w, w);
        DivShift(e.time, -1, w);
      }
    }
  }

  lemma {:induction false} BoundedIntervals(log: seq<Entry>, period: int, limit: int, from: int, to: int)
    requires 0 < period && 1 <= Width(period) && 0 <= limit && Bounded(log, period, limit)
    requires forall k :: 0 <= k < |log| ==> log[k].cost >= 0
    requires to - from <= period - Width(period)
    ensures Between(log, from, to) <= limit
  {
    if log != [] {
      var n := |log| - 1;
      var e := log[n];
      if from <= e.time <= to {
        IntervalInWindow(log, period, from, e.time);
        assert log[..n + 1] == log;
      } else {
        assert Bounded(log[..n], period, limit) by {
          forall k | 0 <= k < n
            ensures LogSince(log[..n][..k + 1], Width(period), Oldest(log[..n][k].time, period)) <= limit
          {
            assert log[..n][..k + 1] == log[..k + 1];
          }
        }
        BoundedIntervals(log[..n], period, limit, from, to);
      }
    }
  }

  ghost predicate OnePolicy(run: seq<Attempt>, p: Policy)
  {
    forall i :: 0 <= i < |run| ==>
                  run[i].policy == p && 1 <= run[i].cost <= p.Limit() && ClockInRange(run[i].now, p.period)
  }

  lemma {:induction false} RunBounded(start: int, run: seq<Attempt>, p: Policy)
    requires 0 < p.period && OnePolicy(run, p)
    ensures 1 <= Width(p.period)
    ensures Bounded(TrackRun(Start(start), run).log, p.period, p.Limit())
  {
    LiveSpan(start, p.period);
    if run != [] {
      var init, a := run[..|run| - 1], run[|run| - 1];
      RunBounded(start, init, p);
      RingRefinesLog(start, init, p.period);
      var t := TrackRun(Start(start), init);
      TrackBounded(t, a, p);
    }
  }

  lemma {:induction false} TrackBounded(t: Tracked, a: Attempt, p: Policy)
    requires 0 < p.period && a.policy == p && 1 <= a.cost <= p.Limit() && 1 <= Width(p.period)
    requires |t.segs| == SEGMENTS && Faithful(t, p.period) && Bounded(t.log, p.period, p.Limit())
    ensures Bounded(Track(t, a).log, p.period, p.Limit())
  {
    var now := Max(a.now, t.observed);
    var o := Oldest(now, p.period);
    DivMonotone(t.observed - p.period, now - p.period, Width(p.period));
    assert LiveUsed(t.segs, o) == LogSince(t.log, Width(p.period), o);
    LiveSpan(now, p.period);
    if !Attempted(t, a).rejected {
      AppendBounded(t.log, Entry(now, a.cost), p.period, p.Limit());
    }
  }

  lemma {:induction false} AppendBounded(log: seq<Entry>, e: Entry, period: int, limit: int)
    requires 0 < period && 1 <= Width(period) && Bounded(log, period, limit) && e.cost >= 0
    requires LogSince(log, Width(period), Oldest(e.time, period)) + e.cost <= limit
    ensures Bounded(log + [e], period, limit)
  {
    hide LogSince, Oldest;
    var next := log + [e];
    LogAppend(log, e, Width(period), Oldest(e.time, period));
    forall k | 0 <= k < |next|
      ensures LogSince(next[..k + 1], Width(period), Oldest(next[k].time, period)) <= limit
    {
      if k < |log| {
        assert next[..k + 1] == log[..k + 1];
      } else {
        assert next[..k + 1] == next;
      }
    }
  }

  lemma LogAppend(log: seq<Entry>, e: Entry, width: int, oldest: int)
    requires 0 < width
    ensures LogSince(log + [e], width, oldest) ==
              LogSince(log, width, oldest) + if e.time / width > oldest then e.cost else 0
  {
    assert (log + [e])[..|log|] == log;
  }

  ghost function IntervalCost(p: Policy, start: int, run: seq<Attempt>, from: int, length: int): int
    requires 0 < p.period && OnePolicy(run, p)
  {
    Between(TrackRun(Start(start), run).log, from, from + length)
  }

  /** No interval [from, from + length] of any run under p, on clocks the code accepts, admits more than the limit. */
  ghost predicate Safe(p: Policy, length: int)
    requires 0 < p.period
  {
    forall start, run, from ::
      ClockInRange(start, p.period) && OnePolicy(run, p) ==> IntervalCost(p, start, run, from, length) <= p.Limit()
  }

  lemma {:induction false} IntervalSafe(p: Policy, start: int, run: seq<Attempt>, from: int, length: int)
    requires 0 < p.period && 0 < p.Limit() && length <= p.period - Width(p.period) && OnePolicy(run, p)
    ensures IntervalCost(p, start, run, from, length) <= p.Limit()
  {
    RunBounded(start, run, p);
    RingRefinesLog(start, run, p.period);
    BoundedIntervals(TrackRun(Start(start), run).log, p.period, p.Limit(), from, from + length);
  }

  lemma {:induction false} SlidingSafety(p: Policy, length: int)
    requires 0 < p.period && 0 < p.Limit() && length <= p.period - Width(p.period)
    ensures Safe(p, length)
  {
    hide IntervalCost;
    forall start, run, from | ClockInRange(start, p.period) && OnePolicy(run, p)
      ensures IntervalCost(p, start, run, from, length) <= p.Limit()
    {
      IntervalSafe(p, start, run, from, length);
    }
  }

  /** `n` requests of cost one at instant `now`. */
  function Units(p: Policy, now: int, n: nat): (r: seq<Attempt>)
    ensures |r| == n && forall i :: 0 <= i < n ==> r[i] == Attempt(p, 1, now)
  {
    seq(n, i => Attempt(p, 1, now))
  }

  /** A fresh window admits its whole limit at one instant. */
  lemma {:induction false} UnitsAdmitted(p: Policy, now: int, n: nat)
    requires 0 < p.period && n <= p.Limit()
    ensures var t := TrackRun(Start(now), Units(p, now, n));
            && t.observed == now && |t.log| == n
            && (forall k :: 0 <= k < n ==> t.log[k] == Entry(now, 1))
  {
    if n > 0 {
      var run := Units(p, now, n);
      assert run[..n - 1] == Units(p, now, n - 1);
      UnitsAdmitted(p, now, n - 1);
      RingRefinesLog(now, Units(p, now, n - 1), p.period);
      var t := TrackRun(Start(now), Units(p, now, n - 1));
      SameInstant(t.log, now, p.period, n - 1, Oldest(now, p.period));
      LiveSpan(now, p.period);
    }
  }

  lemma {:induction false} SameInstant(log: seq<Entry>, now: int, period: int, n: nat, o: int)
    requires 0 < period && 1 <= Width(period) && |log| == n
    requires forall k :: 0 <= k < n ==> log[k] == Entry(now, 1)
    ensures LogSince(log, Width(period), o) == if Index(now, period) > o then n else 0
    ensures forall from, to :: from <= now <= to ==> Between(log, from, to) == n
  {
    if n > 0 { SameInstant(log[..n - 1], now, period, n - 1, o); }
  }

  /** One microsecond more than period - width and a run exists that exceeds the limit: the limit at the
      last instant of a segment, and one more the moment that segment leaves the window. */
  lemma {:induction false} SlidingOverrun(p: Policy, length: int)
    requires 0 < p.period <= MAX_EXACT && 0 < p.Limit() && length > p.period - Width(p.period)
    ensures !Safe(p, length)
  {
    hide IntervalCost;
    var w := Width(p.period);
    LiveSpan(0, p.period);
    DivBounds(p.period + SEGMENTS - 1, SEGMENTS);
    var u, last := -15 * w - 1, p.period - SEGMENTS * w;
    var run := Units(p, u, p.Limit()) + [Attempt(p, 1, last)];
    assert OnePolicy(run, p);
    OverrunCost(p, u, last, length, run);
  }

  lemma {:induction false} OverrunCost(p: Policy, u: int, last: int, length: int, run: seq<Attempt>)
    requires 0 < p.period && 0 < p.Limit() && u == -15 * Width(p.period) - 1 &&
             last == p.period - SEGMENTS * Width(p.period)
    requires u <= last <= u + length
    requires run == Units(p, u, p.Limit()) + [Attempt(p, 1, last)] && OnePolicy(run, p)
    ensures IntervalCost(p, u, run, u, length) == p.Limit() + 1
  {
    hide Track;
    LiveSpan(u, p.period);
    var units := Units(p, u, p.Limit());
    UnitsAdmitted(p, u, p.Limit());
    RingRefinesLog(u, units, p.period);
    var t := TrackRun(Start(u), units);
    OverrunAdmitted(t, p, u, last);
    assert run[..|run| - 1] == units;
    var log := TrackRun(Start(u), run).log;
    assert log == t.log + [Entry(last, 1)];
    assert log[..|log| - 1] == t.log;
    SameInstant(t.log, u, p.period, p.Limit(), 0);
    assert Between(t.log, u, u + length) == p.Limit();
    assert Between(log, u, u + length) == p.Limit() + 1;
  }

  lemma {:induction false} OverrunAdmitted(t: Tracked, p: Policy, u: int, last: int)
    requires 0 < p.period && 0 < p.Limit() && |t.segs| == SEGMENTS && Faithful(t, p.period)
    requires u == -15 * Width(p.period) - 1 && u <= last == p.period - SEGMENTS * Width(p.period)
    requires t.observed == u && |t.log| == p.Limit()
    requires forall k :: 0 <= k < |t.log| ==> t.log[k] == Entry(u, 1)
    ensures Track(t, Attempt(p, 1, last)).log == t.log + [Entry(last, 1)]
  {
    hide LiveUsed, Earliest;
    var w := Width(p.period);
    LiveSpan(u, p.period);
    DivUnique(u, w, -16);
    DivUnique(last - p.period, w, -16);
    DivMonotone(u - p.period, last - p.period, w);
    SameInstant(t.log, u, p.period, p.Limit(), -16);
    assert LiveUsed(t.segs, Oldest(last, p.period)) == 0;
  }

  /** The window the sliding counter enforces, exactly. */
  lemma SlidingSafetyExact(p: Policy, length: int)
    requires 0 < p.period <= MAX_EXACT && 0 < p.Limit()
    ensures Safe(p, length) <==> length <= p.period - Width(p.period)
  {
    if length <= p.period - Width(p.period) { SlidingSafety(p, length); } else { SlidingOverrun(p, length); }
  }

  // ------------------------------------------------------------------- reset

  /** Reset names the end of the earliest live segment plus a period; that segment actually leaves the
      window one segment width before. */
  lemma {:induction false} EarliestLeaves(earliest: int, period: int, t: int)
    requires 0 < period
    ensures earliest <= Oldest(t, period) <==> t >= (earliest + 1) * Width(period) + period - Width(period)
  {
    LiveSpan(t, period);
    var w := Width(period);
    DivBounds(t - period, w);
    if earliest <= Oldest(t, period) { MulMonotone(earliest, Oldest(t, period), w); }
    else { MulMonotone(Oldest(t, period) + 1, earliest, w); }
  }

  /** Some used segment is live; the earliest one bounds how long nothing leaves. */
  lemma {:induction false} EarliestBounds(segs: seq<Segment>, o: int, top: int)
    requires forall j :: 0 <= j < |segs| ==> segs[j].used >= 0
    requires top < MAX_INT64 && forall j :: 0 <= j < |segs| && segs[j].used > 0 ==> segs[j].index <= top
    ensures LiveUsed(segs, o) >= 0
    ensures LiveUsed(segs, o) > 0 ==> o < Earliest(segs, o) <= top
    ensures LiveUsed(segs, o) == 0 ==> Earliest(segs, o) == MAX_INT64
    ensures forall later :: o <= later < Earliest(segs, o) ==> LiveUsed(segs, later) == LiveUsed(segs, o)
  {
    if segs != [] { EarliestBounds(segs[..|segs| - 1], o, top); }
  }

  /** How a ring that rejected a request answers it again at t: by what is still live then. */
  lemma {:induction false} RejectedAgain(segs: seq<Segment>, p: Policy, observed: int, cost: int, now: int, t: int)
    requires 0 < p.period && 1 <= cost && Placed(segs, p.period, observed) && observed <= now <= t
    requires SlidingStep(segs, p, cost, now).rejected
    ensures |SlidingStep(segs, p, cost, now).segs| == SEGMENTS
    ensures SlidingStep(SlidingStep(segs, p, cost, now).segs, p, cost, t).rejected <==>
              LiveUsed(segs, Oldest(t, p.period)) + cost > p.Limit()
  {
    hide LiveUsed, Earliest, Opened, Expired, Charged;
    PlacedStep(segs, p, observed, cost, now);
    LiveSpan(now, p.period);
    DivMonotone(now - p.period, t - p.period, Width(p.period));
    StepUsage(segs, p, observed, cost, now, Oldest(t, p.period));
    LiveUsedNonNegative(segs, Oldest(t, p.period));
  }

  /** What a sliding rejection's Reset means. Until one segment width before it the request keeps being rejected, and
      if the earliest segment's usage is all it waits for, it is admitted from exactly then on. */
  lemma {:induction false} SlidingRetryExact(segs: seq<Segment>, p: Policy, observed: int, cost: int, now: int, t: int)
    requires 0 < p.period && 1 <= cost <= p.Limit() && Placed(segs, p.period, observed) && observed <= now <= t
    requires now <= MAX_EXACT && SlidingStep(segs, p, cost, now).rejected
    ensures |SlidingStep(segs, p, cost, now).segs| == SEGMENTS
    ensures var first := SlidingStep(segs, p, cost, now);
            var again := SlidingStep(first.segs, p, cost, t);
            var leaves := first.decision.reset - Width(p.period);
            && (t < leaves ==> again.rejected)
            && (LiveUsed(segs, Earliest(segs, Oldest(now, p.period))) + cost <= p.Limit() ==>
                  (!again.rejected <==> t >= leaves))
  {
    var o := Oldest(now, p.period);
    RejectedAgain(segs, p, observed, cost, now, t);
    RejectionReset(segs, p, observed, cost, now);
    var e := Earliest(segs, o);
    EarliestLeaves(e, p.period, t);
    LiveSpan(now, p.period);
    DivMonotone(now - p.period, t - p.period, Width(p.period));
    if e <= Oldest(t, p.period) { LiveUsedShrinks(segs, e, Oldest(t, p.period)); }
  }

  /** A rejection has a live segment to wait for, and its Reset is formed from the earliest. */
  lemma {:induction false} RejectionReset(segs: seq<Segment>, p: Policy, observed: int, cost: int, now: int)
    requires 0 < p.period && 1 <= cost <= p.Limit() && Placed(segs, p.period, observed) && observed <= now <= MAX_EXACT
    requires SlidingStep(segs, p, cost, now).rejected
    ensures var o := Oldest(now, p.period);
            var e := Earliest(segs, o);
            && o < e < MAX_INT64
            && SlidingStep(segs, p, cost, now).decision.reset == (e + 1) * Width(p.period) + p.period
            && LiveUsed(segs, o) + cost > p.Limit()
            && (forall later :: o <= later < e ==> LiveUsed(segs, later) == LiveUsed(segs, o))
  {
    hide LiveUsed, Earliest, Opened, Expired, Charged;
    LiveSpan(now, p.period);
    DivMonotone(observed, now, Width(p.period));
    DivBounds(now, Width(p.period));
    IndexAtMost(now, p.period);
    EarliestBounds(segs, Oldest(now, p.period), Max(now, 0));
  }

  lemma {:induction false} IndexAtMost(now: int, period: int)
    requires 0 < period
    ensures Index(now, period) <= Max(now, 0)
  {
    LiveSpan(now, period);
    var w := Width(period);
    DivBounds(now, w);
    if now >= 0 { DivMonotone(0, now, w); MulMonotone(1, w, now / w); } else { DivMonotone(now, 0, w); }
  }
}
