// The in-process windows count in nanoseconds, held in an int64, where the other
// backends count in microseconds.
module MemoryWindows {
  import opened Arithmetic
  import opened Policies
  import opened Windows
  import opened MemoryWraps

  /** The policy as the memory window code sees it: its period in nanoseconds. */
  function Nano(p: Policy): Policy { p.(period := NANOS * p.period) }

  lemma {:induction false} DivScales(n: int, d: int, k: int)
    requires 0 < d && 0 < k
    ensures (k * n) / (k * d) == n / d
  {
    var q := n / d;
    DivBounds(n, d);
    MulMonotone(q * d, n, k);
    MulMonotone(n + 1, q * d + d, k);
    assert k * (q * d) == q * (k * d) && k * (q * d + d) == q * (k * d) + k * d && k * (n + 1) == k * n + k;
    MulMonotone(1, d, k);
    DivUnique(k * n, k * d, q);
  }

  /** Fixed windows start at the same instants in either unit. */
  lemma {:induction false} FixedUnits(now: int, period: int)
    requires 0 < period
    ensures Floor(NANOS * now, NANOS * period) == NANOS * Floor(now, period)
  {
    DivScales(now, period, NANOS);
    var q := now / period;
    assert q * (NANOS * period) == NANOS * (q * period);
  }

  /** Segments have the same width in either unit exactly when sixteen divides the period. */
  lemma {:induction false} WidthUnits(period: int)
    requires 0 < period
    ensures Width(NANOS * period) == NANOS * Width(period) <==> period % SEGMENTS == 0
  {
  }

  /** nonnegative(reset.Sub(now)) between instants in nanoseconds. */
  function NanoWait(reset: int, now: int): int { Max(0, Min(MAX_INT64, reset - now)) }

  /** consumeWindow: instants and durations are nanoseconds. */
  function NanoConsume(used: int, p: Policy, cost: int, now: int, reset: int): Consumed
  {
    var c := Consume(used, p, cost, NANOS * now, reset);
    c.(decision := c.decision.(retryAfter := if c.rejected then NanoWait(reset, NANOS * now) else 0))
  }

  /** admitFixed. */
  function MemoryFixed(window: int, used: int, p: Policy, cost: int, now: int): FixedResult
    requires 0 < p.period
  {
    var start := NanoFloor(NANOS * now, NANOS * p.period);
    var c := NanoConsume(if window != start then 0 else used, p, cost, now, Wrap64(start + NANOS * p.period));
    FixedResult(start, c.used, c.used > p.Limit(), c.decision, c.rejected)
  }

  /** admitSliding. */
  function MemorySliding(segs: seq<Segment>, p: Policy, cost: int, now: int): SlidingResult
    requires 0 < p.period && |segs| == SEGMENTS
  {
    var size, index, oldest := Size(p.period), NanoIndex(now, p.period), NanoOldest(now, p.period);
    var used, earliest := LiveUsed(segs, oldest), Earliest(segs, oldest);
    var current := Opened(Expired(segs, oldest), index);
    var reset := (if earliest != MAX_INT64 then Wrap64((earliest + 1) * size) else NANOS * now) + NANOS * p.period;
    var c := NanoConsume(used, p, cost, now, reset);
    SlidingResult(if c.rejected then current else Charged(current, index % SEGMENTS, cost),
                  c.used, used > p.Limit(), c.decision, c.rejected)
  }

  /** Every field of a decision agrees, RetryAfter as long as it fits a duration in microseconds. */
  ghost predicate SameDecision(fine: Decision, coarse: Decision, now: int)
  {
    && fine.allowed == coarse.allowed && fine.remaining == coarse.remaining && fine.limit == coarse.limit
    && fine.reason == coarse.reason && fine.reset == NANOS * coarse.reset
    && (coarse.reset - now <= MAX_DURATION ==> fine.retryAfter == NANOS * coarse.retryAfter)
  }

  /** A fixed-window step in nanoseconds does and answers what it does in microseconds, for every period and at every
      accepted instant: a wrapped window start names one window, and adding the period unwraps it. */
  lemma {:induction false} FixedUnitsAgree(window: int, used: int, p: Policy, cost: int, now: int)
    requires 0 < p.period <= MAX_EXACT && ClockInRange(now, p.period)
    requires -MAX_EXACT - p.period < window <= MAX_EXACT - p.period
    ensures var fine := MemoryFixed(Wrap64(NANOS * window), used, p, cost, now);
            var coarse := FixedStep(window, used, p, cost, now);
            && fine.window == Wrap64(NANOS * coarse.window) && fine.used == coarse.used
            && fine.rejected == coarse.rejected && SameDecision(fine.decision, coarse.decision, now)
  {
    hide Floor, Wrap64;
    FixedUnits(now, p.period);
    var start := Floor(now, p.period);
    assert start <= now < start + p.period;
    StartsDiffer(window, start);
  }

  /** Window starts less than 2^64 nanoseconds apart do not collide. */
  lemma StartsDiffer(a: int, b: int)
    requires -2 * MAX_EXACT <= a <= MAX_EXACT && -2 * MAX_EXACT <= b <= MAX_EXACT
    requires -2 * MAX_EXACT <= a - b <= 2 * MAX_EXACT
    ensures Wrap64(NANOS * a) == Wrap64(NANOS * b) ==> a == b
  {
    hide Wrap64;
  }

  /** One sliding step in nanoseconds does to the ring, and answers, what it does in microseconds. */
  ghost predicate SameStep(segs: seq<Segment>, p: Policy, cost: int, now: int)
    requires 0 < p.period && |segs| == SEGMENTS
  {
    var fine := MemorySliding(segs, p, cost, now);
    var coarse := SlidingStep(segs, p, cost, now);
    && fine.segs == coarse.segs && fine.used == coarse.used && fine.rejected == coarse.rejected
    && SameDecision(fine.decision, coarse.decision, now)
  }

  lemma {:induction false} IndexUnits(now: int, period: int)
    requires 0 < period && period % SEGMENTS == 0
    ensures Index(NANOS * now, NANOS * period) == Index(now, period)
    ensures Oldest(NANOS * now, NANOS * period) == Oldest(now, period)
  {
    WidthUnits(period);
    LiveSpan(now, period);
    DivScales(now, Width(period), NANOS);
    DivScales(now - period, Width(period), NANOS);
  }

  lemma {:induction false} ResetUnits(earliest: int, period: int)
    requires 0 < period && period % SEGMENTS == 0
    ensures (earliest + 1) * Width(NANOS * period) + NANOS * period == NANOS * ((earliest + 1) * Width(period) + period)
  {
    WidthUnits(period);
    var w := Width(period);
    assert (earliest + 1) * (NANOS * w) == NANOS * ((earliest + 1) * w);
  }

  /** Without a wrap the int64 code is the sliding step in nanoseconds. */
  lemma {:induction false} NothingWraps(segs: seq<Segment>, p: Policy, now: int)
    requires 0 < p.period && ClockInRange(now, p.period) && Placed(segs, NANOS * p.period, NANOS * now)
    requires TrueOldest(now, p.period) * Size(p.period) >= MIN_INT64
    ensures NanoIndex(now, p.period) == TrueIndex(now, p.period)
    ensures NanoOldest(now, p.period) == TrueOldest(now, p.period)
    ensures var earliest := Earliest(segs, TrueOldest(now, p.period));
            earliest != MAX_INT64 ==> Wrap64((earliest + 1) * Size(p.period)) == (earliest + 1) * Size(p.period)
  {
    hide Wrap64, Index, Oldest, NanoIndex, NanoOldest, Size, Earliest, Placed;
    SegmentsFit(now, p.period);
    OldestTrue(now, p.period);
    IndexTrue(now, p.period);
    EarliestFits(segs, p.period, now);
  }

  lemma {:induction false} SegmentsFit(now: int, period: int)
    requires 0 < period && TrueOldest(now, period) * Size(period) >= MIN_INT64
    ensures 1 <= Size(period) <= NANOS * period
    ensures TrueIndex(now, period) * Size(period) >= MIN_INT64
    ensures TrueIndex(now, period) * Size(period) <= NANOS * now && TrueOldest(now, period) < TrueIndex(now, period)
  {
    hide Width;
    SizePositive(period);
    LiveSpan(NANOS * now, NANOS * period);
    DivBounds(NANOS * now, Size(period));
    MulMonotone(TrueOldest(now, period), TrueIndex(now, period), Size(period));
  }

  lemma {:induction false} EarliestFits(segs: seq<Segment>, period: int, now: int)
    requires 0 < period && ClockInRange(now, period) && Placed(segs, NANOS * period, NANOS * now)
    requires TrueOldest(now, period) * Size(period) >= MIN_INT64
    ensures var earliest := Earliest(segs, TrueOldest(now, period));
            earliest != MAX_INT64 ==> MIN_INT64 <= (earliest + 1) * Size(period) < -MIN_INT64
  {
    hide Size, TrueOldest, Earliest;
    SegmentsFit(now, period);
    var oldest, index := TrueOldest(now, period), TrueIndex(now, period);
    EarliestWithin(segs, oldest, index);
    var earliest := Earliest(segs, oldest);
    if earliest != MAX_INT64 { ProductFits(oldest, earliest, index, Size(period), NANOS * now, NANOS * period); }
  }

  lemma {:induction false} ProductFits(oldest: int, e: int, index: int, s: int, n: int, span: int)
    requires 0 < s <= span && n <= -BOTTOM - span && oldest < e <= index && index * s <= n && oldest * s >= MIN_INT64
    ensures MIN_INT64 <= (e + 1) * s < -MIN_INT64
  {
    MulMonotone(oldest, e + 1, s);
    MulMonotone(e + 1, index + 1, s);
  }

  lemma {:induction false} EarliestWithin(segs: seq<Segment>, oldest: int, top: int)
    requires forall j :: 0 <= j < |segs| && segs[j].used > 0 ==> segs[j].index <= top
    requires forall j :: 0 <= j < |segs| ==> segs[j].used >= 0
    ensures oldest < Earliest(segs, oldest) <= top || Earliest(segs, oldest) == MAX_INT64
  {
    if segs != [] { EarliestWithin(segs[..|segs| - 1], oldest, top); }
  }

  lemma {:induction false} SameWhenDivisible(segs: seq<Segment>, p: Policy, cost: int, now: int)
    requires 0 < p.period && p.period % SEGMENTS == 0 && Unwrapped(p.period)
    requires ClockInRange(now, p.period) && Placed(segs, p.period, now)
    ensures SameStep(segs, p, cost, now)
  {
    hide LiveUsed, Earliest, Width, Index, Oldest, Wrap64, NanoIndex, NanoOldest, Opened, Expired, Charged;
    IndexUnits(now, p.period);
    UnwrappedFrom(now, p.period);
    NothingWraps(segs, p, now);
    ResetUnits(Earliest(segs, Oldest(now, p.period)), p.period);
  }

  /** A ring with one unit used, in the segment of `now`. */
  function OneUnit(now: int, period: int): (segs: seq<Segment>)
    requires 0 < period
    ensures Placed(segs, period, now)
  {
    EmptySegments()[Index(now, period) % SEGMENTS := Segment(Index(now, period), 1)]
  }

  lemma {:induction false} OneUnitUsed(now: int, period: int, oldest: int)
    requires 0 < period
    ensures var i := Index(now, period);
            && LiveUsed(OneUnit(now, period), oldest) == (if i > oldest then 1 else 0)
            && (i > oldest && i < MAX_INT64 ==> Earliest(OneUnit(now, period), oldest) == i)
            && (i <= oldest ==> Earliest(OneUnit(now, period), oldest) == MAX_INT64)
  {
    var i := Index(now, period);
    OneUsed(i, i % SEGMENTS, oldest, SEGMENTS);
    var segs := EmptySegments()[i % SEGMENTS := Segment(i, 1)];
    assert segs[..SEGMENTS] == segs;
  }

  lemma {:induction false} OneUsed(i: int, slot: int, oldest: int, n: int)
    requires 0 <= slot < SEGMENTS && 0 <= n <= SEGMENTS
    ensures var segs := EmptySegments()[slot := Segment(i, 1)][..n];
            && LiveUsed(segs, oldest) == (if slot < n && i > oldest then 1 else 0)
            && (slot < n && oldest < i < MAX_INT64 ==> Earliest(segs, oldest) == i)
            && (slot >= n || i <= oldest ==> Earliest(segs, oldest) == MAX_INT64)
  {
    if n > 0 {
      var segs := EmptySegments()[slot := Segment(i, 1)];
      assert segs[..n][..n - 1] == segs[..n - 1];
      OneUsed(i, slot, oldest, n - 1);
    }
  }

  /** One unit used in segment 0: the next Reset already shows the width, or that the segment was lost. */
  lemma {:induction false} WidthShows(p: Policy, cost: int)
    requires 0 < p.period <= MAX_EXACT && p.period % SEGMENTS != 0
    ensures !SameStep(OneUnit(0, p.period), p, cost, 0)
  {
    hide LiveUsed, Earliest, Opened, Expired, Charged, NanoIndex, NanoOldest, Oldest, OneUnit;
    var w, s := Width(p.period), Size(p.period);
    LiveSpan(0, p.period);
    DivBounds(0, w);
    WidthUnits(p.period);
    OneUnitUsed(0, p.period, Oldest(0, p.period));
    OneUnitUsed(0, p.period, NanoOldest(0, p.period));
    SizePositive(p.period);
  }

  /** Where the earliest window wraps, the memory code forgets a unit used in the current segment. */
  lemma {:induction false} WrapShows(p: Policy, cost: int)
    requires 0 < p.period <= MAX_EXACT && 1 <= p.Limit() && !Unwrapped(p.period) && p.period % SEGMENTS == 0
    ensures ClockInRange(-MAX_EXACT, p.period) && !SameStep(OneUnit(-MAX_EXACT, p.period), p, cost, -MAX_EXACT)
  {
    hide LiveUsed, Earliest, Opened, Expired, Charged, NanoIndex, NanoOldest, Oldest, OneUnit, Width, Wrap64;
    var low := -MAX_EXACT;
    OldestWraps(low, p.period);
    IndexUnits(low, p.period);
    LiveSpan(low, p.period);
    OneUnitUsed(low, p.period, Oldest(low, p.period));
    OneUnitUsed(low, p.period, NanoOldest(low, p.period));
  }

  /** The memory and PostgreSQL sliding windows give the same answer, Reset included, from every placed ring and at
      every accepted instant, if and only if sixteen divides the period and the earliest window starts within an int64
      of nanoseconds. */
  lemma {:induction false} SlidingUnitsExact(p: Policy, cost: int)
    requires 0 < p.period <= MAX_EXACT && 1 <= p.Limit()
    ensures (forall segs, now ::
               ClockInRange(now, p.period) && Placed(segs, p.period, now) ==> SameStep(segs, p, cost, now))
            <==> p.period % SEGMENTS == 0 && Unwrapped(p.period)
  {
    hide SameStep, Width, Unwrapped, OneUnit;
    if p.period % SEGMENTS != 0 {
      WidthShows(p, cost);
    } else if !Unwrapped(p.period) {
      WrapShows(p, cost);
    } else {
      forall segs, now | ClockInRange(now, p.period) && Placed(segs, p.period, now)
        ensures SameStep(segs, p, cost, now)
      {
        SameWhenDivisible(segs, p, cost, now);
      }
    }
  }

  /** Six years are within that condition, whatever the alignment of segments. */
  lemma {:induction false} ShortUnwrapped(period: int)
    requires 0 < period <= 203_456_736_107_000
    ensures Unwrapped(period)
  {
    SizePositive(period);
    FloorProduct(BOTTOM - NANOS * period, Size(period));
  }

  /** With a limit of one, memory then admits a second request at the earliest instant, and PostgreSQL rejects it. */
  lemma {:induction false} WrapAdmits(p: Policy)
    requires 0 < p.period <= MAX_EXACT && p.Limit() == 1 && !Unwrapped(p.period) && p.period % SEGMENTS == 0
    ensures var ring := OneUnit(-MAX_EXACT, p.period);
            !MemorySliding(ring, p, 1, -MAX_EXACT).rejected && SlidingStep(ring, p, 1, -MAX_EXACT).rejected
  {
    hide LiveUsed, Earliest, Opened, Expired, Charged, NanoIndex, NanoOldest, Oldest, OneUnit, Width, Wrap64;
    var low := -MAX_EXACT;
    OldestWraps(low, p.period);
    IndexUnits(low, p.period);
    LiveSpan(low, p.period);
    OneUnitUsed(low, p.period, Oldest(low, p.period));
    OneUnitUsed(low, p.period, NanoOldest(low, p.period));
  }

  /** A period of about 158 years is such a one. */
  lemma LongPeriodWraps()
    ensures !Unwrapped(5_000_000_000_000_000) && 5_000_000_000_000_000 % SEGMENTS == 0
  {
  }

  // -------------------------------------------------------- runs of the ring

  /** An index a request has left: a true one up to the clock's, or the one the first segment is misfiled under. */
  ghost predicate FiledIndex(index: int, period: int, now: int)
    requires 0 < period
  {
    || (index <= TrueIndex(now, period) && index * Size(period) >= MIN_INT64)
    || (Misfiled(period) && index == Stale(period))
  }

  ghost predicate Filed(segs: seq<Segment>, period: int, now: int)
    requires 0 < period
  {
    && |segs| == SEGMENTS
    && forall j :: 0 <= j < SEGMENTS ==>
         segs[j].used >= 0 && (segs[j].used > 0 ==> FiledIndex(segs[j].index, period, now))
  }

  lemma {:induction false} FiledLater(segs: seq<Segment>, period: int, before: int, now: int)
    requires 0 < period && Filed(segs, period, before) && before <= now
    ensures Filed(segs, period, now)
  {
    SizePositive(period);
    DivMonotone(NANOS * before, NANOS * now, Size(period));
  }

  lemma {:induction false} EarliestUsed(segs: seq<Segment>, oldest: int)
    requires forall j :: 0 <= j < |segs| ==> segs[j].used >= 0
    ensures var e := Earliest(segs, oldest);
            e != MAX_INT64 ==> exists j :: 0 <= j < |segs| && segs[j].used > 0 && segs[j].index == e > oldest
  {
    if segs != [] {
      var rest := segs[..|segs| - 1];
      EarliestUsed(rest, oldest);
      var e := Earliest(segs, oldest);
      if e != MAX_INT64 && e == Earliest(rest, oldest) {
        var j :| 0 <= j < |rest| && rest[j].used > 0 && rest[j].index == e > oldest;
        assert segs[j] == rest[j];
      }
    }
  }

  /** Unless the misfiled segment is overdue, a live segment's Reset is not before now. */
  lemma {:induction false} FiledInOrder(e: int, period: int, now: int)
    requires 0 < period <= MAX_EXACT && ClockInRange(now, period) && !Overdue(period)
    requires FiledIndex(e, period, now) && e > NanoOldest(now, period)
    ensures Wrap64((e + 1) * Size(period)) + NANOS * period >= NANOS * now
  {
    hide Wrap64, Size, Overdue, NanoOldest, TrueOldest, TrueIndex, Misfiled, Stale;
    if Misfiled(period) && e == Stale(period) {
      StaleInOrder(now, period);
    } else if TrueOldest(now, period) * Size(period) < MIN_INT64 {
      OldestWraps(now, period);
    } else {
      OldestTrue(now, period);
      SegmentsFit(now, period);
      ProductFits(TrueOldest(now, period), e, TrueIndex(now, period), Size(period), NANOS * now, NANOS * period);
      TrueOldestEnds(e, period, now);
    }
  }

  lemma {:induction false} TrueOldestEnds(e: int, period: int, now: int)
    requires 0 < period && e > TrueOldest(now, period)
    ensures (e + 1) * Size(period) + NANOS * period > NANOS * now
  {
    hide Width;
    SizePositive(period);
    DivBounds(NANOS * now - NANOS * period, Size(period));
    MulMonotone(TrueOldest(now, period) + 1, e + 1, Size(period));
  }

  lemma {:induction false} FiledReset(segs: seq<Segment>, period: int, now: int)
    requires 0 < period <= MAX_EXACT && ClockInRange(now, period) && !Overdue(period) && Filed(segs, period, now)
    ensures var e := Earliest(segs, NanoOldest(now, period));
            e != MAX_INT64 ==> Wrap64((e + 1) * Size(period)) + NANOS * period >= NANOS * now
  {
    hide Wrap64, Size, Overdue, NanoOldest, FiledIndex, Earliest;
    var e := Earliest(segs, NanoOldest(now, period));
    EarliestUsed(segs, NanoOldest(now, period));
    if e != MAX_INT64 { FiledInOrder(e, period, now); }
  }

  lemma {:induction false} FiledNow(period: int, now: int)
    requires 0 < period && ClockInRange(now, period)
    ensures FiledIndex(NanoIndex(now, period), period, now)
  {
    hide NanoIndex, Size, Stale, Misfiled, TrueIndex;
    if TrueIndex(now, period) * Size(period) < MIN_INT64 { IndexStale(now, period); } else { IndexTrue(now, period); }
  }

  lemma {:induction false} FiledStep(segs: seq<Segment>, p: Policy, cost: int, now: int)
    requires 0 < p.period && ClockInRange(now, p.period) && 0 <= cost && Filed(segs, p.period, now)
    ensures Filed(MemorySliding(segs, p, cost, now).segs, p.period, now)
  {
    hide LiveUsed, Earliest, NanoIndex, NanoOldest, Wrap64, FiledIndex, NanoConsume;
    FiledNow(p.period, now);
  }

  /** The first request of a ring leaves one segment. */
  lemma {:induction false} FirstUnit(p: Policy, now: int)
    requires 0 < p.period && 1 <= p.Limit()
    ensures var i := NanoIndex(now, p.period);
            MemorySliding(EmptySegments(), p, 1, now).segs == EmptySegments()[i % SEGMENTS := Segment(i, 1)]
  {
    hide NanoIndex, NanoOldest, Wrap64;
    EmptyUsed(NanoOldest(now, p.period), SEGMENTS);
    assert EmptySegments()[..SEGMENTS] == EmptySegments();
  }

  lemma {:induction false} EmptyUsed(oldest: int, n: int)
    requires 0 <= n <= SEGMENTS
    ensures LiveUsed(EmptySegments()[..n], oldest) == 0
  {
    if n > 0 {
      assert EmptySegments()[..n][..n - 1] == EmptySegments()[..n - 1];
      EmptyUsed(oldest, n - 1);
    }
  }

  lemma {:induction false} StaleFits(period: int)
    requires 0 < period && Misfiled(period)
    ensures Stale(period) < MAX_INT64
  {
    hide Stale, First, Size;
    StaleBounds(period);
    if Stale(period) >= MAX_INT64 { MulMonotone(MAX_INT64, Stale(period), Size(period)); }
  }

  /** The Reset a lone segment yields while it is live. */
  lemma {:induction false} LoneReset(i: int, p: Policy, now: int)
    requires 0 < p.period && NanoOldest(now, p.period) < i < MAX_INT64
    ensures var ring := EmptySegments()[i % SEGMENTS := Segment(i, 1)];
            MemorySliding(ring, p, 1, now).decision.reset == Wrap64((i + 1) * Size(p.period)) + NANOS * p.period
  {
    hide NanoIndex, NanoOldest, Wrap64, Size, Earliest, LiveUsed, Opened, Expired, Charged;
    OneUsed(i, i % SEGMENTS, NanoOldest(now, p.period), SEGMENTS);
    var ring := EmptySegments()[i % SEGMENTS := Segment(i, 1)];
    assert ring[..SEGMENTS] == ring;
  }

  /** Where it is overdue, the earliest and the latest accepted instants show it: one request at each. */
  lemma {:induction false} OverdueShows(p: Policy)
    requires 0 < p.period <= MAX_EXACT && 1 <= p.Limit() && Overdue(p.period)
    ensures var latest := MAX_EXACT - p.period;
            var ring := MemorySliding(EmptySegments(), p, 1, -MAX_EXACT).segs;
            && ClockInRange(-MAX_EXACT, p.period) && ClockInRange(latest, p.period) && -MAX_EXACT <= latest
            && MemorySliding(ring, p, 1, latest).decision.reset < NANOS * latest
  {
    hide NanoIndex, NanoOldest, Wrap64, Stale, Size, MemorySliding;
    FirstUnit(p, -MAX_EXACT);
    IndexStale(-MAX_EXACT, p.period);
    OverdueReset(p.period);
    StaleFits(p.period);
    LoneReset(Stale(p.period), p, MAX_EXACT - p.period);
  }
}
