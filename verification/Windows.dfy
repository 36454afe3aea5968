// Fixed and sliding windows as specifications on values, and the sliding
// ring's relation to the unbounded log of admissions it stands for.
module Windows {
  import opened Arithmetic
  import opened Policies

  const SEGMENTS: int := 16
  const MAX_INT64: int := 0x7fff_ffff_ffff_ffff

  datatype Segment = Segment(index: int, used: int)

  const EMPTY := Segment(0, 0)

  /** A ring nothing has been admitted into. */
  function EmptySegments(): (r: seq<Segment>)
    ensures |r| == SEGMENTS && forall j :: 0 <= j < SEGMENTS ==> r[j] == EMPTY
  {
    seq(SEGMENTS, j => EMPTY)
  }

  datatype Consumed = Consumed(used: int, decision: Decision, rejected: bool)

  /** consume: charge `cost` against what the window has left. */
  function Consume(used: int, p: Policy, cost: int, now: int, reset: int): Consumed
  {
    var limit := p.Limit();
    var remaining := limit - Min(used, limit);
    if cost > remaining then
      Consumed(used, Decision(false, remaining, limit, reset, Max(SatSub(reset, now), 0), Limited, "", ""), true)
    else
      Consumed(used + cost, Decision(true, limit - (used + cost), limit, reset, 0, Allowed, "", ""), false)
  }

  // ------------------------------------------------------------ fixed window

  datatype FixedResult = FixedResult(window: int, used: int, carried: bool, decision: Decision, rejected: bool)

  function FixedStep(window: int, used: int, p: Policy, cost: int, now: int): FixedResult
    requires 0 < p.period
  {
    var current := Floor(now, p.period);
    var c := Consume(if window != current then 0 else used, p, cost, now, current + p.period);
    FixedResult(current, c.used, c.used > p.Limit(), c.decision, c.rejected)
  }

  /** A rejected fixed-window request is admitted, absent others, exactly from Reset on. */
  lemma {:induction false} FixedRetryExact(window: int, used: int, p: Policy, cost: int, now: int, t: int)
    requires 0 < p.period && 1 <= cost <= p.Limit() && 0 <= used && now <= t
    requires FixedStep(window, used, p, cost, now).rejected
    ensures var r := FixedStep(window, used, p, cost, now);
            !FixedStep(r.window, r.used, p, cost, t).rejected <==> t >= r.decision.reset
  {
    var w := Floor(now, p.period);
    if t < w + p.period {
      DivUnique(t, p.period, now / p.period);
    } else {
      DivMonotone(w + p.period, t, p.period);
      DivShift(w, 1, p.period);
    }
  }

  // ---------------------------------------------------------- sliding window

  function Width(period: int): int { (period + SEGMENTS - 1) / SEGMENTS }

  /** The segment an instant falls in. */
  function Index(now: int, period: int): int
    requires 0 < period
  {
    now / Width(period)
  }

  /** The newest segment that has left the window at an instant. */
  function Oldest(now: int, period: int): int
    requires 0 < period
  {
    (now - period) / Width(period)
  }

  /** Live segment indices span at most the sixteen slots of the ring. */
  lemma {:induction false} LiveSpan(now: int, period: int)
    requires 0 < period
    ensures 1 <= Width(period) <= period <= SEGMENTS * Width(period)
    ensures Oldest(now, period) < Index(now, period) <= Oldest(now, period) + SEGMENTS
  {
    var w := Width(period);
    DivBounds(period + SEGMENTS - 1, SEGMENTS);
    DivMonotone(now - SEGMENTS * w, now - period, w);
    DivShift(now, -SEGMENTS, w);
    DivMonotone(now - period, now - w, w);
    DivShift(now, -1, w);
  }

  function Live(s: Segment, oldest: int): int { if s.index > oldest then s.used else 0 }

  /** Usage the ring still counts once everything up to `oldest` has left the window. */
  function LiveUsed(segs: seq<Segment>, oldest: int): int
  {
    if segs == [] then 0
    else LiveUsed(segs[..|segs| - 1], oldest) + Live(segs[|segs| - 1], oldest)
  }

  /** Least live index with usage, or the int64 maximum. */
  function Earliest(segs: seq<Segment>, oldest: int): int
  {
    if segs == [] then MAX_INT64
    else
      var s := segs[|segs| - 1];
      var rest := Earliest(segs[..|segs| - 1], oldest);
      if s.index > oldest && s.used != 0 then Min(rest, s.index) else rest
  }

  function Expire(s: Segment, oldest: int): Segment { if s.index <= oldest then EMPTY else s }

  function Expired(segs: seq<Segment>, oldest: int): (r: seq<Segment>)
    ensures |r| == |segs|
    ensures forall j :: 0 <= j < |segs| ==> r[j] == Expire(segs[j], oldest)
  {
    seq(|segs|, j requires 0 <= j < |segs| => Expire(segs[j], oldest))
  }

  /** The ring with the slot of segment `index` set to that segment. */
  function Opened(segs: seq<Segment>, index: int): (r: seq<Segment>)
    requires |segs| == SEGMENTS
    ensures |r| == SEGMENTS && r[index % SEGMENTS].index == index
  {
    var slot := index % SEGMENTS;
    if segs[slot].index != index then segs[slot := Segment(index, 0)] else segs
  }

  function Charged(segs: seq<Segment>, slot: int, cost: int): seq<Segment>
    requires 0 <= slot < |segs|
  {
    segs[slot := Segment(segs[slot].index, segs[slot].used + cost)]
  }

  datatype SlidingResult = SlidingResult(segs: seq<Segment>, used: int, carried: bool, decision: Decision,
    rejected: bool)

  function SlidingStep(segs: seq<Segment>, p: Policy, cost: int, now: int): SlidingResult
    requires 0 < p.period && |segs| == SEGMENTS
  {
    var width := Width(p.period);
    var index := Index(now, p.period);
    var oldest := Oldest(now, p.period);
    var used := LiveUsed(segs, oldest);
    var earliest := Earliest(segs, oldest);
    var current := Opened(Expired(segs, oldest), index);
    var reset := if earliest != MAX_INT64 then (earliest + 1) * width + p.period else now + p.period;
    var c := Consume(used, p, cost, now, reset);
    var next := if c.rejected then current else Charged(current, index % SEGMENTS, cost);
    SlidingResult(next, c.used, used > p.Limit(), c.decision, c.rejected)
  }

  // ----------------------------------------------------- ring and ghost log

  datatype Entry = Entry(time: int, cost: int)

  /** Cost of the admissions in segments after `oldest`, from the full log. */
  ghost function LogSince(log: seq<Entry>, width: int, oldest: int): int
    requires 0 < width
  {
    if log == [] then 0
    else
      var e := log[|log| - 1];
      LogSince(log[..|log| - 1], width, oldest) + if e.time / width > oldest then e.cost else 0
  }

  /** Cost admitted in one segment, from the full log. */
  ghost function LogAt(log: seq<Entry>, width: int, index: int): int
    requires 0 < width
  {
    if log == [] then 0
    else
      var e := log[|log| - 1];
      LogAt(log[..|log| - 1], width, index) + if e.time / width == index then e.cost else 0
  }

  /** Every slot with usage sits where its index says, no later than the current segment. */
  ghost predicate Placed(segs: seq<Segment>, period: int, observed: int)
    requires 0 < period
  {
    && |segs| == SEGMENTS
    && (forall j :: 0 <= j < SEGMENTS ==> segs[j].used >= 0)
    && (forall j :: 0 <= j < SEGMENTS && segs[j].used > 0 ==>
          segs[j].index % SEGMENTS == j && segs[j].index <= Index(observed, period))
  }

  /** The ring answers every question the log would, from the current window on. */
  ghost predicate RingLog(segs: seq<Segment>, log: seq<Entry>, period: int, observed: int)
    requires 0 < period
  {
    && Placed(segs, period, observed)
    && 1 <= Width(period)
    && (forall o :: o >= Oldest(observed, period) ==> LiveUsed(segs, o) == LogSince(log, Width(period), o))
    && (forall k :: 0 <= k < |log| ==> log[k].time <= observed && log[k].cost >= 0)
  }

  lemma {:induction false} LiveUsedUpdate(segs: seq<Segment>, j: int, s: Segment, oldest: int)
    requires 0 <= j < |segs|
    ensures LiveUsed(segs[j := s], oldest) == LiveUsed(segs, oldest) - Live(segs[j], oldest) + Live(s, oldest)
  {
    var n := |segs| - 1;
    if j == n {
      assert segs[j := s][..n] == segs[..n];
    } else {
      assert segs[j := s][..n] == segs[..n][j := s];
      LiveUsedUpdate(segs[..n], j, s, oldest);
    }
  }

  lemma {:induction false} LiveUsedExpired(segs: seq<Segment>, oldest: int, o: int)
    requires o >= oldest
    ensures LiveUsed(Expired(segs, oldest), o) == LiveUsed(segs, o)
  {
    if segs != [] {
      var n := |segs| - 1;
      assert Expired(segs, oldest)[..n] == Expired(segs[..n], oldest);
      LiveUsedExpired(segs[..n], oldest, o);
    }
  }

  lemma {:induction false} LiveUsedNonNegative(segs: seq<Segment>, o: int)
    requires forall j :: 0 <= j < |segs| ==> segs[j].used >= 0
    ensures LiveUsed(segs, o) >= 0
    ensures forall j :: 0 <= j < |segs| ==> Live(segs[j], o) <= LiveUsed(segs, o)
  {
    if segs != [] { LiveUsedNonNegative(segs[..|segs| - 1], o); }
  }

  lemma {:induction false} LiveUsedShrinks(segs: seq<Segment>, a: int, b: int)
    requires a <= b && forall j :: 0 <= j < |segs| ==> segs[j].used >= 0
    ensures LiveUsed(segs, b) <= LiveUsed(segs, a)
  {
    if segs != [] { LiveUsedShrinks(segs[..|segs| - 1], a, b); }
  }

  /** Two live indices in one slot are the same index: sixteen slots are enough. */
  lemma {:induction false} SameSlot(a: int, b: int, oldest: int)
    requires oldest < a <= b <= oldest + SEGMENTS
    requires a % SEGMENTS == b % SEGMENTS
    ensures a == b
  {
    DivBounds(a, SEGMENTS);
    DivBounds(b, SEGMENTS);
  }

  /** The slot of the current segment holds that segment or nothing live. */
  lemma {:induction false} CurrentSlotFree(segs: seq<Segment>, period: int, observed: int, now: int)
    requires 0 < period && Placed(segs, period, observed) && observed <= now
    ensures var slot := Index(now, period) % SEGMENTS;
            segs[slot].index > Oldest(now, period) && segs[slot].index != Index(now, period) ==> segs[slot].used == 0
  {
    LiveSpan(now, period);
    DivMonotone(observed, now, Width(period));
    var slot := Index(now, period) % SEGMENTS;
    if segs[slot].index > Oldest(now, period) && segs[slot].used > 0 {
      SameSlot(segs[slot].index, Index(now, period), Oldest(now, period));
    }
  }

  /** No live slot is ever overwritten. */
  lemma {:induction false} LiveSlotKept(segs: seq<Segment>, p: Policy, observed: int, cost: int, now: int, j: int)
    requires 0 < p.period && Placed(segs, p.period, observed) && observed <= now && 0 <= cost
    requires 0 <= j < SEGMENTS && segs[j].used > 0 && segs[j].index > Oldest(now, p.period)
    ensures var next := SlidingStep(segs, p, cost, now).segs[j];
            next.index == segs[j].index && next.used >= segs[j].used
  {
    CurrentSlotFree(segs, p.period, observed, now);
  }

  lemma {:induction false} PlacedStep(segs: seq<Segment>, p: Policy, observed: int, cost: int, now: int)
    requires 0 < p.period && Placed(segs, p.period, observed) && observed <= now && 0 <= cost
    ensures Placed(SlidingStep(segs, p, cost, now).segs, p.period, now)
  {
    LiveSpan(now, p.period);
    DivMonotone(observed, now, Width(p.period));
  }

  /** How one step changes what the ring counts, for every cut-off from the current window on. */
  lemma {:induction false} StepUsage(segs: seq<Segment>, p: Policy, observed: int, cost: int, now: int, o: int)
    requires 0 < p.period && Placed(segs, p.period, observed) && observed <= now && 0 <= cost
    requires o >= Oldest(now, p.period)
    ensures var r := SlidingStep(segs, p, cost, now);
            LiveUsed(r.segs, o) == LiveUsed(segs, o) + if !r.rejected && Index(now, p.period) > o then cost else 0
  {
    var index, oldest := Index(now, p.period), Oldest(now, p.period);
    var slot := index % SEGMENTS;
    var cleared := Expired(segs, oldest);
    LiveUsedExpired(segs, oldest, o);
    CurrentSlotFree(segs, p.period, observed, now);
    LiveUsedUpdate(cleared, slot, Segment(index, 0), o);
    var current := Opened(cleared, index);
    assert LiveUsed(current, o) == LiveUsed(segs, o);
    LiveUsedUpdate(current, slot, Segment(index, current[slot].used + cost), o);
  }
}
