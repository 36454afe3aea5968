// The strict Lua script decides as the PostgreSQL state machine does, step by
// step and so over whole runs.
module ValkeyRuns {
  import opened Arithmetic
  import opened Policies
  import opened TokenBucket
  import opened Windows
  import opened States
  import opened StrictRuns
  import opened Binary64
  import opened Valkey

  // ------------------------------------------------------------ token bucket

  /** The guard saturates only a bucket that is full anyway, and below it binary64 is exact. */
  lemma {:induction false} LuaRefillExact(fl: real -> real, b: Bucket, p: Policy, now: int)
    requires Rounding(fl) && TokenPolicy(p) && Sound(b, p) && b.last <= now
    ensures LuaRefill(fl, b, p, now) == Refill(b, p, now)
  {
    hide FloorDiv, Num, Rounding, ExactProduct;
    var elapsed := now - b.last;
    var room := MAX_EXACT - b.remainder;
    PeriodBound(p);
    NumInside(fl, elapsed, 0);
    if elapsed > 0 && b.tokens < p.Limit() {
      FloorDivExact(fl, room, p.capacity);
      GuardBound(room, p.capacity);
      NumInside(fl, elapsed, room / p.capacity);
      if elapsed > room / p.capacity {
        assert p.Limit() * p.period <= MAX_EXACT by { assert ExactProduct(p.Limit(), p.period); ProductBound(p); }
        GuardFull(p.Limit(), p.period, p.capacity, b.tokens, b.remainder, elapsed);
      } else {
        NumExact(fl, elapsed);
        BelowGuard(p.capacity, b.remainder, elapsed, room);
        RefillBelow(fl, b, p, elapsed);
      }
    }
  }

  lemma ProductBound(p: Policy)
    requires p.Valid() && p.algorithm != Concurrency
    ensures p.Limit() * p.period <= MAX_EXACT
  {
    assert ExactProduct(p.Limit(), p.period);
  }

  lemma {:induction false} PeriodFits(p: Policy)
    requires p.Valid() && p.algorithm != Concurrency
    ensures p.period <= MAX_EXACT
  {
    MulMonotone(1, p.Limit(), p.period);
  }

  lemma {:induction false} RefillBelow(fl: real -> real, b: Bucket, p: Policy, elapsed: int)
    requires Rounding(fl) && 0 < p.period && 0 < p.capacity && 0 <= b.tokens < p.Limit() <= MAX_EXACT &&
             0 <= b.remainder
    requires 0 <= elapsed * p.capacity && elapsed * p.capacity + b.remainder <= MAX_EXACT
    ensures var numerator := Num(fl, Num(fl, elapsed * p.capacity) + b.remainder);
            var added := FloorDiv(fl, numerator, p.period);
            && numerator == elapsed * p.capacity + b.remainder
            && added == numerator / p.period
            && numerator - Num(fl, added * p.period) == numerator % p.period
            && Min(p.Limit(), Num(fl, b.tokens + added)) == Min(p.Limit(), b.tokens + added)
  {
    hide FloorDiv, Num, Rounding;
    var n := elapsed * p.capacity + b.remainder;
    NumExact(fl, elapsed * p.capacity);
    NumExact(fl, n);
    FloorDivExact(fl, n, p.period);
    DivBounds(n, p.period);
    GuardBound(n, p.period);
    NumExact(fl, n / p.period * p.period);
    NumInside(fl, b.tokens + n / p.period, p.Limit());
    if b.tokens + n / p.period <= p.Limit() { NumExact(fl, b.tokens + n / p.period); }
  }

  lemma {:induction false} GuardBound(room: int, capacity: int)
    requires 0 <= room <= MAX_EXACT && 1 <= capacity
    ensures 0 <= room / capacity <= MAX_EXACT
  {
    DivBounds(room, capacity);
    DivMonotone(0, room, capacity);
    MulMonotone(1, capacity, room / capacity);
  }

  lemma {:induction false} GuardFull(limit: int, period: int, capacity: int, tokens: int, remainder: int, elapsed: int)
    requires 0 < period && 1 <= capacity && 0 <= tokens && limit * period <= MAX_EXACT
    requires elapsed > (MAX_EXACT - remainder) / capacity
    ensures (elapsed * capacity + remainder) / period >= limit - tokens
  {
    DivBounds(MAX_EXACT - remainder, capacity);
    MulMonotone((MAX_EXACT - remainder) / capacity + 1, elapsed, capacity);
    DivMonotone(limit * period, elapsed * capacity + remainder, period);
    DivShift(0, limit, period);
  }

  lemma {:induction false} BelowGuard(capacity: int, remainder: int, elapsed: int, room: int)
    requires 1 <= capacity && 0 <= elapsed <= room / capacity && 0 <= remainder && room == MAX_EXACT - remainder
    ensures 0 <= elapsed * capacity && elapsed * capacity + remainder <= MAX_EXACT
  {
    DivBounds(room, capacity);
    MulMonotone(elapsed, room / capacity, capacity);
    MulMonotone(0, elapsed, capacity);
  }

  lemma {:induction false} CeilingExact(fl: real -> real, value: int, divisor: int)
    requires Rounding(fl) && 0 < divisor && 0 <= value <= MAX_EXACT
    ensures Ceiling(fl, value, divisor) == CeilDiv(value, divisor)
  {
    hide CeilDiv;
    FloorDivExact(fl, value - 1, divisor);
    DivBounds(value - 1, divisor);
    var q := (value - 1) / divisor;
    assert (q + 1 - 1) * divisor == q * divisor && (q + 1) * divisor == q * divisor + divisor;
    CeilDivUnique(value, divisor, q + 1);
  }

  /** Neither product nor ceiling rounds, so waits are those of the Go code. */
  lemma {:induction false} LuaWaitExact(fl: real -> real, tokens: int, remainder: int, p: Policy)
    requires Rounding(fl) && TokenPolicy(p) && 0 <= tokens <= p.Limit() && 0 <= remainder < p.period
    requires tokens == 0 ==> remainder == 0
    ensures LuaWait(fl, tokens, remainder, p) == Wait(tokens, remainder, p) >= 0
  {
    hide FloorDiv, Num, Rounding, CeilDiv;
    ProductBound(p);
    MulMonotone(tokens, p.Limit(), p.period);
    MulMonotone(0, tokens, p.period);
    if tokens > 0 { MulMonotone(1, tokens, p.period); }
    NumExact(fl, tokens * p.period);
    CeilingExact(fl, tokens * p.period - remainder, p.capacity);
    WaitPositive(tokens, remainder, p);
    if tokens == 0 { CeilDivUnique(0, p.capacity, 0); }
  }

  /** The verdict a reply carries. Reset is exact as long as it is within the exact range. */
  ghost predicate SameVerdict(reply: Reply, d: Decision, rejected: bool)
  {
    && reply.Replied? && reply.allowed == d.allowed == !rejected
    && reply.remaining == d.remaining && reply.limit == d.limit
    && (ValidPersistedMicros(d.reset) ==> reply.reset == d.reset)
  }

  ghost predicate SameAnswer(reply: Reply, d: Decision, rejected: bool)
  {
    SameVerdict(reply, d, rejected) && reply.retry == d.retryAfter
  }

  /** A sliding RetryAfter is formed from Reset, so it is exact where Reset and their distance are. */
  ghost predicate SameSlidingAnswer(reply: Reply, d: Decision, rejected: bool)
  {
    && SameVerdict(reply, d, rejected)
    && (!rejected || (ValidPersistedMicros(d.reset) && ValidPersistedMicros(d.reset - reply.now)) ==>
         reply.retry == d.retryAfter)
  }

  lemma {:induction false} LuaTokenAgrees(fl: real -> real, h: Hash, p: Policy, cost: int, now: int)
    requires Rounding(fl) && TokenPolicy(p) && 1 <= cost <= p.Limit() && TokenFieldsOk(h, p) && h.last <= now
    requires h.revision == p.revision ==> Sound(Bucket(h.tokens, h.remainder, h.last), p)
    ensures var loaded := if h.revision != p.revision then Bucket(Min(h.tokens, p.Limit()), 0, now)
                          else Bucket(h.tokens, h.remainder, h.last);
            var t := TokenStep(loaded, p, cost, now);
            var reply := LuaToken(fl, h, p, cost, now);
            && SameAnswer(reply, t.decision, t.rejected) && reply.now == now
            && reply.hash == Touched(h.(tokens := t.bucket.tokens, remainder := t.bucket.remainder), p, now, h.carried)
  {
    hide LuaRefill, Refill, LuaWait, Wait, Num, Rounding;
    var loaded := if h.revision != p.revision then Bucket(Min(h.tokens, p.Limit()), 0, now)
                  else Bucket(h.tokens, h.remainder, h.last);
    LuaRefillExact(fl, loaded, p, now);
    RefillSound(loaded, p, now);
    var full := Refill(loaded, p, now);
    var t := TokenStep(loaded, p, cost, now);
    LuaWaitExact(fl, p.Limit() - t.bucket.tokens, full.remainder, p);
    if full.tokens < cost { LuaWaitExact(fl, cost - full.tokens, full.remainder, p); }
    if ValidPersistedMicros(t.decision.reset) { NumExact(fl, t.decision.reset); }
  }

  // ------------------------------------------------------------ fixed window

  /** The rounded window start is the Go one wherever the Go one is in range, and out of range where it is not. */
  lemma {:induction false} LuaWindowExact(fl: real -> real, now: int, period: int)
    requires Rounding(fl) && 0 < period && ValidPersistedMicros(now)
    ensures ValidPersistedMicros(LuaWindow(fl, now, period)) <==> ValidPersistedMicros(Floor(now, period))
    ensures ValidPersistedMicros(Floor(now, period)) ==> LuaWindow(fl, now, period) == Floor(now, period)
  {
    hide FloorDiv, Num, Rounding;
    FloorDivExact(fl, now, period);
    NumInside(fl, now / period * period, MAX_EXACT);
    if ValidPersistedMicros(now / period * period) { NumExact(fl, now / period * period); }
  }

  lemma {:induction false} LuaConsumeAgrees(fl: real -> real, h: Hash, p: Policy, cost: int, now: int, window: int)
    requires Rounding(fl) && 1 <= cost && 1 <= p.Limit() <= MAX_EXACT && 0 < p.period <= MAX_EXACT
    requires ClockInRange(now, p.period) && ValidPersistedMicros(window) && window <= now < window + p.period
    requires ValidPersistedMicros(h.window) && 0 <= h.used <= MAX_EXACT
    requires h.revision == p.revision && h.used > p.Limit() ==> h.carried
    ensures var c := Consume(if h.window != window then 0 else h.used, p, cost, now, window + p.period);
            var reply := LuaFixed(fl, h, p, cost, now, window);
            && SameAnswer(reply, c.decision, c.rejected) && reply.now == now
            && reply.hash == Touched(h.(window := window, used := c.used), p, now, c.used > p.Limit())
  {
    hide Num, Rounding;
    NumExact(fl, window + p.period);
    NumExact(fl, window + p.period - now);
  }

  lemma {:induction false} LuaFixedAgrees(fl: real -> real, h: Hash, p: Policy, cost: int, now: int)
    requires Rounding(fl) && p.Valid() && p.algorithm == FixedWindow && 1 <= cost <= p.Limit()
    requires ClockInRange(now, p.period) && ValidPersistedMicros(Floor(now, p.period))
    requires ValidPersistedMicros(h.window) && 0 <= h.used <= MAX_EXACT
    requires h.revision == p.revision && h.used > p.Limit() ==> h.carried
    ensures var s := FixedStep(h.window, h.used, p, cost, now);
            var reply := LuaFixed(fl, h, p, cost, now, LuaWindow(fl, now, p.period));
            && SameAnswer(reply, s.decision, s.rejected) && reply.now == now
            && reply.hash == Touched(h.(window := s.window, used := s.used), p, now, s.carried)
  {
    hide LuaFixed, LuaWindow, ExactProduct, Consume, Rounding;
    PeriodFits(p);
    LuaWindowExact(fl, now, p.period);
    LuaConsumeAgrees(fl, h, p, cost, now, Floor(now, p.period));
  }

  // ---------------------------------------------------------- sliding window

  /** The last segment before any instant the code accepts. */
  function Before(period: int): int
    requires 0 < period
  {
    Index(-MAX_EXACT, period) - 1
  }

  /** Rounded or not, the oldest segment is the same as far as accepted instants can tell. */
  ghost predicate SameCutoff(fl: real -> real, now: int, period: int)
    requires Rounding(fl) && 0 < period
  {
    Max(LuaOldest(fl, now, period), Before(period)) == Max(Oldest(now, period), Before(period))
  }

  /** So it is whenever the window starts within the exact range. */
  lemma {:induction false} CutoffWithin(fl: real -> real, now: int, period: int)
    requires Rounding(fl) && 0 < period <= MAX_EXACT && -MAX_EXACT <= now - period <= MAX_EXACT
    ensures LuaOldest(fl, now, period) == Oldest(now, period) && SameCutoff(fl, now, period)
  {
    hide FloorDiv, Num, Rounding;
    LiveSpan(now, period);
    NumExact(fl, now - period);
    FloorDivExact(fl, now - period, Width(period));
  }

  /** Every used segment is of an instant the code accepts. */
  ghost predicate Recent(segs: seq<Segment>, period: int)
    requires 0 < period
  {
    forall j :: 0 <= j < |segs| && segs[j].used > 0 ==> segs[j].index >= Index(-MAX_EXACT, period)
  }

  lemma {:induction false} RecentStep(segs: seq<Segment>, p: Policy, cost: int, now: int)
    requires 0 < p.period && |segs| == SEGMENTS && Recent(segs, p.period) && -MAX_EXACT <= now
    ensures Recent(SlidingStep(segs, p, cost, now).segs, p.period)
  {
    hide LiveUsed, Earliest;
    LiveSpan(now, p.period);
    DivMonotone(-MAX_EXACT, now, Width(p.period));
  }

  /** So is every slot field. */
  ghost predicate RecentSlots(slots: map<int, Slot>, period: int)
    requires 0 < period
  {
    forall j :: j in slots ==> slots[j].index > Before(period)
  }

  /** Two cut-offs that differ only before every segment select the same segments. */
  lemma {:induction false} CutoffIgnored(segs: seq<Segment>, a: int, b: int, low: int)
    requires Max(a, low) == Max(b, low) && forall j :: 0 <= j < |segs| && segs[j].used != 0 ==> segs[j].index > low
    ensures LiveUsed(segs, a) == LiveUsed(segs, b) && Earliest(segs, a) == Earliest(segs, b)
  {
    if segs != [] { CutoffIgnored(segs[..|segs| - 1], a, b, low); }
  }

  lemma {:induction false} SlidingIgnores(
    fl: real -> real, h: Hash, p: Policy, cost: int, now: int, width: int, current: int, a: int, b: int)
    requires 0 < p.period && RecentSlots(h.slots, p.period) && Max(a, Before(p.period)) == Max(b, Before(p.period))
    ensures LuaSlidingAt(fl, h, p, cost, now, width, current, a) == LuaSlidingAt(fl, h, p, cost, now, width, current, b)
  {
    hide LiveUsed, Earliest, Debited, Num, Index;
    CutoffIgnored(Ring(h.slots), a, b, Before(p.period));
    forall j | j in h.slots ensures h.slots[j].index > a <==> h.slots[j].index > b {
    }
    assert Unexpired(h.slots, a) == Unexpired(h.slots, b);
    forall j | 0 <= j < SEGMENTS ensures SlotOk(h.slots, j, a, current) <==> SlotOk(h.slots, j, b, current) {
    }
  }

  /** A segment up to what a window that has passed `oldest` can see of it. */
  function Visible(s: Segment, oldest: int): Segment { if s.used == 0 || s.index <= oldest then EMPTY else s }

  ghost predicate SameVisible(a: seq<Segment>, b: seq<Segment>, oldest: int)
  {
    |a| == |b| && forall j :: 0 <= j < |a| ==> Visible(a[j], oldest) == Visible(b[j], oldest)
  }

  /** The slot fields show the segments of a PostgreSQL row. */
  ghost predicate Mirror(slots: map<int, Slot>, segs: seq<Segment>, oldest: int)
  {
    && (forall j :: j in slots ==>
         0 <= j < SEGMENTS && ValidPersistedMicros(slots[j].index) && 0 <= slots[j].value <= MAX_EXACT)
    && SameVisible(Ring(slots), segs, oldest)
  }

  lemma {:induction false} VisibleDecides(a: seq<Segment>, b: seq<Segment>, oldest: int)
    requires SameVisible(a, b, oldest)
    ensures LiveUsed(a, oldest) == LiveUsed(b, oldest) && Earliest(a, oldest) == Earliest(b, oldest)
  {
    if a != [] {
      var n := |a| - 1;
      assert Visible(a[n], oldest) == Visible(b[n], oldest);
      assert SameVisible(a[..n], b[..n], oldest);
      VisibleDecides(a[..n], b[..n], oldest);
    }
  }

  /** What a later window sees of two rings agrees if an earlier one did. */
  lemma MirrorLater(slots: map<int, Slot>, segs: seq<Segment>, o: int, oldest: int)
    requires Mirror(slots, segs, o) && o <= oldest
    ensures Mirror(slots, segs, oldest)
  {
    var ring := Ring(slots);
    forall j | 0 <= j < |ring| ensures Visible(ring[j], oldest) == Visible(segs[j], oldest) {
      assert Visible(ring[j], o) == Visible(segs[j], o);
    }
  }

  /** Width, current segment and slot come out as in the Go code. */
  lemma {:induction false} LuaIndices(fl: real -> real, now: int, period: int)
    requires Rounding(fl) && 0 < period <= MAX_EXACT && ValidPersistedMicros(now)
    ensures var w := LuaWidth(fl, period);
            && w == Width(period)
            && FloorDiv(fl, now, w) == Index(now, period)
            && Index(now, period) - FloorDiv(fl, Index(now, period), SEGMENTS) * SEGMENTS ==
                 Index(now, period) % SEGMENTS
  {
    hide FloorDiv, Num, Rounding;
    LiveSpan(now, period);
    FloorDivExact(fl, now, Width(period));
    IndexInRange(now, period);
    Sixteenth(fl, Index(now, period));
  }

  lemma {:induction false} MirrorPlaced(slots: map<int, Slot>, segs: seq<Segment>, period: int, observed: int, now: int)
    requires 0 < period && Placed(segs, period, observed) && observed <= now
    requires Mirror(slots, segs, Oldest(now, period)) && LiveUsed(segs, Oldest(now, period)) <= MAX_EXACT
    ensures SlotsOk(slots, Oldest(now, period), Index(now, period))
  {
    hide LiveUsed;
    var oldest, current := Oldest(now, period), Index(now, period);
    LiveSpan(now, period);
    DivMonotone(observed, now, Width(period));
    VisibleDecides(Ring(slots), segs, oldest);
    forall j | 0 <= j < SEGMENTS ensures SlotOk(slots, j, oldest, current) {
      assert Visible(Ring(slots)[j], oldest) == Visible(segs[j], oldest);
    }
  }

  lemma {:induction false} EarliestPlaced(segs: seq<Segment>, oldest: int, current: int)
    requires forall j :: 0 <= j < |segs| && segs[j].used > 0 ==> segs[j].index <= current
    requires forall j :: 0 <= j < |segs| ==> segs[j].used >= 0
    ensures oldest < Earliest(segs, oldest) <= current || Earliest(segs, oldest) == MAX_INT64
  {
    if segs != [] { EarliestPlaced(segs[..|segs| - 1], oldest, current); }
  }

  /** The sliding Reset, formed by a product and a sum, rounds nowhere while it is within the exact range. */
  lemma {:induction false} SlidingResetExact(fl: real -> real, earliest: int, period: int)
    requires Rounding(fl) && 0 < period <= MAX_EXACT && earliest >= Index(-MAX_EXACT, period)
    requires ValidPersistedMicros((earliest + 1) * Width(period) + period)
    ensures Num(fl, Num(fl, (earliest + 1) * Width(period)) + period) == (earliest + 1) * Width(period) + period
  {
    hide Num, Rounding;
    var w := Width(period);
    LiveSpan(-MAX_EXACT, period);
    DivBounds(-MAX_EXACT, w);
    var first := Index(-MAX_EXACT, period);
    MulMonotone(first + 1, earliest + 1, w);
    assert (first + 1) * w == first * w + w;
    NumExact(fl, (earliest + 1) * w);
    NumExact(fl, (earliest + 1) * w + period);
  }

  lemma {:induction false} ResetLater(earliest: int, now: int, period: int)
    requires 0 < period && Oldest(now, period) < earliest
    ensures now < (earliest + 1) * Width(period) + period
  {
    var w := Width(period);
    LiveSpan(now, period);
    DivBounds(now - period, w);
    MulMonotone(Oldest(now, period) + 1, earliest, w);
    assert (earliest + 1) * w == earliest * w + w && (Oldest(now, period) + 1) * w == Oldest(now, period) * w + w;
  }

  lemma {:induction false} EarliestRecent(segs: seq<Segment>, oldest: int, least: int)
    requires forall j :: 0 <= j < |segs| && segs[j].used > 0 ==> segs[j].index >= least
    requires least <= MAX_INT64 && forall j :: 0 <= j < |segs| ==> segs[j].used >= 0
    ensures Earliest(segs, oldest) >= least
  {
    if segs != [] { EarliestRecent(segs[..|segs| - 1], oldest, least); }
  }

  lemma {:induction false} MirrorUnexpired(
    slots: map<int, Slot>, segs: seq<Segment>, period: int, observed: int, now: int)
    requires 0 < period && Placed(segs, period, observed) && observed <= now && Mirror(slots, segs, Oldest(now, period))
    ensures Mirror(Unexpired(slots, Oldest(now, period)),
            Opened(Expired(segs, Oldest(now, period)), Index(now, period)), Oldest(now, period))
  {
    var oldest, current := Oldest(now, period), Index(now, period);
    CurrentSlotFree(segs, period, observed, now);
    var kept, ring := Unexpired(slots, oldest), Opened(Expired(segs, oldest), current);
    forall j | 0 <= j < SEGMENTS ensures Visible(Ring(kept)[j], oldest) == Visible(ring[j], oldest) {
      assert Visible(Ring(slots)[j], oldest) == Visible(segs[j], oldest);
    }
  }

  lemma {:induction false} MirrorDebited(
    fl: real -> real, slots: map<int, Slot>, segs: seq<Segment>, oldest: int, current: int, cost: int)
    requires Rounding(fl) && |segs| == SEGMENTS && Mirror(slots, segs, oldest) && oldest < current &&
             ValidPersistedMicros(current)
    requires segs[current % SEGMENTS].index == current && 0 <= segs[current % SEGMENTS].used && 0 < cost
    requires segs[current % SEGMENTS].used + cost <= MAX_EXACT
    ensures Mirror(Debited(fl, slots, current, cost), Charged(segs, current % SEGMENTS, cost), oldest)
  {
    hide Rounding, FloorDiv, Num;
    var slot := current % SEGMENTS;
    Sixteenth(fl, current);
    assert Visible(Ring(slots)[slot], oldest) == Visible(segs[slot], oldest);
    var value := if slot in slots && slots[slot].index == current then slots[slot].value else 0;
    assert value == segs[slot].used;
    NumExact(fl, value + cost);
    var next, after := Debited(fl, slots, current, cost), Charged(segs, slot, cost);
    forall j | 0 <= j < SEGMENTS ensures Visible(Ring(next)[j], oldest) == Visible(after[j], oldest) {
      assert Visible(Ring(slots)[j], oldest) == Visible(segs[j], oldest);
    }
  }

  lemma MirrorDecides(slots: map<int, Slot>, segs: seq<Segment>, oldest: int)
    requires Mirror(slots, segs, oldest)
    ensures LiveUsed(Ring(slots), oldest) == LiveUsed(segs, oldest) &&
            Earliest(Ring(slots), oldest) == Earliest(segs, oldest)
  {
    VisibleDecides(Ring(slots), segs, oldest);
  }

  lemma {:induction false} MirrorCharged(
    fl: real -> real, slots: map<int, Slot>, segs: seq<Segment>, p: Policy, observed: int, cost: int, now: int)
    requires Rounding(fl) && 0 < p.period && ValidPersistedMicros(now) && p.Limit() <= MAX_EXACT
    requires Placed(segs, p.period, observed) && observed <= now && Mirror(slots, segs, Oldest(now, p.period))
    requires 0 < cost <= p.Limit() - LiveUsed(segs, Oldest(now, p.period))
    ensures var oldest := Oldest(now, p.period);
            var current := Index(now, p.period);
            Mirror(Debited(fl, Unexpired(slots, oldest), current, cost),
                   Charged(Opened(Expired(segs, oldest), current), current % SEGMENTS, cost), oldest)
  {
    hide Rounding, Mirror, LiveUsed, Unexpired, Debited;
    var oldest, current := Oldest(now, p.period), Index(now, p.period);
    LiveSpan(now, p.period);
    IndexInRange(now, p.period);
    MirrorUnexpired(slots, segs, p.period, observed, now);
    LiveUsedNonNegative(segs, oldest);
    assert Live(segs[current % SEGMENTS], oldest) <= LiveUsed(segs, oldest);
    MirrorDebited(fl, Unexpired(slots, oldest), Opened(Expired(segs, oldest), current), oldest, current, cost);
  }

  /** Where Reset, and the wait until it, come out exact. */
  lemma {:induction false} SlidingTimes(fl: real -> real, segs: seq<Segment>, p: Policy, observed: int, now: int)
    requires Rounding(fl) && 0 < p.period <= MAX_EXACT && ClockInRange(now, p.period)
    requires Placed(segs, p.period, observed) && Recent(segs, p.period) && observed <= now
    ensures var earliest := Earliest(segs, Oldest(now, p.period));
            var reset := if earliest != MAX_INT64 then (earliest + 1) * Width(p.period) + p.period else now + p.period;
            && (earliest != MAX_INT64 && ValidPersistedMicros(reset) ==>
                  Num(fl, Num(fl, (earliest + 1) * Width(p.period)) + p.period) == reset)
            && Num(fl, now + p.period) == now + p.period && now < reset
            && (ValidPersistedMicros(reset - now) ==> Num(fl, reset - now) == reset - now == SatSub(reset, now))
  {
    hide Rounding, Num, Earliest;
    var earliest := Earliest(segs, Oldest(now, p.period));
    var reset := if earliest != MAX_INT64 then (earliest + 1) * Width(p.period) + p.period else now + p.period;
    LiveSpan(now, p.period);
    DivMonotone(observed, now, Width(p.period));
    EarliestPlaced(segs, Oldest(now, p.period), Index(now, p.period));
    NumExact(fl, now + p.period);
    if earliest != MAX_INT64 {
      ResetLater(earliest, now, p.period);
      IndexInRange(-MAX_EXACT, p.period);
      EarliestRecent(segs, Oldest(now, p.period), Index(-MAX_EXACT, p.period));
      if ValidPersistedMicros(reset) { SlidingResetExact(fl, earliest, p.period); }
    }
    if ValidPersistedMicros(reset - now) { NumExact(fl, reset - now); }
  }

  /** The branch agrees with the Go code when it is given the true oldest segment. */
  lemma {:induction false} SlidingAtAgrees(
    fl: real -> real, h: Hash, segs: seq<Segment>, p: Policy, observed: int, cost: int, now: int)
    requires Rounding(fl) && p.Valid() && p.algorithm == SlidingWindow && 1 <= cost <= p.Limit()
    requires ClockInRange(now, p.period) && Mirrored(h, segs, p, observed, now)
    ensures var s := SlidingStep(segs, p, cost, now);
            var reply :=
              LuaSlidingAt(fl, h, p, cost, now, Width(p.period), Index(now, p.period), Oldest(now, p.period));
            && SameSlidingAnswer(reply, s.decision, s.rejected) && reply.now == now
            && Mirror(reply.hash.slots, s.segs, Oldest(now, p.period))
            && reply.hash == Touched(h.(slots := reply.hash.slots), p, now, s.carried)
  {
    hide Rounding, FloorDiv, Num, LiveUsed, Earliest, Mirror, Index, Oldest, Width, Unexpired, Debited, Opened,
      ExactProduct, SlotsOk;
    var oldest, current := Oldest(now, p.period), Index(now, p.period);
    PeriodFits(p);
    MirrorPlaced(h.slots, segs, p.period, observed, now);
    MirrorDecides(h.slots, segs, oldest);
    SlidingTimes(fl, segs, p, observed, now);
    MirrorUnexpired(h.slots, segs, p.period, observed, now);
    if cost <= p.Limit() - LiveUsed(segs, oldest) {
      MirrorCharged(fl, h.slots, segs, p, observed, cost, now);
    }
  }

  /** A hash and the ring of a row that hold the same sliding window, as accepted requests leave them. */
  ghost predicate Mirrored(h: Hash, segs: seq<Segment>, p: Policy, observed: int, now: int)
    requires 0 < p.period
  {
    && Placed(segs, p.period, observed) && Recent(segs, p.period) && RecentSlots(h.slots, p.period) && observed <= now
    && Mirror(h.slots, segs, Oldest(now, p.period)) && LiveUsed(segs, Oldest(now, p.period)) <= MAX_EXACT
    && (h.revision == p.revision && LiveUsed(segs, Oldest(now, p.period)) > p.Limit() ==> h.carried)
  }

  lemma {:induction false} LuaSlidingAgrees(
    fl: real -> real, h: Hash, segs: seq<Segment>, p: Policy, observed: int, cost: int, now: int)
    requires Rounding(fl) && p.Valid() && p.algorithm == SlidingWindow && 1 <= cost <= p.Limit()
    requires ClockInRange(now, p.period) && SameCutoff(fl, now, p.period) && Mirrored(h, segs, p, observed, now)
    ensures var s := SlidingStep(segs, p, cost, now);
            var reply := LuaSliding(fl, h, p, cost, now);
            && SameSlidingAnswer(reply, s.decision, s.rejected) && reply.now == now
            && Mirror(reply.hash.slots, s.segs, Oldest(now, p.period)) && RecentSlots(reply.hash.slots, p.period)
            && reply.hash == Touched(h.(slots := reply.hash.slots), p, now, s.carried)
  {
    hide Rounding, FloorDiv, Mirrored, LuaOldest, Oldest, Index, Width, LuaSlidingAt, Before, Mirror, RecentSlots,
      ExactProduct, SlidingStep;
    PeriodFits(p);
    MirroredSlots(h, segs, p, observed, now);
    LuaIndices(fl, now, p.period);
    SlidingAtAgrees(fl, h, segs, p, observed, cost, now);
    SlidingIgnores(fl, h, p, cost, now, Width(p.period), Index(now, p.period), LuaOldest(fl, now, p.period),
                   Oldest(now, p.period));
    RecentReply(fl, h, p, cost, now, Oldest(now, p.period));
  }

  lemma MirroredSlots(h: Hash, segs: seq<Segment>, p: Policy, observed: int, now: int)
    requires 0 < p.period && Mirrored(h, segs, p, observed, now)
    ensures RecentSlots(h.slots, p.period)
  {
  }

  lemma {:induction false} RecentReply(fl: real -> real, h: Hash, p: Policy, cost: int, now: int, oldest: int)
    requires 0 < p.period && -MAX_EXACT <= now && RecentSlots(h.slots, p.period)
    ensures var reply := LuaSlidingAt(fl, h, p, cost, now, Width(p.period), Index(now, p.period), oldest);
            reply.Replied? ==> RecentSlots(reply.hash.slots, p.period)
  {
    hide LiveUsed, Earliest, SlotsOk, Num, FloorDiv;
    LiveSpan(now, p.period);
    DivMonotone(-MAX_EXACT, now, Width(p.period));
  }

  /** The script and the Go code give the same answer at an instant, from every ring that accepted requests can leave,
      if and only if the oldest segment is the same as far as such a ring can tell. */
  lemma {:induction false} SlidingAgreesExactly(fl: real -> real, p: Policy, cost: int, now: int)
    requires Rounding(fl) && p.Valid() && p.algorithm == SlidingWindow && 1 <= cost <= p.Limit()
    requires ClockInRange(now, p.period)
    ensures (forall h, segs, observed :: Mirrored(h, segs, p, observed, now) ==>
               SameSlidingAnswer(LuaSliding(fl, h, p, cost, now), SlidingStep(segs, p, cost, now).decision,
                                 SlidingStep(segs, p, cost, now).rejected))
            <==> SameCutoff(fl, now, p.period)
  {
    hide Rounding, LuaSliding, SlidingStep, ExactProduct, SameSlidingAnswer, SameCutoff, LiveUsed, Mirror, Recent,
      RecentSlots;
    if SameCutoff(fl, now, p.period) {
      forall h, segs, observed | Mirrored(h, segs, p, observed, now)
        ensures SameSlidingAnswer(LuaSliding(fl, h, p, cost, now), SlidingStep(segs, p, cost, now).decision,
                                  SlidingStep(segs, p, cost, now).rejected)
      {
        LuaSlidingAgrees(fl, h, segs, p, observed, cost, now);
      }
    } else {
      CutoffShows(fl, p, cost, now);
    }
  }

  /** A hash with one unit in one segment. */
  function UnitHash(p: Policy, i: int): Hash
  {
    Hash(STATE_SCHEMA, p.id, p.algorithm, p.revision, 0, 0, 0, 0, 0, Some(p.period), false,
         map[i % SEGMENTS := Slot(i, 1)])
  }

  function UnitRing(i: int): (segs: seq<Segment>)
    ensures |segs| == SEGMENTS && segs[i % SEGMENTS] == Segment(i, 1)
    ensures forall j :: 0 <= j < SEGMENTS && j != i % SEGMENTS ==> segs[j] == EMPTY
  {
    EmptySegments()[i % SEGMENTS := Segment(i, 1)]
  }

  lemma {:induction false} UnitUsed(i: int, oldest: int, n: int)
    requires 0 <= n <= SEGMENTS
    ensures LiveUsed(UnitRing(i)[..n], oldest) == if i % SEGMENTS < n && i > oldest then 1 else 0
  {
    if n > 0 {
      assert UnitRing(i)[..n][..n - 1] == UnitRing(i)[..n - 1];
      UnitUsed(i, oldest, n - 1);
    }
  }

  /** One unit in the segment right after the lower of two cut-offs is counted by one and not by the other. */
  lemma {:induction false} CutoffShows(fl: real -> real, p: Policy, cost: int, now: int)
    requires Rounding(fl) && p.Valid() && p.algorithm == SlidingWindow && 1 <= cost <= p.Limit()
    requires ClockInRange(now, p.period) && !SameCutoff(fl, now, p.period)
    ensures var lua := Max(LuaOldest(fl, now, p.period), Before(p.period));
            var i := Min(lua, Max(Oldest(now, p.period), Before(p.period))) + 1;
            var s := SlidingStep(UnitRing(i), p, cost, now);
            && Mirrored(UnitHash(p, i), UnitRing(i), p, now, now)
            && !SameSlidingAnswer(LuaSliding(fl, UnitHash(p, i), p, cost, now), s.decision, s.rejected)
  {
    hide Rounding, FloorDiv, Num, LiveUsed, Earliest, Index, Oldest, Width, LuaOldest, ExactProduct, SlotsOk, UnitRing,
      Unexpired, Debited, Opened, Expired, Charged;
    PeriodFits(p);
    LuaIndices(fl, now, p.period);
    var a, b := LuaOldest(fl, now, p.period), Oldest(now, p.period);
    var i := Min(Max(a, Before(p.period)), Max(b, Before(p.period))) + 1;
    CutoffPlace(i, b, now, p.period);
    UnitMirror(p, i, now);
    UnitUsed(i, a, SEGMENTS);
    UnitUsed(i, b, SEGMENTS);
    assert UnitRing(i)[..SEGMENTS] == UnitRing(i) == Ring(UnitHash(p, i).slots);
  }

  lemma {:induction false} CutoffPlace(i: int, oldest: int, now: int, period: int)
    requires 0 < period && -MAX_EXACT <= now && oldest == Oldest(now, period)
    requires Before(period) < i <= Max(oldest, Before(period)) + 1
    ensures i <= Index(now, period)
  {
    LiveSpan(now, period);
    DivMonotone(-MAX_EXACT, now, Width(period));
  }

  lemma {:induction false} UnitMirror(p: Policy, i: int, now: int)
    requires p.Valid() && p.algorithm == SlidingWindow && ValidPersistedMicros(now)
    requires Before(p.period) < i <= Index(now, p.period)
    ensures Mirrored(UnitHash(p, i), UnitRing(i), p, now, now) && Ring(UnitHash(p, i).slots) == UnitRing(i)
  {
    hide LiveUsed, Index, Oldest, ExactProduct;
    IndexInRange(now, p.period);
    IndexInRange(-MAX_EXACT, p.period);
    UnitUsed(i, Oldest(now, p.period), SEGMENTS);
    assert UnitRing(i)[..SEGMENTS] == UnitRing(i) == Ring(UnitHash(p, i).slots);
  }

  // -------------------------------------------------------------- whole runs

  /** A hash and a row hold the same bucket. */
  ghost predicate Matches(fl: real -> real, h: Hash, s: State)
    requires Rounding(fl)
  {
    && h.schema == s.schema && h.policyId == s.policyId && h.algorithm == s.algorithm && h.revision == s.revision
    && h.last == s.observed
    && match s.algorithm
       case TokenBucket => h.tokens == s.tokens && h.remainder == s.remainder && h.slots == map[]
       case FixedWindow => h.window == s.window && h.used == s.used && h.carried == s.carried
                           && h.period == Some(s.period) && h.slots == map[]
       case _ => h.carried == s.carried && h.period == Some(s.period) && 0 < s.period
                 && SameCutoff(fl, s.observed, s.period) && Recent(s.segments, s.period)
                 && RecentSlots(h.slots, s.period)
                 && Mirror(h.slots, s.segments, Oldest(s.observed, s.period))
  }

  ghost predicate Counterparts(fl: real -> real, current: Option<Hash>, row: Option<State>)
    requires Rounding(fl)
  {
    match (current, row)
    case (None, None) => true
    case (Some(h), Some(s)) => Matches(fl, h, s)
    case _ => false
  }

  /** A sliding request at an instant whose rounded oldest segment selects what the true one does. */
  ghost predicate InReach(fl: real -> real, r: Request)
    requires Rounding(fl)
  {
    r.policy.algorithm == SlidingWindow ==> 0 < r.policy.period && SameCutoff(fl, r.now, r.policy.period)
  }

  ghost predicate Agrees(fl: real -> real, reply: Reply, result: StepResult)
    requires Rounding(fl)
  {
    match result
    case Fail(e) => reply == Refused(e)
    case Done(next, d, rejected) =>
      && (if next.algorithm == SlidingWindow then SameSlidingAnswer(reply, d, rejected)
           else SameAnswer(reply, d, rejected))
      && reply.now == next.observed && Matches(fl, reply.hash, next)
  }

  /** The hash and the state a request starts from. */
  function Held(current: Option<Hash>, r: Request): Hash { if current.Some? then current.value else NewHash(r) }

  function Base(row: Option<State>, r: Request): State { if row.Some? then row.value else NewState(r) }

  lemma {:induction false} TokenAgrees(
    fl: real -> real, current: Option<Hash>, row: Option<State>, r: Request, f: Family)
    requires Rounding(fl) && f.Valid() && f.algorithm == TokenBucket && f.Governs(r) && Row(row, f)
    requires Counterparts(fl, current, row) && InReach(fl, r) && -MAX_EXACT <= r.now
    ensures Agrees(fl, LuaAdmit(fl, current, r), Step(row, r))
  {
    hide Rounding, LuaToken, TokenStep, ExactProduct, Step;
    var p, h, s := r.policy, Held(current, r), Base(row, r);
    var now := Max(r.now, s.observed);
    PeriodFits(p);
    StepApplies(row, r, f);
    if row.Some? { PeriodFits(f.policies[s.revision]); }
    assert h.slots == map[];
    if ClockInRange(now, p.period) {
      assert LuaAdmit(fl, current, r) == LuaToken(fl, h, p, r.cost, now);
      LuaTokenAgrees(fl, h, p, r.cost, now);
    }
  }

  lemma {:induction false} FixedAgrees(
    fl: real -> real, current: Option<Hash>, row: Option<State>, r: Request, f: Family)
    requires Rounding(fl) && f.Valid() && f.algorithm == FixedWindow && f.Governs(r) && Row(row, f)
    requires Counterparts(fl, current, row) && InReach(fl, r) && -MAX_EXACT <= r.now
    ensures Agrees(fl, LuaAdmit(fl, current, r), Step(row, r))
  {
    hide Rounding, LuaFixed, FixedStep, LuaWindow, Floor, ExactProduct, Step;
    var p, h, s := r.policy, Held(current, r), Base(row, r);
    var now := Max(r.now, s.observed);
    PeriodFits(p);
    StepApplies(row, r, f);
    assert h.slots == map[];
    if ValidPersistedMicros(r.now) && r.now <= MAX_EXACT - p.period {
      LuaWindowExact(fl, r.now, p.period);
      if ValidPersistedMicros(Floor(r.now, p.period)) && ClockInRange(now, p.period) {
        FloorMonotone(r.now, now, p.period);
        LuaWindowExact(fl, now, p.period);
        LuaFixedAgrees(fl, h, p, r.cost, now);
      }
    }
  }

  lemma NothingMirrored(o: int)
    ensures Mirror(map[], EmptySegments(), o)
  {
  }

  lemma {:induction false} SlidingAgrees(
    fl: real -> real, current: Option<Hash>, row: Option<State>, r: Request, f: Family)
    requires Rounding(fl) && f.Valid() && f.algorithm == SlidingWindow && f.Governs(r) && Row(row, f)
    requires Counterparts(fl, current, row) && InReach(fl, r) && -MAX_EXACT <= r.now
    ensures Agrees(fl, LuaAdmit(fl, current, r), Step(row, r))
  {
    hide Rounding, LuaSliding, SlidingStep, ExactProduct, Step, LiveUsed, Oldest, Width;
    var p, h, s := r.policy, Held(current, r), Base(row, r);
    var now := Max(r.now, s.observed);
    PeriodFits(p);
    StepApplies(row, r, f);
    SlidingStart(row, r, f);
    OldestMonotone(s.observed, now, p.period);
    NothingMirrored(Oldest(r.now, p.period));
    MirrorFields(h, s.segments, Oldest(s.observed, p.period));
    MirrorLater(h.slots, s.segments, Oldest(s.observed, p.period), Oldest(now, p.period));
    LiveUsedShrinks(s.segments, Oldest(s.observed, p.period), Oldest(now, p.period));
    if ClockInRange(now, p.period) {
      LuaSlidingAgrees(fl, h, s.segments, p, s.observed, r.cost, now);
      RecentStep(s.segments, p, r.cost, now);
    }
  }

  lemma OldestMonotone(observed: int, now: int, period: int)
    requires 0 < period && observed <= now
    ensures Oldest(observed, period) <= Oldest(now, period)
  {
    LiveSpan(now, period);
    DivMonotone(observed - period, now - period, Width(period));
  }

  lemma MirrorFields(h: Hash, segs: seq<Segment>, oldest: int)
    requires Mirror(h.slots, segs, oldest) && h.algorithm == SlidingWindow
    ensures FieldsOk(h)
  {
  }

  /** One request against a hash and against a row: same outcome, same answer, same bucket afterwards. */
  lemma {:induction false} ScriptAgrees(
    fl: real -> real, current: Option<Hash>, row: Option<State>, r: Request, f: Family)
    requires Rounding(fl) && f.Valid() && f.Governs(r) && Row(row, f)
    requires Counterparts(fl, current, row) && InReach(fl, r) && -MAX_EXACT <= r.now
    ensures Agrees(fl, LuaAdmit(fl, current, r), Step(row, r))
  {
    match f.algorithm
    case TokenBucket => TokenAgrees(fl, current, row, r, f);
    case FixedWindow => FixedAgrees(fl, current, row, r, f);
    case SlidingWindow => SlidingAgrees(fl, current, row, r, f);
  }

  // ------------------------------------------------------------------ entries

  /** One AdmitStrict call: the request, and the server's clock if the store is configured to use it. */
  datatype Call = Call(request: Request, server: Option<int>)
  {
    function Clock(): int { if server.Some? then server.value else request.now }
  }

  /** AdmitStrict of the PostgreSQL store: the request is validated with its own clock, a server clock by its range
      before the row is loaded. */
  function PostgresAdmit(row: Option<State>, call: Call): StepResult
    requires row.Some? ==> |row.value.segments| == SEGMENTS
  {
    var r := call.request;
    if !r.Valid() then Fail(ErrInvalidRequest)
    else if r.policy.algorithm == Concurrency then Fail(ErrUnsupported)
    else if call.server.Some? && !ClockInRange(call.Clock(), r.policy.period) then Fail(ErrOverflow)
    else Step(row, r.(now := call.Clock()))
  }

  /** AdmitStrict of the Valkey store: the same validation, then the script, which checks its clock itself. */
  function ValkeyAdmit(fl: real -> real, current: Option<Hash>, call: Call): Reply
    requires Rounding(fl)
  {
    var r := call.request;
    if !r.Valid() then Refused(ErrInvalidRequest)
    else if r.policy.algorithm == Concurrency then Refused(ErrUnsupported)
    else LuaAdmit(fl, current, r.(now := call.Clock()))
  }

  /** Both backends refuse every instant before -(2^53 - 1) microseconds, with the same error. */
  lemma {:induction false} EarlyClocks(fl: real -> real, current: Option<Hash>, row: Option<State>, call: Call)
    requires Rounding(fl) && (row.Some? ==> |row.value.segments| == SEGMENTS) && call.Clock() < -MAX_EXACT
    ensures PostgresAdmit(row, call).Fail? && ValkeyAdmit(fl, current, call) == Refused(PostgresAdmit(row, call).error)
  {
    hide Rounding, Step, ExactProduct, ValidIdentifier, LuaToken, LuaFixed, LuaSliding;
  }

  /** A call under some revision of the family, its sliding window in reach. */
  ghost predicate Reached(fl: real -> real, call: Call, f: Family)
    requires Rounding(fl)
  {
    f.Governs(call.request) && InReach(fl, call.request.(now := call.Clock()))
  }

  /** One call against a hash and against a row: same outcome, same answer, same bucket afterwards. */
  lemma {:induction false} EntriesAgree(
    fl: real -> real, current: Option<Hash>, row: Option<State>, call: Call, f: Family)
    requires Rounding(fl) && f.Valid() && Reached(fl, call, f) && Row(row, f) && Counterparts(fl, current, row)
    ensures row.Some? ==> |row.value.segments| == SEGMENTS
    ensures Agrees(fl, ValkeyAdmit(fl, current, call), PostgresAdmit(row, call))
    ensures PostgresAdmit(row, call).Done? ==> Written(PostgresAdmit(row, call).next, f)
  {
    hide Rounding, Step, LuaAdmit, InReach, Counterparts, Matches, ExactProduct, GoodStep, Written;
    var r := call.request.(now := call.Clock());
    RowShape(row, f);
    assert f.Governs(r);
    if call.Clock() < -MAX_EXACT {
      EarlyClocks(fl, current, row, call);
    } else {
      ScriptAgrees(fl, current, row, r, f);
      StepWritten(row, r, f);
      GoodStepWrites(Step(row, r), f, r);
      if call.request.Valid() && call.server.Some? && !ClockInRange(call.Clock(), r.policy.period) {
        LateClock(fl, current, r);
      }
    }
  }

  lemma RowShape(row: Option<State>, f: Family)
    requires Row(row, f)
    ensures row.Some? ==> |row.value.segments| == SEGMENTS
  {
  }

  lemma GoodStepWrites(result: StepResult, f: Family, r: Request)
    requires GoodStep(result, f, r)
    ensures result.Done? ==> Written(result.next, f)
  {
  }

  lemma LateClock(fl: real -> real, current: Option<Hash>, r: Request)
    requires Rounding(fl) && r.Sized() && r.policy.algorithm != Concurrency && !ClockInRange(r.now, r.policy.period)
    ensures LuaAdmit(fl, current, r) == Refused(ErrOverflow)
  {
  }

  /** What the stores keep of a call: what was written, or what was there. */
  ghost function KeptRow(row: Option<State>, result: StepResult): Option<State>
  {
    if result.Done? then Some(result.next) else row
  }

  ghost function KeptHash(current: Option<Hash>, reply: Reply): Option<Hash>
  {
    if reply.Replied? then Some(reply.hash) else current
  }

  lemma KeptCounterparts(fl: real -> real, current: Option<Hash>, row: Option<State>, reply: Reply, result: StepResult)
    requires Rounding(fl) && Counterparts(fl, current, row) && Agrees(fl, reply, result)
    ensures Counterparts(fl, KeptHash(current, reply), KeptRow(row, result))
  {
  }

  /** A call, or the loss of the bucket in both stores. */
  datatype Turn = Made(call: Call) | Lost

  /** A row and a hash under one sequence of turns. */
  ghost function CalledRow(turns: seq<Turn>): (row: Option<State>)
    ensures row.Some? ==> |row.value.segments| == SEGMENTS
  {
    if turns == [] then None
    else
      var before := CalledRow(turns[..|turns| - 1]);
      match turns[|turns| - 1]
      case Lost => None
      case Made(call) => KeptRow(before, PostgresAdmit(before, call))
  }

  ghost function CalledHash(fl: real -> real, turns: seq<Turn>): Option<Hash>
    requires Rounding(fl)
  {
    if turns == [] then None
    else
      var before := CalledHash(fl, turns[..|turns| - 1]);
      match turns[|turns| - 1]
      case Lost => None
      case Made(call) => KeptHash(before, ValkeyAdmit(fl, before, call))
  }

  /** After any sequence of turns from an empty store, Valkey and PostgreSQL hold the same bucket and answer the next
      call alike. */
  lemma {:induction false} BackendsAgree(fl: real -> real, turns: seq<Turn>, f: Family, call: Call)
    requires Rounding(fl) && f.Valid() && Reached(fl, call, f)
    requires forall i :: 0 <= i < |turns| ==> turns[i].Made? ==> Reached(fl, turns[i].call, f)
    ensures Row(CalledRow(turns), f) && Counterparts(fl, CalledHash(fl, turns), CalledRow(turns))
    ensures Agrees(fl, ValkeyAdmit(fl, CalledHash(fl, turns), call), PostgresAdmit(CalledRow(turns), call))
  {
    hide Rounding, ValkeyAdmit, PostgresAdmit, Matches, Agrees, Reached, Written;
    if turns != [] {
      var before, last := turns[..|turns| - 1], turns[|turns| - 1];
      var made := if last.Made? then last.call else call;
      BackendsAgree(fl, before, f, made);
      var hash, row := CalledHash(fl, before), CalledRow(before);
      EntriesAgree(fl, hash, row, made, f);
      KeptCounterparts(fl, hash, row, ValkeyAdmit(fl, hash, made), PostgresAdmit(row, made));
    }
    EntriesAgree(fl, CalledHash(fl, turns), CalledRow(turns), call, f);
  }
}
