// Instants of the in-process windows: Unix nanoseconds in an int64, where
// differences and products of very long periods wrap.
module MemoryWraps {
  import opened Arithmetic
  import opened Policies
  import opened Windows

  const NANOS: int := 1000

  /** The earliest accepted instant, in nanoseconds. */
  const BOTTOM: int := -NANOS * MAX_EXACT

  /** The segment width in nanoseconds. */
  function Size(period: int): int { Width(NANOS * period) }

  /** floorBoundary: the product wraps. */
  function NanoFloor(value: int, size: int): int
    requires 0 < size
  {
    Wrap64(Floor(value, size))
  }

  lemma SizePositive(period: int)
    requires 0 < period
    ensures 1 <= Size(period) <= NANOS * period <= SEGMENTS * Size(period)
  {
    LiveSpan(0, NANOS * period);
  }

  /** The current segment, as admitSliding computes it. */
  function NanoIndex(now: int, period: int): int
    requires 0 < period
  {
    SizePositive(period);
    GoDiv(NanoFloor(NANOS * now, Size(period)), Size(period))
  }

  /** The newest expired segment: the difference wraps, then the product. */
  function NanoOldest(now: int, period: int): int
    requires 0 < period
  {
    SizePositive(period);
    GoDiv(NanoFloor(Wrap64(NANOS * now - NANOS * period), Size(period)), Size(period))
  }

  /** The segments of the true instants. */
  function TrueIndex(now: int, period: int): int
    requires 0 < period
  {
    Index(NANOS * now, NANOS * period)
  }

  function TrueOldest(now: int, period: int): int
    requires 0 < period
  {
    Oldest(NANOS * now, NANOS * period)
  }

  lemma {:induction false} FloorProduct(value: int, size: int)
    requires 0 < size
    ensures Floor(value, size) == value / size * size
    ensures value - size < Floor(value, size) <= value
  {
  }

  /** Where the true window starts within an int64, nothing wraps. */
  lemma {:induction false} OldestTrue(now: int, period: int)
    requires 0 < period && ClockInRange(now, period) && TrueOldest(now, period) * Size(period) >= MIN_INT64
    ensures NanoOldest(now, period) == TrueOldest(now, period)
  {
    SizePositive(period);
    var v := NANOS * now - NANOS * period;
    FloorProduct(v, Size(period));
    FloorIndex(v, Size(period));
  }

  /** Elsewhere the computed cut-off lies beyond every segment there can be: all of them count as expired. */
  lemma {:induction false} OldestWraps(now: int, period: int)
    requires 0 < period <= MAX_EXACT && ClockInRange(now, period)
    requires TrueOldest(now, period) * Size(period) < MIN_INT64
    ensures NanoOldest(now, period) >= 0 && NanoOldest(now, period) >= TrueIndex(now, period)
  {
    SizePositive(period);
    var s, v := Size(period), NANOS * now - NANOS * period;
    assert SEGMENTS * s <= NANOS * period + SEGMENTS;
    FloorProduct(v, s);
    CutoffWraps(NANOS * now, NANOS * period, s);
  }

  lemma {:induction false} CutoffWraps(n: int, span: int, s: int)
    requires BOTTOM <= n <= -BOTTOM - span && 0 < s <= span <= -BOTTOM && SEGMENTS * s <= span + SEGMENTS
    requires Floor(n - span, s) < MIN_INT64
    ensures var oldest := GoDiv(NanoFloor(Wrap64(n - span), s), s);
            oldest >= 0 && oldest >= n / s
  {
    hide Wrap64, Floor, GoDiv;
    var v := n - span;
    assert v - s < Floor(v, s) <= v;
    if v >= MIN_INT64 { CutoffHigh(Floor(v, s), s); } else { CutoffPositive(v + WORD, s); }
    IndexBelow(n, s);
  }

  /** A wrapped product is at least one segment past zero. */
  lemma {:induction false} CutoffHigh(floor: int, s: int)
    requires 0 < s <= -MIN_INT64 / 2 && MIN_INT64 - s < floor < MIN_INT64
    ensures GoDiv(Wrap64(floor), s) >= 1
  {
    hide Wrap64;
    DivMonotone(s, floor + WORD, s);
    DivUnique(s, s, 1);
  }

  /** A wrapped difference is positive, and so is the segment it falls in. */
  lemma {:induction false} CutoffPositive(w: int, s: int)
    requires 0 < s && 0 <= w < -MIN_INT64
    ensures GoDiv(NanoFloor(w, s), s) >= 0
  {
    hide Wrap64;
    FloorProduct(w, s);
    FloorIndex(w, s);
    DivMonotone(0, w, s);
    MulMonotone(0, w / s, s);
  }

  lemma {:induction false} IndexBelow(now: int, size: int)
    requires 0 < size && now < size
    ensures now / size <= 0
    ensures now < 0 ==> now / size < 0
  {
    DivBounds(now, size);
    if now / size >= 1 { MulMonotone(1, now / size, size); }
    if now / size >= 0 { MulMonotone(0, now / size, size); }
  }

  /** Every accepted window of the period starts within an int64: it is enough that the earliest one does. */
  predicate Unwrapped(period: int)
    requires 0 < period
  {
    TrueOldest(-MAX_EXACT, period) * Size(period) >= MIN_INT64
  }

  lemma {:induction false} UnwrappedFrom(now: int, period: int)
    requires 0 < period && -MAX_EXACT <= now && Unwrapped(period)
    ensures TrueOldest(now, period) * Size(period) >= MIN_INT64
  {
    SizePositive(period);
    var s := Size(period);
    DivMonotone(BOTTOM - NANOS * period, NANOS * now - NANOS * period, s);
    MulMonotone(TrueOldest(-MAX_EXACT, period), TrueOldest(now, period), s);
  }

  // ---------------------------------------------------------- current segment

  /** The segment the earliest instants fall in. */
  function First(period: int): int
    requires 0 < period
  {
    TrueIndex(-MAX_EXACT, period)
  }

  /** Its first instant lies outside an int64, so requests in it are filed under another index. */
  predicate Misfiled(period: int)
    requires 0 < period
  {
    First(period) * Size(period) < MIN_INT64
  }

  /** That other index. */
  function Stale(period: int): int
    requires 0 < period
  {
    SizePositive(period);
    (First(period) * Size(period) + WORD) / Size(period)
  }

  lemma {:induction false} IndexTrue(now: int, period: int)
    requires 0 < period && ClockInRange(now, period) && TrueIndex(now, period) * Size(period) >= MIN_INT64
    ensures NanoIndex(now, period) == TrueIndex(now, period)
  {
    SizePositive(period);
    FloorProduct(NANOS * now, Size(period));
    FloorIndex(NANOS * now, Size(period));
  }

  lemma {:induction false} FloorWraps(v: int, k: int, s: int)
    requires 0 < s <= -MIN_INT64 && MIN_INT64 <= v < -MIN_INT64 && k * s < MIN_INT64 && v < k * s + s
    ensures GoDiv(NanoFloor(Wrap64(v), s), s) == (k * s + WORD) / s
  {
    hide Wrap64, Floor;
    DivUnique(v, s, k);
    FloorProduct(v, s);
  }

  /** Two instants before the least int64's segment ends lie in one segment. */
  lemma {:induction false} SameFirst(low: int, v: int, s: int)
    requires 0 < s && MIN_INT64 <= low <= v && v / s * s < MIN_INT64
    ensures v / s == low / s && low / s * s < MIN_INT64
  {
    DivBounds(low, s);
    DivMonotone(low, v, s);
    if v / s > low / s { MulMonotone(low / s + 1, v / s, s); }
  }

  /** Only the first segment can be misfiled. */
  lemma {:induction false} IndexStale(now: int, period: int)
    requires 0 < period && ClockInRange(now, period) && TrueIndex(now, period) * Size(period) < MIN_INT64
    ensures Misfiled(period) && TrueIndex(now, period) == First(period) && NanoIndex(now, period) == Stale(period)
  {
    hide Width, NanoFloor, GoDiv, Wrap64;
    SizePositive(period);
    var s := Size(period);
    SameFirst(BOTTOM, NANOS * now, s);
    DivBounds(NANOS * now, s);
    StaleBounds(period);
    FloorWraps(NANOS * now, First(period), s);
  }

  /** Where the misfiled index lies: a whole number of segments that just fits 2^64. */
  lemma {:induction false} StaleBounds(period: int)
    requires 0 < period
    ensures var s := Size(period);
            var low := First(period) * s;
            && 1 <= s <= NANOS * period && SEGMENTS * s <= NANOS * period + SEGMENTS
            && BOTTOM - s < low <= BOTTOM
            && Stale(period) * s <= low + WORD < (Stale(period) + 1) * s
            && (Stale(period) + 1) * s == Stale(period) * s + s
  {
    hide Floor;
    SizePositive(period);
    var s := Size(period);
    DivBounds(BOTTOM, s);
    DivBounds(First(period) * s + WORD, s);
  }

  /** A request misfiled at the bottom of the range is still counted when its Reset, itself wrapped, has passed. */
  predicate Overdue(period: int)
    requires 0 < period
  {
    var s := Size(period);
    var end := (Stale(period) + 1) * s;
    var latest := NANOS * (MAX_EXACT - 2 * period);
    Misfiled(period) && end >= -MIN_INT64 && latest >= First(period) * s + s && latest > end - WORD
  }

  /** Otherwise a live misfiled segment never yields a Reset before now. */
  lemma {:induction false} StaleInOrder(now: int, period: int)
    requires 0 < period <= MAX_EXACT && ClockInRange(now, period) && Misfiled(period) && !Overdue(period)
    requires Stale(period) > NanoOldest(now, period)
    ensures Wrap64((Stale(period) + 1) * Size(period)) + NANOS * period >= NANOS * now
  {
    hide Wrap64, Floor, Size, Stale, First;
    StaleBounds(period);
    var s, low, v := Size(period), First(period) * Size(period), NANOS * now - NANOS * period;
    var end := (Stale(period) + 1) * s;
    if end >= -MIN_INT64 && MIN_INT64 <= v < low + s { StaleExpired(v, period); }
  }

  /** The window start inside the first segment wraps onto the misfiled index itself. */
  lemma {:induction false} StaleExpired(v: int, period: int)
    requires 0 < period && Misfiled(period)
    requires MIN_INT64 <= v < -MIN_INT64 && v < First(period) * Size(period) + Size(period)
    requires 0 < Size(period) <= -MIN_INT64
    ensures GoDiv(NanoFloor(Wrap64(v), Size(period)), Size(period)) == Stale(period)
  {
    hide Wrap64, Size, NanoFloor, GoDiv, First;
    FloorWraps(v, First(period), Size(period));
  }

  /** And an overdue one does, at the latest accepted instant. */
  lemma {:induction false} OverdueReset(period: int)
    requires 0 < period <= MAX_EXACT && Overdue(period)
    ensures var latest := MAX_EXACT - period;
            && Stale(period) > NanoOldest(latest, period)
            && Wrap64((Stale(period) + 1) * Size(period)) + NANOS * period < NANOS * latest
  {
    hide Wrap64, Stale, First, Size, NanoOldest, TrueOldest;
    StaleBounds(period);
    var s, v := Size(period), NANOS * (MAX_EXACT - 2 * period);
    NotBefore(v, First(period), s);
    Before(v, Stale(period), s);
    LatestOldest(period);
    OldestTrue(MAX_EXACT - period, period);
  }

  lemma LatestOldest(period: int)
    requires 0 < period
    ensures 0 < Size(period)
    ensures TrueOldest(MAX_EXACT - period, period) == NANOS * (MAX_EXACT - 2 * period) / Size(period)
  {
    SizePositive(period);
  }

  lemma {:induction false} Before(v: int, k: int, s: int)
    requires 0 < s && v < k * s
    ensures v / s < k
  {
    DivBounds(v, s);
    if v / s >= k { MulMonotone(k, v / s, s); }
  }

  lemma {:induction false} NotBefore(v: int, k: int, s: int)
    requires 0 < s && v >= k * s + s
    ensures v / s * s >= k * s + s
  {
    DivBounds(v, s);
    if v / s < k + 1 { MulMonotone(v / s, k, s); }
    MulMonotone(k + 1, Max(k + 1, v / s), s);
  }

  /** No period of up to 109 years is overdue. */
  lemma {:induction false} ShortTimely(period: int)
    requires 0 < period <= 3_458_764_513_820_556
    ensures !Overdue(period)
  {
    hide Size, First, Stale;
    StaleBounds(period);
  }

  /** One of 111 years is. */
  lemma OverdueExample()
    ensures Overdue(3_514_000_000_000_000)
  {
    var s := Size(3_514_000_000_000_000);
    assert s == 219_625_000_000_000_000;
    assert BOTTOM / s == -42;
  }
}
