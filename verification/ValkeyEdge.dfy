// The bottom of the clock range, where the start of a sliding window is no
// longer a binary64 integer and the script counts less than PostgreSQL does.
module ValkeyEdge {
  import opened Arithmetic
  import opened Policies
  import opened Windows
  import opened StrictRuns
  import opened Binary64
  import opened Valkey
  import opened ValkeyRuns

  /** One request per seventeen microseconds, in segments of two. */
  const NARROW := Policy("p", "1", SlidingWindow, 1, 17, 0, 1, FailClosed, Strong, 0)

  const FIRST: int := -MAX_EXACT
  const SECOND: int := -EXACT + 16

  /** Ties to even, as IEEE 754 rounds: -(2^53 + 1) becomes -2^53. */
  ghost predicate TiesToEven(fl: real -> real) { Image(fl, -EXACT - 1) == -EXACT as real }

  /** A rounding that does so. */
  function Nudge(x: real): real
  {
    if -9_007_199_254_740_993.0 <= x < -9_007_199_254_740_992.0 then -9_007_199_254_740_992.0 else x
  }

  lemma TiesExist()
    ensures Rounding(Nudge) && TiesToEven(Nudge)
  {
  }

  /** The ring with the first request in it. */
  function Charge(): (segs: seq<Segment>)
    ensures |segs| == SEGMENTS && segs[0] == Segment(-EXACT / 2, 1)
    ensures forall j :: 0 < j < SEGMENTS ==> segs[j] == EMPTY
  {
    EmptySegments()[0 := Segment(-EXACT / 2, 1)]
  }

  lemma {:induction false} ChargeUsed(o: int, n: int)
    requires 1 <= n <= SEGMENTS
    ensures LiveUsed(Charge()[..n], o) == if -EXACT / 2 > o then 1 else 0
  {
    assert Charge()[..n][..n - 1] == Charge()[..n - 1];
    if n > 1 { ChargeUsed(o, n - 1); }
  }

  lemma NarrowValid()
    ensures NARROW.Valid() && ClockInRange(FIRST, 17) && ClockInRange(SECOND, 17) && FIRST <= SECOND
  {
    assert IdentifierChar("p"[0]) && IdentifierChar("1"[0]);
  }

  /** Of two instants at the bottom, the first lies in the segment right after the one the second's window starts in. */
  lemma NarrowIndices()
    ensures Width(17) == 2 && Index(FIRST, 17) == -EXACT / 2 && Oldest(SECOND, 17) == -EXACT / 2 - 1
    ensures (-EXACT / 2) % SEGMENTS == 0
  {
    DivUnique(FIRST, 2, -EXACT / 2);
    DivUnique(SECOND - 17, 2, -EXACT / 2 - 1);
  }

  /** The first request is admitted by both, and leaves the same segment. */
  lemma {:induction false} FirstAdmitted(fl: real -> real, r: Request)
    requires Rounding(fl) && r.policy == NARROW && r.cost == 1 && r.now == FIRST
    ensures var s := SlidingStep(EmptySegments(), NARROW, 1, FIRST);
            var reply := LuaSliding(fl, NewHash(r), NARROW, 1, FIRST);
            && !s.rejected && s.segs == Charge()
            && reply.Replied? && reply.allowed && reply.hash.slots == map[0 := Slot(-EXACT / 2, 1)]
  {
    hide LiveUsed, Earliest, FloorDiv, Num, Rounding;
    NarrowValid();
    NarrowIndices();
    var w := LuaWidth(fl, 17);
    var oldest := FloorDiv(fl, Num(fl, FIRST - 17), w);
    FloorDivExact(fl, FIRST, 2);
    NothingUsed(EmptySegments(), Oldest(FIRST, 17));
    NothingUsed(Ring(map[]), oldest);
    Sixteenth(fl, -EXACT / 2);
    NumExact(fl, 1);
    assert Unexpired(map[], oldest) == map[];
    assert SlidingStep(EmptySegments(), NARROW, 1, FIRST).segs == Charge();
  }

  /** At the second the script takes the only segment for expired and admits; PostgreSQL still counts it and rejects.
      So agreement does need the oldest segment not to round. */
  lemma {:induction false} BottomDisagrees(fl: real -> real, h: Hash)
    requires Rounding(fl) && TiesToEven(fl) && h.slots == map[0 := Slot(-EXACT / 2, 1)] && h.revision == NARROW.revision
    ensures NARROW.Valid() && ClockInRange(SECOND, NARROW.period) && !SameCutoff(fl, SECOND, NARROW.period)
    ensures SlidingStep(Charge(), NARROW, 1, SECOND).rejected
    ensures var reply := LuaSliding(fl, h, NARROW, 1, SECOND); reply.Replied? && reply.allowed
  {
    hide LiveUsed, Earliest, Rounding;
    NarrowValid();
    NarrowIndices();
    assert SECOND - 17 == -EXACT - 1;
    assert Num(fl, SECOND - 17) == -EXACT;
    HalfExact(fl);
    assert Charge()[..SEGMENTS] == Charge();
    ChargeUsed(Oldest(SECOND, 17), SEGMENTS);
    ChargeUsed(-EXACT / 2, SEGMENTS);
    assert Ring(h.slots) == Charge();
  }

  lemma HalfExact(fl: real -> real)
    requires Rounding(fl)
    ensures FloorDiv(fl, -EXACT, 2) == -EXACT / 2
  {
    assert -EXACT as real / 2 as real == (-EXACT / 2) as real;
    assert fl((-EXACT / 2) as real) == Image(fl, -EXACT / 2);
  }
}
