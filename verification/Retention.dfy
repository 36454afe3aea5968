// Row expiry: how long a strict writer keeps a row, and why dropping it later
// cannot be observed.
module Retention {
  import opened Arithmetic
  import opened Policies
  import opened TokenBucket
  import opened Windows
  import opened States
  import opened StrictRuns
  import opened Wire

  const SECOND: int := 1_000_000

  /** Half the longest duration, in whole microseconds. */
  const HALF_DURATION: int := 4_611_686_018_427_387

  /** postgresStateTTL: two durations, at least a second, saturating. */
  function StateTTL(duration: int): int
  {
    if duration > HALF_DURATION then MAX_DURATION else Max(2 * duration, SECOND)
  }

  /** postgresAdmissionTTL: token rows also outlive a full refill. */
  function AdmissionTTL(p: Policy): int
    requires p.Valid() && p.algorithm != Concurrency
  {
    if p.algorithm == TokenBucket then Max(StateTTL(p.period), TokenDuration(p.Limit(), 0, p)) else StateTTL(p.period)
  }

  /** Two durations, or the longest one where they overflow it, and at least a second. */
  ghost predicate CoversTwo(duration: int, ttl: int) { ttl >= SECOND && ttl >= Min(2 * duration, MAX_DURATION) }

  /** Whatever a bucket held, it is full again after this long. */
  ghost predicate CoversRefill(p: Policy, ttl: int)
    requires TokenPolicy(p)
  {
    forall b: Bucket, now :: Sound(b, p) && now >= b.last + ttl ==> Refill(b, p, now) == Fresh(p, now)
  }

  /** A row, of leases too, is kept as long as that takes and no longer. */
  lemma StateTTLLeast(duration: int, ttl: int)
    requires 0 < duration
    ensures ttl >= StateTTL(duration) <==> CoversTwo(duration, ttl)
  {
  }

  /** And a token row as long as a full refill takes. */
  lemma {:induction false} AdmissionTTLLeast(p: Policy, ttl: int)
    requires p.Valid() && p.algorithm != Concurrency && 0 <= ttl
    ensures ttl >= AdmissionTTL(p) <==>
              CoversTwo(p.period, ttl) && (p.algorithm == TokenBucket ==> CoversRefill(p, ttl))
  {
    hide Wait, ExactProduct;
    StateTTLLeast(p.period, ttl);
    if p.algorithm == TokenBucket {
      PeriodBound(p);
      HorizonExact(p, ttl);
    }
  }

  /** loadStateStrict: a row whose expiry has come is gone. */
  function Load(s: State, expires: int, now: int): Option<State>
  {
    if expires > now then Some(s) else None
  }

  // -------------------------------------------------------------- per algorithm

  /** The full-refill horizon is exactly how long a token row has to live: any shorter and some drained
      bucket would come back richer than it was left. */
  lemma {:induction false} HorizonExact(p: Policy, ttl: int)
    requires TokenPolicy(p) && 0 <= ttl
    ensures CoversRefill(p, ttl) <==> ttl >= Wait(p.Limit(), 0, p)
  {
    var empty := Bucket(0, 0, 0);
    WaitExact(empty, p, p.Limit(), ttl);
    RefillSound(empty, p, ttl);
    if ttl >= Wait(p.Limit(), 0, p) {
      forall b: Bucket, now | Sound(b, p) && now >= b.last + ttl ensures Refill(b, p, now) == Fresh(p, now) {
        RefilledAfter(b, p, now);
      }
    } else {
      assert Refill(empty, p, ttl).tokens < p.Limit();
      assert Sound(empty, p);
    }
  }

  lemma {:induction false} RefilledAfter(b: Bucket, p: Policy, now: int)
    requires TokenPolicy(p) && Sound(b, p) && now - b.last >= Wait(p.Limit(), 0, p)
    ensures Refill(b, p, now) == Fresh(p, now)
  {
    hide Refill;
    var full := p.Limit() * p.period;
    CeilDivLeast(full, p.capacity, now - b.last);
    MulMonotone(1, p.Limit(), p.period);
    CeilDivLeast(full, p.capacity, 0);
    RefillBalance(b, p, now);
    BalanceSplits(b, p);
    BalanceSplits(Refill(b, p, now), p);
  }

  /** Two periods cover the horizon exactly when burst is no larger than capacity. */
  lemma {:induction false} TwoPeriodsCover(p: Policy)
    requires TokenPolicy(p)
    ensures 2 * p.period >= Wait(p.Limit(), 0, p) <==> p.burst <= p.capacity
  {
    hide CeilDiv, ExactProduct;
    CeilDivLeast(p.Limit() * p.period, p.capacity, 2 * p.period);
    TwoPeriods(p.Limit(), p.capacity, p.period);
  }

  lemma {:induction false} TwoPeriods(limit: int, capacity: int, period: int)
    requires 0 < period
    ensures limit * period <= 2 * period * capacity <==> limit <= 2 * capacity
  {
    assert 2 * period * capacity == 2 * capacity * period;
    if limit <= 2 * capacity { MulMonotone(limit, 2 * capacity, period); }
    else { MulMonotone(2 * capacity + 1, limit, period); }
  }

  lemma {:induction false} TokenExpires(s: State, f: Family, r: Request)
    requires Written(s, f) && f.algorithm == TokenBucket && f.Governs(r) && s.revision == r.policy.revision
    requires r.now - s.observed >= Wait(r.policy.Limit(), 0, r.policy)
    ensures Same(Step(Some(s), r), Step(None, r))
  {
    hide TokenStep, Refill, Wait, ExactProduct;
    var p := r.policy;
    PeriodBound(p);
    WaitPositive(p.Limit(), 0, p);
    RefilledAfter(s.AsBucket(), p, r.now);
    RefillIdle(Fresh(p, r.now), p);
    StepsFromRefill(s.AsBucket(), Fresh(p, r.now), p, r.cost, r.now);
  }

  lemma StepsFromRefill(a: Bucket, b: Bucket, p: Policy, cost: int, now: int)
    requires TokenPolicy(p) && Refill(a, p, now) == Refill(b, p, now)
    ensures TokenStep(a, p, cost, now) == TokenStep(b, p, cost, now)
  {
  }

  lemma {:induction false} FixedExpires(s: State, f: Family, r: Request)
    requires Written(s, f) && f.algorithm == FixedWindow && f.Governs(r) && s.revision == r.policy.revision
    requires r.now - s.observed >= r.policy.period
    ensures Same(Step(Some(s), r), Step(None, r))
  {
    hide Step, Floor, ExactProduct;
    var p := r.policy;
    StepApplies(Some(s), r, f);
    StepApplies(None, r, f);
    WindowMoves(s.observed, r.now, p.period);
  }

  lemma {:induction false} TTLCovers(p: Policy)
    requires p.Valid() && p.algorithm != Concurrency
    ensures AdmissionTTL(p) >= p.period
    ensures p.algorithm == TokenBucket ==> AdmissionTTL(p) >= Wait(p.Limit(), 0, p)
  {
    hide Wait;
    MulMonotone(1, p.Limit(), p.period);
    if p.algorithm == TokenBucket { PeriodBound(p); }
  }

  lemma {:induction false} WindowMoves(before: int, now: int, period: int)
    requires 0 < period && now >= before + period
    ensures Floor(now, period) > Floor(before, period)
  {
    DivShift(before, 1, period);
    DivMonotone(before + period, now, period);
    MulMonotone(before / period + 1, now / period, period);
    assert (before / period + 1) * period == (before / period) * period + period;
  }

  lemma {:induction false} SlidingExpires(s: State, f: Family, r: Request)
    requires Written(s, f) && f.algorithm == SlidingWindow && f.Governs(r) && s.revision == r.policy.revision
    requires r.now - s.observed >= r.policy.period
    ensures Same(Step(Some(s), r), Step(None, r))
  {
    hide Step, SlidingStep, ExactProduct, Placed, LiveUsed, AllInRange;
    var p := r.policy;
    StepApplies(Some(s), r, f);
    StepApplies(None, r, f);
    RingForgets(s.segments, p, s.observed, r.cost, r.now);
  }

  /** A full period on, nothing of the ring is left. */
  lemma {:induction false} RingForgets(segs: seq<Segment>, p: Policy, observed: int, cost: int, now: int)
    requires 0 < p.period && |segs| == SEGMENTS && Settled(segs, p.period, observed) && now >= observed + p.period
    ensures SlidingStep(segs, p, cost, now) == SlidingStep(EmptySegments(), p, cost, now)
  {
    var o := Oldest(now, p.period);
    LiveSpan(now, p.period);
    DivMonotone(observed, now - p.period, Width(p.period));
    NothingLeft(segs, o);
    NothingLeft(EmptySegments(), o);
    assert Expired(segs, o) == EmptySegments() == Expired(EmptySegments(), o);
  }

  lemma {:induction false} NothingLeft(segs: seq<Segment>, o: int)
    requires forall j :: 0 <= j < |segs| ==> segs[j] == EMPTY || segs[j].index <= o
    ensures LiveUsed(segs, o) == 0 && Earliest(segs, o) == MAX_INT64
  {
    if segs != [] { NothingLeft(segs[..|segs| - 1], o); }
  }

  // ------------------------------------------------------------------ theorem

  /** Expiry is unobservable: under an unchanged policy, dropping a strictly written row at or after its
      expiry, or keeping it, yields the same decision and an equivalent state; bursts that need more than
      two periods included. */
  lemma {:induction false} ExpiryUnobservable(s: State, f: Family, r: Request)
    requires Written(s, f) && f.Governs(r) && s.revision == r.policy.revision
    ensures var expires := s.observed + AdmissionTTL(r.policy);
            Same(Step(Load(s, expires, r.now), r), Step(Some(s), r))
  {
    hide Step, Written, Same, AdmissionTTL, Wait;
    WrittenFamily(s, f);
    SameReflexive(Step(Some(s), r));
    TTLCovers(r.policy);
    if r.now >= s.observed + AdmissionTTL(r.policy) {
      match f.algorithm {
        case TokenBucket => TokenExpires(s, f, r);
        case FixedWindow => FixedExpires(s, f, r);
        case SlidingWindow => SlidingExpires(s, f, r);
      }
      SameSymmetric(Step(Some(s), r), Step(None, r));
    }
  }

  lemma WrittenFamily(s: State, f: Family)
    requires Written(s, f)
    ensures f.Valid() && |s.segments| == SEGMENTS && s.algorithm == f.algorithm != Concurrency
  {
  }

  lemma SameReflexive(a: StepResult)
    ensures Same(a, a)
  {
  }

  lemma SameSymmetric(a: StepResult, b: StepResult)
    requires Same(a, b)
    ensures Same(b, a)
  {
  }
}
