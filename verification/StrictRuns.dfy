// States the strict machine writes, and what it never does to them.
module StrictRuns {
  import opened Arithmetic
  import opened Policies
  import opened TokenBucket
  import opened Windows
  import opened States
  import opened StrictService

  /** The revisions of one policy ID: a label determines its parameters, windows keep their period. */
  datatype Family = Family(id: string, algorithm: Algorithm, period: int, policies: map<string, Policy>)
  {
    ghost predicate Valid()
    {
      && algorithm != Concurrency
      && forall tag :: tag in policies ==> Member(tag, policies[tag])
    }

    ghost predicate Member(tag: string, p: Policy)
    {
      && p.Valid() && p.id == id && p.revision == tag && p.algorithm == algorithm
      && (WindowAlgorithm(algorithm) ==> p.period == period)
    }

    ghost predicate Governs(r: Request)
    {
      && r.Sized() && r.policy.algorithm == algorithm
      && r.policy.revision in policies && policies[r.policy.revision] == r.policy
    }
  }

  /** A request for one unit. */
  function UnitRequest(p: Policy, now: int): Request { Request(p, "key", "kind", 1, now) }

  ghost predicate WrittenToken(s: State, p: Policy)
  {
    Sound(s.AsBucket(), p) && s.last == s.observed && s.period == 0 && !s.carried
  }

  ghost predicate WrittenFixed(s: State, p: Policy)
    requires 0 < p.period
  {
    && ValidPersistedMicros(s.window) && s.window == Floor(s.observed, p.period)
    && 0 <= s.used <= MAX_EXACT && (s.carried <==> s.used > p.Limit())
  }

  /** No slot is ahead of the clock, used or not. */
  ghost predicate Settled(segs: seq<Segment>, period: int, observed: int)
    requires 0 < period
  {
    forall j :: 0 <= j < |segs| ==> segs[j] == EMPTY || segs[j].index <= Index(observed, period)
  }

  ghost predicate WrittenSliding(s: State, p: Policy)
    requires 0 < p.period
  {
    && Placed(s.segments, p.period, s.observed) && Settled(s.segments, p.period, s.observed)
    && AllInRange(s.segments)
    && LiveUsed(s.segments, Oldest(s.observed, p.period)) <= MAX_EXACT
    && (LiveUsed(s.segments, Oldest(s.observed, p.period)) > p.Limit() ==> s.carried)
  }

  /** What holds of every state a strict step has written under some revision of the family. */
  ghost predicate Written(s: State, f: Family)
  {
    && f.Valid() && |s.segments| == SEGMENTS
    && s.schema == STATE_SCHEMA && s.policyId == f.id && s.algorithm == f.algorithm
    && s.revision in f.policies
    && var p := f.policies[s.revision];
    && p.algorithm == f.algorithm && 0 < p.period
    && ClockInRange(s.observed, p.period)
    && (WindowAlgorithm(f.algorithm) ==> s.period == p.period)
    && (f.algorithm == TokenBucket ==> WrittenToken(s, p))
    && (f.algorithm == FixedWindow ==> WrittenFixed(s, p))
    && (f.algorithm == SlidingWindow ==> WrittenSliding(s, p))
  }

  ghost predicate Row(current: Option<State>, f: Family)
  {
    current.Some? ==> Written(current.value, f)
  }

  /** The outcome a strict caller relies on: no corruption is invented, what is written is written well,
      and the decision is complete and in order. */
  ghost predicate GoodStep(result: StepResult, f: Family, r: Request)
  {
    match result
    case Fail(e) => e == ErrOverflow
    case Done(next, d, rejected) =>
      && Written(next, f)
      && next.revision == r.policy.revision
      && next.observed >= r.now
      && d.reset >= next.observed
      && (if rejected then CompleteRejected(d, r) else CompleteAllowed(d, r))
      && 0 <= d.remaining <= d.limit
  }

  // ------------------------------------------------------------ ring sums

  lemma {:induction false} EarliestLive(segs: seq<Segment>, o: int)
    ensures Earliest(segs, o) > o || Earliest(segs, o) == MAX_INT64
  {
    if segs != [] { EarliestLive(segs[..|segs| - 1], o); }
  }

  /** A sliding decision's Reset is after the effective instant. */
  lemma {:induction false} SlidingResetLater(segs: seq<Segment>, p: Policy, cost: int, now: int)
    requires 0 < p.period && |segs| == SEGMENTS
    ensures SlidingStep(segs, p, cost, now).decision.reset >= now
  {
    var w, o := Width(p.period), Oldest(now, p.period);
    LiveSpan(now, p.period);
    EarliestLive(segs, o);
    var earliest := Earliest(segs, o);
    if earliest != MAX_INT64 {
      DivBounds(now - p.period, w);
      MulMonotone(o + 1, earliest, w);
      assert (o + 1) * w == o * w + w && (earliest + 1) * w == earliest * w + w;
    }
  }

  lemma {:induction false} IndexInRange(now: int, period: int)
    requires 0 < period && ValidPersistedMicros(now)
    ensures ValidPersistedMicros(Index(now, period))
  {
    LiveSpan(now, period);
    var w := Width(period);
    DivBounds(now, w);
    if now >= 0 {
      DivMonotone(0, now, w);
      MulMonotone(1, w, now / w);
    } else {
      var q := now / w;
      if q < now { MulMonotone(q, now - 1, w); MulMonotone(1, w, -now); }
      DivMonotone(now, 0, w);
    }
  }

  // ---------------------------------------------------- one algorithm each

  lemma {:induction false} TokenWritten(current: Option<State>, r: Request, f: Family)
    requires f.Valid() && f.algorithm == TokenBucket && f.Governs(r) && Row(current, f)
    ensures GoodStep(Step(current, r), f, r)
  {
    hide GoodStep, TokenStep, ExactProduct;
    var p := r.policy;
    if current.Some? { PeriodBound(f.policies[current.value.revision]); }
    var s := if current.Some? then current.value else NewState(r);
    var now := Max(r.now, s.observed);
    var ready := Prepare(s, p, now);
    if ClockInRange(now, p.period) {
      assert Sound(ready.AsBucket(), p) && ready.last <= now;
      assert Step(current, r) == Apply(ready, p, r.cost, now);
      TokenApplied(ready, r, now, f);
    } else {
      assert Step(current, r) == Fail(ErrOverflow);
      Overflowed(f, r);
    }
  }

  lemma Overflowed(f: Family, r: Request)
    ensures GoodStep(Fail(ErrOverflow), f, r)
  {
  }

  lemma {:induction false} TokenApplied(ready: State, r: Request, now: int, f: Family)
    requires f.Valid() && f.algorithm == TokenBucket && f.Governs(r)
    requires |ready.segments| == SEGMENTS && ready.schema == STATE_SCHEMA && ready.policyId == f.id
    requires ready.algorithm == TokenBucket && ready.revision == r.policy.revision
    requires r.now <= now == ready.observed && ready.last <= now && ClockInRange(now, r.policy.period)
    requires Sound(ready.AsBucket(), r.policy) && ready.period == 0 && !ready.carried
    ensures GoodStep(Apply(ready, r.policy, r.cost, now), f, r)
  {
    hide TokenStep;
    StepKeepsSound(ready.AsBucket(), r.policy, r.cost, now);
    TokenDecision(ready.AsBucket(), r.policy, r.cost, now);
  }

  /** The decision of a token step is complete and its Reset in order. */
  lemma {:induction false} TokenDecision(b: Bucket, p: Policy, cost: int, now: int)
    requires TokenPolicy(p) && Sound(b, p) && 1 <= cost <= p.Limit()
    ensures var t := TokenStep(b, p, cost, now);
            && t.decision.limit == p.Limit() && t.decision.reset >= now
            && 0 <= t.decision.remaining <= p.Limit()
            && (if t.rejected then
                  && !t.decision.allowed && t.decision.reason == Limited
                  && t.decision.remaining < cost && t.decision.retryAfter >= 1
                else
                  && t.decision.allowed && t.decision.reason == Allowed
                  && t.decision.remaining <= p.Limit() - cost && t.decision.retryAfter == 0)
  {
    hide Refill, Wait;
    var full := Refill(b, p, now);
    RefillSound(b, p, now);
    var t := TokenStep(b, p, cost, now);
    WaitPositive(p.Limit() - t.bucket.tokens, t.bucket.remainder, p);
    if t.rejected { WaitPositive(cost - full.tokens, full.remainder, p); }
  }

  lemma {:induction false} WaitPositive(tokens: int, remainder: int, p: Policy)
    requires TokenPolicy(p) && 0 <= tokens && 0 <= remainder < p.period
    ensures Wait(tokens, remainder, p) >= 0
    ensures tokens > 0 ==> Wait(tokens, remainder, p) >= 1
  {
    hide CeilDiv;
    if tokens > 0 {
      MulMonotone(1, tokens, p.period);
      CeilDivLeast(tokens * p.period - remainder, p.capacity, 0);
    }
  }

  lemma {:induction false} FixedWritten(current: Option<State>, r: Request, f: Family)
    requires f.Valid() && f.algorithm == FixedWindow && f.Governs(r) && Row(current, f)
    ensures GoodStep(Step(current, r), f, r)
  {
    var p := r.policy;
    var s := if current.Some? then current.value else NewState(r);
    var now := Max(r.now, s.observed);
    DivMonotone(r.now, now, p.period);
    MulMonotone(r.now / p.period, now / p.period, p.period);
  }

  lemma {:induction false} SlidingWritten(current: Option<State>, r: Request, f: Family)
    requires f.Valid() && f.algorithm == SlidingWindow && f.Governs(r) && Row(current, f)
    ensures GoodStep(Step(current, r), f, r)
  {
    hide SlidingStep, LiveUsed;
    var p := r.policy;
    var s := if current.Some? then current.value else NewState(r);
    var now := Max(r.now, s.observed);
    if ClockInRange(now, p.period) {
      SlidingStart(current, r, f);
      SlidingValid(s, p, now);
      SlidingNext(s.segments, p, s.observed, r.cost, now);
      SlidingDecision(s.segments, p, r.cost, now);
    }
  }

  /** Loaded or created, the segments are well placed and their live sum exact. */
  lemma {:induction false} SlidingStart(current: Option<State>, r: Request, f: Family)
    requires f.Valid() && f.algorithm == SlidingWindow && f.Governs(r) && Row(current, f)
    ensures var s := if current.Some? then current.value else NewState(r);
            && Placed(s.segments, r.policy.period, s.observed) && Settled(s.segments, r.policy.period, s.observed)
            && AllInRange(s.segments)
            && LiveUsed(s.segments, Oldest(s.observed, r.policy.period)) <= MAX_EXACT
            && (s.revision == r.policy.revision ==>
                  LiveUsed(s.segments, Oldest(s.observed, r.policy.period)) > r.policy.Limit() ==> s.carried)
  {
    if current.None? {
      NothingUsed(EmptySegments(), Oldest(r.now, r.policy.period));
    }
  }

  lemma {:induction false} NothingUsed(segs: seq<Segment>, o: int)
    requires forall j :: 0 <= j < |segs| ==> segs[j] == EMPTY
    ensures LiveUsed(segs, o) == 0
  {
    if segs != [] { NothingUsed(segs[..|segs| - 1], o); }
  }

  /** Time only takes usage out of the window, so no later check fails. */
  lemma {:induction false} SlidingValid(s: State, p: Policy, now: int)
    requires 0 < p.period && Placed(s.segments, p.period, s.observed) && s.observed <= now
    ensures PositionsOk(s.segments, p.period, now)
    ensures LiveUsed(s.segments, Oldest(now, p.period)) <= LiveUsed(s.segments, Oldest(s.observed, p.period))
    ensures LiveUsed(s.segments, Oldest(now, p.period)) >= 0
  {
    LiveSpan(now, p.period);
    DivMonotone(s.observed - p.period, now - p.period, Width(p.period));
    DivMonotone(s.observed, now, Width(p.period));
    LiveUsedShrinks(s.segments, Oldest(s.observed, p.period), Oldest(now, p.period));
    LiveUsedNonNegative(s.segments, Oldest(now, p.period));
  }

  lemma {:induction false} SlidingNext(segs: seq<Segment>, p: Policy, observed: int, cost: int, now: int)
    requires p.Valid() && p.algorithm == SlidingWindow && Placed(segs, p.period, observed) && observed <= now
    requires AllInRange(segs) && Settled(segs, p.period, observed)
    requires ValidPersistedMicros(now) && 1 <= cost && LiveUsed(segs, Oldest(now, p.period)) <= MAX_EXACT
    ensures var t := SlidingStep(segs, p, cost, now);
            && Placed(t.segs, p.period, now) && Settled(t.segs, p.period, now)
            && AllInRange(t.segs)
            && LiveUsed(t.segs, Oldest(now, p.period)) == t.used <= MAX_EXACT
            && (t.used > p.Limit() ==> t.carried)
  {
    var o, t := Oldest(now, p.period), SlidingStep(segs, p, cost, now);
    PlacedStep(segs, p, observed, cost, now);
    StepUsage(segs, p, observed, cost, now, o);
    LiveSpan(now, p.period);
    DivMonotone(observed, now, Width(p.period));
    LiveUsedNonNegative(t.segs, o);
    LiveUsedNonNegative(segs, o);
    IndexInRange(now, p.period);
    forall j | 0 <= j < SEGMENTS ensures SegmentInRange(t.segs[j]) {
      if j == Index(now, p.period) % SEGMENTS { assert Live(t.segs[j], o) == t.segs[j].used; }
    }
  }

  lemma {:induction false} SlidingDecision(segs: seq<Segment>, p: Policy, cost: int, now: int)
    requires p.Valid() && p.algorithm == SlidingWindow && |segs| == SEGMENTS
    requires 1 <= cost <= p.Limit() && LiveUsed(segs, Oldest(now, p.period)) >= 0
    ensures var t := SlidingStep(segs, p, cost, now);
            && t.decision.limit == p.Limit() && t.decision.reset >= now
            && 0 <= t.decision.remaining <= p.Limit()
            && (if t.rejected then
                  && !t.decision.allowed && t.decision.reason == Limited
                  && t.decision.remaining < cost && t.decision.retryAfter >= 0
                else
                  && t.decision.allowed && t.decision.reason == Allowed
                  && t.decision.remaining <= p.Limit() - cost && t.decision.retryAfter == 0)
  {
    SlidingResetLater(segs, p, cost, now);
  }

  // ------------------------------------------------------------------- runs

  /** No false corruption, for one step: a row the strict machine wrote, or none, under any revision of the
      family and any clock, yields a well-written row with a complete decision, or overflows; it is never
      called corrupt. */
  lemma {:induction false} StepWritten(current: Option<State>, r: Request, f: Family)
    requires f.Valid() && f.Governs(r) && Row(current, f)
    ensures GoodStep(Step(current, r), f, r)
  {
    match f.algorithm
    case TokenBucket => TokenWritten(current, r, f);
    case FixedWindow => FixedWritten(current, r, f);
    case SlidingWindow => SlidingWritten(current, r, f);
  }

  /** Hence a step on a strictly written row is its algorithm's, unless the clock is out of range. */
  lemma {:induction false} StepApplies(current: Option<State>, r: Request, f: Family)
    requires f.Valid() && f.Governs(r) && Row(current, f)
    ensures var p := r.policy;
            var s := if current.Some? then current.value else NewState(r);
            var now := Max(r.now, s.observed);
            Step(current, r) ==
              if (p.algorithm == FixedWindow && !ValidPersistedMicros(Floor(r.now, p.period))) ||
                !ClockInRange(now, p.period)
              then Fail(ErrOverflow) else Apply(Prepare(s, p, now), p, r.cost, now)
  {
    hide Apply, LoadedOk, WindowOk, Floor, ExactProduct;
    StepWritten(current, r, f);
  }

  /** One moment in the life of a row: a strict admission, or its removal, by expiry or cleanup and at any time. */
  datatype Moment = Called(request: Request) | Dropped

  ghost predicate Governed(moments: seq<Moment>, f: Family)
  {
    forall i :: 0 <= i < |moments| ==> moments[i].Called? ==> f.Governs(moments[i].request)
  }

  /** The row after a sequence of moments; failed admissions roll back. */
  ghost function RunRow(f: Family, moments: seq<Moment>): (row: Option<State>)
    requires f.Valid() && Governed(moments, f)
    ensures row.Some? ==> |row.value.segments| == SEGMENTS
  {
    if moments == [] then None
    else
      var before := RunRow(f, moments[..|moments| - 1]);
      match moments[|moments| - 1]
      case Dropped => None
      case Called(r) =>
        match Step(before, r)
        case Done(next, _, _) => Some(next)
        case Fail(_) => before
  }

  lemma {:induction false} NoFalseCorruption(moments: seq<Moment>, f: Family, r: Request)
    requires f.Valid() && f.Governs(r) && Governed(moments, f)
    ensures Row(RunRow(f, moments), f)
    ensures GoodStep(Step(RunRow(f, moments), r), f, r)
  {
    hide Step;
    if moments != [] {
      var before, last := moments[..|moments| - 1], moments[|moments| - 1];
      NoFalseCorruption(before, f, if last.Called? then last.request else r);
    }
    StepWritten(RunRow(f, moments), r, f);
  }
}
