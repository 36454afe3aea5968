// Strict admission and acquisition in the in-process store, from the subject of
// one key to what the service tells the caller.
module MemoryAdmission {
  import opened Arithmetic
  import opened Policies
  import opened TokenBucket
  import opened Windows
  import opened States
  import opened StrictService
  import opened StrictRuns
  import opened Leases
  import opened MemoryTokens
  import opened MemoryWraps
  import opened MemoryWindows
  import opened MemoryStore
  import opened MemoryLeases

  // ----------------------------------------------------------------- one key

  /** Instants and durations of a decision, from microseconds to nanoseconds. */
  function Scaled(d: Decision): Decision { d.(reset := NANOS * d.reset, retryAfter := NANOS * d.retryAfter) }

  datatype Admitted = Admitted(subject: Subject, decision: Decision, rejected: bool)

  /** The algorithm switch of admitLocked at the clamped instant. Decisions are in nanoseconds. */
  function Apply(e: Subject, r: Request): (a: Admitted)
    requires 0 < r.policy.period && 1 <= r.policy.capacity && |e.segments| == SEGMENTS
    ensures |a.subject.segments| == SEGMENTS && a.subject.lastSeen == e.lastSeen
  {
    match r.policy.algorithm
    case TokenBucket =>
      var b := MemoryRefill(Bucket(e.tokens, e.remainder, e.lastRefill), r.policy, r.now);
      var t := TokenStep(b, r.policy, r.cost, r.now);
      Admitted(e.(tokens := t.bucket.tokens, remainder := t.bucket.remainder, lastRefill := t.bucket.last),
               Scaled(t.decision), t.rejected)
    case FixedWindow =>
      var w := MemoryFixed(e.windowStart, e.used, r.policy, r.cost, r.now);
      Admitted(e.(windowStart := w.window, used := w.used), w.decision, w.rejected)
    case _ =>
      var w := MemorySliding(e.segments, r.policy, r.cost, r.now);
      Admitted(e.(segments := w.segs, used := w.used), w.decision, w.rejected)
  }

  /** The subject a request finds or creates, carried over to its revision. */
  function Found(e: Option<Subject>, r: Request): Subject
  {
    if e.None? then MemoryStore.Fresh(r) else if e.value.revision != r.policy.revision then Carry(e.value, r)
      else e.value
  }

  datatype Attempt = Completed(admitted: Admitted) | Refused(error: Error)

  /** AdmitStrict under the shard lock, with room in the shard; the post-step time check is TimedDecision. */
  function Admit(e: Option<Subject>, r: Request): (o: Attempt)
    requires r.Sized() && (e.Some? ==> |e.value.segments| == SEGMENTS)
    ensures o.Completed? ==> |o.admitted.subject.segments| == SEGMENTS
  {
    var p := r.policy;
    var effective := if e.Some? then Max(r.now, e.value.lastSeen) else r.now;
    if !r.Valid() then Refused(ErrInvalidRequest)
    else if p.algorithm == Concurrency then Refused(ErrUnsupported)
    else if e.Some? && WindowAlgorithm(p.algorithm) && e.value.windowPeriod != 0 &&
      e.value.windowPeriod != p.period then Refused(ErrCorrupt)
    else if !ClockInRange(effective, p.period) then Refused(ErrOverflow)
    else if e.Some? && e.value.algorithm != p.algorithm then Refused(ErrCorrupt)
    else Completed(Apply(Found(e, r).(lastSeen := effective), r.(now := effective)))
  }

  /** Exactly when an admission is refused, and the first reason that applies. */
  lemma AdmitRefuses(e: Option<Subject>, r: Request)
    requires r.Sized() && (e.Some? ==> |e.value.segments| == SEGMENTS)
    ensures var now := if e.Some? && e.value.lastSeen > r.now then e.value.lastSeen else r.now;
            var rePeriod := e.Some? && r.policy.algorithm in {FixedWindow, SlidingWindow} &&
                            e.value.windowPeriod !in {0, r.policy.period};
            Admit(e, r).Refused? <==>
              || r.now < -MAX_EXACT || r.now + r.policy.Duration() > MAX_EXACT || r.policy.algorithm == Concurrency
              || rePeriod || now + r.policy.period > MAX_EXACT
              || (e.Some? && e.value.algorithm != r.policy.algorithm)
    ensures Admit(e, r).Refused? && r.Valid() && r.policy.algorithm != Concurrency ==>
              Admit(e, r).error in {ErrCorrupt, ErrOverflow}
    ensures r.Valid() && Admit(e, r) == Refused(ErrCorrupt) ==> e.Some?
  {
  }

  /** strictDecisionResult: a nonzero Reset before the effective instant would be refused. */
  predicate TimedDecision(a: Admitted)
  {
    a.decision.reset == NANOS * ZERO_TIME || a.decision.reset >= NANOS * a.subject.lastSeen
  }

  /** The change ServeLocked makes, for the store as it runs. */
  function Change(e: Subject, r: Request): Subject
  {
    if 0 < r.policy.period && 1 <= r.policy.capacity && |e.segments| == SEGMENTS then Apply(e, r).subject else e
  }

  /** A shard serving a key it has room for does to that key what Admit says. */
  lemma ServedIsAdmitted(e: Option<Subject>, r: Request)
    requires r.Sized() && (e.Some? ==> |e.value.segments| == SEGMENTS) && Admit(e, r).Completed?
    ensures Served(Found(e, r), r, Change) == Admit(e, r).admitted.subject
  {
  }

  // -------------------------------------------------------------------- runs

  /** What every strict admission leaves in a subject: a sound bucket, or a window of the family's period. */
  ghost predicate Kept(e: Subject, f: Family)
  {
    && f.Valid() && |e.segments| == SEGMENTS && e.algorithm == f.algorithm && e.revision in f.policies
    && -MAX_EXACT <= e.lastSeen
    && (f.algorithm == TokenBucket ==> Sound(Bucket(e.tokens, e.remainder, e.lastRefill), f.policies[e.revision]))
    && (WindowAlgorithm(f.algorithm) ==> e.windowPeriod == f.period)
    && (f.algorithm == SlidingWindow ==> 0 < f.period && Filed(e.segments, f.period, e.lastSeen))
    && 0 <= e.used && forall j :: 0 <= j < SEGMENTS ==> e.segments[j].used >= 0
  }

  /** A sliding window of such a period can be caught by the post-step time check. */
  ghost predicate Late(f: Family)
  {
    f.algorithm == SlidingWindow && 0 < f.period && Overdue(f.period)
  }

  /** In order, in nanoseconds. */
  ghost predicate Timely(a: Admitted) { a.decision.reset >= NANOS * a.subject.lastSeen }

  ghost predicate KeptAny(e: Option<Subject>, f: Family) { e.Some? ==> Kept(e.value, f) }

  /** A complete decision, in nanoseconds. */
  ghost predicate Answers(a: Admitted, r: Request)
  {
    && a.decision.reset >= MIN_INT64 && a.subject.lastSeen >= -MAX_EXACT
    && a.decision.allowed == !a.rejected && a.decision.limit == r.policy.Limit()
    && a.decision.reason == (if a.rejected then Limited else Allowed)
    && (if a.rejected then a.decision.remaining < r.cost && a.decision.retryAfter >= 0
        else a.decision.remaining <= r.policy.Limit() - r.cost && a.decision.retryAfter == 0)
  }

  lemma {:induction false} TokenAdmits(e: Subject, r: Request, f: Family)
    requires f.Valid() && f.Governs(r) && f.algorithm == TokenBucket && e.lastSeen == r.now >= -MAX_EXACT
    requires Kept(e, f) && e.revision == r.policy.revision
    ensures Kept(Apply(e, r).subject, f) && Answers(Apply(e, r), r) && Timely(Apply(e, r))
  {
    hide TokenStep, ExactProduct;
    var p := r.policy;
    var b := MemoryRefill(Bucket(e.tokens, e.remainder, e.lastRefill), p, r.now);
    MemoryRefillSound(Bucket(e.tokens, e.remainder, e.lastRefill), p, r.now);
    StepKeepsSound(b, p, r.cost, r.now);
    TokenDecision(b, p, r.cost, r.now);
  }

  /** A memory refill keeps a bucket sound, wrapping or not. */
  lemma {:induction false} MemoryRefillSound(b: Bucket, p: Policy, now: int)
    requires TokenPolicy(p) && Sound(b, p)
    ensures Sound(MemoryRefill(b, p, now), p)
  {
    if b.last < now && b.tokens < p.Limit() {
      var n := SatSub(now, b.last) * p.capacity + b.remainder;
      MulMonotone(0, SatSub(now, b.last), p.capacity);
      DivMonotone(0, n, p.period);
      DivBounds(n, p.period);
    }
  }

  lemma {:induction false} FixedAdmits(e: Subject, r: Request, f: Family)
    requires f.Valid() && f.Governs(r) && f.algorithm == FixedWindow && e.lastSeen == r.now
    requires Kept(e, f) && e.revision == r.policy.revision && ClockInRange(r.now, r.policy.period)
    ensures Kept(Apply(e, r).subject, f) && Answers(Apply(e, r), r) && Timely(Apply(e, r))
  {
    hide Floor, ExactProduct, Wrap64;
    assert Floor(NANOS * r.now, NANOS * r.policy.period) + NANOS * r.policy.period > NANOS * r.now;
  }

  lemma {:induction false} SlidingAdmits(e: Subject, r: Request, f: Family)
    requires f.Valid() && f.Governs(r) && f.algorithm == SlidingWindow && e.lastSeen == r.now
    requires Kept(e, f) && e.revision == r.policy.revision && ClockInRange(r.now, r.policy.period)
    ensures Kept(Apply(e, r).subject, f) && Answers(Apply(e, r), r)
    ensures !Late(f) ==> Timely(Apply(e, r))
  {
    hide LiveUsed, Earliest, ExactProduct, NanoIndex, NanoOldest, Wrap64, Filed, Opened, Expired, Charged, Size,
      Overdue;
    var p := r.policy;
    LiveUsedNonNegative(e.segments, NanoOldest(r.now, p.period));
    FiledStep(e.segments, p, r.cost, r.now);
    FiledUsed(MemorySliding(e.segments, p, r.cost, r.now).segs, p.period, r.now);
    PeriodExact(p);
    if !Late(f) { FiledReset(e.segments, p.period, r.now); }
  }

  lemma FiledUsed(segs: seq<Segment>, period: int, now: int)
    requires 0 < period && Filed(segs, period, now)
    ensures |segs| == SEGMENTS && forall j :: 0 <= j < SEGMENTS ==> segs[j].used >= 0
  {
  }

  lemma {:induction false} PeriodExact(p: Policy)
    requires p.Valid() && p.algorithm != Concurrency
    ensures 0 < p.period <= MAX_EXACT
  {
    MulMonotone(1, p.Limit(), p.period);
  }

  lemma {:induction false} FoundKept(e: Option<Subject>, r: Request, f: Family, now: int)
    requires f.Valid() && f.Governs(r) && KeptAny(e, f) && now >= -MAX_EXACT && (e.Some? ==> e.value.lastSeen <= now)
    ensures Kept(Found(e, r).(lastSeen := now), f) && Found(e, r).revision == r.policy.revision
  {
    hide ExactProduct, FiledIndex;
    if f.algorithm == SlidingWindow && e.Some? { FiledLater(e.value.segments, f.period, e.value.lastSeen, now); }
  }

  lemma {:induction false} AdmitKeeps(e: Option<Subject>, r: Request, f: Family)
    requires f.Valid() && f.Governs(r) && KeptAny(e, f)
    ensures match Admit(e, r)
            case Refused(error) => error == ErrOverflow || error == ErrInvalidRequest
            case Completed(a) => Kept(a.subject, f) && Answers(a, r) && (!Late(f) ==> Timely(a))
  {
    hide Apply, ExactProduct, Found, Answers, Timely, Filed, Late;
    if Admit(e, r).Completed? {
      var effective := if e.Some? then Max(r.now, e.value.lastSeen) else r.now;
      FoundKept(e, r, f, effective);
      var base, at := Found(e, r).(lastSeen := effective), r.(now := effective);
      assert f.Governs(at);
      match f.algorithm {
        case TokenBucket => TokenAdmits(base, at, f);
        case FixedWindow => FixedAdmits(base, at, f);
        case SlidingWindow => SlidingAdmits(base, at, f);
      }
      AnswersIgnoreClock(Admit(e, r).admitted, at, r);
    }
  }

  lemma AnswersIgnoreClock(a: Admitted, at: Request, r: Request)
    requires Answers(a, at) && at == r.(now := at.now)
    ensures Answers(a, r)
  {
  }

  /** One key's life under strict admissions: a sweep or an eviction may drop it at any point. */
  ghost function Life(moments: seq<Moment>): (e: Option<Subject>)
    requires forall i :: 0 <= i < |moments| ==> moments[i].Called? ==> moments[i].request.Sized()
    ensures e.Some? ==> |e.value.segments| == SEGMENTS
  {
    if moments == [] then None
    else
      var before := Life(moments[..|moments| - 1]);
      match moments[|moments| - 1]
      case Dropped => None
      case Called(r) => After(before, r)
  }

  ghost function After(e: Option<Subject>, r: Request): (next: Option<Subject>)
    requires r.Sized() && (e.Some? ==> |e.value.segments| == SEGMENTS)
    ensures next.Some? ==> |next.value.segments| == SEGMENTS
  {
    if Admit(e, r).Completed? then Some(Admit(e, r).admitted.subject) else e
  }

  /** Soundness is kept over every life of a key: drops, clock rollback and revisions up and down included. */
  lemma {:induction false} LifeKept(moments: seq<Moment>, f: Family)
    requires f.Valid() && Governed(moments, f)
    ensures KeptAny(Life(moments), f)
  {
    hide Admit, Kept;
    if moments != [] {
      LifeKept(moments[..|moments| - 1], f);
      var last := moments[|moments| - 1];
      if last.Called? { AdmitKeeps(Life(moments[..|moments| - 1]), last.request, f); }
    }
  }

  // ------------------------------------------------------------- recognition

  /** A decision in whole microseconds, the unit the service model compares in. */
  function InMicros(d: Decision): Decision { d.(reset := d.reset / NANOS, retryAfter := d.retryAfter / NANOS) }

  lemma MicrosExact(d: Decision)
    ensures InMicros(Scaled(d)) == d
  {
  }

  lemma {:induction false} MicrosComplete(a: Admitted, r: Request)
    requires Answers(a, r)
    ensures a.decision.reset != NANOS * ZERO_TIME && InMicros(a.decision).reset != ZERO_TIME
    ensures Timely(a) ==> InMicros(a.decision).reset >= a.subject.lastSeen
    ensures if a.rejected then CompleteRejected(InMicros(a.decision), r) else CompleteAllowed(InMicros(a.decision), r)
  {
    DivMonotone(MIN_INT64, a.decision.reset, NANOS);
    if Timely(a) { DivMonotone(NANOS * a.subject.lastSeen, a.decision.reset, NANOS); }
  }

  /** Every committed decision of the memory store, of all three algorithms and over every life of a key, passes the
      post-step time check, unless it is a late sliding window's, and is one the service hands on as it is. */
  lemma {:induction false} AdmissionsRecognised(
    moments: seq<Moment>, f: Family, r: Request, name: string, context: OutcomeKind)
    requires f.Valid() && Governed(moments, f) && f.Governs(r)
    ensures match Admit(Life(moments), r)
            case Refused(error) => error == ErrOverflow || error == ErrInvalidRequest
            case Completed(a) =>
              var error := if a.rejected then Sentinel(ErrRejected) else NoError;
              && (!Late(f) ==> TimedDecision(a))
              && a.decision.reset != NANOS * ZERO_TIME && a.decision.retryAfter >= 0
              && NormalizeAdmit(name, context, r, InMicros(a.decision), error) ==
                   Answer(Stamp(InMicros(a.decision), r.policy, name), error)
  {
    hide Admit, Kept, Late;
    LifeKept(moments, f);
    AdmitKeeps(Life(moments), r, f);
    if Admit(Life(moments), r).Completed? { MicrosComplete(Admit(Life(moments), r).admitted, r); }
  }

  /** The time check passes every decision of the family, over every life of a key. */
  ghost predicate AlwaysTimed(f: Family)
  {
    forall moments, r ::
      Governed(moments, f) && f.Governs(r) && Admit(Life(moments), r).Completed? ==>
        TimedDecision(Admit(Life(moments), r).admitted)
  }

  /** A late family is caught by two requests for one unit, at the earliest and at the latest accepted instant. */
  lemma {:induction false} LateCaught(f: Family, p: Policy)
    requires f.Valid() && p.revision in f.policies && f.policies[p.revision] == p && Late(f)
    ensures var first := UnitRequest(p, -MAX_EXACT);
            var second := UnitRequest(p, MAX_EXACT - p.period);
            && Governed([Called(first)], f) && f.Governs(second) && Admit(Life([Called(first)]), second).Completed?
            && !TimedDecision(Admit(Life([Called(first)]), second).admitted)
  {
    hide MemorySliding, Overdue, ExactProduct, Kept;
    PeriodExact(p);
    OverdueShows(p);
    var first, second := UnitRequest(p, -MAX_EXACT), UnitRequest(p, MAX_EXACT - p.period);
    assert Life([Called(first)]) == After(None, first) by { assert [Called(first)][..0] == []; }
    var ring := MemorySliding(EmptySegments(), p, 1, -MAX_EXACT).segs;
    var e := Admit(None, first).admitted.subject;
    assert e.segments == ring && e.lastSeen == -MAX_EXACT;
    var a := Admit(Some(e), second).admitted;
    assert a.decision == MemorySliding(ring, p, 1, second.now).decision;
    LifeKept([Called(first)], f);
    AdmitKeeps(Some(e), second, f);
  }

  /** So the time check never fires for a family that serves requests if and only if it is not late. */
  lemma {:induction false} AlwaysTimedExact(f: Family)
    requires f.Valid() && f.policies != map[]
    ensures AlwaysTimed(f) <==> !Late(f)
  {
    hide Admit, Late, TimedDecision;
    if Late(f) {
      var tag :| tag in f.policies;
      LateCaught(f, f.policies[tag]);
    } else {
      forall moments, r | Governed(moments, f) && f.Governs(r) && Admit(Life(moments), r).Completed?
        ensures TimedDecision(Admit(Life(moments), r).admitted)
      {
        AdmissionsRecognised(moments, f, r, "", NoKind);
      }
    }
  }

  /** Past the range check of AcquireStrict, every lease answer of the memory store passes the time check and
      reaches the caller as it is. */
  lemma {:induction false} AcquisitionRecognised(b: Book, r: LeaseRequest, name: string, context: OutcomeKind)
    requires r.Valid() && Unsigned(b.leases) && ClockInRange(Max(r.request.now, b.lastSeen), r.request.policy.lease)
    ensures match Acquired(b, r)
            case Owned(book, l, d) =>
              && LeaseInOrder(l, d, book.lastSeen)
              && NormalizeAcquire(name, context, r, l, d, NoError)
                   == LeaseAnswer(l.(backend := name), Stamp(d, r.request.policy, name), NoError)
            case Full(book, d) =>
              && LeaseInOrder(ZERO_LEASE, d, book.lastSeen)
              && NormalizeAcquire(name, context, r, ZERO_LEASE, d, Sentinel(ErrRejected))
                   == LeaseAnswer(ZERO_LEASE, Stamp(d, r.request.policy, name), Sentinel(ErrRejected))
            case NotOwner(_) =>
              NormalizeAcquire(name, context, r, ZERO_LEASE, ZERO_DECISION, Sentinel(ErrLeaseNotOwned)).error
                == Sentinel(ErrLeaseNotOwned)
  {
    hide TotalCost, EarliestExpiry, ValidIdentifier, ExactProduct;
    var now := Max(r.request.now, b.lastSeen);
    var held := Held(b.leases, now);
    TotalWithin(held, b.leases);
    NothingHeld(held);
    if r.leaseId in held { MemberWithin(held, r.leaseId); }
  }

  /** What a sweep of the store does to one key's leases is a trim, or a drop of a key that has none active. */
  lemma SweepIsTrim(m: Subjects, key: string, now: int, idleFor: int)
    requires key in m
    ensures var next := MemoryStore.Swept(m, now, idleFor);
            if key in next then next[key] == m[key].(leases := Held(m[key].leases, now))
            else Held(m[key].leases, now) == map[] && m[key].lastSeen + idleFor <= now
  {
    if key !in MemoryStore.Swept(m, now, idleFor) {
      forall id | id in m[key].leases ensures m[key].leases[id].expires <= now {
      }
    }
  }

  /** So over every life of a key with leases. */
  lemma {:induction false} LeaseLifeRecognised(
    events: seq<Event>, p: Policy, start: int, r: LeaseRequest, name: string, context: OutcomeKind)
    requires p.Valid() && (forall i :: 0 <= i < |events| ==> ValidEvent(events[i], p)) && ValidEvent(Acquire(r), p)
    ensures var w := RunBook(events, start);
            var b := if w.book.Some? then w.book.value else Book(map[], r.request.now);
            ClockInRange(Max(r.request.now, b.lastSeen), r.request.policy.lease) ==>
              match Acquired(b, r)
              case Owned(book, l, d) =>
                LeaseInOrder(l, d, book.lastSeen) && NormalizeAcquire(name, context, r, l, d, NoError).error == NoError
              case Full(book, d) =>
                && LeaseInOrder(ZERO_LEASE, d, book.lastSeen)
                && NormalizeAcquire(name, context, r, ZERO_LEASE, d, Sentinel(ErrRejected)).error ==
                     Sentinel(ErrRejected)
              case NotOwner(_) => true
  {
    hide Acquired, RunBook;
    RunInv(events, p, start);
    var w := RunBook(events, start);
    var b := if w.book.Some? then w.book.value else Book(map[], r.request.now);
    if ClockInRange(Max(r.request.now, b.lastSeen), r.request.policy.lease) {
      AcquisitionRecognised(b, r, name, context);
    }
  }
}
