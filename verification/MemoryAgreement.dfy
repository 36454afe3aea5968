// The in-process store against the PostgreSQL row step, over whole lives of a key
// and across revisions.
module MemoryAgreement {
  import opened Arithmetic
  import opened Policies
  import opened TokenBucket
  import opened Windows
  import opened States
  import opened StrictRuns
  import opened MemoryTokens
  import opened MemoryWraps
  import opened MemoryWindows
  import opened MemoryStore
  import opened MemoryAdmission

  /** A subject and a row hold the same bucket, the subject's window start in wrapped nanoseconds. */
  ghost predicate Alike(e: Subject, s: State)
  {
    && e.revision == s.revision && e.algorithm == s.algorithm && e.lastSeen == s.observed
    && |e.segments| == SEGMENTS && |s.segments| == SEGMENTS
    && match s.algorithm
       case TokenBucket => Bucket(e.tokens, e.remainder, e.lastRefill) == s.AsBucket()
       case FixedWindow =>
         e.windowStart == Wrap64(NANOS * s.window) && e.used == s.used && e.windowPeriod == s.period
       case _ => e.segments == s.segments && e.windowPeriod == s.period
  }

  ghost predicate Paired(e: Option<Subject>, row: Option<State>)
  {
    match (e, row)
    case (None, None) => true
    case (Some(subject), Some(s)) => Alike(subject, s)
    case _ => false
  }

  /** The state a request starts from, and its instant. */
  function Start(row: Option<State>, r: Request): State { if row.Some? then row.value else NewState(r) }

  function Instant(row: Option<State>, r: Request): int { Max(r.now, Start(row, r).observed) }

  /** Where the two may be compared: the refill does not wrap, the window start is one PostgreSQL accepts, the segments
      are of one width and the earliest window fits an int64. */
  ghost predicate Comparable(row: Option<State>, r: Request)
    requires 0 < r.policy.period
  {
    match r.policy.algorithm
    case TokenBucket =>
      !Wraps(CarryTokens(Start(row, r), r.policy, Instant(row, r)).AsBucket(), r.policy, Instant(row, r))
    case FixedWindow => ValidPersistedMicros(Floor(r.now, r.policy.period))
    case _ => r.policy.period % SEGMENTS == 0 && Unwrapped(r.policy.period)
  }

  /** The same outcome, the same answer in its own unit, and the same bucket afterwards. */
  ghost predicate Agrees(o: Attempt, result: StepResult)
  {
    match (o, result)
    case (Refused(x), Fail(y)) => x == y
    case (Completed(a), Done(next, d, rejected)) =>
      a.rejected == rejected && MemoryWindows.SameDecision(a.decision, d, next.observed) && Alike(a.subject, next)
    case _ => false
  }

  lemma {:induction false} TokenAgrees(e: Option<Subject>, row: Option<State>, r: Request, f: Family)
    requires f.Valid() && f.algorithm == TokenBucket && f.Governs(r) && r.Valid() && Row(row, f)
    requires Paired(e, row) && Comparable(row, r)
    ensures Agrees(MemoryAdmission.Admit(e, r), Step(row, r))
  {
    hide TokenStep, Refill, MemoryRefill, ExactProduct, Step, Wraps;
    var p, now := r.policy, Instant(row, r);
    StepApplies(row, r, f);
    if ClockInRange(now, p.period) {
      var b := CarryTokens(Start(row, r), p, now).AsBucket();
      MemoryStepExact(b, p, r.cost, now);
      var base := Found(e, r).(lastSeen := now);
      assert Bucket(base.tokens, base.remainder, base.lastRefill) == b;
    }
  }

  lemma {:induction false} FixedAgrees(e: Option<Subject>, row: Option<State>, r: Request, f: Family)
    requires f.Valid() && f.algorithm == FixedWindow && f.Governs(r) && r.Valid() && Row(row, f)
    requires Paired(e, row) && Comparable(row, r)
    ensures Agrees(MemoryAdmission.Admit(e, r), Step(row, r))
  {
    hide MemoryFixed, FixedStep, Floor, ExactProduct, Step, Wrap64;
    var p, now := r.policy, Instant(row, r);
    StepApplies(row, r, f);
    PeriodExact(p);
    if ClockInRange(now, p.period) {
      var s := Start(row, r);
      NoWindow();
      FixedUnitsAgree(s.window, s.used, p, r.cost, now);
    }
  }

  lemma NoWindow()
    ensures Wrap64(NANOS * 0) == 0
  {
  }

  lemma {:induction false} SlidingAgrees(e: Option<Subject>, row: Option<State>, r: Request, f: Family)
    requires f.Valid() && f.algorithm == SlidingWindow && f.Governs(r) && r.Valid() && Row(row, f)
    requires Paired(e, row) && Comparable(row, r)
    ensures Agrees(MemoryAdmission.Admit(e, r), Step(row, r))
  {
    hide MemorySliding, SlidingStep, ExactProduct, Step, Unwrapped, LiveUsed, Settled, AllInRange, Placed;
    var p, now := r.policy, Instant(row, r);
    StepApplies(row, r, f);
    if ClockInRange(now, p.period) {
      var s := Start(row, r);
      PlacedStart(row, r, f);
      SameWhenDivisible(s.segments, p, r.cost, now);
      assert SameStep(s.segments, p, r.cost, now);
    }
  }

  lemma {:induction false} PlacedStart(row: Option<State>, r: Request, f: Family)
    requires f.Valid() && f.algorithm == SlidingWindow && f.Governs(r) && Row(row, f)
    ensures Placed(Start(row, r).segments, r.policy.period, Instant(row, r))
  {
    var s := Start(row, r);
    LiveSpan(0, r.policy.period);
    DivMonotone(s.observed, Instant(row, r), Width(r.policy.period));
  }

  /** One strict admission in memory and on a row, under any revision: same outcome, answer and bucket. */
  lemma {:induction false} MemoryAgrees(e: Option<Subject>, row: Option<State>, r: Request, f: Family)
    requires f.Valid() && f.Governs(r) && r.Valid() && Row(row, f) && Paired(e, row) && Comparable(row, r)
    ensures Agrees(MemoryAdmission.Admit(e, r), Step(row, r))
  {
    match f.algorithm
    case TokenBucket => TokenAgrees(e, row, r, f);
    case FixedWindow => FixedAgrees(e, row, r, f);
    case SlidingWindow => SlidingAgrees(e, row, r, f);
  }

  /** A family whose requests may always be compared, but for the first windows of a fixed one. */
  ghost predicate Commensurable(f: Family)
  {
    && (f.algorithm == TokenBucket ==> forall tag :: tag in f.policies ==>
         f.policies[tag].capacity <= 1998 * f.policies[tag].period)
    && (f.algorithm == SlidingWindow ==> 0 < f.period && f.period % SEGMENTS == 0 && Unwrapped(f.period))
  }

  /** A valid request, not in a fixed window that starts before the accepted range. */
  ghost predicate Ordinary(r: Request)
    requires r.Valid() ==> r.policy.algorithm != Concurrency
  {
    r.Valid() && (r.policy.algorithm == FixedWindow ==> ValidPersistedMicros(Floor(r.now, r.policy.period)))
  }

  lemma {:induction false} AlwaysComparable(row: Option<State>, r: Request, f: Family)
    requires f.Valid() && f.Governs(r) && Row(row, f) && Commensurable(f) && Ordinary(r)
    ensures Comparable(row, r)
  {
    hide Wraps, Unwrapped, ExactProduct, Floor;
    if f.algorithm == TokenBucket {
      SlowNeverWraps(CarryTokens(Start(row, r), r.policy, Instant(row, r)).AsBucket(), r.policy, Instant(row, r));
    }
  }

  ghost predicate OrdinaryLife(moments: seq<Moment>, f: Family)
    requires Governed(moments, f) && f.Valid()
  {
    forall i :: 0 <= i < |moments| ==> moments[i].Called? ==> Ordinary(moments[i].request)
  }

  /** After any life of a key, dropped at any point and across revisions and clock rollback, memory and PostgreSQL hold
      the same bucket and answer the next request alike. */
  lemma {:induction false} LivesAgree(moments: seq<Moment>, f: Family, r: Request)
    requires f.Valid() && Governed(moments, f) && f.Governs(r) && Commensurable(f)
    requires OrdinaryLife(moments, f) && Ordinary(r)
    ensures Row(RunRow(f, moments), f) && Paired(Life(moments), RunRow(f, moments))
    ensures Agrees(MemoryAdmission.Admit(Life(moments), r), Step(RunRow(f, moments), r))
  {
    hide MemoryAdmission.Admit, Step, Alike, Commensurable, Ordinary, Written;
    if moments != [] {
      var before, last := moments[..|moments| - 1], moments[|moments| - 1];
      LivesAgree(before, f, if last.Called? then last.request else r);
    }
    NoFalseCorruption(moments, f, r);
    AlwaysComparable(RunRow(f, moments), r, f);
    OrdinaryValid(r);
    MemoryAgrees(Life(moments), RunRow(f, moments), r, f);
  }

  lemma OrdinaryValid(r: Request)
    requires (r.Valid() ==> r.policy.algorithm != Concurrency) && Ordinary(r)
    ensures r.Valid()
  {
  }

  /** A revision change never adds tokens: the balance is kept where it fits the new limit, and capped there. */
  lemma RevisionAddsNothing(e: Subject, r: Request)
    ensures var found := Found(Some(e), r);
            && (e.algorithm == TokenBucket && e.revision != r.policy.revision ==>
                  found.tokens == (if e.tokens <= r.policy.Limit() then e.tokens else r.policy.Limit())
                  && found.remainder == 0 && found.lastRefill >= e.lastRefill)
            && (e.revision == r.policy.revision ==> found == e)
            && found.used == e.used && found.segments == e.segments && found.windowStart == e.windowStart
            && found.lastSeen == e.lastSeen && found.leases == e.leases
  {
  }
}
