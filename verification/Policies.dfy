// Policies, requests and decisions shared by every backend.
// Instants and durations are whole microseconds: policy construction insists on
// it, and the only other duration the source can form is the saturated maximum.
module Policies {
  import opened Arithmetic

  /** Greatest integer shared exactly with binary64: 2^53 - 1. */
  const MAX_EXACT: int := 9_007_199_254_740_991

  /** The longest time.Duration, 2^63 - 1 nanoseconds, in whole microseconds. */
  const MAX_DURATION: int := 9_223_372_036_854_775

  /** time.Time{} as a Unix microsecond count. */
  const ZERO_TIME: int := -62_135_596_800_000_000

  const MAX_CONCURRENCY_LEASES: int := 1024

  datatype Option<+T> = None | Some(value: T)

  datatype Algorithm = TokenBucket | FixedWindow | SlidingWindow | Concurrency
  datatype FailureMode = FailClosed | FailOpen
  datatype Consistency = ProcessLocal | Strong

  datatype Error =
    | ErrInvalidPolicy | ErrInvalidRequest | ErrUnsupported | ErrOverflow | ErrCorrupt
    | ErrUnavailable | ErrRejected | ErrLeaseNotFound | ErrLeaseNotOwned

  datatype Result<+T> = Ok(value: T) | Err(error: Error)

  /** Durations of a specification are still nanoseconds. */
  datatype PolicySpec = PolicySpec(
    id: string, revision: string, algorithm: Algorithm, capacity: u64, periodNanos: i64,
    burst: u64, maxCost: u64, failureMode: FailureMode, consistency: Consistency, leaseNanos: i64)

  datatype Policy = Policy(
    id: string, revision: string, algorithm: Algorithm, capacity: u64, period: int,
    burst: u64, maxCost: u64, failureMode: FailureMode, consistency: Consistency, lease: int)
  {
    function Limit(): int { capacity + burst }

    /** What NewPolicy establishes and every arithmetic proof rests on. */
    predicate Valid()
    {
      && ValidIdentifier(id) && ValidIdentifier(revision)
      && 1 <= capacity && 1 <= maxCost <= Limit() <= MAX_EXACT
      && (algorithm != Concurrency ==> 1 <= period && ExactProduct(Limit(), period))
      && (algorithm == Concurrency ==>
            1 <= lease <= MAX_DURATION && Limit() <= MAX_CONCURRENCY_LEASES && failureMode == FailClosed)
    }

    /** The duration a request of this policy needs room for. */
    function Duration(): int { if algorithm == Concurrency then lease else period }
  }

  predicate ExactProduct(limit: int, period: int) { limit * period <= MAX_EXACT }

  predicate IdentifierChar(c: char)
  {
    'a' <= c <= 'z' || 'A' <= c <= 'Z' || '0' <= c <= '9' || c == '-' || c == '_' || c == '.' || c == ':'
  }

  /** The printable range from '-' to 'z' but for twelve separators. */
  lemma IdentifierChars(c: char)
    ensures IdentifierChar(c) <==>
              '-' <= c <= 'z' && c !in {'/', ';', '<', '=', '>', '?', '@', '[', '\\', ']', '^', '`'}
  {
  }

  predicate ValidIdentifier(value: string)
  {
    1 <= |value| <= 64 && forall i :: 0 <= i < |value| ==> IdentifierChar(value[i])
  }

  /** Everything NewPolicy asks of a specification, with the exact-arithmetic bound as a product. */
  ghost predicate Acceptable(spec: PolicySpec)
  {
    var limit := spec.capacity + spec.burst;
    && ValidIdentifier(spec.id) && ValidIdentifier(spec.revision)
    && 1 <= spec.capacity && limit <= MAX_EXACT && spec.maxCost <= limit
    && (spec.algorithm != Concurrency ==>
          1000 <= spec.periodNanos && spec.periodNanos % 1000 == 0 && limit * spec.periodNanos <= MAX_EXACT * 1000)
    && (spec.algorithm == Concurrency ==>
          1000 <= spec.leaseNanos && spec.leaseNanos % 1000 == 0
          && limit <= MAX_CONCURRENCY_LEASES && spec.failureMode == FailClosed)
  }

  /** What a policy takes over: every field as specified, an absent cost bound as the limit, durations in
      microseconds. */
  ghost predicate Keeps(p: Policy, spec: PolicySpec)
  {
    && p.id == spec.id && p.revision == spec.revision && p.algorithm == spec.algorithm
    && p.capacity == spec.capacity && p.burst == spec.burst
    && p.failureMode == spec.failureMode && p.consistency == spec.consistency
    && p.maxCost == (if spec.maxCost == 0 then spec.capacity + spec.burst else spec.maxCost)
    && (if spec.algorithm == Concurrency then 1000 * p.lease == spec.leaseNanos
        else 1000 * p.period == spec.periodNanos)
  }

  function NewPolicy(spec: PolicySpec): (r: Result<Policy>)
    ensures r.Ok? <==> Acceptable(spec)
    ensures r.Ok? ==> r.value.Valid() && Keeps(r.value, spec)
    ensures r.Err? ==> r.error == ErrInvalidPolicy
  {
    var limit := spec.capacity + spec.burst;
    var periodMicros := GoDiv(spec.periodNanos, 1000);
    if !ValidIdentifier(spec.id) || !ValidIdentifier(spec.revision) || spec.capacity == 0 then Err(ErrInvalidPolicy)
    else if Add64(spec.capacity, spec.burst).1 != 0 || limit > MAX_EXACT then Err(ErrInvalidPolicy)
    else if spec.algorithm != Concurrency && (spec.periodNanos < 1000 || GoMod(spec.periodNanos, 1000) != 0) then
      Err(ErrInvalidPolicy)
    else if spec.algorithm == Concurrency && (spec.leaseNanos < 1000 || GoMod(spec.leaseNanos, 1000) != 0) then
      Err(ErrInvalidPolicy)
    else if (ProductFits(limit, periodMicros); spec.algorithm != Concurrency && limit > MAX_EXACT / periodMicros) then
      Err(ErrInvalidPolicy)
    else if spec.algorithm == Concurrency && limit > MAX_CONCURRENCY_LEASES then Err(ErrInvalidPolicy)
    else
      var maxCost := if spec.maxCost == 0 then limit else spec.maxCost;
      if maxCost > limit then Err(ErrInvalidPolicy)
      else if spec.algorithm == Concurrency && spec.failureMode == FailOpen then Err(ErrInvalidPolicy)
      else
        Ok(Policy(spec.id, spec.revision, spec.algorithm, spec.capacity, periodMicros, spec.burst,
                  maxCost, spec.failureMode, spec.consistency, GoDiv(spec.leaseNanos, 1000)))
  }

  /** The overflow-free division guard is the product bound. */
  lemma {:induction false} ProductFits(limit: int, period: int)
    ensures 1 <= period ==> (limit <= MAX_EXACT / period <==> limit * period <= MAX_EXACT)
  {
    if 1 <= period {
      DivBounds(MAX_EXACT, period);
      if limit <= MAX_EXACT / period {
        MulMonotone(limit, MAX_EXACT / period, period);
      } else {
        MulMonotone(MAX_EXACT / period + 1, limit, period);
      }
    }
  }

  /** The key's subject kind takes part in a command's intent only; rows are named by the key alone. */
  datatype Request = Request(policy: Policy, key: string, kind: string, cost: u64, now: int)
  {
    /** Validity but for the clock, which a backend may replace by its own. */
    predicate Sized()
    {
      policy.Valid() && key != "" && 1 <= cost <= policy.maxCost
    }

    /** Request.Validate. A zero time cannot lie in the exact range, so its check is subsumed. */
    predicate Valid()
    {
      && Sized()
      && now >= -MAX_EXACT
      && now <= MAX_EXACT - policy.Duration()
    }
  }

  datatype Reason = NoReason | Allowed | Limited | AtomicRejected | FailedOpen | BackendUnavailable | Canceled |
    Deadline | OutcomeUnknown

  datatype Decision = Decision(
    allowed: bool, remaining: int, limit: int, reset: int, retryAfter: int, reason: Reason,
    backend: string, policyRevision: string)

  /** Decision{}. */
  const ZERO_DECISION := Decision(false, 0, 0, ZERO_TIME, 0, NoReason, "", "")

  /** time.Time.Sub saturates to the duration range. */
  function SatSub(later: int, earlier: int): (d: int)
    ensures -MAX_DURATION <= later - earlier <= MAX_DURATION ==> d == later - earlier
    ensures later - earlier > MAX_DURATION ==> d == MAX_DURATION
    ensures later - earlier < -MAX_DURATION ==> d == -MAX_DURATION
  {
    Max(-MAX_DURATION, Min(MAX_DURATION, later - earlier))
  }

  predicate ValidPersistedMicros(value: int) { -MAX_EXACT <= value <= MAX_EXACT }

  /** validateServerClockRange. */
  predicate ClockInRange(now: int, duration: int)
  {
    now >= -MAX_EXACT && duration > 0 && now <= MAX_EXACT - duration
  }

  /** The ranges in one form: everything lies strictly within 2^53 of the epoch, a request with its duration. */
  lemma ExactRanges(v: int, duration: int, r: Request)
    ensures ValidPersistedMicros(v) <==> -0x20_0000_0000_0000 < v < 0x20_0000_0000_0000
    ensures ClockInRange(v, duration) <==>
              0 < duration && -0x20_0000_0000_0000 < v && v + duration < 0x20_0000_0000_0000
    ensures r.policy.Valid() ==>
              (r.Valid() <==>
                 && r.key != "" && 0 < r.cost <= r.policy.maxCost && -0x20_0000_0000_0000 < r.now
                 && r.now + (if r.policy.algorithm == Concurrency then r.policy.lease else r.policy.period)
                      < 0x20_0000_0000_0000)
  {
  }

  /** validateStrictDecisionTime: a decision's Reset may not precede the effective instant. */
  predicate ResetInOrder(decision: Decision, effective: int)
  {
    decision.reset == ZERO_TIME || decision.reset >= effective
  }
}
