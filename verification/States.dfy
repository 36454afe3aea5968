// What postgres/state.go does to one bucket row, on values: identity and range
// validation, revision carry-over, clock clamping and dispatch.
module States {
  import opened Arithmetic
  import opened Policies
  import opened TokenBucket
  import opened Windows

  const STATE_SCHEMA: int := 1

  datatype LeaseRecord = LeaseRecord(cost: int, expires: int)

  /** persistedState. `period` and `carried` are not part of the wire form. */
  datatype State = State(
    schema: int, policyId: string, revision: string, algorithm: Algorithm,
    tokens: int, remainder: int, last: int, observed: int,
    window: int, used: int, period: int, carried: bool,
    segments: seq<Segment>, leases: map<string, LeaseRecord>)
  {
    function AsBucket(): Bucket { Bucket(tokens, remainder, last) }
  }

  datatype StepResult = Done(next: State, decision: Decision, rejected: bool) | Fail(error: Error)

  predicate WindowAlgorithm(a: Algorithm) { a == FixedWindow || a == SlidingWindow }

  function NewState(r: Request): State
  {
    State(STATE_SCHEMA, r.policy.id, r.policy.revision, r.policy.algorithm,
          r.policy.Limit(), 0, r.now, r.now, 0, 0,
          if WindowAlgorithm(r.policy.algorithm) then r.policy.period else 0, false, EmptySegments(), map[])
  }

  // -------------------------------------------------------------- validation

  predicate SegmentInRange(s: Segment) { ValidPersistedMicros(s.index) && s.used <= MAX_EXACT }

  predicate AllInRange(segs: seq<Segment>) { forall j :: 0 <= j < |segs| ==> SegmentInRange(segs[j]) }

  /** The strict checks made before the clock is clamped. */
  predicate LoadedOk(s: State, p: Policy)
  {
    && s.schema == STATE_SCHEMA && s.policyId == p.id && s.algorithm == p.algorithm
    && ValidPersistedMicros(s.observed)
    && (s.algorithm == TokenBucket ==>
          && ValidPersistedMicros(s.last) && s.remainder <= MAX_EXACT
          && (s.revision == p.revision ==> s.remainder < p.period && s.tokens <= p.Limit()))
    && (s.algorithm == FixedWindow ==>
          && ValidPersistedMicros(s.window) && s.used <= MAX_EXACT
          && (s.revision == p.revision ==> s.used <= p.Limit() || s.carried))
    && (s.algorithm == SlidingWindow ==> AllInRange(s.segments))
  }

  /** validateSlidingPositions. */
  predicate PositionsOk(segs: seq<Segment>, period: int, now: int)
    requires 0 < period
  {
    forall j :: 0 <= j < |segs| ==> PositionOk(segs[j], j, period, now)
  }

  predicate PositionOk(s: Segment, slot: int, period: int, now: int)
    requires 0 < period
  {
    s.used == 0 || s.index <= Oldest(now, period) ||
    (s.index <= Index(now, period) && s.index % SEGMENTS == slot)
  }

  /** The strict checks made at the effective instant. */
  predicate WindowOk(s: State, p: Policy, now: int)
    requires p.algorithm != Concurrency ==> 0 < p.period
  {
    && (WindowAlgorithm(p.algorithm) ==> s.period == 0 || s.period == p.period)
    && (p.algorithm == SlidingWindow ==>
          && PositionsOk(s.segments, p.period, now)
          && LiveUsed(s.segments, Oldest(now, p.period)) <= MAX_EXACT
          && (s.revision == p.revision ==> LiveUsed(s.segments, Oldest(now, p.period)) <= p.Limit() || s.carried))
  }

  // ---------------------------------------------------------------- dispatch

  /** A token balance carried into another revision: capped, its fraction dropped, its clock at least now. */
  function CarryTokens(s: State, p: Policy, now: int): State
  {
    if p.algorithm == TokenBucket && s.revision != p.revision then
      s.(tokens := Min(s.tokens, p.Limit()), remainder := 0, last := Max(s.last, now))
    else s
  }

  function Prepare(s: State, p: Policy, now: int): State
  {
    CarryTokens(s, p, now).(
      observed := now, revision := p.revision,
      period := if WindowAlgorithm(p.algorithm) then p.period else s.period)
  }

  function Apply(s: State, p: Policy, cost: int, now: int): (r: StepResult)
    requires 0 < p.period && 1 <= p.capacity && |s.segments| == SEGMENTS
    ensures r.Done? && |r.next.segments| == SEGMENTS
  {
    match p.algorithm
    case TokenBucket =>
      var r := TokenStep(s.AsBucket(), p, cost, now);
      Done(s.(tokens := r.bucket.tokens, remainder := r.bucket.remainder, last := r.bucket.last), r.decision,
        r.rejected)
    case FixedWindow =>
      var r := FixedStep(s.window, s.used, p, cost, now);
      Done(s.(window := r.window, used := r.used, carried := r.carried), r.decision, r.rejected)
    case _ =>
      var r := SlidingStep(s.segments, p, cost, now);
      Done(s.(segments := r.segs, used := r.used, carried := r.carried), r.decision, r.rejected)
  }

  /** mutateState in strict mode. */
  function Step(current: Option<State>, r: Request): (result: StepResult)
    requires r.Sized() && r.policy.algorithm != Concurrency
    requires current.Some? ==> |current.value.segments| == SEGMENTS
    ensures result.Done? ==> |result.next.segments| == SEGMENTS
  {
    var p := r.policy;
    if p.algorithm == FixedWindow && !ValidPersistedMicros(Floor(r.now, p.period)) then Fail(ErrOverflow)
    else if current.Some? && !LoadedOk(current.value, p) then Fail(ErrCorrupt)
    else
      var s := if current.Some? then current.value else NewState(r);
      var now := Max(r.now, s.observed);
      if !ClockInRange(now, p.period) then Fail(ErrOverflow)
      else if !WindowOk(s, p, now) then Fail(ErrCorrupt)
      else Apply(Prepare(s, p, now), p, r.cost, now)
  }
}
