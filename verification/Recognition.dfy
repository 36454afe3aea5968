// What the strict backends commit, the service believes: no result of a strict
// step is replaced by a time check or relabelled as unknown.
module Recognition {
  import opened Policies
  import opened States
  import opened StrictService
  import opened StrictRuns
  import opened Leases

  /** A value and an error, as Go functions return them. */
  datatype Told<T> = Told(value: T, error: GoError)

  /** strictPostgresDecisionResult, after a commit or a refusal before one. */
  function DecisionResult(result: StepResult): Told<Decision>
  {
    match result
    case Fail(e) => Told(ZERO_DECISION, Sentinel(e))
    case Done(next, d, rejected) =>
      if !ResetInOrder(d, next.observed) then Told(ZERO_DECISION, Sentinel(ErrCorrupt))
      else Told(d, if rejected then Sentinel(ErrRejected) else NoError)
  }

  /** Whatever a step decided, it is handed on unless its Reset lies before the instant it was decided at. */
  lemma OutOfOrder(next: State, d: Decision, rejected: bool)
    ensures DecisionResult(Done(next, d, rejected)) ==
              if d.reset != ZERO_TIME && d.reset < next.observed then Told(ZERO_DECISION, Sentinel(ErrCorrupt))
              else Told(d, if rejected then Sentinel(ErrRejected) else NoError)
  {
  }

  /** Over every strict run, removals included, the answer to the caller is the committed decision and its error, or a
      known overflow. */
  lemma {:induction false} DecisionsRecognised(
    moments: seq<Moment>, f: Family, r: Request, name: string, context: OutcomeKind)
    requires f.Valid() && f.Governs(r) && Governed(moments, f)
    ensures var result := Step(RunRow(f, moments), r);
            var told := DecisionResult(result);
            var answer := NormalizeAdmit(name, context, r, told.value, told.error);
            match result
            case Done(_, d, rejected) =>
              answer == Answer(Stamp(d, r.policy, name), if rejected then Sentinel(ErrRejected) else NoError)
            case Fail(e) => e == ErrOverflow && answer.error == Sentinel(ErrOverflow) && !answer.decision.allowed
  {
    hide Step, Written;
    NoFalseCorruption(moments, f, r);
  }

  datatype Ownership = Ownership(lease: Lease, decision: Decision)

  /** strictPostgresLeaseResult. */
  ghost function LeaseOutcome(result: LeaseResult): Told<Ownership>
  {
    match result
    case LeaseFail(e) => Told(Ownership(ZERO_LEASE, ZERO_DECISION), Sentinel(e))
    case Exhausted(next, d) =>
      if LeaseInOrder(ZERO_LEASE, d, next.observed) then Told(Ownership(ZERO_LEASE, d), Sentinel(ErrRejected))
      else Told(Ownership(ZERO_LEASE, ZERO_DECISION), Sentinel(ErrCorrupt))
    case Granted(next, l, d) =>
      if LeaseInOrder(l, d, next.observed) then Told(Ownership(l, d), NoError)
      else Told(Ownership(ZERO_LEASE, ZERO_DECISION), Sentinel(ErrCorrupt))
  }

  /** So is a lease, unless it expires at or before that instant or not at its Reset. */
  lemma LeaseOutOfOrder(next: State, l: Lease, d: Decision)
    ensures LeaseOutcome(Granted(next, l, d)).error == NoError <==>
              && (d.reset == ZERO_TIME || d.reset >= next.observed)
              && (l.expiresAt == ZERO_TIME || (next.observed < l.expiresAt && l.expiresAt == d.reset))
    ensures LeaseOutcome(Granted(next, l, d)).error == NoError ==>
              LeaseOutcome(Granted(next, l, d)).value == Ownership(l, d)
    ensures LeaseOutcome(Exhausted(next, d)) ==
              if d.reset != ZERO_TIME && d.reset < next.observed
              then Told(Ownership(ZERO_LEASE, ZERO_DECISION), Sentinel(ErrCorrupt))
              else Told(Ownership(ZERO_LEASE, d), Sentinel(ErrRejected))
  {
  }

  /** The same for leases, on every row a strict run can have written. */
  lemma {:induction false} LeasesRecognised(
    current: Option<State>, r: LeaseRequest, digest: string, name: string, context: OutcomeKind)
    requires r.Valid() && ValidDigest(digest)
    requires current.Some? ==> WrittenLeases(current.value, r.request.policy.id)
    ensures var told := LeaseOutcome(AcquireStep(current, r, digest));
            var answer := NormalizeAcquire(name, context, r, told.value.lease, told.value.decision, told.error);
            match AcquireStep(current, r, digest)
            case Granted(_, l, d) =>
              answer == LeaseAnswer(l.(backend := name), Stamp(d, r.request.policy, name), NoError)
            case Exhausted(_, d) =>
              answer == LeaseAnswer(ZERO_LEASE, Stamp(d, r.request.policy, name), Sentinel(ErrRejected))
            case LeaseFail(e) => answer.lease == ZERO_LEASE && answer.error == Sentinel(e)
  {
    hide AcquireStep, WrittenLeases, ValidDigest;
    AcquireWritten(current, r, digest);
    AcquireAnswers(current, r, digest);
  }
}
