// The strict service boundary: which backend results it believes, and what it
// answers for the rest.
module StrictService {
  import opened Policies

  datatype OutcomeKind = NoKind | CanceledKind | DeadlineKind | UnknownKind

  /** Errors as the boundary distinguishes them: a direct sentinel, a BackendError around one, an owned
      outcome declaration, or anything else, wrapped sentinels included. */
  datatype GoError =
    | NoError
    | Sentinel(error: Error)
    | Backend(category: Error)
    | Outcome(kind: OutcomeKind, context: OutcomeKind)
    | Foreign

  datatype Declaration = Unsafe | Safe(category: Error) | Declared

  predicate SafeCategory(e: Error) { e != ErrInvalidPolicy && e != ErrInvalidRequest }

  function Declare(e: GoError): Declaration
  {
    match e
    case Sentinel(c) => if SafeCategory(c) then Safe(c) else Unsafe
    case Backend(c) => if SafeCategory(c) then Safe(c) else Unsafe
    case Outcome(_, _) => Declared
    case _ => Unsafe
  }

  /** Seven categories are safe, directly or in a BackendError; only the owned outcome type declares. */
  lemma DeclaredExactly(err: GoError)
    ensures Declare(err).Safe? <==>
              Categorised(err, {ErrRejected, ErrUnavailable, ErrOverflow, ErrCorrupt, ErrUnsupported, ErrLeaseNotFound,
                                ErrLeaseNotOwned})
    ensures Declare(err).Safe? ==> Categorised(err, {Declare(err).category})
    ensures Declare(err).Declared? <==> err.Outcome?
  {
  }

  datatype Method = AdmitMethod | AcquireMethod | ReleaseMethod

  predicate Applicable(e: Error, m: Method)
  {
    match m
    case AdmitMethod => e in {ErrRejected, ErrUnavailable, ErrOverflow, ErrCorrupt, ErrUnsupported}
    case AcquireMethod => e in {ErrRejected, ErrUnavailable, ErrOverflow, ErrCorrupt, ErrLeaseNotOwned}
    case ReleaseMethod => e in {ErrUnavailable, ErrCorrupt, ErrLeaseNotFound, ErrLeaseNotOwned}
  }

  predicate CompleteAllowed(d: Decision, r: Request)
  {
    && d.allowed && d.reason == Allowed && d.limit == r.policy.Limit()
    && d.remaining <= r.policy.Limit() - r.cost && d.reset != ZERO_TIME && d.retryAfter == 0
  }

  predicate CompleteRejected(d: Decision, r: Request)
  {
    && !d.allowed && d.reason == Limited && d.limit == r.policy.Limit()
    && d.remaining < r.cost && d.reset != ZERO_TIME && d.retryAfter >= 0
  }

  function FailOpenDecision(p: Policy): Decision
  {
    Decision(true, p.Limit(), p.Limit(), ZERO_TIME, 0, FailedOpen, "", "")
  }

  function Denied(p: Policy, reason: Reason): Decision
  {
    Decision(false, 0, p.Limit(), ZERO_TIME, 0, reason, "", "")
  }

  function Stamp(d: Decision, p: Policy, name: string): Decision
  {
    d.(backend := name, policyRevision := p.revision)
  }

  datatype Answer = Answer(decision: Decision, error: GoError)

  /** normalizeAdmit; `context` is how the caller's context stands when the answer is formed. */
  function NormalizeAdmit(name: string, context: OutcomeKind, r: Request, raw: Decision, err: GoError): Answer
  {
    var p := r.policy;
    var declared := Declare(err);
    var mayOpen := p.failureMode == FailOpen && p.algorithm != Concurrency;
    if err.NoError? && CompleteAllowed(raw, r) then Answer(Stamp(raw, p, name), NoError)
    else if declared == Safe(ErrRejected) && CompleteRejected(raw, r) then Answer(Stamp(raw, p, name), err)
    else if declared.Declared? && raw == ZERO_DECISION && err.kind == CanceledKind then
      Answer(Stamp(Denied(p, Canceled), p, name), Outcome(CanceledKind, NoKind))
    else if declared.Declared? && raw == ZERO_DECISION && err.kind == DeadlineKind then
      if mayOpen then Answer(Stamp(FailOpenDecision(p), p, name), NoError)
      else Answer(Stamp(Denied(p, Deadline), p, name), Outcome(DeadlineKind, NoKind))
    else if declared.Declared? && raw == ZERO_DECISION && err.kind == UnknownKind then
      Answer(Stamp(Denied(p, OutcomeUnknown), p, name), err)
    else if declared.Safe? && declared.category != ErrRejected && Applicable(declared.category, AdmitMethod) &&
      raw == ZERO_DECISION then
      if declared.category == ErrUnavailable && mayOpen then Answer(Stamp(FailOpenDecision(p), p, name), NoError)
      else Answer(Stamp(Denied(p, BackendUnavailable), p, name), err)
    else Answer(Stamp(Denied(p, OutcomeUnknown), p, name), Outcome(UnknownKind, context))
  }

  /** A deadline or an unavailable backend lets work through for such a policy. */
  predicate MayOpen(p: Policy) { p.failureMode == FailOpen && p.algorithm != Concurrency }

  /** Fail closed: work may proceed exactly on a complete admission, or on a known non-mutation that the
      policy chose to let through. */
  lemma AdmitFailsClosed(name: string, context: OutcomeKind, r: Request, raw: Decision, err: GoError)
    requires r.Valid()
    ensures var a := NormalizeAdmit(name, context, r, raw, err);
            (a.decision.allowed && a.error.NoError?) <==>
              || (err.NoError? && FullAdmission(raw, r))
              || (&& MayOpen(r.policy) && raw == ZERO_DECISION
                  && ((err.Outcome? && err.kind == DeadlineKind) || Declare(err) == Safe(ErrUnavailable)))
    ensures var a := NormalizeAdmit(name, context, r, raw, err);
            a.decision.allowed ==> a.error.NoError?
  {
  }

  /** An admission with nothing missing: the cost fits what the limit leaves. */
  ghost predicate FullAdmission(d: Decision, r: Request)
  {
    && d == Decision(true, d.remaining, r.policy.Limit(), d.reset, 0, Allowed, d.backend, d.policyRevision)
    && d.remaining + r.cost <= r.policy.Limit() && d.reset != ZERO_TIME
  }

  /** A rejection with nothing missing: the cost exceeds what is left. */
  ghost predicate FullRejection(d: Decision, r: Request)
  {
    && d == Decision(false, d.remaining, r.policy.Limit(), d.reset, d.retryAfter, Limited, d.backend, d.policyRevision)
    && d.remaining < r.cost && d.reset != ZERO_TIME && d.retryAfter >= 0
  }

  /** The reason that goes with the error of a denial. */
  ghost predicate ReasonFits(reason: Reason, error: GoError)
  {
    && (reason == Canceled <==> error.Outcome? && error.kind == CanceledKind)
    && (reason == Deadline <==> error.Outcome? && error.kind == DeadlineKind)
    && (reason == OutcomeUnknown <==> error.Outcome? && error.kind == UnknownKind)
    && (reason == BackendUnavailable <==> error.Sentinel? || error.Backend?)
  }

  /** A decision that is nobody's: nothing left, nothing to wait for. */
  ghost predicate Blank(d: Decision, p: Policy, name: string)
  {
    d == Decision(false, 0, p.Limit(), ZERO_TIME, 0, d.reason, name, p.revision)
  }

  ghost predicate LetThrough(a: Answer, p: Policy, name: string)
  {
    a == Answer(Decision(true, p.Limit(), p.Limit(), ZERO_TIME, 0, FailedOpen, name, p.revision), NoError)
  }

  /** An error of one of the categories, directly or in a BackendError. */
  predicate Categorised(err: GoError, categories: set<Error>)
  {
    (err.Sentinel? && err.error in categories) || (err.Backend? && err.category in categories)
  }

  /** What is answered for every result: a complete one is handed on with its error; a declared outcome keeps its kind
      and a known refusal its error, unless the policy lets work through; everything else is unknown. */
  lemma AdmitTold(name: string, context: OutcomeKind, r: Request, raw: Decision, err: GoError)
    requires r.Valid()
    ensures var a := NormalizeAdmit(name, context, r, raw, err);
            if (err == NoError && FullAdmission(raw, r)) || (Categorised(err, {ErrRejected}) && FullRejection(raw, r))
            then
              a == Answer(raw.(backend := name, policyRevision := r.policy.revision), err)
            else if raw == ZERO_DECISION && MayOpen(r.policy) &&
              (Categorised(err, {ErrUnavailable}) || (err.Outcome? && err.kind == DeadlineKind))
            then LetThrough(a, r.policy, name)
            else
              && Blank(a.decision, r.policy, name) && ReasonFits(a.decision.reason, a.error)
              && (if raw == ZERO_DECISION && err.Outcome? && err.kind != NoKind then
                    a.error == Outcome(err.kind, if err.kind == UnknownKind then err.context else NoKind)
                  else if raw == ZERO_DECISION &&
                    Categorised(err, {ErrUnavailable, ErrOverflow, ErrCorrupt, ErrUnsupported})
                  then a.error == err
                  else a.error == Outcome(UnknownKind, context))
  {
  }

  datatype Lease = Lease(id: string, key: string, policyId: string, policyRevision: string, cost: int, expiresAt: int,
    backend: string)

  /** Lease{}. */
  const ZERO_LEASE := Lease("", "", "", "", 0, ZERO_TIME, "")

  datatype LeaseRequest = LeaseRequest(request: Request, leaseId: string)
  {
    predicate Valid()
    {
      request.Valid() && request.policy.algorithm == Concurrency && 1 <= |leaseId| <= 128
    }
  }

  predicate CompleteLease(l: Lease, d: Decision, r: LeaseRequest)
  {
    && l.id == r.leaseId && l.key == r.request.key
    && l.policyId == r.request.policy.id && l.policyRevision == r.request.policy.revision
    && l.cost == r.request.cost && l.expiresAt != ZERO_TIME && l.expiresAt == d.reset
  }

  /** validateStrictLeaseTime. */
  predicate LeaseInOrder(l: Lease, d: Decision, effective: int)
  {
    ResetInOrder(d, effective) && (l.expiresAt == ZERO_TIME || (l.expiresAt > effective && l.expiresAt == d.reset))
  }

  datatype LeaseAnswer = LeaseAnswer(lease: Lease, decision: Decision, error: GoError)

  function NormalizeAcquire(
    name: string, context: OutcomeKind, r: LeaseRequest, lease: Lease, raw: Decision, err: GoError): LeaseAnswer
  {
    var p := r.request.policy;
    var declared := Declare(err);
    if err.NoError? && CompleteAllowed(raw, r.request) && CompleteLease(lease, raw, r) then
      LeaseAnswer(lease.(backend := name), Stamp(raw, p, name), NoError)
    else if declared == Safe(ErrRejected) && lease == ZERO_LEASE && CompleteRejected(raw, r.request) then
      LeaseAnswer(ZERO_LEASE, Stamp(raw, p, name), err)
    else if declared.Declared? && lease == ZERO_LEASE && raw == ZERO_DECISION then
      if err.kind == UnknownKind then LeaseAnswer(ZERO_LEASE, Stamp(Denied(p, OutcomeUnknown), p, name), err)
      else if err.kind == CanceledKind then
        LeaseAnswer(ZERO_LEASE, Stamp(Denied(p, Canceled), p, name), Outcome(CanceledKind, NoKind))
      else LeaseAnswer(ZERO_LEASE, Stamp(Denied(p, Deadline), p, name), Outcome(DeadlineKind, NoKind))
    else if declared.Safe? && declared.category != ErrRejected && Applicable(declared.category, AcquireMethod)
            && lease == ZERO_LEASE && raw == ZERO_DECISION then
      LeaseAnswer(ZERO_LEASE, Stamp(Denied(p, BackendUnavailable), p, name), err)
    else LeaseAnswer(ZERO_LEASE, Stamp(Denied(p, OutcomeUnknown), p, name), Outcome(UnknownKind, context))
  }

  /** Leases never fail open: ownership is reported exactly for a complete lease. */
  lemma AcquireFailsClosed(
    name: string, context: OutcomeKind, r: LeaseRequest, lease: Lease, raw: Decision, err: GoError)
    ensures var a := NormalizeAcquire(name, context, r, lease, raw, err);
            a.error.NoError? <==> err.NoError? && FullOwnership(lease, raw, r)
    ensures var a := NormalizeAcquire(name, context, r, lease, raw, err);
            a.error.NoError? <==> a.decision.allowed
    ensures var a := NormalizeAcquire(name, context, r, lease, raw, err);
            !a.error.NoError? ==> a.lease == ZERO_LEASE
  {
  }

  /** A complete admission with the lease that was asked for, expiring at its Reset. */
  ghost predicate FullOwnership(l: Lease, d: Decision, r: LeaseRequest)
  {
    && FullAdmission(d, r.request)
    && l == Lease(r.leaseId, r.request.key, r.request.policy.id, r.request.policy.revision, r.request.cost, d.reset,
                  l.backend)
  }

  /** What is answered for every result, as for admissions but never failing open. */
  lemma AcquireTold(
    name: string, context: OutcomeKind, r: LeaseRequest, lease: Lease, raw: Decision, err: GoError)
    requires err.Outcome? ==> err.kind != NoKind
    ensures var a := NormalizeAcquire(name, context, r, lease, raw, err);
            var p := r.request.policy;
            if err == NoError && FullOwnership(lease, raw, r) then
              a == LeaseAnswer(lease.(backend := name), raw.(backend := name, policyRevision := p.revision), err)
            else if Categorised(err, {ErrRejected}) && lease == ZERO_LEASE && FullRejection(raw, r.request) then
              a == LeaseAnswer(ZERO_LEASE, raw.(backend := name, policyRevision := p.revision), err)
            else
              && a.lease == ZERO_LEASE && Blank(a.decision, p, name) && ReasonFits(a.decision.reason, a.error)
              && (if lease == ZERO_LEASE && raw == ZERO_DECISION && err.Outcome? then
                    a.error == Outcome(err.kind, if err.kind == UnknownKind then err.context else NoKind)
                  else if lease == ZERO_LEASE && raw == ZERO_DECISION &&
                    Categorised(err, {ErrUnavailable, ErrOverflow, ErrCorrupt, ErrLeaseNotOwned})
                  then a.error == err
                  else a.error == Outcome(UnknownKind, context))
  {
  }

  /** Release after dispatch. */
  function NormalizeRelease(context: OutcomeKind, err: GoError): GoError
  {
    match Declare(err)
    case Declared =>
      if err.kind == CanceledKind || err.kind == DeadlineKind then Outcome(err.kind, NoKind)
      else if err.kind == UnknownKind then err
      else Outcome(UnknownKind, context)
    case Safe(category) => if Applicable(category, ReleaseMethod) then err else Outcome(UnknownKind, context)
    case Unsafe => if err.NoError? then NoError else Outcome(UnknownKind, context)
  }

  /** A release succeeds for the caller exactly when the backend said so; an outcome keeps its kind, a refusal that can
      come of a release its error, and everything else is unknown. */
  lemma ReleaseTold(context: OutcomeKind, err: GoError)
    ensures var e := NormalizeRelease(context, err);
            && (e == NoError <==> err == NoError)
            && (err.Outcome? && err.kind != NoKind ==>
                  e == Outcome(err.kind, if err.kind == UnknownKind then err.context else NoKind))
            && (e.Outcome? && !err.Outcome? ==> e == Outcome(UnknownKind, context))
            && (err != NoError && !err.Outcome? ==>
                  (e == err <==> Categorised(err, {ErrUnavailable, ErrCorrupt, ErrLeaseNotFound, ErrLeaseNotOwned})))
  {
  }
}
