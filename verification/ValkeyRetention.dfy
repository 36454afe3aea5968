// How long the server keeps an admission hash, and when losing it shows.
module ValkeyRetention {
  import opened Arithmetic
  import opened Policies
  import opened TokenBucket
  import opened States
  import opened StrictRuns
  import opened Wire
  import opened Retention
  import opened Binary64
  import opened Valkey
  import opened ValkeyRuns

  const MILLI: int := 1000

  /** valkeyStateTTL in the whole milliseconds PEXPIRE takes: two periods, bursts or not. */
  function HashTTL(p: Policy): int { StateTTL(p.period) / MILLI * MILLI }

  /** A reply and the result of a step on a row carry the same answer. */
  ghost predicate Answered(reply: Reply, result: StepResult)
  {
    match result
    case Fail(e) => reply == Valkey.Refused(e)
    case Done(next, d, rejected) =>
      if next.algorithm == SlidingWindow then SameSlidingAnswer(reply, d, rejected) else SameAnswer(reply, d, rejected)
  }

  /** With a hash its TTL or more after the last observation, the script answers as for a key without one. */
  ghost predicate Unnoticed(fl: real -> real, p: Policy, f: Family)
    requires Rounding(fl)
  {
    forall h, s, r ::
      Written(s, f) && Matches(fl, h, s) && f.Governs(r) && r.policy == p && s.revision == p.revision && InReach(fl, r)
      && r.now - s.observed >= HashTTL(p) ==>
        Answered(LuaAdmit(fl, Some(h), r), Step(None, r))
  }

  lemma {:induction false} DropAnswered(fl: real -> real, h: Hash, s: State, f: Family, r: Request)
    requires Rounding(fl) && Written(s, f) && Matches(fl, h, s) && f.Governs(r) && InReach(fl, r)
    requires -MAX_EXACT <= r.now && Same(Step(Some(s), r), Step(None, r))
    ensures Answered(LuaAdmit(fl, Some(h), r), Step(None, r))
  {
    hide Rounding, Written, Matches, Step, LuaAdmit, InReach, SameAnswer, SameSlidingAnswer;
    WrittenFamily(s, f);
    ScriptAgrees(fl, Some(h), Some(s), r, f);
  }

  lemma HashTTLBounds(p: Policy)
    requires 0 < p.period <= MAX_EXACT
    ensures p.period <= HashTTL(p) && (p.period > HALF_DURATION ==> HashTTL(p) >= MAX_EXACT)
  {
  }

  lemma WholeTTL(p: Policy)
    requires SECOND <= 2 * p.period <= 2 * HALF_DURATION && p.period % 500 == 0
    ensures HashTTL(p) == 2 * p.period
  {
    assert 2 * p.period == p.period / 500 * MILLI;
  }

  /** The expiry of a window hash is never noticed. */
  lemma {:induction false} WindowHashExpires(fl: real -> real, p: Policy, f: Family)
    requires Rounding(fl) && f.Valid() && WindowAlgorithm(f.algorithm)
    ensures Unnoticed(fl, p, f)
  {
    hide Rounding, Written, Matches, Step, LuaAdmit, InReach, Answered, HashTTL, ExactProduct;
    forall h, s, r | Written(s, f) && Matches(fl, h, s) && f.Governs(r) && r.policy == p && s.revision == p.revision
                     && InReach(fl, r) && r.now - s.observed >= HashTTL(p)
      ensures Answered(LuaAdmit(fl, Some(h), r), Step(None, r))
    {
      WrittenFamily(s, f);
      WrittenClock(s, f);
      PeriodFits(p);
      HashTTLBounds(p);
      if f.algorithm == FixedWindow { FixedExpires(s, f, r); } else { SlidingExpires(s, f, r); }
      DropAnswered(fl, h, s, f, r);
    }
  }

  lemma WrittenClock(s: State, f: Family)
    requires Written(s, f)
    ensures -MAX_EXACT <= s.observed
  {
  }

  /** An empty bucket at the earliest accepted instant, as a row and as a hash. */
  function Drained(p: Policy): State { NewState(UnitRequest(p, -MAX_EXACT)).(tokens := 0) }

  function DrainedHash(p: Policy): Hash { NewHash(UnitRequest(p, -MAX_EXACT)).(tokens := 0) }

  /** Where the TTL is short of a full refill, dropping a drained bucket at it hands out tokens. */
  lemma {:induction false} DrainedShows(fl: real -> real, p: Policy, f: Family)
    requires Rounding(fl) && f.Valid() && TokenPolicy(p) && p.revision in f.policies && f.policies[p.revision] == p
    requires HashTTL(p) < Wait(p.Limit(), 0, p)
    ensures !Unnoticed(fl, p, f)
  {
    hide Rounding, LuaAdmit, Step, TokenStep, Refill, HashTTL, ExactProduct, Wait;
    var s, h, r := Drained(p), DrainedHash(p), UnitRequest(p, HashTTL(p) - MAX_EXACT);
    PeriodFits(p);
    HashTTLBounds(p);
    WaitFits(p);
    assert Written(s, f) && Matches(fl, h, s);
    ScriptAgrees(fl, Some(h), Some(s), r, f);
    StepApplies(Some(s), r, f);
    StepApplies(None, r, f);
    DrainedAnswer(p, r.now);
  }

  lemma {:induction false} WaitFits(p: Policy)
    requires TokenPolicy(p)
    ensures Wait(p.Limit(), 0, p) <= MAX_EXACT
  {
    hide CeilDiv;
    var full := p.Limit() * p.period;
    assert ExactProduct(p.Limit(), p.period);
    MulMonotone(1, p.Limit(), p.period);
    MulMonotone(1, p.capacity, full);
    CeilDivLeast(full, p.capacity, full);
  }

  lemma {:induction false} DrainedAnswer(p: Policy, now: int)
    requires TokenPolicy(p) && 0 <= now + MAX_EXACT < Wait(p.Limit(), 0, p)
    ensures var kept := TokenStep(Bucket(0, 0, -MAX_EXACT), p, 1, now).decision;
            var dropped := TokenStep(Fresh(p, now), p, 1, now).decision;
            kept.allowed != dropped.allowed || kept.remaining != dropped.remaining
  {
    hide Wait, ExactProduct;
    WaitExact(Bucket(0, 0, -MAX_EXACT), p, p.Limit(), now);
    RefillIdle(Fresh(p, now), p);
  }

  /** The expiry of a token hash goes unnoticed if and only if two periods, in whole milliseconds, cover a full
      refill. */
  lemma {:induction false} TokenHashExpiresExactly(fl: real -> real, p: Policy, f: Family)
    requires Rounding(fl) && f.Valid() && TokenPolicy(p) && p.revision in f.policies && f.policies[p.revision] == p
    ensures Unnoticed(fl, p, f) <==> HashTTL(p) >= Wait(p.Limit(), 0, p)
  {
    hide Rounding, Written, Matches, Step, LuaAdmit, InReach, Answered, HashTTL, ExactProduct, Wait;
    if HashTTL(p) < Wait(p.Limit(), 0, p) {
      DrainedShows(fl, p, f);
    } else {
      forall h, s, r | Written(s, f) && Matches(fl, h, s) && f.Governs(r) && r.policy == p && s.revision == p.revision
                       && InReach(fl, r) && r.now - s.observed >= HashTTL(p)
        ensures Answered(LuaAdmit(fl, Some(h), r), Step(None, r))
      {
        WrittenFamily(s, f);
        WrittenClock(s, f);
        PeriodFits(p);
        HashTTLBounds(p);
        TokenExpires(s, f, r);
        DropAnswered(fl, h, s, f, r);
      }
    }
  }

  /** For periods from half a second on, in whole half milliseconds, that is a burst of at most the capacity. */
  lemma {:induction false} HashTTLCovers(p: Policy)
    requires TokenPolicy(p) && SECOND <= 2 * p.period && p.period % 500 == 0
    ensures HashTTL(p) >= Wait(p.Limit(), 0, p) <==> p.burst <= p.capacity
  {
    hide Wait, ExactProduct, HashTTL;
    PeriodFits(p);
    HashTTLBounds(p);
    TwoPeriodsCover(p);
    WaitFits(p);
    if p.period <= HALF_DURATION { WholeTTL(p); }
  }
}
