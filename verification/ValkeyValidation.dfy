// Which stored states the Lua scripts accept, well written or not, against what
// the PostgreSQL store accepts.
module ValkeyValidation {
  import opened Arithmetic
  import opened Policies
  import opened TokenBucket
  import opened Windows
  import opened States
  import opened StrictService
  import opened Leases
  import opened Binary64
  import opened Valkey
  import opened ValkeyRuns
  import VL = ValkeyLeases

  /** A hash and a row with the same fields, in the unsigned types both hold them in and with no field the script does
      not know. A hash without a period stands for a row with none. */
  ghost predicate SameFields(h: Hash, s: State)
  {
    && h.schema == s.schema && h.policyId == s.policyId && h.algorithm == s.algorithm && h.revision == s.revision
    && h.last == s.observed && (s.algorithm == TokenBucket ==> s.last == s.observed)
    && h.tokens == s.tokens && h.remainder == s.remainder && h.window == s.window && h.used == s.used
    && h.carried == s.carried && h.period == (if s.period == 0 then None else Some(s.period))
    && FieldsOk(h) && Ring(h.slots) == s.segments
    && 0 <= s.tokens && 0 <= s.remainder && 0 <= s.used && forall j :: 0 <= j < SEGMENTS ==> 0 <= s.segments[j].used
  }

  /** The effective instant. */
  function At(s: State, r: Request): int { Max(r.now, s.observed) }

  /** The same token rows are accepted, and refused with the same error while the clock is in range, but for balances
      beyond 2^53-1 under another revision: the script refuses them and PostgreSQL caps them. */
  lemma {:induction false} TokensAccepted(fl: real -> real, h: Hash, s: State, r: Request)
    requires Rounding(fl) && r.Sized() && r.policy.algorithm == TokenBucket && ClockInRange(r.now, r.policy.period)
    requires SameFields(h, s)
    ensures LuaAdmit(fl, Some(h), r).Replied? <==>
              Step(Some(s), r).Done? && (s.revision != r.policy.revision ==> s.tokens <= MAX_EXACT)
    ensures ClockInRange(At(s, r), r.policy.period) && Step(Some(s), r).Fail? ==>
              LuaAdmit(fl, Some(h), r) == Refused(Step(Some(s), r).error)
  {
    hide Rounding, ExactProduct, LuaRefill, LuaWait, Num, TokenStep;
    PeriodFits(r.policy);
  }

  /** The same fixed-window rows are accepted. */
  lemma {:induction false} FixedAccepted(fl: real -> real, h: Hash, s: State, r: Request)
    requires Rounding(fl) && r.Sized() && r.policy.algorithm == FixedWindow && ClockInRange(r.now, r.policy.period)
    requires SameFields(h, s)
    ensures LuaAdmit(fl, Some(h), r).Replied? <==> Step(Some(s), r).Done?
    ensures ClockInRange(At(s, r), r.policy.period) && Step(Some(s), r).Fail? ==>
              LuaAdmit(fl, Some(h), r) == Refused(Step(Some(s), r).error)
  {
    hide Rounding, ExactProduct, LuaWindow, Num, Floor, FixedStep;
    PeriodFits(r.policy);
    LuaWindowExact(fl, r.now, r.policy.period);
    if ClockInRange(At(s, r), r.policy.period) {
      FloorMonotone(r.now, At(s, r), r.policy.period);
      LuaWindowExact(fl, At(s, r), r.policy.period);
    }
  }

  /** The same sliding rows are accepted, wherever the oldest segment does not round. */
  lemma {:induction false} SlidingAccepted(fl: real -> real, h: Hash, s: State, r: Request)
    requires Rounding(fl) && r.Sized() && r.policy.algorithm == SlidingWindow && ClockInRange(r.now, r.policy.period)
    requires SameFields(h, s) && LuaOldest(fl, At(s, r), r.policy.period) == Oldest(At(s, r), r.policy.period)
    ensures LuaAdmit(fl, Some(h), r).Replied? <==> Step(Some(s), r).Done?
    ensures ClockInRange(At(s, r), r.policy.period) && Step(Some(s), r).Fail? ==>
              LuaAdmit(fl, Some(h), r) == Refused(Step(Some(s), r).error)
  {
    hide Rounding, ExactProduct, FloorDiv, Num, LiveUsed, Earliest, SlidingStep, LuaOldest, Oldest, Index, SlotsOk,
      AllInRange, PositionsOk, Unexpired, Debited;
    var p, now := r.policy, At(s, r);
    PeriodFits(p);
    if ClockInRange(now, p.period) && ValidPersistedMicros(s.observed) {
      LuaIndices(fl, now, p.period);
      SlotsAccepted(h.slots, s.segments, p.period, now);
    }
  }

  lemma {:induction false} SlotsAccepted(slots: map<int, Slot>, segs: seq<Segment>, period: int, now: int)
    requires 0 < period && Ring(slots) == segs && forall j :: 0 <= j < SEGMENTS ==> 0 <= segs[j].used
    ensures SlotsOk(slots, Oldest(now, period), Index(now, period)) <==>
              && AllInRange(segs) && PositionsOk(segs, period, now)
              && LiveUsed(segs, Oldest(now, period)) <= MAX_EXACT
  {
    hide LiveUsed, Oldest, Index;
    var oldest, current := Oldest(now, period), Index(now, period);
    forall j | 0 <= j < SEGMENTS
      ensures SlotOk(slots, j, oldest, current) <==> SegmentInRange(segs[j]) && PositionOk(segs[j], j, period, now)
    {
      assert segs[j] == Valkey.At(slots, j);
    }
  }

  /** A hash with a slot field no ring has, or with slots under another algorithm, is refused. */
  lemma UnknownFields(fl: real -> real, h: Hash, r: Request, j: int)
    requires Rounding(fl) && r.Sized() && j in h.slots && (h.algorithm != SlidingWindow || j < 0 || j > 15)
    ensures LuaAdmit(fl, Some(h), r).Refused?
  {
    hide Rounding, LuaToken, LuaFixed, LuaSliding, LuaWindow, ExactProduct;
  }

  /** The acquire script refuses the same lease rows, as long as even the expired leases of a row are within 1024, and
      besides them every lease duration beyond 2^53-1. */
  lemma {:induction false} LeasesAccepted(h: VL.LeaseHash, s: State, r: LeaseRequest, digest: string)
    requires r.Valid() && VL.SameLeases(h, s) && TotalCost(s.leases) <= MAX_CONCURRENCY_LEASES
    ensures var result := AcquireStep(Some(s), r, digest);
            VL.LuaAcquire(Some(h), r, digest).Refused? <==>
              (result.LeaseFail? && result.error != ErrLeaseNotOwned) || r.request.policy.lease > MAX_EXACT
    ensures var result := AcquireStep(Some(s), r, digest);
            var p := r.request.policy;
            p.lease <= MAX_EXACT && ClockInRange(Max(r.request.now, s.observed), p.lease) && result.LeaseFail? ==>
              if result.error == ErrLeaseNotOwned then VL.LuaAcquire(Some(h), r, digest).NotOwned?
              else VL.LuaAcquire(Some(h), r, digest) == VL.Refused(result.error)
  {
    hide TotalCost, EarliestExpiry, ValidDigest, ValidIdentifier, ExactProduct;
    var now := Max(r.request.now, s.observed);
    if forall k :: k in s.leases ==> ValidRecord(k, s.leases[k]) {
      TotalWithin(Leases.Held(s.leases, now), s.leases);
    } else {
      var k :| k in s.leases && !ValidRecord(k, s.leases[k]);
      assert !VL.FieldOk(k, h.leases[k]);
    }
  }
}
