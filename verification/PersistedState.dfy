// postgres/state.go as it runs: one mutable envelope, updated in place by
// machine-word arithmetic and loops, proved against the functions of States.
module PersistedStates {
  import opened Arithmetic
  import opened Policies
  import opened TokenBucket
  import opened Windows
  import opened States
  import opened StrictService
  import opened Leases

  class PersistedState {
    var schema: int
    var policyId: string
    var revision: string
    var algorithm: Algorithm
    var tokens: u64
    var remainder: u64
    var last: i64
    var observed: i64
    var window: i64
    var used: u64
    var period: i64
    var carried: bool
    const segments: array<Segment>
    var leases: map<string, LeaseRecord>

    /** Sixteen segments of unsigned usage. */
    ghost predicate Valid()
      reads this, segments
    {
      && segments.Length == SEGMENTS
      && forall j :: 0 <= j < SEGMENTS ==> 0 <= segments[j].used < WORD
    }

    /** Lease costs are unsigned words and expiries int64. */
    ghost predicate LeaseWords()
      reads this
    {
      forall k :: k in leases ==> 0 <= leases[k].cost < WORD && leases[k].expires <= MAX_INT64
    }

    ghost function View(): (s: State)
      reads this, segments
    {
      State(schema, policyId, revision, algorithm, tokens, remainder, last, observed,
            window, used, period, carried, segments[..], leases)
    }

    /** The state a first request creates. */
    constructor (r: Request)
      requires r.Sized() && r.policy.algorithm != Concurrency && -MAX_INT64 <= r.now <= MAX_INT64
      ensures Valid() && fresh(segments) && View() == NewState(r)
    {
      schema, policyId, revision, algorithm := STATE_SCHEMA, r.policy.id, r.policy.revision, r.policy.algorithm;
      tokens, remainder, last, observed := r.policy.Limit(), 0, r.now, r.now;
      window, used, carried, leases := 0, 0, false, map[];
      PeriodInRange(r.policy);
      period := if WindowAlgorithm(r.policy.algorithm) then r.policy.period else 0;
      segments := new Segment[SEGMENTS](j => EMPTY);
      new;
      assert segments[..] == EmptySegments();
    }

    /** The state a first acquisition creates. */
    constructor ForLease(p: Policy)
      ensures Valid() && fresh(segments) && View() == NewLeaseState(p)
    {
      schema, policyId, revision, algorithm := STATE_SCHEMA, p.id, p.revision, Concurrency;
      tokens, remainder, last, observed, window, used, period, carried := 0, 0, 0, 0, 0, 0, 0, false;
      leases := map[];
      segments := new Segment[SEGMENTS](j => EMPTY);
      new;
      assert segments[..] == EmptySegments();
    }

    // ---------------------------------------------------------- token bucket

    /** mutateToken. */
    method MutateToken(r: Request) returns (decision: Decision, rejected: bool)
      requires Valid() && TokenPolicy(r.policy) && 1 <= r.cost <= r.policy.Limit()
      requires ValidPersistedMicros(last) && ValidPersistedMicros(r.now)
      requires tokens <= r.policy.Limit() && remainder < r.policy.period
      modifies this`tokens, this`remainder, this`last
      ensures Valid()
      ensures var t := TokenStep(old(View()).AsBucket(), r.policy, r.cost, r.now);
              && View() == old(View()).(tokens := t.bucket.tokens, remainder := t.bucket.remainder,
                   last := t.bucket.last)
              && decision == t.decision && rejected == t.rejected
    {
      RefillTokens(r);
      var p := r.policy;
      var limit := p.Limit();
      if tokens < r.cost {
        var retry := TokenDuration(r.cost - tokens, remainder, p);
        var reset := TokenDuration(limit - tokens, remainder, p);
        decision := Decision(false, tokens, limit, r.now + reset, retry, Limited, "", "");
        return decision, true;
      }
      tokens := tokens - r.cost;
      var reset := TokenDuration(limit - tokens, remainder, p);
      decision := Decision(true, tokens, limit, r.now + reset, 0, Allowed, "", "");
      return decision, false;
    }

    /** The 128-bit refill at the head of mutateToken; every Div64 precondition holds. */
    method RefillTokens(r: Request)
      requires Valid() && TokenPolicy(r.policy)
      requires ValidPersistedMicros(last) && ValidPersistedMicros(r.now)
      requires tokens <= r.policy.Limit() && remainder < r.policy.period
      modifies this`tokens, this`remainder, this`last
      ensures Valid()
      ensures View().AsBucket() == Refill(old(View()).AsBucket(), r.policy, r.now)
      ensures tokens <= r.policy.Limit() && remainder < r.policy.period
      ensures View() == old(View()).(tokens := tokens, remainder := remainder, last := last)
    {
      var p, now := r.policy, r.now;
      ghost var before := View().AsBucket();
      var elapsed := SatSub(now, last);
      PeriodBound(p);
      if elapsed >= 1 {
        if tokens < p.Limit() {
          RefillWords(before, p, now, elapsed);
          var (high, low) := Mul64(elapsed, p.capacity);
          var (low', carry) := Add64(low, remainder);
          var high' := Add64(high, carry).0;
          if high' >= p.period {
            tokens, remainder := p.Limit(), 0;
          } else {
            var (added, rest) := Div64(high', low', p.period);
            DivUnique(high' * WORD + low', p.period, added);
            var gap := p.Limit() - tokens;
            if added >= gap {
              tokens, remainder := p.Limit(), 0;
            } else {
              tokens, remainder := tokens + added, rest;
            }
          }
        }
        last := now;
      }
    }

    // --------------------------------------------------------------- windows

    /** consume. */
    method ConsumeUsed(r: Request, reset: int) returns (decision: Decision, rejected: bool)
      requires Valid() && r.policy.Valid() && 1 <= r.cost
      modifies this`used
      ensures Valid()
      ensures var c := Consume(old(used), r.policy, r.cost, r.now, reset);
              View() == old(View()).(used := c.used) && decision == c.decision && rejected == c.rejected
    {
      var limit := r.policy.Limit();
      var remaining := limit - Min(used, limit);
      if r.cost > remaining {
        var retry := Max(SatSub(reset, r.now), 0);
        return Decision(false, remaining, limit, reset, retry, Limited, "", ""), true;
      }
      used := used + r.cost;
      return Decision(true, limit - used, limit, reset, 0, Allowed, "", ""), false;
    }

    /** mutateFixed. */
    method MutateFixed(r: Request) returns (decision: Decision, rejected: bool)
      requires Valid() && r.policy.Valid() && r.policy.algorithm == FixedWindow && 1 <= r.cost
      requires ValidPersistedMicros(Floor(r.now, r.policy.period))
      modifies this`window, this`used, this`carried
      ensures Valid()
      ensures var f := FixedStep(old(window), old(used), r.policy, r.cost, r.now);
              && View() == old(View()).(window := f.window, used := f.used, carried := f.carried)
              && decision == f.decision && rejected == f.rejected
    {
      var period := r.policy.period;
      var current := Floor(r.now, period);
      if window != current {
        window, used := current, 0;
      }
      decision, rejected := ConsumeUsed(r, current + period);
      carried := used > r.policy.Limit();
    }

    /** mutateSliding. The usage sum stays in one word because strictSlidingUsage bounded it. */
    method MutateSliding(r: Request) returns (decision: Decision, rejected: bool)
      requires Valid() && r.policy.Valid() && r.policy.algorithm == SlidingWindow && 1 <= r.cost <= r.policy.Limit()
      requires LiveUsed(segments[..], Oldest(r.now, r.policy.period)) <= MAX_EXACT
      requires forall j :: 0 <= j < SEGMENTS ==> segments[j].used <= MAX_EXACT
      modifies this`used, this`carried, segments
      ensures Valid()
      ensures var t := SlidingStep(old(segments[..]), r.policy, r.cost, r.now);
              && View() == old(View()).(segments := t.segs, used := t.used, carried := t.carried)
              && decision == t.decision && rejected == t.rejected
    {
      hide ExactProduct, LiveUsed, Earliest, Consume, Charged;
      var period := r.policy.period;
      LiveSpan(r.now, period);
      FloorIndex(r.now, Width(period));
      FloorIndex(r.now - period, Width(period));
      var width := (period + SEGMENTS - 1) / SEGMENTS;
      var index := GoDiv(Floor(r.now, width), width);
      var oldest := GoDiv(Floor(r.now - period, width), width);
      var total, earliest := SumLive(oldest);
      ExpireSegments(oldest);
      used := total;
      carried := total > r.policy.Limit();
      var slot := OpenSlot(index);
      var reset := r.now + period;
      if earliest != MAX_INT64 {
        reset := (earliest + 1) * width + period;
      }
      decision, rejected := ConsumeUsed(r, reset);
      if !rejected {
        ChargeSlot(slot, r.cost);
      }
    }

    method OpenSlot(index: int) returns (slot: nat)
      requires Valid()
      modifies segments
      ensures Valid()
      ensures slot == index % SEGMENTS && segments[..] == Opened(old(segments[..]), index)
      ensures segments[slot].used <= old(segments[slot].used)
    {
      slot := PositiveRemainder(index, SEGMENTS);
      if segments[slot].index != index {
        segments[slot] := Segment(index, 0);
      }
    }

    method ChargeSlot(slot: nat, cost: u64)
      requires Valid() && slot < SEGMENTS && segments[slot].used + cost < WORD
      modifies segments
      ensures Valid()
      ensures segments[..] == Charged(old(segments[..]), slot, cost)
    {
      segments[slot] := segments[slot].(used := segments[slot].used + cost);
    }

    /** The first loop of mutateSliding: usage and the earliest used segment still in the window. */
    method SumLive(oldest: int) returns (total: u64, earliest: int)
      requires Valid() && LiveUsed(segments[..], oldest) <= MAX_EXACT
      ensures total == LiveUsed(segments[..], oldest)
      ensures earliest == Earliest(segments[..], oldest)
    {
      total, earliest := 0, MAX_INT64;
      for slot := 0 to SEGMENTS
        invariant total == LiveUsed(segments[..slot], oldest)
        invariant earliest == Earliest(segments[..slot], oldest)
      {
        assert segments[..slot + 1][..slot] == segments[..slot];
        PrefixUsed(segments[..], oldest, slot + 1);
        assert segments[..][..slot + 1] == segments[..slot + 1];
        if segments[slot].index > oldest {
          total := total + segments[slot].used;
          if segments[slot].used != 0 {
            earliest := Min(earliest, segments[slot].index);
          }
        }
      }
      assert segments[..SEGMENTS] == segments[..];
    }

    /** The second loop of mutateSliding: segments that left the window are cleared. */
    method ExpireSegments(oldest: int)
      requires Valid()
      modifies segments
      ensures Valid()
      ensures segments[..] == Expired(old(segments[..]), oldest)
    {
      for slot := 0 to SEGMENTS
        invariant forall j :: 0 <= j < slot ==> segments[j] == Expire(old(segments[j]), oldest)
        invariant forall j :: slot <= j < SEGMENTS ==> segments[j] == old(segments[j])
      {
        if segments[slot].index <= oldest {
          segments[slot] := EMPTY;
        }
      }
    }

    // ------------------------------------------------------------- validators

    /** The segment loop of the strict load checks. */
    method SegmentsInRange() returns (ok: bool)
      requires Valid()
      ensures ok <==> AllInRange(segments[..])
    {
      for slot := 0 to SEGMENTS
        invariant forall j :: 0 <= j < slot ==> SegmentInRange(segments[j])
      {
        if !ValidPersistedMicros(segments[slot].index) || segments[slot].used > MAX_EXACT {
          assert !SegmentInRange(segments[..][slot]);
          return false;
        }
      }
      return true;
    }

    /** validateSlidingPositions. */
    method PositionsValid(p: Policy, now: int) returns (ok: bool)
      requires Valid() && 0 < p.period
      ensures ok <==> PositionsOk(segments[..], p.period, now)
    {
      LiveSpan(now, p.period);
      FloorIndex(now, Width(p.period));
      FloorIndex(now - p.period, Width(p.period));
      var width := (p.period + SEGMENTS - 1) / SEGMENTS;
      var current := GoDiv(Floor(now, width), width);
      var oldest := GoDiv(Floor(now - p.period, width), width);
      for slot := 0 to SEGMENTS
        invariant forall j :: 0 <= j < slot ==> PositionOk(segments[j], j, p.period, now)
      {
        var segment := segments[slot];
        if segment.used != 0 && segment.index > oldest {
          if segment.index > current || PositiveRemainder(segment.index, SEGMENTS) != slot {
            assert !PositionOk(segments[..][slot], slot, p.period, now);
            return false;
          }
        }
      }
      return true;
    }

    /** strictSlidingUsage: the live sum, or overflow. */
    method StrictUsage(p: Policy, now: int) returns (total: u64, overflow: bool)
      requires Valid() && 0 < p.period
      ensures overflow <==> LiveUsed(segments[..], Oldest(now, p.period)) > MAX_EXACT
      ensures !overflow ==> total == LiveUsed(segments[..], Oldest(now, p.period))
    {
      LiveSpan(now, p.period);
      FloorIndex(now - p.period, Width(p.period));
      var width := (p.period + SEGMENTS - 1) / SEGMENTS;
      var oldest := GoDiv(Floor(now - p.period, width), width);
      total := 0;
      for slot := 0 to SEGMENTS
        invariant total == LiveUsed(segments[..slot], oldest) <= MAX_EXACT
      {
        assert segments[..slot + 1][..slot] == segments[..slot];
        if segments[slot].index > oldest {
          if segments[slot].used > MAX_EXACT - total {
            PrefixUsed(segments[..], oldest, slot + 1);
            assert segments[..][..slot + 1] == segments[..slot + 1];
            return 0, true;
          }
          total := total + segments[slot].used;
        }
      }
      assert segments[..SEGMENTS] == segments[..];
      return total, false;
    }

    /** The strict load checks on an existing row. */
    method Loaded(p: Policy) returns (ok: bool)
      requires Valid() && p.Valid() && p.algorithm != Concurrency
      ensures ok <==> LoadedOk(View(), p)
    {
      if schema != STATE_SCHEMA || policyId != p.id || algorithm != p.algorithm || !ValidPersistedMicros(observed) {
        return false;
      }
      match algorithm
      case TokenBucket =>
        if !ValidPersistedMicros(last) || remainder > MAX_EXACT || (revision == p.revision && remainder >= p.period) {
          return false;
        }
        return !(revision == p.revision && tokens > p.Limit());
      case FixedWindow =>
        return !(!ValidPersistedMicros(window) || used > MAX_EXACT ||
                 (revision == p.revision && used > p.Limit() && !carried));
      case _ =>
        ok := SegmentsInRange();
    }

    /** The strict window checks at the effective instant. */
    method WindowValid(p: Policy, now: int) returns (ok: bool)
      requires Valid() && p.Valid() && p.algorithm != Concurrency
      ensures ok <==> WindowOk(View(), p, now)
    {
      if WindowAlgorithm(p.algorithm) && period != 0 && period != p.period {
        return false;
      }
      if p.algorithm == SlidingWindow {
        var placed := PositionsValid(p, now);
        if !placed {
          return false;
        }
        var total, overflow := StrictUsage(p, now);
        return !(overflow || (revision == p.revision && total > p.Limit() && !carried));
      }
      return true;
    }

    /** validateConcurrencyState: map iteration in any order. */
    method ConcurrencyValid(id: string) returns (ok: bool)
      requires LeaseWords()
      ensures ok <==> ConcurrencyOk(View(), id)
    {
      if schema != STATE_SCHEMA || policyId != id || algorithm != Concurrency || !ValidPersistedMicros(observed) {
        return false;
      }
      hide TotalCost, ValidDigest;
      NothingHeld(map[]);
      var todo := leases.Keys;
      var total := 0;
      assert leases - todo == map[];
      while todo != {}
        invariant todo <= leases.Keys
        invariant total == TotalCost(leases - todo) && 0 <= total <= MAX_CONCURRENCY_LEASES
        invariant forall k :: k in leases && k !in todo ==> ValidRecord(k, leases[k])
        decreases |todo|
      {
        var k :| k in todo;
        var lease := leases[k];
        if !ValidRecord(k, lease) {
          return false;
        }
        Visits(leases, todo, k);
        TotalWith(leases - todo, k, lease);
        todo := todo - {k};
        if lease.cost > MAX_CONCURRENCY_LEASES - total {
          TotalWithin(leases - todo, leases);
          return false;
        }
        total := total + lease.cost;
      }
      assert leases - todo == leases;
      return true;
    }

    /** The pruning loop of mutateLease, in any order: expired leases go, the rest are summed. */
    method PruneLeases(now: int) returns (ok: bool, total: int, earliest: int)
      requires LeaseWords()
      modifies this`leases
      ensures ok <==> HeldOk(Held(old(leases), now))
      ensures ok ==>
              leases == Held(old(leases), now) && total == TotalCost(leases) && earliest == EarliestExpiry(leases)
    {
      hide Pruning, Held, TotalCost, EarliestExpiry;
      ghost var all := leases;
      PruningEnds(all, now);
      var todo := leases.Keys;
      total, earliest := 0, MAX_INT64;
      NothingHeld(map[]);
      while todo != {}
        invariant todo <= all.Keys && leases == Pruning(all, todo, now)
        invariant total == TotalCost(Held(all - todo, now)) && 0 <= total <= MAX_CONCURRENCY_LEASES
        invariant earliest == EarliestExpiry(Held(all - todo, now))
        invariant forall k :: k in Held(all - todo, now) ==>
                  1 <= Held(all - todo, now)[k].cost <= MAX_CONCURRENCY_LEASES
        decreases |todo|
      {
        var k :| k in todo;
        PruningVisits(all, todo, k, now);
        var lease := leases[k];
        ghost var done := Held(all - todo, now);
        todo := todo - {k};
        if lease.expires <= now {
          leases := leases - {k};
        } else {
          if lease.cost == 0 || lease.cost > MAX_CONCURRENCY_LEASES {
            return false, 0, 0;
          }
          TotalWith(done, k, lease);
          EarliestWith(done, k, lease);
          if total > MAX_CONCURRENCY_LEASES - lease.cost {
            VisitedWithin(all, todo, now);
            return false, 0, 0;
          }
          total := total + lease.cost;
          earliest := Min(earliest, lease.expires);
        }
      }
      ok := true;
    }

    /** The tail of mutateLease, on a pruned state. */
    method GrantLease(r: LeaseRequest, digest: string, total: int, earliest: int)
      returns (lease: Lease, decision: Decision, error: Option<Error>)
      requires r.Valid() && ClockInRange(observed, r.request.policy.lease)
      requires total == TotalCost(leases) && earliest == EarliestExpiry(leases)
      modifies this`leases
      ensures match GrantStep(old(View()), r, digest)
              case LeaseFail(e) => error == Some(e)
              case Exhausted(s, d) => View() == s && decision == d && lease == ZERO_LEASE && error == Some(ErrRejected)
              case Granted(s, l, d) => View() == s && decision == d && lease == l && error == None
    {
      var p, cost := r.request.policy, r.request.cost;
      var remaining := p.Limit() - Min(total, p.Limit());
      if digest in leases {
        var existing := leases[digest];
        if existing.cost != cost {
          return ZERO_LEASE, ZERO_DECISION, Some(ErrLeaseNotOwned);
        }
        return MakeLease(r, existing.expires),
               Decision(true, remaining, p.Limit(), existing.expires, 0, Allowed, "", ""), None;
      }
      if cost > remaining {
        var retry := Max(SatSub(earliest, observed), 0);
        return ZERO_LEASE, Decision(false, remaining, p.Limit(), earliest, retry, Limited, "", ""), Some(ErrRejected);
      }
      var expires := observed + p.lease;
      leases := leases[digest := LeaseRecord(cost, expires)];
      return MakeLease(r, expires), Decision(true, remaining - cost, p.Limit(), expires, 0, Allowed, "", ""), None;
    }

    /** The body of releaseStrict on a loaded row. */
    method ReleaseLease(l: Lease, digest: string) returns (error: Option<Error>)
      requires LeaseWords()
      modifies this`leases
      ensures match ReleaseStep(Some(old(View())), l, digest)
              case ReleaseFail(e) => error == Some(e) && View() == old(View())
              case Released(next) => error == None && View() == next
    {
      var ok := ConcurrencyValid(l.policyId);
      if !ok {
        return Some(ErrCorrupt);
      }
      if digest !in leases {
        return Some(ErrLeaseNotFound);
      }
      var existing := leases[digest];
      if existing.cost != l.cost || existing.expires != l.expiresAt {
        return Some(ErrLeaseNotOwned);
      }
      leases := leases - {digest};
      return None;
    }

    /** latestLeaseExpiry. */
    method LatestLeaseExpiry() returns (latest: int)
      ensures latest == LatestExpiry(leases)
    {
      var todo := leases.Keys;
      ghost var done: LeaseMap := map[];
      latest := 0;
      while todo != {}
        invariant todo <= leases.Keys && done == leases - todo && latest == LatestExpiry(done)
        decreases |todo|
      {
        var k :| k in todo;
        LatestWith(done, k, leases[k]);
        done := done[k := leases[k]];
        latest := Max(latest, leases[k].expires);
        todo := todo - {k};
      }
      assert done == leases;
    }

    /** Revision carry-over and bookkeeping before dispatch. */
    method PrepareFor(p: Policy, now: i64)
      requires Valid() && p.Valid() && p.algorithm != Concurrency
      modifies this`tokens, this`remainder, this`last, this`observed, this`revision, this`period
      ensures Valid() && View() == Prepare(old(View()), p, now)
    {
      PeriodInRange(p);
      if p.algorithm == TokenBucket && revision != p.revision {
        tokens, remainder, last := Min(tokens, p.Limit()), 0, Max(last, now);
      }
      if WindowAlgorithm(p.algorithm) {
        period := p.period;
      }
      observed, revision := now, p.revision;
    }
  }

  // ------------------------------------------------------------------ leases

  /** mutateLease in strict mode. */
  method MutateLease(current: PersistedState?, r: LeaseRequest, digest: string)
    returns (next: PersistedState?, lease: Lease, decision: Decision, error: Option<Error>)
    requires r.Valid()
    requires current != null ==> current.Valid() && current.LeaseWords()
    modifies current
    ensures var before := if current == null then None else Some(old(current.View()));
            match AcquireStep(before, r, digest)
            case LeaseFail(e) => error == Some(e)
            case Exhausted(s, d) =>
              next != null && next.Valid() && next.View() == s && decision == d && lease == ZERO_LEASE &&
                error == Some(ErrRejected)
            case Granted(s, l, d) =>
              next != null && next.Valid() && next.View() == s && decision == d && lease == l && error == None
  {
    hide GrantStep, TotalCost, EarliestExpiry, Held;
    var p := r.request.policy;
    next, lease, decision, error := null, ZERO_LEASE, ZERO_DECISION, None;
    var state: PersistedState;
    if current == null {
      state := new PersistedState.ForLease(p);
    } else {
      state := current;
      var ok := state.ConcurrencyValid(p.id);
      if !ok {
        error := Some(ErrCorrupt);
        return;
      }
    }
    var now := Max(r.request.now, state.observed);
    if !ClockInRange(now, p.lease) {
      error := Some(ErrOverflow);
      return;
    }
    state.revision, state.observed := p.revision, now;
    var ok, used, earliest := state.PruneLeases(now);
    if !ok {
      error := Some(ErrCorrupt);
      return;
    }
    next := state;
    lease, decision, error := state.GrantLease(r, digest, used, earliest);
  }

  // -------------------------------------------------------------- entry point

  /** mutateState in strict mode. A failure leaves the loaded envelope untouched. */
  method MutateState(current: PersistedState?, r: Request)
    returns (next: PersistedState?, decision: Decision, error: Option<Error>)
    requires r.Sized() && r.policy.algorithm != Concurrency && -MAX_INT64 <= r.now <= MAX_INT64
    requires current != null ==> current.Valid()
    modifies current, if current == null then {} else {current.segments}
    ensures var before := if current == null then None else Some(old(current.View()));
            match Step(before, r)
            case Fail(e) => next == null && error == Some(e) &&
              (current != null ==> current.View() == old(current.View()))
            case Done(s, d, rejected) =>
              && next != null && next.Valid() && next.View() == s && decision == d
              && error == (if rejected then Some(ErrRejected) else None)
              && (current != null ==> next == current)
  {
    var p := r.policy;
    next, decision, error := null, ZERO_DECISION, None;
    PeriodInRange(p);
    if p.algorithm == FixedWindow && !ValidPersistedMicros(Floor(r.now, p.period)) {
      error := Some(ErrOverflow);
      return;
    }
    var state: PersistedState;
    if current == null {
      state := new PersistedState(r);
    } else {
      state := current;
      var ok := state.Loaded(p);
      if !ok {
        error := Some(ErrCorrupt);
        return;
      }
    }
    ghost var s := state.View();
    var now := Max(r.now, state.observed);
    if !ClockInRange(now, p.period) {
      error := Some(ErrOverflow);
      return;
    }
    var ok := state.WindowValid(p, now);
    if !ok {
      error := Some(ErrCorrupt);
      return;
    }
    FloorMonotone(r.now, now, p.period);
    state.PrepareFor(p, now);
    next := state;
    var rejected;
    decision, rejected := Dispatch(state, r.(now := now), s);
    if rejected {
      error := Some(ErrRejected);
    }
  }

  /** The algorithm switch. `s` is the state before preparation, which the strict checks accepted. */
  method Dispatch(state: PersistedState, r: Request, ghost s: State) returns (decision: Decision, rejected: bool)
    requires state.Valid() && r.policy.Valid() && r.policy.algorithm != Concurrency && 1 <= r.cost <= r.policy.Limit()
    requires ClockInRange(r.now, r.policy.period) && |s.segments| == SEGMENTS
    requires state.View() == Prepare(s, r.policy, r.now)
    requires LoadedOk(s, r.policy) && WindowOk(s, r.policy, r.now) && s.observed <= r.now
    requires r.policy.algorithm == FixedWindow ==> ValidPersistedMicros(Floor(r.now, r.policy.period))
    modifies state, state.segments
    ensures state.Valid()
    ensures Apply(old(state.View()), r.policy, r.cost, r.now) == Done(state.View(), decision, rejected)
  {
    match r.policy.algorithm
    case TokenBucket => decision, rejected := state.MutateToken(r);
    case FixedWindow => decision, rejected := state.MutateFixed(r);
    case SlidingWindow =>
      assert forall j :: 0 <= j < SEGMENTS ==> s.segments[j] == state.segments[j] && SegmentInRange(s.segments[j]);
      decision, rejected := state.MutateSliding(r);
  }

  // ------------------------------------------------------------ arithmetic

  lemma {:induction false} PeriodInRange(p: Policy)
    requires p.Valid() && p.algorithm != Concurrency
    ensures 1 <= p.period <= MAX_EXACT
  {
    MulMonotone(1, p.Limit(), p.period);
  }

  lemma {:induction false} PrefixUsed(segs: seq<Segment>, oldest: int, n: nat)
    requires n <= |segs| && forall j :: 0 <= j < |segs| ==> segs[j].used >= 0
    ensures LiveUsed(segs[..n], oldest) <= LiveUsed(segs, oldest)
  {
    if n < |segs| {
      assert segs[..|segs| - 1][..n] == segs[..n];
      PrefixUsed(segs[..|segs| - 1], oldest, n);
    } else {
      assert segs[..n] == segs;
    }
  }

  /** The two words the refill divides are its true numerator, unless the clock difference saturated; then,
      and whenever the high word reaches the period, the bucket is full either way. */
  lemma {:induction false} RefillWords(b: Bucket, p: Policy, now: int, elapsed: int)
    requires TokenPolicy(p) && p.period <= MAX_EXACT
    requires 0 <= b.tokens < p.Limit() && 0 <= b.remainder < p.period
    requires ValidPersistedMicros(now) && ValidPersistedMicros(b.last) && b.last < now
    requires elapsed == SatSub(now, b.last)
    ensures var (high, low) := Mul64(elapsed, p.capacity);
            var (low', carry) := Add64(low, b.remainder);
            var high' := Add64(high, carry).0;
            var n := high' * WORD + low';
            && n == elapsed * p.capacity + b.remainder
            && (high' >= p.period ==> n / p.period >= p.Limit())
            && (n / p.period >= p.Limit() - b.tokens ==> Refill(b, p, now) == Bucket(p.Limit(), 0, now))
            && (n / p.period < p.Limit() - b.tokens ==>
                 Refill(b, p, now) == Bucket(b.tokens + n / p.period, n % p.period, now))
  {
    var (high, low) := Mul64(elapsed, p.capacity);
    var (low', carry) := Add64(low, b.remainder);
    HighWord(elapsed, p.capacity, high, low);
    var high' := Add64(high, carry).0;
    var n := high' * WORD + low';
    assert (high + carry) * WORD == high * WORD + carry * WORD;
    if high' >= p.period {
      MulMonotone(p.period, high', WORD);
      DivMonotone(WORD * p.period, n, p.period);
      DivShift(0, WORD, p.period);
    }
    Saturated(p, elapsed, now - b.last, b.remainder, b.tokens);
  }

  lemma {:induction false} HighWord(x: int, y: int, high: int, low: int)
    requires 0 <= x <= MAX_DURATION && 0 <= y <= MAX_EXACT && 0 <= low && high * WORD + low == x * y
    ensures high < WORD - 1
  {
    MulMonotone(x, MAX_DURATION, y);
    MulMonotone(y, MAX_EXACT, MAX_DURATION);
  }

  /** A saturated clock difference still refills the whole bucket, as the true one would. */
  lemma {:induction false} Saturated(p: Policy, elapsed: int, span: int, remainder: int, tokens: int)
    requires TokenPolicy(p) && 0 <= tokens && 0 <= remainder
    requires elapsed == Min(MAX_DURATION, span)
    ensures elapsed != span ==>
              && (elapsed * p.capacity + remainder) / p.period >= p.Limit() - tokens
              && (span * p.capacity + remainder) / p.period >= p.Limit() - tokens
  {
    if elapsed != span {
      MulMonotone(elapsed, span, p.capacity);
      MulMonotone(1, p.capacity, elapsed);
      DivMonotone(p.Limit() * p.period, elapsed * p.capacity + remainder, p.period);
      DivMonotone(p.Limit() * p.period, span * p.capacity + remainder, p.period);
      DivShift(0, p.Limit(), p.period);
    }
  }
}
