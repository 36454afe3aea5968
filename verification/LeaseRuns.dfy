// Leases over whole runs: the stored row with its expiry, against a ledger of
// every lease granted and not yet released.
module LeaseRuns {
  import opened Arithmetic
  import opened Policies
  import opened States
  import opened StrictService
  import opened Leases
  import opened Retention

  datatype LeaseRow = LeaseRow(state: State, expires: int)

  /** What acquireStrict stores: the row outlives twice the lease duration. */
  function StoreAcquired(s: State, p: Policy): LeaseRow { LeaseRow(s, s.observed + StateTTL(p.lease)) }

  /** What releaseStrict stores: the row goes with its last lease, and otherwise lives as long as they do. */
  ghost function StoreReleased(s: State): Option<LeaseRow>
  {
    if s.leases == map[] then None else Some(LeaseRow(s, LatestExpiry(s.leases)))
  }

  function LoadRow(row: Option<LeaseRow>, now: int): Option<State>
  {
    if row.Some? then Load(row.value.state, row.value.expires, now) else None
  }

  /** A row an acquisition wrote is gone two durations, and at least a second, after its observation. */
  lemma {:induction false} AcquiredRowExpires(s: State, p: Policy, now: int)
    requires 0 < p.lease
    ensures LoadRow(Some(StoreAcquired(s, p)), now) ==
              if CoversTwo(p.lease, now - s.observed) then None else Some(s)
  {
    hide StateTTL;
    StateTTLLeast(p.lease, now - s.observed);
  }

  /** One a release wrote is gone with the last of its leases. */
  lemma {:induction false} ReleasedRowExpires(s: State, now: int)
    requires 0 <= now
    ensures LoadRow(StoreReleased(s), now) == if Held(s.leases, now) == map[] then None else Some(s)
  {
    hide LatestExpiry;
    if s.leases != map[] {
      if Held(s.leases, now) == map[] {
        forall k | k in s.leases ensures s.leases[k].expires <= now { assert k !in Held(s.leases, now); }
      } else {
        var k :| k in Held(s.leases, now);
        assert s.leases[k].expires <= LatestExpiry(s.leases);
      }
    } else {
      assert Held(s.leases, now) == map[];
    }
  }

  /** Concurrency uses no field but revision, clock and leases. */
  ghost predicate Plain(s: State, p: Policy)
  {
    s == NewLeaseState(p).(revision := s.revision, observed := s.observed, leases := s.leases)
  }

  /** A strictly written lease row under lease duration p.lease: it outlives every lease in it. */
  ghost predicate GoodRow(row: LeaseRow, p: Policy)
  {
    && WrittenLeases(row.state, p.id) && Plain(row.state, p)
    && row.expires > row.state.observed
    && forall k :: k in row.state.leases ==>
         row.state.leases[k].expires <= Min(row.expires, row.state.observed + p.lease)
  }

  lemma LeaseTTLCovers(p: Policy)
    requires p.Valid() && p.algorithm == Concurrency
    ensures StateTTL(p.lease) >= p.lease
  {
  }

  /** Lease rows expire unobservably too: once the row's expiry has come, acquiring from it or from nothing
      gives the same lease, decision and stored state. */
  lemma {:induction false} LeaseExpiryUnobservable(row: LeaseRow, r: LeaseRequest, digest: string)
    requires r.Valid() && GoodRow(row, r.request.policy)
    ensures AcquireStep(LoadRow(Some(row), r.request.now), r, digest) == AcquireStep(Some(row.state), r, digest)
  {
    if row.expires <= r.request.now {
      assert Held(row.state.leases, r.request.now) == map[] == Held(map[], r.request.now);
    }
  }

  // ------------------------------------------------------------------- runs

  datatype Event =
    | Acquire(request: LeaseRequest, digest: string)
    | Release(lease: Lease, digest: string)
    | Cleanup(clock: int)

  /** The row, every lease granted and not released, and the latest clock reading acted on. */
  datatype World = World(row: Option<LeaseRow>, ledger: LeaseMap, high: int)

  const EMPTY_WORLD := World(None, map[], -MAX_EXACT)

  /** An event on the row of policy `id`: any revision, limit and duration. */
  ghost predicate Addressed(e: Event, id: string)
  {
    match e
    case Acquire(r, d) => r.Valid() && r.request.policy.id == id && ValidDigest(d)
    case Release(l, d) => l.policyId == id
    case Cleanup(_) => true
  }

  /** An event under some revision with the limit and the lease duration of p. */
  ghost predicate ValidEvent(e: Event, p: Policy)
  {
    Addressed(e, p.id)
    && (e.Acquire? ==> e.request.request.policy.Limit() == p.Limit() && e.request.request.policy.lease == p.lease)
  }

  ghost function Next(w: World, e: Event): World
    requires e.Acquire? ==> e.request.Valid()
  {
    match e
    case Acquire(r, d) =>
      var loaded := LoadRow(w.row, r.request.now);
      (match AcquireStep(loaded, r, d)
       case LeaseFail(_) => w.(high := Max(w.high, r.request.now))
       case Exhausted(s, _) => World(Some(StoreAcquired(s, r.request.policy)), w.ledger, Max(w.high, s.observed))
       case Granted(s, l, _) =>
         World(Some(StoreAcquired(s, r.request.policy)), w.ledger[d := LeaseRecord(l.cost, l.expiresAt)],
               Max(w.high, s.observed)))
    case Release(l, d) =>
      (match ReleaseStep(Stored(w.row), l, d)
       case ReleaseFail(_) => w
       case Released(s) => w.(row := StoreReleased(s), ledger := w.ledger - {d}))
    case Cleanup(clock) =>
      World(if w.row.Some? && w.row.value.expires <= clock then None else w.row, w.ledger, Max(w.high, clock))
  }

  /** loadStateForReleaseStrict: expiry is not looked at. */
  function Stored(row: Option<LeaseRow>): Option<State> { if row.Some? then Some(row.value.state) else None }

  ghost predicate AllAddressed(events: seq<Event>, id: string)
  {
    forall i :: 0 <= i < |events| ==> Addressed(events[i], id)
  }

  ghost predicate AllValid(events: seq<Event>, p: Policy)
  {
    forall i :: 0 <= i < |events| ==> ValidEvent(events[i], p)
  }

  ghost function RunLeases(events: seq<Event>, id: string): World
    requires AllAddressed(events, id)
  {
    if events == [] then EMPTY_WORLD
    else Next(RunLeases(events[..|events| - 1], id), events[|events| - 1])
  }

  /** Cleanup removes exactly the row that would not be loaded at its clock. */
  lemma CleanupExact(w: World, clock: int)
    ensures var next := Next(w, Cleanup(clock));
            && next.row == (if LoadRow(w.row, clock).Some? then w.row else None)
            && next.ledger == w.ledger
  {
  }

  // ------------------------------------------------------ no false corruption

  ghost predicate WrittenRow(row: Option<LeaseRow>, id: string)
  {
    row.Some? ==> WrittenLeases(row.value.state, id)
  }

  /** What an event may be refused for, on a row strict writers wrote. */
  ghost predicate Uncorrupt(w: World, e: Event)
    requires e.Acquire? ==> e.request.Valid()
  {
    match e
    case Acquire(r, d) =>
      (match AcquireStep(LoadRow(w.row, r.request.now), r, d)
       case LeaseFail(error) => error == ErrOverflow || error == ErrLeaseNotOwned
       case _ => true)
    case Release(l, d) =>
      (match ReleaseStep(Stored(w.row), l, d)
       case ReleaseFail(error) => error == ErrLeaseNotFound || error == ErrLeaseNotOwned
       case _ => true)
    case Cleanup(_) => true
  }

  lemma {:induction false} EventWritten(w: World, e: Event, id: string)
    requires Addressed(e, id) && WrittenRow(w.row, id)
    ensures Uncorrupt(w, e) && WrittenRow(Next(w, e).row, id)
  {
    hide AcquireStep, WrittenLeases, ValidDigest, LatestExpiry;
    match e
    case Acquire(r, d) => AcquireWritten(LoadRow(w.row, r.request.now), r, d);
    case Release(l, d) => if w.row.Some? { ReleaseWritten(w.row.value.state, l, d); }
    case Cleanup(_) =>
  }

  /** Over every run of strict lease events, across limits, durations, revisions and clock rollback, no acquisition
      and no release calls the row corrupt. */
  lemma {:induction false} NoFalseLeaseCorruption(events: seq<Event>, id: string, e: Event)
    requires AllAddressed(events, id) && Addressed(e, id)
    ensures WrittenRow(RunLeases(events, id).row, id)
    ensures Uncorrupt(RunLeases(events, id), e)
  {
    hide Next, WrittenRow, Uncorrupt, Addressed;
    NothingWritten(id);
    if events != [] {
      var before, last := events[..|events| - 1], events[|events| - 1];
      NoFalseLeaseCorruption(before, id, last);
      EventWritten(RunLeases(before, id), last, id);
    }
    EventWritten(RunLeases(events, id), e, id);
  }

  lemma NothingWritten(id: string)
    ensures WrittenRow(EMPTY_WORLD.row, id)
  {
  }

  // ------------------------------------------------------------------- safety

  /** The row is well written, within the limit, and no later than the clocks. */
  ghost predicate RowInv(row: Option<LeaseRow>, high: int, p: Policy)
  {
    row.Some? ==>
      && GoodRow(row.value, p) && TotalCost(row.value.state.leases) <= p.Limit()
      && row.value.state.observed <= Max(high, 0)
  }

  /** Every granted lease that no clock has passed is still in the row. */
  ghost predicate LedgerInv(w: World)
  {
    && Unsigned(w.ledger)
    && forall k :: k in w.ledger && w.ledger[k].expires > Max(w.high, 0) ==>
         w.row.Some? && k in w.row.value.state.leases && w.row.value.state.leases[k] == w.ledger[k]
  }

  ghost predicate Inv(w: World, p: Policy) { RowInv(w.row, w.high, p) && LedgerInv(w) }

  /** The leases an acquisition leaves: those held, and the granted one. */
  lemma {:induction false} AcquireShape(current: Option<State>, r: LeaseRequest, d: string)
    requires r.Valid()
    ensures var s := if current.Some? then current.value else NewLeaseState(r.request.policy);
            var now := Max(r.request.now, s.observed);
            var held := Held(s.leases, now);
            match AcquireStep(current, r, d)
            case LeaseFail(_) => true
            case Exhausted(next, _) =>
              next.observed == now && next.leases == held &&
                (Plain(s, r.request.policy) ==> Plain(next, r.request.policy))
            case Granted(next, l, _) =>
              && (Plain(s, r.request.policy) ==> Plain(next, r.request.policy))
              && next.observed == now && next.leases == held[d := LeaseRecord(l.cost, l.expiresAt)]
              && (d in held ==> next.leases == held)
              && (d !in held ==> l.expiresAt == now + r.request.policy.lease && l.cost == r.request.cost
                                 && l.cost <= r.request.policy.Limit() - Min(TotalCost(held), r.request.policy.Limit()))
  {
    hide TotalCost, EarliestExpiry;
  }

  lemma {:induction false} AcquireInv(w: World, r: LeaseRequest, d: string, p: Policy)
    requires p.Valid() && p.algorithm == Concurrency && Inv(w, p) && ValidEvent(Acquire(r, d), p)
    ensures Inv(Next(w, Acquire(r, d)), p)
  {
    hide RowInv, LedgerInv;
    AcquireRow(w, r, d, p);
    AcquireLedger(w, r, d, p);
  }

  lemma {:induction false} AcquireRow(w: World, r: LeaseRequest, d: string, p: Policy)
    requires p.Valid() && p.algorithm == Concurrency && Inv(w, p) && ValidEvent(Acquire(r, d), p)
    ensures var next := Next(w, Acquire(r, d)); RowInv(next.row, next.high, p)
  {
    hide AcquireStep, TotalCost, ValidDigest, ValidIdentifier, StateTTL, ConcurrencyOk, LedgerInv;
    var loaded := LoadRow(w.row, r.request.now);
    var s := if loaded.Some? then loaded.value else NewLeaseState(p);
    var held := Held(s.leases, Max(r.request.now, s.observed));
    AcquireWritten(loaded, r, d);
    AcquireShape(loaded, r, d);
    LeaseTTLCovers(p);
    NothingHeld(s.leases);
    RowUnsigned(loaded, p);
    TotalWithin(held, s.leases);
    var a := AcquireStep(loaded, r, d);
    if a.Granted? && d !in held { TotalWith(held, d, LeaseRecord(a.lease.cost, a.lease.expiresAt)); }
  }

  lemma {:induction false} AcquireLedger(w: World, r: LeaseRequest, d: string, p: Policy)
    requires p.Valid() && p.algorithm == Concurrency && Inv(w, p) && ValidEvent(Acquire(r, d), p)
    ensures LedgerInv(Next(w, Acquire(r, d)))
  {
    hide AcquireStep, TotalCost, ValidDigest, ValidIdentifier, StateTTL, ConcurrencyOk;
    var loaded := LoadRow(w.row, r.request.now);
    AcquireAnswers(loaded, r, d);
    AcquireShape(loaded, r, d);
  }

  lemma RowUnsigned(loaded: Option<State>, p: Policy)
    requires loaded.Some? ==> ConcurrencyOk(loaded.value, p.id)
    ensures Unsigned(if loaded.Some? then loaded.value.leases else map[])
  {
  }

  lemma {:induction false} ReleaseInv(w: World, l: Lease, d: string, p: Policy)
    requires p.Valid() && Inv(w, p) && ValidEvent(Release(l, d), p)
    ensures Inv(Next(w, Release(l, d)), p)
  {
    hide TotalCost, ValidDigest, ValidIdentifier, LatestExpiry;
    if w.row.Some? {
      var s := w.row.value.state;
      ReleaseWritten(s, l, d);
      if d in s.leases {
        TotalWithin(s.leases - {d}, s.leases);
        var left := s.leases - {d};
        if left != map[] {
          var k :| k in left;
          assert left[k].expires > s.observed;
        }
      }
    }
  }

  lemma {:induction false} RunInv(events: seq<Event>, p: Policy)
    requires p.Valid() && p.algorithm == Concurrency
    requires AllValid(events, p)
    ensures Inv(RunLeases(events, p.id), p)
  {
    hide Next;
    if events != [] {
      var w, e := RunLeases(events[..|events| - 1], p.id), events[|events| - 1];
      RunInv(events[..|events| - 1], p);
      match e
      case Acquire(r, d) => AcquireInv(w, r, d, p);
      case Release(l, d) => ReleaseInv(w, l, d, p);
      case Cleanup(clock) => CleanupInv(w, clock, p);
    }
  }

  lemma CleanupInv(w: World, clock: int, p: Policy)
    requires Inv(w, p)
    ensures Inv(Next(w, Cleanup(clock)), p)
  {
  }

  /** Lease safety: in every run of acquisitions, releases and cleanups with arbitrary clocks, the leases
      granted, not released and not expired on the latest clock seen never cost more than the limit. */
  lemma {:induction false} LeaseSafety(events: seq<Event>, p: Policy, now: int)
    requires p.Valid() && p.algorithm == Concurrency
    requires AllValid(events, p)
    requires now >= RunLeases(events, p.id).high && now >= 0
    ensures TotalCost(Held(RunLeases(events, p.id).ledger, now)) <= p.Limit()
  {
    hide RunLeases, TotalCost;
    RunInv(events, p);
    var w := RunLeases(events, p.id);
    var live := Held(w.ledger, now);
    if w.row.Some? {
      TotalWithin(live, w.row.value.state.leases);
    } else {
      assert live == map[];
      NothingHeld(live);
    }
  }


  // ------------------------------------------------- safety at earlier instants

  /** Until a clock has reached one lease duration nothing has expired: the row holds the whole ledger. */
  ghost predicate Unexpired(w: World, p: Policy)
  {
    w.high < p.lease ==>
      && (w.row.None? ==> w.ledger == map[])
      && (w.row.Some? ==>
            && w.row.value.state.leases == w.ledger && w.row.value.expires >= p.lease
            && w.row.value.state.observed <= Max(w.high, 0)
            && forall k :: k in w.ledger ==> w.ledger[k].expires >= p.lease)
  }

  lemma {:induction false} AcquireUnexpired(w: World, r: LeaseRequest, d: string, p: Policy)
    requires p.Valid() && p.algorithm == Concurrency && ValidEvent(Acquire(r, d), p)
    requires WrittenRow(w.row, p.id) && Unexpired(w, p)
    ensures Unexpired(Next(w, Acquire(r, d)), p)
  {
    hide AcquireStep, ValidDigest, ValidIdentifier, ConcurrencyOk, StateTTL;
    var loaded := LoadRow(w.row, r.request.now);
    var s := if loaded.Some? then loaded.value else NewLeaseState(r.request.policy);
    var now := Max(r.request.now, s.observed);
    AcquireShape(loaded, r, d);
    LeaseTTLCovers(r.request.policy);
    if Next(w, Acquire(r, d)).high < p.lease {
      assert s.leases == w.ledger;
      assert Held(s.leases, now) == s.leases;
    }
  }

  lemma {:induction false} OtherUnexpired(w: World, e: Event, p: Policy)
    requires !e.Acquire? && ValidEvent(e, p) && Unexpired(w, p)
    ensures Unexpired(Next(w, e), p)
  {
    hide ConcurrencyOk, LatestExpiry;
    if e.Release? && w.row.Some? {
      var left := w.row.value.state.leases - {e.digest};
      if left != map[] {
        var k :| k in left;
        assert LatestExpiry(left) >= left[k].expires;
      }
    }
  }

  lemma {:induction false} RunUnexpired(events: seq<Event>, p: Policy)
    requires p.Valid() && p.algorithm == Concurrency && AllValid(events, p)
    ensures Unexpired(RunLeases(events, p.id), p)
  {
    hide Next, Addressed;
    if events != [] {
      var before, e := events[..|events| - 1], events[|events| - 1];
      var w := RunLeases(before, p.id);
      RunUnexpired(before, p);
      if e.Acquire? {
        NoFalseLeaseCorruption(before, p.id, e);
        AcquireUnexpired(w, e.request, e.digest, p);
      } else {
        OtherUnexpired(w, e, p);
      }
    }
  }

  /** Every run whose latest clock is `high` holds at most the limit at `now`. */
  ghost predicate SafeAt(p: Policy, now: int, high: int)
  {
    forall events ::
      AllValid(events, p) && RunLeases(events, p.id).high == high ==>
        TotalCost(Held(RunLeases(events, p.id).ledger, now)) <= p.Limit()
  }

  /** Before any lease can have expired, the limit holds at every instant. */
  lemma {:induction false} EarlySafety(events: seq<Event>, p: Policy, now: int)
    requires p.Valid() && p.algorithm == Concurrency && AllValid(events, p) && RunLeases(events, p.id).high < p.lease
    ensures TotalCost(Held(RunLeases(events, p.id).ledger, now)) <= p.Limit()
  {
    hide RunLeases, TotalCost, GoodRow;
    RunInv(events, p);
    RunUnexpired(events, p);
    var w := RunLeases(events, p.id);
    TotalWithin(Held(w.ledger, now), w.ledger);
    NothingHeld(w.ledger);
  }

  /** The clock goes with the row: an acquisition, one after it has expired, the release of that one, and one more
      acquisition at an earlier instant. */
  ghost function Rollback(
    a: LeaseRequest, da: string, b: LeaseRequest, db: string, c: LeaseRequest, dc: string): seq<Event>
  {
    [Acquire(a, da), Acquire(b, db), Release(MakeLease(b, b.request.now + b.request.policy.lease), db), Acquire(c, dc)]
  }

  /** A grant of the whole limit to a row that holds nothing any more. */
  lemma {:induction false} GrantAll(w: World, r: LeaseRequest, d: string, p: Policy)
    requires ValidEvent(Acquire(r, d), p) && r.request.cost == p.Limit() && 0 <= r.request.now
    requires w.row.Some? ==> WrittenLeases(w.row.value.state, p.id) && w.row.value.state.observed <= r.request.now
                             && Held(w.row.value.state.leases, r.request.now) == map[]
    ensures var next := Next(w, Acquire(r, d));
            var lease := LeaseRecord(p.Limit(), r.request.now + p.lease);
            && next.ledger == w.ledger[d := lease] && next.high == Max(w.high, r.request.now)
            && next.row.Some? && WrittenLeases(next.row.value.state, p.id)
            && next.row.value.state.observed == r.request.now && next.row.value.state.leases == map[d := lease]
  {
    hide ValidIdentifier, ExactProduct, ValidDigest, StateTTL, EarliestExpiry;
    var current := LoadRow(w.row, r.request.now);
    var s := if current.Some? then current.value else NewLeaseState(r.request.policy);
    assert Held(s.leases, r.request.now) == map[];
    NothingHeld(map[]);
    AcquireWritten(current, r, d);
  }

  /** Releasing the only lease takes the row with it. */
  lemma {:induction false} ReleaseLast(w: World, l: Lease, d: string, id: string)
    requires l.policyId == id && w.row.Some? && WrittenLeases(w.row.value.state, id)
    requires w.row.value.state.leases == map[d := LeaseRecord(l.cost, l.expiresAt)]
    ensures Next(w, Release(l, d)) == w.(row := None, ledger := w.ledger - {d})
  {
    assert w.row.value.state.leases - {d} == map[];
  }

  /** Once a release has taken the row and the clock in it, a request at an earlier instant is served there, and at
      that instant two leases of the whole limit are unexpired. */
  lemma {:induction false} ClockLoss(
    p: Policy, a: LeaseRequest, da: string, b: LeaseRequest, db: string, c: LeaseRequest, dc: string)
    requires ValidEvent(Acquire(a, da), p) && ValidEvent(Acquire(b, db), p) && ValidEvent(Acquire(c, dc), p)
    requires a.request.cost == b.request.cost == c.request.cost == p.Limit() && da != db && da != dc && db != dc
    requires 0 <= a.request.now <= c.request.now < b.request.now
    requires c.request.now < a.request.now + p.lease <= b.request.now
    ensures AllValid(Rollback(a, da, b, db, c, dc), p)
    ensures var w := RunLeases(Rollback(a, da, b, db, c, dc), p.id);
            w.high == b.request.now && TotalCost(Held(w.ledger, c.request.now)) == 2 * p.Limit()
  {
    hide Next, TotalCost, ValidDigest, ValidIdentifier, WrittenLeases, ExactProduct;
    var events := Rollback(a, da, b, db, c, dc);
    var e0, e1, e2, e3 := events[0], events[1], events[2], events[3];
    GrantAll(EMPTY_WORLD, a, da, p);
    var w1 := Next(EMPTY_WORLD, e0);
    assert Held(w1.row.value.state.leases, b.request.now) == map[];
    GrantAll(w1, b, db, p);
    var w2 := Next(w1, e1);
    ReleaseLast(w2, e2.lease, db, p.id);
    var w3 := Next(w2, e2);
    GrantAll(w3, c, dc, p);
    var w4 := Next(w3, e3);
    RunFour(e0, e1, e2, e3, p.id);
    var first, second := LeaseRecord(p.Limit(), a.request.now + p.lease),
      LeaseRecord(p.Limit(), c.request.now + p.lease);
    assert w4.ledger == map[da := first][dc := second];
    assert Held(w4.ledger, c.request.now) == map[da := first][dc := second];
    TotalWith(map[], da, first);
    TotalWith(map[da := first], dc, second);
    NothingHeld(map[]);
  }

  lemma {:induction false} RunFour(e0: Event, e1: Event, e2: Event, e3: Event, id: string)
    requires Addressed(e0, id) && Addressed(e1, id) && Addressed(e2, id) && Addressed(e3, id)
    ensures RunLeases([e0, e1, e2, e3], id) == Next(Next(Next(Next(EMPTY_WORLD, e0), e1), e2), e3)
  {
    hide Next;
    assert [e0, e1, e2, e3][..3] == [e0, e1, e2] && [e0, e1, e2][..2] == [e0, e1] && [e0, e1][..1] == [e0];
    assert RunLeases([e0], id) == Next(EMPTY_WORLD, e0);
    assert RunLeases([e0, e1], id) == Next(RunLeases([e0], id), e1);
    assert RunLeases([e0, e1, e2], id) == Next(RunLeases([e0, e1], id), e2);
  }

  function Digest(c: char): (d: string)
    requires HexDigit(c)
    ensures ValidDigest(d) && d[0] == c
  {
    seq(64, i => c)
  }

  /** Whatever is unexpired at an instant is so at every earlier one. */
  lemma {:induction false} HeldEarlier(ledger: LeaseMap, earlier: int, now: int)
    requires Unsigned(ledger) && earlier <= now
    ensures TotalCost(Held(ledger, now)) <= TotalCost(Held(ledger, earlier))
  {
    TotalWithin(Held(ledger, now), Held(ledger, earlier));
  }

  lemma {:induction false} ClockLossRun(p: Policy, now: int, high: int)
    requires p.Valid() && p.algorithm == Concurrency && now < high && p.lease <= high <= MAX_EXACT - p.lease
    ensures !SafeAt(p, now, high)
  {
    hide RunLeases, TotalCost;
    var at := Max(0, now);
    var start := Max(0, at + 1 - p.lease);
    var a, b, c := Whole(p, "a", start), Whole(p, "b", high), Whole(p, "c", at);
    ClockLoss(p, a, Digest('a'), b, Digest('b'), c, Digest('c'));
    var events := Rollback(a, Digest('a'), b, Digest('b'), c, Digest('c'));
    RunInv(events, p);
    HeldEarlier(RunLeases(events, p.id).ledger, now, at);
    assert TotalCost(Held(RunLeases(events, p.id).ledger, now)) > p.Limit();
  }

  /** Lease safety, exactly: with latest clock `high` the limit holds at `now` in every run if and only if that clock
      has not passed `now`, or is still short of one lease duration. */
  lemma {:induction false} LeaseSafetyExact(p: Policy, now: int, high: int)
    requires p.Valid() && p.algorithm == Concurrency && high + p.lease <= MAX_EXACT
    ensures SafeAt(p, now, high) <==> now >= high || high < p.lease
  {
    hide RunLeases, TotalCost;
    if high < p.lease {
      forall events | AllValid(events, p) && RunLeases(events, p.id).high == high
        ensures TotalCost(Held(RunLeases(events, p.id).ledger, now)) <= p.Limit() { EarlySafety(events, p, now); }
    } else if now >= high {
      forall events | AllValid(events, p) && RunLeases(events, p.id).high == high
        ensures TotalCost(Held(RunLeases(events, p.id).ledger, now)) <= p.Limit() { LeaseSafety(events, p, now); }
    } else {
      ClockLossRun(p, now, high);
    }
  }
}
