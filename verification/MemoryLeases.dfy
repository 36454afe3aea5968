// Leases of the in-process store: one key's subject, updated in place, and the
// ledger of everything granted to it.
module MemoryLeases {
  import opened Arithmetic
  import opened Policies
  import opened Windows
  import opened States
  import opened StrictService
  import opened Leases

  /** What acquireLocked reads and writes of a subject. */
  datatype Book = Book(leases: LeaseMap, lastSeen: int)

  datatype Acquisition =
    | Owned(book: Book, lease: Lease, decision: Decision)
    | Full(book: Book, decision: Decision)
    | NotOwner(book: Book)

  function MemoryLease(r: LeaseRequest, expires: int): Lease
  {
    Lease(r.leaseId, r.request.key, r.request.policy.id, r.request.policy.revision, r.request.cost, expires, "memory")
  }

  /** acquireLocked on the subject found or created. */
  ghost function Acquired(b: Book, r: LeaseRequest): Acquisition
  {
    var p, cost, id := r.request.policy, r.request.cost, r.leaseId;
    var now := Max(r.request.now, b.lastSeen);
    var book := Book(Held(b.leases, now), now);
    var remaining := p.Limit() - Min(TotalCost(book.leases), p.Limit());
    if id in book.leases then
      if book.leases[id].cost != cost then NotOwner(book)
      else
        var expires := book.leases[id].expires;
        Owned(book, MemoryLease(r, expires), Decision(true, remaining, p.Limit(), expires, 0, Allowed, "", ""))
    else if cost > remaining then
      var reset := EarliestExpiry(book.leases);
      Full(book, Decision(false, remaining, p.Limit(), reset, Max(SatSub(reset, now), 0), Limited, "", ""))
    else
      var expires := now + p.lease;
      Owned(book.(leases := book.leases[id := LeaseRecord(cost, expires)]), MemoryLease(r, expires),
            Decision(true, remaining - cost, p.Limit(), expires, 0, Allowed, "", ""))
  }

  /** The subject of a key as acquireLocked and releaseLocked change it. */
  class Holder {
    var leases: LeaseMap
    var lastSeen: int

    /** Costs are positive, their sum far from a word, and expiries int64. */
    ghost predicate Valid()
      reads this
    {
      && (forall k :: k in leases ==> 1 <= leases[k].cost && leases[k].expires <= MAX_INT64)
      && TotalCost(leases) <= MAX_EXACT
    }

    ghost function View(): Book
      reads this
    {
      Book(leases, lastSeen)
    }

    constructor (now: int)
      ensures Valid() && View() == Book(map[], now)
    {
      leases, lastSeen := map[], now;
      new;
      NothingHeld(map[]);
    }

    /** The loop that drops expired leases and sums the others, whatever order the map yields them in. */
    method Prune(now: int) returns (used: int)
      requires Valid()
      modifies this`leases
      ensures leases == Held(old(leases), now) && used == TotalCost(leases) && Valid()
    {
      hide Pruning, Held, TotalCost;
      ghost var all := leases;
      PruningEnds(all, now);
      var todo := leases.Keys;
      used := 0;
      NothingHeld(map[]);
      while todo != {}
        invariant todo <= all.Keys && leases == Pruning(all, todo, now)
        invariant used == TotalCost(Held(all - todo, now))
      {
        var k :| k in todo;
        PruningVisits(all, todo, k, now);
        ghost var done := Held(all - todo, now);
        if leases[k].expires <= now {
          leases := leases - {k};
        } else {
          TotalWith(done, k, leases[k]);
          used := used + leases[k].cost;
        }
        todo := todo - {k};
      }
      HeldValid(all, now);
    }

    /** earliestLease: a zero time stands for none seen yet. */
    method EarliestLease() returns (earliest: Option<int>)
      requires Valid()
      ensures EarliestExpiry(leases) == if earliest.Some? then earliest.value else MAX_INT64
      ensures earliest.None? <==> leases == map[]
    {
      hide EarliestExpiry, TotalCost;
      var todo := leases.Keys;
      ghost var done: LeaseMap := map[];
      earliest := None;
      while todo != {}
        invariant todo <= leases.Keys && done == leases - todo
        invariant earliest.Some? ==> earliest.value <= MAX_INT64
        invariant earliest.None? <==> done == map[]
        invariant EarliestExpiry(done) == if earliest.Some? then earliest.value else MAX_INT64
      {
        var k :| k in todo;
        Visits(leases, todo, k);
        EarliestWith(done, k, leases[k]);
        if earliest.None? || leases[k].expires < earliest.value { earliest := Some(leases[k].expires); }
        done := done[k := leases[k]];
        todo := todo - {k};
      }
      assert leases - {} == leases;
    }

    method Acquire(r: LeaseRequest) returns (lease: Lease, decision: Decision, error: Option<Error>)
      requires Valid() && r.Valid() && ClockInRange(Max(r.request.now, lastSeen), r.request.policy.lease)
      modifies this
      ensures Valid()
      ensures match Acquired(old(View()), r)
              case Owned(b, l, d) => View() == b && lease == l && decision == d && error == None
              case Full(b, d) => View() == b && lease == ZERO_LEASE && decision == d && error == Some(ErrRejected)
              case NotOwner(b) => View() == b && error == Some(ErrLeaseNotOwned)
    {
      hide TotalCost, EarliestExpiry, Held;
      var p, cost := r.request.policy, r.request.cost;
      var now := Max(r.request.now, lastSeen);
      lastSeen := now;
      ghost var before := leases;
      var used := Prune(now);
      HeldValid(before, now);
      var remaining := p.Limit() - Min(used, p.Limit());
      if r.leaseId in leases {
        if leases[r.leaseId].cost != cost { return ZERO_LEASE, ZERO_DECISION, Some(ErrLeaseNotOwned); }
        var expires := leases[r.leaseId].expires;
        return MemoryLease(r, expires), Decision(true, remaining, p.Limit(), expires, 0, Allowed, "", ""), None;
      }
      if cost > remaining {
        var reset := EarliestLease();
        NothingHeld(leases);
        var at := if reset.Some? then reset.value else ZERO_TIME;
        return ZERO_LEASE, Decision(false, remaining, p.Limit(), at, Max(SatSub(at, now), 0), Limited, "", ""),
          Some(ErrRejected);
      }
      TotalWith(leases, r.leaseId, LeaseRecord(cost, now + p.lease));
      leases := leases[r.leaseId := LeaseRecord(cost, now + p.lease)];
      return MemoryLease(r, now + p.lease),
             Decision(true, remaining - cost, p.Limit(), now + p.lease, 0, Allowed, "", ""), None;
    }
  }

  lemma {:induction false} HeldValid(m: LeaseMap, now: int)
    requires (forall k :: k in m ==> 1 <= m[k].cost && m[k].expires <= MAX_INT64) && TotalCost(m) <= MAX_EXACT
    ensures (forall k :: k in Held(m, now) ==> 1 <= Held(m, now)[k].cost && Held(m, now)[k].expires <= MAX_INT64)
    ensures 0 <= TotalCost(Held(m, now)) <= TotalCost(m)
  {
    TotalWithin(Held(m, now), m);
  }

  /** Leases are decided as in PostgreSQL, keyed by ID instead of its digest. */
  lemma {:induction false} SameDecision(s: State, r: LeaseRequest)
    requires s.leases == Held(s.leases, s.observed) && r.request.now <= s.observed
    ensures match GrantStep(s, r, r.leaseId)
            case Granted(next, l, d) =>
              Acquired(Book(s.leases, s.observed), r) ==
                Owned(Book(next.leases, s.observed), l.(backend := "memory"), d)
            case Exhausted(next, d) => Acquired(Book(s.leases, s.observed), r) == Full(Book(s.leases, s.observed), d)
            case LeaseFail(e) =>
              e == ErrLeaseNotOwned && Acquired(Book(s.leases, s.observed), r) == NotOwner(Book(s.leases, s.observed))
  {
    hide TotalCost, EarliestExpiry;
  }

  // ------------------------------------------------------------------- runs

  /** One key's life: leases are acquired and released, sweeps trim expired ones, and a sweep or an eviction may
      drop the key at an instant when none is active. Clocks are arbitrary. */
  datatype Event =
    | Acquire(request: LeaseRequest)
    | Release(id: string, lease: LeaseRecord)
    | Trim(clock: int)
    | Drop(clock: int)

  /** The subject, every lease granted and not released, and the latest clock reading acted on. */
  datatype World = World(book: Option<Book>, ledger: LeaseMap, high: int)

  /** Revisions and durations may change; the limit may not. */
  ghost predicate ValidEvent(e: Event, p: Policy)
  {
    e.Acquire? ==> e.request.Valid() && e.request.request.policy.Limit() == p.Limit()
  }

  ghost function Next(w: World, e: Event): World
  {
    match e
    case Acquire(r) =>
      var book := if w.book.Some? then w.book.value else Book(map[], r.request.now);
      (match Acquired(book, r)
       case Owned(b, l, _) => World(Some(b), w.ledger[r.leaseId := LeaseRecord(l.cost, l.expiresAt)],
         Max(w.high, b.lastSeen))
       case Full(b, _) => World(Some(b), w.ledger, Max(w.high, b.lastSeen))
       case NotOwner(b) => World(Some(b), w.ledger, Max(w.high, b.lastSeen)))
    case Release(id, lease) =>
      if w.book.Some? && id in w.book.value.leases && w.book.value.leases[id] == lease then
        w.(book := Some(w.book.value.(leases := w.book.value.leases - {id})), ledger := w.ledger - {id})
      else w
    case Trim(clock) =>
      if w.book.None? then w
      else World(Some(w.book.value.(leases := Held(w.book.value.leases, clock))), w.ledger, Max(w.high, clock))
    case Drop(clock) =>
      if w.book.Some? && Held(w.book.value.leases, clock) == map[] then World(None, w.ledger, Max(w.high, clock)) else w
  }

  ghost function RunBook(events: seq<Event>, start: int): World
  {
    if events == [] then World(None, map[], start)
      else Next(RunBook(events[..|events| - 1], start), events[|events| - 1])
  }

  ghost predicate Within(b: Book, limit: int)
  {
    Unsigned(b.leases) && TotalCost(b.leases) <= limit
  }

  ghost predicate Inv(w: World, limit: int)
  {
    && Unsigned(w.ledger)
    && (w.book.Some? ==> Within(w.book.value, limit) && w.book.value.lastSeen <= w.high)
    && forall k :: k in w.ledger && w.ledger[k].expires > w.high ==>
         w.book.Some? && k in w.book.value.leases && w.book.value.leases[k] == w.ledger[k]
  }

  /** An acquisition leaves what is held, plus at most what the limit has room for. */
  lemma {:induction false} AcquiredWithin(b: Book, r: LeaseRequest)
    requires r.Valid() && Within(b, r.request.policy.Limit())
    ensures var now := Max(r.request.now, b.lastSeen);
            var held := Held(b.leases, now);
            match Acquired(b, r)
            case Owned(next, l, _) =>
              && Within(next, r.request.policy.Limit()) && next.lastSeen == now && 0 <= l.cost
              && next.leases == held[r.leaseId := LeaseRecord(l.cost, l.expiresAt)]
            case Full(next, _) => Within(next, r.request.policy.Limit()) && next == Book(held, now)
            case NotOwner(next) => Within(next, r.request.policy.Limit()) && next == Book(held, now)
  {
    hide TotalCost, EarliestExpiry;
    var now := Max(r.request.now, b.lastSeen);
    var held := Held(b.leases, now);
    TotalWithin(held, b.leases);
    if r.leaseId !in held {
      TotalWith(held, r.leaseId, LeaseRecord(r.request.cost, now + r.request.policy.lease));
    } else {
      assert held[r.leaseId := held[r.leaseId]] == held;
    }
  }

  lemma {:induction false} AcquireInv(w: World, r: LeaseRequest, p: Policy)
    requires Inv(w, p.Limit()) && ValidEvent(Acquire(r), p)
    ensures Inv(Next(w, Acquire(r)), p.Limit())
  {
    hide Acquired, TotalCost;
    NothingHeld(map[]);
    AcquiredWithin(if w.book.Some? then w.book.value else Book(map[], r.request.now), r);
  }

  lemma {:induction false} OtherInv(w: World, e: Event, p: Policy)
    requires Inv(w, p.Limit()) && !e.Acquire?
    ensures Inv(Next(w, e), p.Limit())
  {
    hide TotalCost;
    if w.book.Some? {
      var leases := w.book.value.leases;
      match e {
        case Release(id, _) => TotalWithin(leases - {id}, leases);
        case Trim(clock) => TotalWithin(Held(leases, clock), leases);
        case Drop(clock) => DroppedExpired(leases, clock);
      }
    }
  }

  lemma DroppedExpired(leases: LeaseMap, clock: int)
    ensures Held(leases, clock) == map[] ==> forall k :: k in leases ==> leases[k].expires <= clock
  {
    if Held(leases, clock) == map[] {
      forall k | k in leases ensures leases[k].expires <= clock { assert k !in Held(leases, clock); }
    }
  }

  lemma {:induction false} RunInv(events: seq<Event>, p: Policy, start: int)
    requires p.Valid() && forall i :: 0 <= i < |events| ==> ValidEvent(events[i], p)
    ensures Inv(RunBook(events, start), p.Limit())
  {
    hide Next;
    if events != [] {
      var w, e := RunBook(events[..|events| - 1], start), events[|events| - 1];
      RunInv(events[..|events| - 1], p, start);
      if e.Acquire? { AcquireInv(w, e.request, p); } else { OtherInv(w, e, p); }
    }
  }

  /** Lease safety in memory: whatever is swept, evicted or re-created, the leases granted, not released and not
      expired on the latest clock seen never cost more than the limit. */
  lemma {:induction false} MemoryLeaseSafety(events: seq<Event>, p: Policy, start: int, now: int)
    requires p.Valid() && forall i :: 0 <= i < |events| ==> ValidEvent(events[i], p)
    requires now >= RunBook(events, start).high
    ensures TotalCost(Held(RunBook(events, start).ledger, now)) <= p.Limit()
  {
    hide RunBook, TotalCost;
    RunInv(events, p, start);
    var w := RunBook(events, start);
    var live := Held(w.ledger, now);
    if w.book.Some? {
      TotalWithin(live, w.book.value.leases);
    } else {
      assert live == map[];
      NothingHeld(live);
    }
  }

  // ------------------------------------------------- safety at earlier instants

  /** Events under the limit and the lease duration of p. */
  ghost predicate AllTimed(events: seq<Event>, p: Policy)
  {
    forall i :: 0 <= i < |events| ==>
      ValidEvent(events[i], p) && (events[i].Acquire? ==> events[i].request.request.policy.lease == p.lease)
  }

  /** One key's life from the earliest clock a request can carry. */
  ghost function Lifetime(events: seq<Event>): World { RunBook(events, -MAX_EXACT) }

  /** Every life whose latest clock is `high` holds at most the limit at `now`. */
  ghost predicate SafeAt(p: Policy, now: int, high: int)
  {
    forall events ::
      AllTimed(events, p) && Lifetime(events).high == high ==>
        TotalCost(Held(Lifetime(events).ledger, now)) <= p.Limit()
  }

  /** No lease is granted before the earliest clock. */
  ghost predicate Dated(w: World, p: Policy)
  {
    && (forall k :: k in w.ledger ==> w.ledger[k].expires >= p.lease - MAX_EXACT)
    && (w.book.Some? ==> forall k :: k in w.book.value.leases ==> w.book.value.leases[k].expires >= p.lease - MAX_EXACT)
  }

  lemma {:induction false} DatedStep(w: World, e: Event, p: Policy)
    requires Dated(w, p) && AllTimed([e], p)
    ensures Dated(Next(w, e), p)
  {
    hide TotalCost, EarliestExpiry, ValidIdentifier;
    assert [e][0] == e;
  }

  lemma {:induction false} DatedRun(events: seq<Event>, p: Policy)
    requires AllTimed(events, p)
    ensures Dated(Lifetime(events), p)
  {
    hide Next;
    if events != [] {
      DatedRun(events[..|events| - 1], p);
      DatedStep(Lifetime(events[..|events| - 1]), events[|events| - 1], p);
    }
  }

  /** Before any lease can have expired, the limit holds at every instant. */
  lemma {:induction false} MemoryEarlySafety(events: seq<Event>, p: Policy, now: int)
    requires p.Valid() && AllTimed(events, p) && Lifetime(events).high < p.lease - MAX_EXACT
    ensures TotalCost(Held(Lifetime(events).ledger, now)) <= p.Limit()
  {
    hide RunBook, TotalCost;
    RunInv(events, p, -MAX_EXACT);
    DatedRun(events, p);
    var w := Lifetime(events);
    var live := Held(w.ledger, now);
    if w.book.Some? {
      TotalWithin(live, w.book.value.leases);
    } else {
      assert live == map[];
      NothingHeld(live);
    }
  }

  /** A sweep at a later clock forgets a lease and leaves the subject's own clock where it was. */
  ghost function SweptLife(p: Policy, at: int, clock: int): seq<Event>
    requires p.Limit() <= MAX_EXACT
  {
    [Acquire(Whole(p, "a", at)), Trim(clock), Acquire(Whole(p, "b", at))]
  }

  lemma {:induction false} GrantAll(w: World, r: LeaseRequest, p: Policy)
    requires r.Valid() && r.request.cost == p.Limit() == r.request.policy.Limit()
    requires w.book.Some? ==> w.book.value == Book(map[], r.request.now)
    ensures var lease := LeaseRecord(p.Limit(), r.request.now + r.request.policy.lease);
            Next(w, Acquire(r)) ==
              World(Some(Book(map[r.leaseId := lease], r.request.now)), w.ledger[r.leaseId := lease],
                    Max(w.high, r.request.now))
  {
    hide EarliestExpiry, ValidIdentifier;
    assert Held(map[], r.request.now) == map[];
    NothingHeld(map[]);
  }

  /** The same whole limit is granted twice at one instant. */
  lemma {:induction false} SweptTwice(p: Policy, at: int, clock: int)
    requires p.Valid() && p.algorithm == Concurrency && ClockInRange(at, p.lease) && at + p.lease <= clock
    ensures AllTimed(SweptLife(p, at, clock), p)
    ensures var w := Lifetime(SweptLife(p, at, clock));
            var lease := LeaseRecord(p.Limit(), at + p.lease);
            w.high == clock && w.ledger == map["a" := lease, "b" := lease]
  {
    hide Next, ValidIdentifier, TotalCost;
    var lease := LeaseRecord(p.Limit(), at + p.lease);
    var events := SweptLife(p, at, clock);
    var w0 := World(None, map[], -MAX_EXACT);
    GrantAll(w0, events[0].request, p);
    var w1 := Next(w0, events[0]);
    Swept(w1, clock);
    var w2 := Next(w1, events[1]);
    GrantAll(w2, events[2].request, p);
    RunThree(events[0], events[1], events[2]);
  }

  lemma Swept(w: World, clock: int)
    requires w.book.Some? && forall k :: k in w.book.value.leases ==> w.book.value.leases[k].expires <= clock
    ensures Next(w, Trim(clock)) == World(Some(Book(map[], w.book.value.lastSeen)), w.ledger, Max(w.high, clock))
  {
    assert Held(w.book.value.leases, clock) == map[];
  }

  lemma {:induction false} RunThree(e0: Event, e1: Event, e2: Event)
    ensures Lifetime([e0, e1, e2]) == Next(Next(Next(World(None, map[], -MAX_EXACT), e0), e1), e2)
  {
    hide Next;
    assert [e0, e1, e2][..2] == [e0, e1] && [e0, e1][..1] == [e0] && [e0][..0] == [];
    assert Lifetime([e0]) == Next(Lifetime([]), e0);
    assert Lifetime([e0, e1]) == Next(Lifetime([e0]), e1);
  }

  lemma {:induction false} SweptUnsafe(p: Policy, now: int, high: int)
    requires p.Valid() && p.algorithm == Concurrency && now < MAX_EXACT && now < high && p.lease - MAX_EXACT <= high
    ensures !SafeAt(p, now, high)
  {
    hide RunBook, TotalCost;
    var at := Max(-MAX_EXACT, now + 1 - p.lease);
    SweptTwice(p, at, high);
    var lease := LeaseRecord(p.Limit(), at + p.lease);
    var ledger := Lifetime(SweptLife(p, at, high)).ledger;
    assert Held(ledger, now) == map["a" := lease]["b" := lease];
    TotalWith(map[], "a", lease);
    TotalWith(map["a" := lease], "b", lease);
    NothingHeld(map[]);
  }

  /** Lease safety in memory, exactly: at an instant a request can still be made at, the limit holds in every life with
      latest clock `high` if and only if that clock has not passed the instant, or no lease can have expired by it. */
  lemma {:induction false} MemoryLeaseSafetyExact(p: Policy, now: int, high: int)
    requires p.Valid() && p.algorithm == Concurrency && now < MAX_EXACT
    ensures SafeAt(p, now, high) <==> now >= high || high < p.lease - MAX_EXACT
  {
    hide RunBook, TotalCost;
    if high < p.lease - MAX_EXACT {
      forall events | AllTimed(events, p) && Lifetime(events).high == high
        ensures TotalCost(Held(Lifetime(events).ledger, now)) <= p.Limit() { MemoryEarlySafety(events, p, now); }
    } else if now >= high {
      forall events | AllTimed(events, p) && Lifetime(events).high == high
        ensures TotalCost(Held(Lifetime(events).ledger, now)) <= p.Limit()
      {
        MemoryLeaseSafety(events, p, -MAX_EXACT, now);
      }
    } else {
      SweptUnsafe(p, now, high);
    }
  }
}
