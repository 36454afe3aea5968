// The strict Lua lease scripts on one hash, and where they answer as PostgreSQL
// does. Every number they form is an exact integer.
module ValkeyLeases {
  import opened Arithmetic
  import opened Policies
  import opened States
  import opened StrictService
  import opened Leases

  /** The five fixed fields and the l:<digest> fields. */
  datatype LeaseHash = LeaseHash(
    schema: int, policyId: string, algorithm: Algorithm, revision: string, last: int, leases: LeaseMap)

  datatype LeaseReply =
    | Holding(hash: LeaseHash, remaining: int, limit: int, expires: int, now: int)
    | Exceeded(hash: LeaseHash, remaining: int, limit: int, reset: int, retry: int, now: int)
    | NotOwned(hash: LeaseHash)
    | Refused(error: Error)

  predicate FieldOk(k: string, l: LeaseRecord)
  {
    ValidDigest(k) && 1 <= l.cost <= MAX_CONCURRENCY_LEASES && ValidPersistedMicros(l.expires)
  }

  ghost predicate FieldsOk(m: LeaseMap, now: int)
  {
    (forall k :: k in m ==> FieldOk(k, m[k])) && TotalCost(Held(m, now)) <= MAX_CONCURRENCY_LEASES
  }

  /** `earliest` as the script keeps it: zero stands for none seen yet. */
  ghost function LuaEarliest(m: LeaseMap): int { if m == map[] then 0 else EarliestExpiry(m) }

  /** The scan over lease fields, in any order: it accepts exactly well-formed leases within 1024, and yields the live
      total, the earliest live expiry and the live leases. The zero sentinel is sound on nonnegative clocks. */
  method ScanLeases(leases: LeaseMap, now: int) returns (ok: bool, used: int, earliest: int, live: LeaseMap)
    requires 0 <= now
    ensures ok <==> FieldsOk(leases, now)
    ensures ok ==> live == Held(leases, now) && used == TotalCost(live) && earliest == LuaEarliest(live)
  {
    hide Pruning, Held, TotalCost, EarliestExpiry;
    ok, used, earliest, live := false, 0, 0, leases;
    PruningEnds(leases, now);
    NothingHeld(map[]);
    var todo := leases.Keys;
    while todo != {}
      invariant todo <= leases.Keys && live == Pruning(leases, todo, now)
      invariant forall k :: k in leases && k !in todo ==> FieldOk(k, leases[k])
      invariant used == TotalCost(Held(leases - todo, now)) && 0 <= used <= MAX_CONCURRENCY_LEASES
      invariant earliest == LuaEarliest(Held(leases - todo, now))
      invariant Held(leases - todo, now) != map[] ==> earliest > 0
      decreases |todo|
    {
      var k :| k in todo;
      PruningVisits(leases, todo, k, now);
      var lease := leases[k];
      ghost var done := Held(leases - todo, now);
      if !FieldOk(k, lease) { return; }
      todo := todo - {k};
      if lease.expires <= now {
        live := live - {k};
      } else {
        TotalWith(done, k, lease);
        EarliestWith(done, k, lease);
        if lease.cost > MAX_CONCURRENCY_LEASES - used {
          Crowded(leases, todo, now);
          return;
        }
        used := used + lease.cost;
        if earliest == 0 || lease.expires < earliest { earliest := lease.expires; }
      }
    }
    ok := true;
  }

  /** Leases already over the bound refuse the whole hash. */
  lemma {:induction false} Crowded(leases: LeaseMap, todo: set<string>, now: int)
    requires TotalCost(Held(leases - todo, now)) > MAX_CONCURRENCY_LEASES
    ensures !FieldsOk(leases, now)
  {
    if forall k :: k in leases ==> FieldOk(k, leases[k]) { VisitedWithin(leases, todo, now); }
  }

  /** The strict acquire script. */
  ghost function LuaAcquire(current: Option<LeaseHash>, r: LeaseRequest, digest: string): LeaseReply
  {
    var p := r.request.policy;
    if !ClockInRange(r.request.now, p.lease) || p.lease > MAX_EXACT then Refused(ErrOverflow)
    else
      var h := if current.Some? then current.value
               else LeaseHash(STATE_SCHEMA, p.id, Concurrency, p.revision, r.request.now, map[]);
      var now := Max(r.request.now, h.last);
      if h.schema != STATE_SCHEMA || h.policyId != p.id || h.algorithm != Concurrency then Refused(ErrCorrupt)
      else if !ValidPersistedMicros(h.last) then Refused(ErrCorrupt)
      else if now > MAX_EXACT - p.lease then Refused(ErrOverflow)
      else if !FieldsOk(h.leases, now) then Refused(ErrCorrupt)
      else Decide(h.(last := now, revision := p.revision, leases := Held(h.leases, now)), r, digest)
  }

  /** The script past its scan. A lease of another cost is refused after the pruning has been written. */
  ghost function Decide(h: LeaseHash, r: LeaseRequest, digest: string): LeaseReply
  {
    var limit, cost, used := r.request.policy.Limit(), r.request.cost, TotalCost(h.leases);
    if digest in h.leases then
      if h.leases[digest].cost != cost then NotOwned(h)
      else Holding(h, limit - Min(used, limit), limit, h.leases[digest].expires, h.last)
    else
      var remaining := Max(0, limit - used);
      if cost > remaining then
        var earliest := LuaEarliest(h.leases);
        Exceeded(h, remaining, limit, earliest, Max(0, earliest - h.last), h.last)
      else
        var expires := h.last + r.request.policy.lease;
        Holding(h.(leases := h.leases[digest := LeaseRecord(cost, expires)]), remaining - cost, limit, expires, h.last)
  }

  ghost predicate SameLeases(h: LeaseHash, s: State)
  {
    && h.schema == s.schema && h.policyId == s.policyId && h.algorithm == s.algorithm && h.revision == s.revision
    && h.last == s.observed && h.leases == s.leases
  }

  ghost predicate SameHolder(current: Option<LeaseHash>, row: Option<State>)
  {
    match (current, row)
    case (None, None) => true
    case (Some(h), Some(s)) => SameLeases(h, s)
    case _ => false
  }

  /** An answer of the script and one of PostgreSQL, with the same numbers and the same leases kept. Only a refusal as
      not owned differs: the script has already pruned, PostgreSQL rolls back. */
  ghost predicate SameOutcome(reply: LeaseReply, result: LeaseResult)
  {
    match result
    case Granted(next, l, d) =>
      && reply.Holding? && SameLeases(reply.hash, next) && reply.now == next.observed
      && reply.expires == l.expiresAt == d.reset && reply.remaining == d.remaining && reply.limit == d.limit
    case Exhausted(next, d) =>
      && reply.Exceeded? && SameLeases(reply.hash, next) && reply.now == next.observed
      && reply.reset == d.reset && reply.retry == d.retryAfter
      && reply.remaining == d.remaining && reply.limit == d.limit
    case LeaseFail(e) => if e == ErrLeaseNotOwned then reply.NotOwned? else reply == Refused(e)
  }

  lemma {:induction false} DecideAgrees(h: LeaseHash, s: State, r: LeaseRequest, digest: string)
    requires r.Valid() && SameLeases(h, s) && 0 <= s.observed && Unsigned(s.leases)
    requires forall k :: k in s.leases ==> s.observed < s.leases[k].expires <= MAX_EXACT
    ensures SameOutcome(Decide(h, r, digest), GrantStep(s, r, digest))
  {
    hide TotalCost, EarliestExpiry, ValidIdentifier, ExactProduct;
    NothingHeld(s.leases);
    TotalWithin(s.leases, s.leases);
    WaitFits(s.leases, s.observed);
  }

  /** On nonnegative clocks the acquire script answers as PostgreSQL does and keeps the same leases. */
  lemma {:induction false} LuaAcquireAgrees(
    current: Option<LeaseHash>, row: Option<State>, r: LeaseRequest, digest: string)
    requires r.Valid() && 0 <= r.request.now && SameHolder(current, row)
    requires row.Some? ==> WrittenLeases(row.value, r.request.policy.id)
    ensures SameOutcome(LuaAcquire(current, r, digest), AcquireStep(row, r, digest))
  {
    hide TotalCost, EarliestExpiry, ValidIdentifier, ExactProduct, Decide, GrantStep;
    var p := r.request.policy;
    var s := if row.Some? then row.value else NewLeaseState(p);
    var now := Max(r.request.now, s.observed);
    var held := Held(s.leases, now);
    TotalWithin(held, s.leases);
    NothingHeld(s.leases);
    if ClockInRange(now, p.lease) {
      var h := LeaseHash(STATE_SCHEMA, p.id, Concurrency, p.revision, now, held);
      DecideAgrees(h, s.(revision := p.revision, observed := now, leases := held), r, digest);
    }
  }

  /** The earliest expiry of leases in range is one of them, and no wait until it saturates. */
  lemma {:induction false} WaitFits(held: LeaseMap, now: int)
    requires 0 <= now && forall k :: k in held ==> now < held[k].expires <= MAX_EXACT
    ensures held != map[] ==>
              now < EarliestExpiry(held) <= MAX_EXACT && SatSub(EarliestExpiry(held), now) == EarliestExpiry(held) - now
  {
    hide EarliestExpiry;
    if held != map[] {
      var k :| k in held;
      assert EarliestExpiry(held) <= held[k].expires;
    }
  }

  datatype Releasing = Gone | Left(hash: LeaseHash) | Kept(error: Error)

  /** The strict release script: the hash goes with its last lease field. */
  ghost function LuaRelease(current: Option<LeaseHash>, l: Lease, digest: string): Releasing
  {
    if current.None? then Kept(ErrLeaseNotFound)
    else
      var h := current.value;
      if h.schema != STATE_SCHEMA || h.policyId != l.policyId || h.algorithm != Concurrency
         || !ValidPersistedMicros(h.last) || !ValidLeases(h.leases) then Kept(ErrCorrupt)
      else if digest !in h.leases then Kept(ErrLeaseNotFound)
      else if h.leases[digest] != LeaseRecord(l.cost, l.expiresAt) then Kept(ErrLeaseNotOwned)
      else if h.leases - {digest} == map[] then Gone
      else Left(h.(leases := h.leases - {digest}))
  }

  /** Releasing agrees on every hash and row that hold the same leases, well written or not. */
  lemma LuaReleaseAgrees(current: Option<LeaseHash>, row: Option<State>, l: Lease, digest: string)
    requires SameHolder(current, row)
    ensures match ReleaseStep(row, l, digest)
            case ReleaseFail(e) => LuaRelease(current, l, digest) == Kept(e)
            case Released(next) =>
              var reply := LuaRelease(current, l, digest);
              if next.leases == map[] then reply == Gone else reply.Left? && SameLeases(reply.hash, next)
  {
  }
}
