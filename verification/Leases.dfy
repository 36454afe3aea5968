// Concurrency leases on values: acquiring, releasing and the sums they rest on.
module Leases {
  import opened Arithmetic
  import opened Policies
  import opened Windows
  import opened States
  import opened StrictService

  type LeaseMap = map<string, LeaseRecord>

  // ------------------------------------------------------------------- sums

  ghost function TotalCost(m: LeaseMap): int
    decreases |m|
  {
    if m == map[] then 0
    else
      var k :| k in m;
      m[k].cost + TotalCost(m - {k})
  }

  /** The order leases are visited in does not matter. */
  lemma {:induction false} TotalWithout(m: LeaseMap, k: string)
    requires k in m
    ensures TotalCost(m) == m[k].cost + TotalCost(m - {k})
    decreases |m|
  {
    var c :| c in m && TotalCost(m) == m[c].cost + TotalCost(m - {c});
    if c != k {
      TotalWithout(m - {c}, k);
      TotalWithout(m - {k}, c);
      assert m - {c} - {k} == m - {k} - {c};
    }
  }

  lemma {:induction false} TotalWith(m: LeaseMap, k: string, l: LeaseRecord)
    requires k !in m
    ensures TotalCost(m[k := l]) == TotalCost(m) + l.cost
  {
    TotalWithout(m[k := l], k);
    assert m[k := l] - {k} == m;
  }

  ghost predicate Unsigned(m: LeaseMap) { forall k :: k in m ==> m[k].cost >= 0 }

  /** A submap costs no more. */
  lemma {:induction false} TotalWithin(part: LeaseMap, m: LeaseMap)
    requires Unsigned(m) && forall k :: k in part ==> k in m && part[k] == m[k]
    ensures 0 <= TotalCost(part) <= TotalCost(m)
    decreases |m|
  {
    if m != map[] {
      var k :| k in m;
      TotalWithout(m, k);
      if k in part { TotalWithout(part, k); } else { assert part - {k} == part; }
      TotalWithin(part - {k}, m - {k});
    } else {
      assert part == map[];
    }
  }

  lemma {:induction false} MemberWithin(m: LeaseMap, k: string)
    requires Unsigned(m) && k in m
    ensures m[k].cost <= TotalCost(m)
  {
    TotalWithout(m, k);
    TotalWithin(m - {k}, m - {k});
  }

  /** Least expiry, or the int64 maximum when nothing is held. */
  ghost function EarliestExpiry(m: LeaseMap): (e: int)
    ensures m == map[] ==> e == MAX_INT64
    ensures forall k :: k in m ==> e <= m[k].expires
    ensures e == MAX_INT64 || exists k :: k in m && m[k].expires == e
    decreases |m|
  {
    if m == map[] then MAX_INT64
    else
      var k :| k in m;
      var rest := EarliestExpiry(m - {k});
      assert forall j :: j in m ==> j == k || j in m - {k};
      Min(rest, m[k].expires)
  }

  lemma {:induction false} EarliestWith(m: LeaseMap, k: string, l: LeaseRecord)
    requires k !in m && l.expires <= MAX_INT64
    ensures EarliestExpiry(m[k := l]) == Min(EarliestExpiry(m), l.expires)
  {
    hide EarliestExpiry;
    var next := m[k := l];
    assert next[k].expires == l.expires;
    forall j | j in m ensures EarliestExpiry(next) <= m[j].expires { assert next[j] == m[j]; }
  }

  /** The leases still held at an instant. */
  ghost function Held(m: LeaseMap, now: int): LeaseMap
  {
    map k | k in m && m[k].expires > now :: m[k]
  }

  /** What is left of the map while a loop prunes it: leases not yet visited and leases held. */
  ghost function Pruning(all: LeaseMap, todo: set<string>, now: int): LeaseMap
  {
    map k | k in all && (k in todo || all[k].expires > now) :: all[k]
  }

  lemma PruningEnds(all: LeaseMap, now: int)
    ensures Pruning(all, all.Keys, now) == all && Held(all - all.Keys, now) == map[]
    ensures Pruning(all, {}, now) == Held(all, now) == Held(all - {}, now)
  {
  }

  /** Visiting one more lease, in any order. */
  lemma PruningVisits(all: LeaseMap, todo: set<string>, k: string, now: int)
    requires k in todo && todo <= all.Keys
    ensures k in Pruning(all, todo, now) && Pruning(all, todo, now)[k] == all[k] && k !in Held(all - todo, now)
    ensures all[k].expires > now ==>
              && Held(all - (todo - {k}), now) == Held(all - todo, now)[k := all[k]]
              && Pruning(all, todo - {k}, now) == Pruning(all, todo, now)
              && k in Held(all, now) && Held(all, now)[k] == all[k]
    ensures all[k].expires <= now ==>
              && Held(all - (todo - {k}), now) == Held(all - todo, now)
              && Pruning(all, todo - {k}, now) == Pruning(all, todo, now) - {k}
  {
  }

  lemma Visits(all: LeaseMap, todo: set<string>, k: string)
    requires k in todo && todo <= all.Keys
    ensures k !in all - todo && all - (todo - {k}) == (all - todo)[k := all[k]]
  {
  }

  /** Held leases already visited are among all held leases. */
  lemma {:induction false} VisitedWithin(all: LeaseMap, todo: set<string>, now: int)
    requires Unsigned(all)
    ensures TotalCost(Held(all - todo, now)) <= TotalCost(Held(all, now))
  {
    TotalWithin(Held(all - todo, now), Held(all, now));
  }

  // -------------------------------------------------------------- validation

  predicate HexDigit(c: char) { '0' <= c <= '9' || 'a' <= c <= 'f' }

  lemma HexDigits(c: char)
    ensures HexDigit(c) <==>
              c in {'0', '1', '2', '3', '4', '5', '6', '7', '8', '9', 'a', 'b', 'c', 'd', 'e', 'f'}
  {
  }

  predicate ValidDigest(d: string) { |d| == 64 && forall i :: 0 <= i < |d| ==> HexDigit(d[i]) }

  predicate ValidRecord(k: string, l: LeaseRecord)
  {
    ValidDigest(k) && 1 <= l.cost <= MAX_CONCURRENCY_LEASES && ValidPersistedMicros(l.expires)
  }

  ghost predicate ValidLeases(m: LeaseMap)
  {
    (forall k :: k in m ==> ValidRecord(k, m[k])) && TotalCost(m) <= MAX_CONCURRENCY_LEASES
  }

  /** The checks repeated while pruning. */
  ghost predicate HeldOk(m: LeaseMap)
  {
    (forall k :: k in m ==> 1 <= m[k].cost <= MAX_CONCURRENCY_LEASES) && TotalCost(m) <= MAX_CONCURRENCY_LEASES
  }

  /** validateConcurrencyState. */
  ghost predicate ConcurrencyOk(s: State, policyId: string)
  {
    && s.schema == STATE_SCHEMA && s.policyId == policyId && s.algorithm == Concurrency
    && ValidPersistedMicros(s.observed) && ValidLeases(s.leases)
  }

  // ------------------------------------------------------------------- steps

  /** The state a first acquisition creates: its clock starts at the epoch, not at the request. */
  function NewLeaseState(p: Policy): State
  {
    State(STATE_SCHEMA, p.id, p.revision, Concurrency, 0, 0, 0, 0, 0, 0, 0, false, EmptySegments(), map[])
  }

  datatype LeaseResult =
    | Granted(next: State, lease: Lease, decision: Decision)
    | Exhausted(next: State, decision: Decision)
    | LeaseFail(error: Error)

  function MakeLease(r: LeaseRequest, expires: int): Lease
  {
    Lease(r.leaseId, r.request.key, r.request.policy.id, r.request.policy.revision, r.request.cost, expires, "postgres")
  }

  /** mutateLease in strict mode. */
  ghost function AcquireStep(current: Option<State>, r: LeaseRequest, digest: string): LeaseResult
    requires r.Valid()
  {
    var p := r.request.policy;
    if current.Some? && !ConcurrencyOk(current.value, p.id) then LeaseFail(ErrCorrupt)
    else
      var s := if current.Some? then current.value else NewLeaseState(p);
      var now := Max(r.request.now, s.observed);
      if !ClockInRange(now, p.lease) then LeaseFail(ErrOverflow)
      else if !HeldOk(Held(s.leases, now)) then LeaseFail(ErrCorrupt)
      else GrantStep(s.(revision := p.revision, observed := now, leases := Held(s.leases, now)), r, digest)
  }

  /** The decision on a pruned state: the same lease again, a rejection, or a new lease. */
  ghost function GrantStep(s: State, r: LeaseRequest, digest: string): LeaseResult
  {
    var p, cost, now := r.request.policy, r.request.cost, s.observed;
    var remaining := p.Limit() - Min(TotalCost(s.leases), p.Limit());
    if digest in s.leases then
      if s.leases[digest].cost != cost then LeaseFail(ErrLeaseNotOwned)
      else
        var expires := s.leases[digest].expires;
        Granted(s, MakeLease(r, expires), Decision(true, remaining, p.Limit(), expires, 0, Allowed, "", ""))
    else if cost > remaining then
      var reset := EarliestExpiry(s.leases);
      Exhausted(s, Decision(false, remaining, p.Limit(), reset, Max(SatSub(reset, now), 0), Limited, "", ""))
    else
      var expires := now + p.lease;
      Granted(s.(leases := s.leases[digest := LeaseRecord(cost, expires)]), MakeLease(r, expires),
              Decision(true, remaining - cost, p.Limit(), expires, 0, Allowed, "", ""))
  }

  datatype ReleaseResult = Released(next: State) | ReleaseFail(error: Error)

  /** The decision part of releaseStrict; the row goes when no lease is left. */
  ghost function ReleaseStep(current: Option<State>, l: Lease, digest: string): ReleaseResult
  {
    if current.None? then ReleaseFail(ErrLeaseNotFound)
    else
      var s := current.value;
      if !ConcurrencyOk(s, l.policyId) then ReleaseFail(ErrCorrupt)
      else if digest !in s.leases then ReleaseFail(ErrLeaseNotFound)
      else if s.leases[digest] != LeaseRecord(l.cost, l.expiresAt) then ReleaseFail(ErrLeaseNotOwned)
      else Released(s.(leases := s.leases - {digest}))
  }

  /** latestLeaseExpiry: the loop starts at the epoch. */
  ghost function LatestExpiry(m: LeaseMap): (e: int)
    ensures 0 <= e && forall k :: k in m ==> m[k].expires <= e
    ensures e == 0 || exists k :: k in m && m[k].expires == e
    decreases |m|
  {
    if m == map[] then 0
    else
      var k :| k in m;
      var rest := LatestExpiry(m - {k});
      assert forall j :: j in m ==> j == k || j in m - {k};
      Max(rest, m[k].expires)
  }

  lemma {:induction false} LatestWith(m: LeaseMap, k: string, l: LeaseRecord)
    requires k !in m
    ensures LatestExpiry(m[k := l]) == Max(LatestExpiry(m), l.expires)
  {
    hide LatestExpiry;
    var next := m[k := l];
    assert next[k].expires == l.expires;
    forall j | j in m ensures LatestExpiry(next) >= m[j].expires { assert next[j] == m[j]; }
  }

  // ------------------------------------------------------------ good results

  /** What every strictly written lease state satisfies. */
  ghost predicate WrittenLeases(s: State, id: string)
  {
    && ConcurrencyOk(s, id) && 0 <= s.observed
    && forall k :: k in s.leases ==> s.leases[k].expires > s.observed
  }

  /** No false corruption for leases: across limits, durations and clock rollback, what was strictly
      written is never called corrupt and what is written next is written well. */
  lemma {:induction false} AcquireWritten(current: Option<State>, r: LeaseRequest, digest: string)
    requires r.Valid() && ValidDigest(digest)
    requires current.Some? ==> WrittenLeases(current.value, r.request.policy.id)
    ensures match AcquireStep(current, r, digest)
            case LeaseFail(e) => e == ErrOverflow || e == ErrLeaseNotOwned
            case Exhausted(next, _) => WrittenLeases(next, r.request.policy.id)
            case Granted(next, _, _) => WrittenLeases(next, r.request.policy.id)
  {
    hide EarliestExpiry, ValidDigest, ValidIdentifier, ExactProduct, TotalCost;
    var p, cost := r.request.policy, r.request.cost;
    var s := if current.Some? then current.value else NewLeaseState(p);
    var now := Max(r.request.now, s.observed);
    var held := Held(s.leases, now);
    TotalWithin(held, s.leases);
    NothingHeld(s.leases);
    if digest !in held { TotalWith(held, digest, LeaseRecord(cost, now + p.lease)); }
  }

  /** Every answer is complete: a lease with its own expiry as Reset, or a rejection with a future one. */
  lemma {:induction false} AcquireAnswers(current: Option<State>, r: LeaseRequest, digest: string)
    requires r.Valid()
    requires current.Some? ==> WrittenLeases(current.value, r.request.policy.id)
    ensures match AcquireStep(current, r, digest)
            case LeaseFail(_) => true
            case Exhausted(next, d) => CompleteRejected(d, r.request) && d.reset > next.observed
            case Granted(next, l, d) =>
              && CompleteAllowed(d, r.request) && CompleteLease(l, d, r) && l.expiresAt > next.observed
              && l.backend == "postgres"
  {
    hide ValidDigest, ValidIdentifier, ExactProduct, TotalCost, EarliestExpiry;
    var p := r.request.policy;
    var s := if current.Some? then current.value else NewLeaseState(p);
    var held := Held(s.leases, Max(r.request.now, s.observed));
    TotalWithin(held, s.leases);
    if digest in held { MemberWithin(held, digest); } else { NothingHeld(held); }
  }

  lemma NothingHeld(m: LeaseMap)
    ensures m == map[] ==> TotalCost(m) == 0
  {
  }

  /** A first acquisition grants from the request's instant if and only if that is not before the epoch. Earlier
      it grants from the epoch, or overflows when the lease alone leaves the exact range. */
  lemma {:induction false} FirstAcquisition(r: LeaseRequest, digest: string)
    requires r.Valid()
    ensures var now := r.request.now;
            var lease := r.request.policy.lease;
            match AcquireStep(None, r, digest)
            case Granted(next, l, _) =>
              && (l.expiresAt == now + lease <==> now >= 0) && (now < 0 ==> l.expiresAt == lease)
              && next.observed == Max(now, 0)
            case Exhausted(_, _) => false
            case LeaseFail(e) => e == ErrOverflow && now < 0 && lease > MAX_EXACT
  {
    hide ValidIdentifier, ExactProduct;
    NothingHeld(map[]);
    assert Held(map[], Max(r.request.now, 0)) == map[];
  }

  /** A lease asked for one duration before the epoch is held for two. */
  lemma {:induction false} EarlyAcquisition(r: LeaseRequest, digest: string)
    requires r.Valid() && r.request.policy.lease <= MAX_EXACT && r.request.now == -r.request.policy.lease
    ensures var a := AcquireStep(None, r, digest);
            a.Granted? && a.lease.expiresAt - r.request.now == 2 * r.request.policy.lease
  {
    hide AcquireStep;
    FirstAcquisition(r, digest);
  }

  /** Re-acquiring a held lease with the same cost renews nothing and charges nothing. */
  lemma {:induction false} ReacquireIdempotent(s: State, r: LeaseRequest, digest: string)
    requires r.Valid() && WrittenLeases(s, r.request.policy.id) &&
             ClockInRange(Max(r.request.now, s.observed), r.request.policy.lease)
    requires digest in s.leases && s.leases[digest].expires > r.request.now && s.leases[digest].cost == r.request.cost
    ensures var a := AcquireStep(Some(s), r, digest);
            && a.Granted?
            && a.lease.expiresAt == s.leases[digest].expires
            && a.next.leases == Held(s.leases, a.next.observed)
  {
    TotalWithin(Held(s.leases, Max(r.request.now, s.observed)), s.leases);
  }

  /** Releasing takes out exactly that lease's cost and no other record. */
  lemma {:induction false} ReleaseExact(s: State, l: Lease, digest: string)
    requires ReleaseStep(Some(s), l, digest).Released?
    ensures var next := ReleaseStep(Some(s), l, digest).next;
            && TotalCost(next.leases) == TotalCost(s.leases) - l.cost
            && digest !in next.leases
            && (forall k :: k != digest ==>
                 (k in next.leases <==> k in s.leases) && (k in s.leases ==> next.leases[k] == s.leases[k]))
            && next == s.(leases := next.leases)
  {
    TotalWithout(s.leases, digest);
  }

  lemma {:induction false} ReleaseWritten(s: State, l: Lease, digest: string)
    requires WrittenLeases(s, l.policyId)
    ensures match ReleaseStep(Some(s), l, digest)
            case ReleaseFail(e) => e == ErrLeaseNotFound || e == ErrLeaseNotOwned
            case Released(next) => WrittenLeases(next, l.policyId)
  {
    if digest in s.leases {
      TotalWithin(s.leases - {digest}, s.leases);
    }
  }

  /** A request for the whole limit of p, under a revision that allows it. */
  function Whole(p: Policy, leaseId: string, now: int): LeaseRequest
    requires p.Limit() <= MAX_EXACT
  {
    LeaseRequest(Request(p.(maxCost := p.Limit()), "key", "", p.Limit(), now), leaseId)
  }
}
