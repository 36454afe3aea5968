// The sharded in-process store: quotas, deterministic eviction, sweeping, and
// what any sequence of operations keeps.
module MemoryStore {
  import opened Arithmetic
  import opened Policies
  import opened Windows
  import opened States

  /** The state of one key. */
  datatype Subject = Subject(
    revision: string, algorithm: Algorithm, lastSeen: int, tokens: int, remainder: int, lastRefill: int,
    windowStart: int, windowPeriod: int, used: int, segments: seq<Segment>, leases: map<string, LeaseRecord>)

  type Subjects = map<string, Subject>

  // ------------------------------------------------------------------ quotas

  function Sum(s: seq<int>): int { if s == [] then 0 else Sum(s[..|s| - 1]) + s[|s| - 1] }

  lemma SumAppend(s: seq<int>, x: int)
    ensures Sum(s + [x]) == Sum(s) + x
  {
    assert (s + [x])[..|s|] == s;
  }

  /** What the first n shards are given. */
  ghost function Shared(n: int, base: int, extra: int): int { n * base + Min(n, extra) }

  lemma SharedNext(n: int, base: int, extra: int)
    ensures Shared(n + 1, base, extra) == Shared(n, base, extra) + if n < extra then base + 1 else base
  {
    assert (n + 1) * base == n * base + base;
  }

  lemma SharedAll(maxKeys: int, shards: int)
    requires 1 <= shards <= maxKeys
    ensures Shared(shards, maxKeys / shards, maxKeys % shards) == maxKeys && 1 <= maxKeys / shards
    ensures Shared(0, maxKeys / shards, maxKeys % shards) == 0
  {
    DivBounds(maxKeys, shards);
    DivMonotone(shards, maxKeys, shards);
  }

  /** New: the key budget is shared out to the last key, evenly to within one. */
  method Partition(maxKeys: int, shards: int) returns (quotas: seq<int>)
    requires 1 <= shards <= maxKeys
    ensures |quotas| == shards && Quotas(quotas, maxKeys)
    ensures forall i :: 0 <= i < shards ==> maxKeys / shards <= quotas[i] <= maxKeys / shards + 1
  {
    hide Shared;
    var base, extra := maxKeys / shards, maxKeys % shards;
    SharedAll(maxKeys, shards);
    quotas := [];
    while |quotas| < shards
      invariant |quotas| <= shards
      invariant Sum(quotas) == Shared(|quotas|, base, extra)
      invariant forall i :: 0 <= i < |quotas| ==> base <= quotas[i] <= base + 1
    {
      var quota := if |quotas| < extra then base + 1 else base;
      SumAppend(quotas, quota);
      SharedNext(|quotas|, base, extra);
      quotas := quotas + [quota];
    }
  }

  lemma {:induction false} SumWithin(sizes: seq<int>, quotas: seq<int>)
    requires |sizes| == |quotas| && forall i :: 0 <= i < |sizes| ==> sizes[i] <= quotas[i]
    ensures Sum(sizes) <= Sum(quotas)
  {
    if sizes != [] { SumWithin(sizes[..|sizes| - 1], quotas[..|quotas| - 1]); }
  }

  // ---------------------------------------------------------------- eviction

  ghost predicate Active(leases: map<string, LeaseRecord>, now: int)
  {
    exists id :: id in leases && leases[id].expires > now
  }

  method HasActiveLease(leases: map<string, LeaseRecord>, now: int) returns (active: bool)
    ensures active <==> Active(leases, now)
  {
    var todo := leases.Keys;
    while todo != {}
      invariant todo <= leases.Keys
      invariant forall id :: id in leases && id !in todo ==> leases[id].expires <= now
    {
      var id :| id in todo;
      if leases[id].expires > now { return true; }
      todo := todo - {id};
    }
    return false;
  }

  /** strings.Compare(a, b) == -1. */
  predicate Less(a: string, b: string)
  {
    if b == [] then false
    else if a == [] then true
    else if a[0] != b[0] then a[0] < b[0]
    else Less(a[1..], b[1..])
  }

  lemma {:induction false} LessTotal(a: string, b: string)
    ensures a != b ==> Less(a, b) != Less(b, a)
    ensures a == b ==> !Less(a, b)
  {
    if a != [] && b != [] {
      LessTotal(a[1..], b[1..]);
      assert a == [a[0]] + a[1..] && b == [b[0]] + b[1..];
    }
  }

  lemma {:induction false} LessTransitive(a: string, b: string, c: string)
    requires Less(a, b) && Less(b, c)
    ensures Less(a, c)
  {
    if a != [] && a[0] == b[0] == c[0] { LessTransitive(a[1..], b[1..], c[1..]); }
  }

  /** Up to n the two are alike, and there the first ends or has the smaller character. */
  ghost predicate Diverges(a: string, b: string, n: nat)
  {
    n <= |a| && n < |b| && a[..n] == b[..n] && (n == |a| || a[n] < b[n])
  }

  lemma DivergesHead(a: string, b: string, n: nat)
    requires Diverges(a, b, n) && n > 0
    ensures a != [] && b != [] && a[0] == b[0]
  {
    assert a[..n][0] == b[..n][0];
  }

  lemma {:induction false} DivergesTail(a: string, b: string, n: nat)
    requires a != [] && b != [] && a[0] == b[0]
    ensures Diverges(a, b, n + 1) <==> Diverges(a[1..], b[1..], n)
  {
    if n < |a| && n + 1 < |b| {
      assert a[..n + 1] == [a[0]] + a[1..][..n] && b[..n + 1] == [b[0]] + b[1..][..n];
      assert a[..n + 1][1..] == a[1..][..n] && b[..n + 1][1..] == b[1..][..n];
    }
  }

  /** The comparison is the lexicographic one. */
  lemma {:induction false} LessExact(a: string, b: string)
    ensures Less(a, b) <==> exists n: nat :: Diverges(a, b, n)
  {
    if b != [] && (a == [] || a[0] < b[0]) {
      assert Diverges(a, b, 0);
    } else if a != [] && b != [] {
      if a[0] == b[0] { LessExact(a[1..], b[1..]); }
      if n: nat :| Diverges(a, b, n) && n > 0 {
        DivergesHead(a, b, n);
        if a[0] == b[0] { DivergesTail(a, b, n - 1); }
      }
      if a[0] == b[0] {
        if n: nat :| Diverges(a[1..], b[1..], n) { DivergesTail(a, b, n); }
      }
    }
  }

  /** The order eviction sorts by: last seen, then key. */
  predicate Older(m: Subjects, a: string, b: string)
    requires a in m && b in m
  {
    m[a].lastSeen < m[b].lastSeen || (m[a].lastSeen == m[b].lastSeen && Less(a, b))
  }

  ghost predicate Evictable(m: Subjects, now: int, k: string) { k in m && !Active(m[k].leases, now) }

  /** The least evictable key. */
  ghost predicate Victim(m: Subjects, now: int, k: string)
  {
    Evictable(m, now, k) && forall j :: Evictable(m, now, j) && j != k ==> Older(m, k, j)
  }

  /** There is never a choice of victim, so map iteration order cannot matter. */
  lemma {:induction false} VictimUnique(m: Subjects, now: int, a: string, b: string)
    requires Victim(m, now, a) && Victim(m, now, b)
    ensures a == b
  {
    LessTotal(a, b);
  }

  /** The victim was seen no later than any other key without an active lease, and among those seen as early it is the
      first in order. */
  lemma {:induction false} VictimOldest(m: Subjects, now: int, k: string, j: string)
    requires Victim(m, now, k) && j in m && j != k
    requires forall id :: id in m[j].leases ==> m[j].leases[id].expires <= now
    ensures forall id :: id in m[k].leases ==> m[k].leases[id].expires <= now
    ensures m[k].lastSeen <= m[j].lastSeen
    ensures m[k].lastSeen == m[j].lastSeen ==> exists n :: Diverges(k, j, n)
  {
    assert Evictable(m, now, j);
    LessExact(k, j);
  }

  // -------------------------------------------------------------- operations

  function Fresh(r: Request): Subject
  {
    Subject(r.policy.revision, r.policy.algorithm, r.now, r.policy.Limit(), 0, r.now, 0, r.policy.period, 0,
      EmptySegments(), map[])
  }

  /** carryRevision. */
  function Carry(e: Subject, r: Request): Subject
  {
    e.(tokens := if e.algorithm == TokenBucket then Min(e.tokens, r.policy.Limit()) else e.tokens,
       revision := r.policy.revision, lastRefill := Max(e.lastRefill, r.now), remainder := 0)
  }

  /** getOrCreate: the entries with the key in them, or nothing when there is no room. */
  ghost predicate Obtained(m: Subjects, next: Option<Subjects>, key: string, r: Request, quota: int, reject: bool)
  {
    if key in m then next == Some(m[key := if m[key].revision != r.policy.revision then Carry(m[key], r) else m[key]])
    else if |m| != quota then next == Some(m[key := Fresh(r)])
    else if reject || (forall k :: !Evictable(m, r.now, k)) then next == None
    else next.Some? && exists k :: Victim(m, r.now, k) && next.value == (m - {k})[key := Fresh(r)]
  }

  /** An admission or acquisition leaves the algorithm's own change to the subject open. */
  datatype Op =
    | Serve(key: string, request: Request, change: (Subject, Request) -> Subject)
    | Release(owner: string, id: string, lease: LeaseRecord)
    | Sweep(now: int, idleFor: int)

  function Clamped(r: Request, e: Subject): Request { r.(now := Max(r.now, e.lastSeen)) }

  /** The subject after the request's clock is clamped to it and the algorithm has run. */
  function Served(e: Subject, r: Request, change: (Subject, Request) -> Subject): Subject
  {
    change(e.(lastSeen := Clamped(r, e).now), Clamped(r, e))
  }

  predicate Owned(m: Subjects, key: string, id: string, lease: LeaseRecord)
  {
    key in m && id in m[key].leases && m[key].leases[id] == lease
  }

  function Still(leases: map<string, LeaseRecord>, now: int): map<string, LeaseRecord>
  {
    map id | id in leases && leases[id].expires > now :: leases[id]
  }

  ghost predicate Idle(e: Subject, now: int, idleFor: int) { !Active(e.leases, now) && e.lastSeen + idleFor <= now }

  /** Sweep, key by key: idle ones go, the others lose their expired leases. */
  ghost function Swept(m: Subjects, now: int, idleFor: int): Subjects
  {
    map k | k in m && !Idle(m[k], now, idleFor) :: m[k].(leases := Still(m[k].leases, now))
  }

  /** The subjects of a shard before and after one operation. */
  ghost predicate Steps(m: Subjects, next: Subjects, op: Op, quota: int, reject: bool)
  {
    match op
    case Serve(key, r, change) => ServeSteps(m, next, key, r, change, quota, reject)
    case Release(key, id, lease) =>
      next == if Owned(m, key, id, lease) then m[key := m[key].(leases := m[key].leases - {id})] else m
    case Sweep(now, idleFor) => next == if now == ZERO_TIME || idleFor <= 0 then m else Swept(m, now, idleFor)
  }

  ghost predicate ServeSteps(
    m: Subjects, next: Subjects, key: string, r: Request, change: (Subject, Request) -> Subject, quota: int,
    reject: bool)
  {
    if key in m && m[key].algorithm != r.policy.algorithm then next == m
    else if Obtained(m, None, key, r, quota, reject) then next == m
    else exists held: Subjects :: Obtained(m, Some(held), key, r, quota, reject) && key in held
                                  && next == held[key := Served(held[key], r, change)]
  }

  // ------------------------------------------------------------------ shards

  class Shard {
    const maxKeys: int
    const rejectOnCapacity: bool
    var states: Subjects

    ghost predicate Valid()
      reads this
    {
      1 <= maxKeys && |states| <= maxKeys
    }

    constructor (maxKeys: int, rejectOnCapacity: bool)
      requires 1 <= maxKeys
      ensures Valid() && states == map[] && this.maxKeys == maxKeys && this.rejectOnCapacity == rejectOnCapacity
    {
      this.maxKeys, this.rejectOnCapacity, states := maxKeys, rejectOnCapacity, map[];
    }

    /** The keys eviction may choose from, in whatever order the map yields them. */
    method Candidates(now: int) returns (keys: seq<string>)
      ensures forall k :: k in keys <==> Evictable(states, now, k)
    {
      keys := [];
      var todo := states.Keys;
      while todo != {}
        invariant todo <= states.Keys
        invariant forall k :: k in keys <==> Evictable(states, now, k) && k !in todo
      {
        var k :| k in todo;
        var active := HasActiveLease(states[k].leases, now);
        if !active { keys := keys + [k]; }
        todo := todo - {k};
      }
    }

    /** The first of the keys once sorted. */
    method First(keys: seq<string>) returns (best: string)
      requires keys != [] && forall k :: k in keys ==> k in states
      ensures best in keys && forall k :: k in keys && k != best ==> Older(states, best, k)
    {
      best := keys[0];
      var i := 1;
      while i < |keys|
        invariant 1 <= i <= |keys| && best in keys[..i]
        invariant forall k :: k in keys[..i] && k != best ==> Older(states, best, k)
      {
        var key := keys[i];
        LessTotal(key, best);
        if Older(states, key, best) {
          forall k | k in keys[..i] && k != best ensures Older(states, key, k) {
            if Less(key, best) && Less(best, k) { LessTransitive(key, best, k); }
          }
          best := key;
        }
        assert keys[..i + 1] == keys[..i] + [key];
        i := i + 1;
      }
      assert keys[..i] == keys;
    }

    method EvictOldest(now: int) returns (evicted: bool)
      modifies this`states
      ensures evicted <==> exists k :: Evictable(old(states), now, k)
      ensures if evicted then exists k :: Victim(old(states), now, k) && states == old(states) - {k}
              else states == old(states)
    {
      var keys := Candidates(now);
      if |keys| == 0 { return false; }
      var best := First(keys);
      assert best in keys && Victim(states, now, best);
      states := states - {best};
      return true;
    }

    method GetOrCreate(key: string, r: Request) returns (ok: bool)
      requires Valid()
      modifies this`states
      ensures Valid()
      ensures ok ==> key in states && Obtained(old(states), Some(states), key, r, maxKeys, rejectOnCapacity)
      ensures !ok ==> states == old(states) && Obtained(states, None, key, r, maxKeys, rejectOnCapacity)
    {
      if key in states {
        if states[key].revision != r.policy.revision {
          ReplaceSize(states, key, Carry(states[key], r));
          states := states[key := Carry(states[key], r)];
        } else {
          assert states == states[key := states[key]];
        }
        return true;
      }
      ghost var before := states;
      if |states| == maxKeys {
        if rejectOnCapacity { return false; }
        var evicted := EvictOldest(r.now);
        if !evicted { return false; }
        ghost var k :| Victim(before, r.now, k) && states == before - {k};
        RemoveSize(before, k);
      }
      AddSize(states, key, Fresh(r));
      states := states[key := Fresh(r)];
      return true;
    }

    /** admitLocked and acquireLocked. */
    method ServeLocked(key: string, r: Request, change: (Subject, Request) -> Subject) returns (error: Option<Error>)
      requires Valid()
      modifies this`states
      ensures Valid() && Steps(old(states), states, Serve(key, r, change), maxKeys, rejectOnCapacity)
      ensures error == Some(ErrCorrupt) <==> key in old(states) && old(states)[key].algorithm != r.policy.algorithm
      ensures error == Some(ErrUnavailable) <==> Obtained(old(states), None, key, r, maxKeys, rejectOnCapacity)
      ensures error.None? || error.value in {ErrCorrupt, ErrUnavailable}
    {
      if key in states && states[key].algorithm != r.policy.algorithm { return Some(ErrCorrupt); }
      var ok := GetOrCreate(key, r);
      if !ok { return Some(ErrUnavailable); }
      var e := states[key];
      ReplaceSize(states, key, Served(e, r, change));
      states := states[key := Served(e, r, change)];
      return None;
    }

    method ReleaseLocked(key: string, id: string, lease: LeaseRecord) returns (error: Option<Error>)
      requires Valid()
      modifies this`states
      ensures Valid() && Steps(old(states), states, Release(key, id, lease), maxKeys, rejectOnCapacity)
      ensures error.None? <==> Owned(old(states), key, id, lease)
      ensures error == Some(ErrLeaseNotFound) <==> key !in old(states) || id !in old(states)[key].leases
      ensures error.Some? ==> error.value in {ErrLeaseNotFound, ErrLeaseNotOwned}
    {
      if key !in states || id !in states[key].leases { return Some(ErrLeaseNotFound); }
      if states[key].leases[id] != lease { return Some(ErrLeaseNotOwned); }
      var e := states[key].(leases := states[key].leases - {id});
      ReplaceSize(states, key, e);
      states := states[key := e];
      return None;
    }

    /** The inner loop of Sweep: one subject's leases, and whether any is active. */
    method TrimLeases(leases: map<string, LeaseRecord>, now: int) returns (active: bool, left: map<string, LeaseRecord>)
      ensures active <==> Active(leases, now)
      ensures left == Still(leases, now)
    {
      active, left := false, leases;
      var todo := leases.Keys;
      while todo != {}
        invariant todo <= leases.Keys
        invariant left == map id | id in leases && (id in todo || leases[id].expires > now) :: leases[id]
        invariant active <==> exists id :: id in leases && id !in todo && leases[id].expires > now
      {
        var id :| id in todo;
        if leases[id].expires > now { active := true; } else { left := left - {id}; }
        todo := todo - {id};
      }
    }

    method SweepLocked(now: int, idleFor: int) returns (removed: int)
      requires Valid() && now != ZERO_TIME && 0 < idleFor
      modifies this`states
      ensures Valid() && states == Swept(old(states), now, idleFor)
      ensures removed == |old(states)| - |states|
    {
      removed := 0;
      var todo := states.Keys;
      ghost var before := states;
      while todo != {}
        invariant Valid() && todo <= before.Keys
        invariant states == SweptBut(before, todo, now, idleFor)
        invariant removed == |before| - |states|
      {
        var k :| k in todo;
        SweptVisits(before, todo, k, now, idleFor);
        var active, left := TrimLeases(states[k].leases, now);
        if !active && states[k].lastSeen + idleFor <= now {
          RemoveSize(states, k);
          states := states - {k};
          removed := removed + 1;
        } else {
          ReplaceSize(states, k, states[k].(leases := left));
          states := states[k := states[k].(leases := left)];
        }
        todo := todo - {k};
      }
    }
  }

  /** A sweep that has not visited `todo` yet. */
  ghost function SweptBut(m: Subjects, todo: set<string>, now: int, idleFor: int): Subjects
  {
    map k | k in m && (k in todo || !Idle(m[k], now, idleFor)) ::
      if k in todo then m[k] else m[k].(leases := Still(m[k].leases, now))
  }

  lemma SweptVisits(m: Subjects, todo: set<string>, k: string, now: int, idleFor: int)
    requires k in todo && todo <= m.Keys
    ensures k in SweptBut(m, todo, now, idleFor) && SweptBut(m, todo, now, idleFor)[k] == m[k]
    ensures SweptBut(m, todo - {k}, now, idleFor) ==
              if Idle(m[k], now, idleFor) then SweptBut(m, todo, now, idleFor) - {k}
              else SweptBut(m, todo, now, idleFor)[k := m[k].(leases := Still(m[k].leases, now))]
  {
  }

  lemma AddSize(m: Subjects, k: string, e: Subject)
    requires k !in m
    ensures |m[k := e]| == |m| + 1
  {
    assert m[k := e].Keys == m.Keys + {k};
  }

  lemma ReplaceSize(m: Subjects, k: string, e: Subject)
    requires k in m
    ensures |m[k := e]| == |m|
  {
    assert m[k := e].Keys == m.Keys;
  }

  lemma RemoveSize(m: Subjects, k: string)
    requires k in m
    ensures |m - {k}| == |m| - 1
  {
    assert (m - {k}).Keys == m.Keys - {k};
  }

  // -------------------------------------------------------------- whole runs

  ghost predicate Trace(trace: seq<Subjects>, ops: seq<Op>, quota: int, reject: bool)
  {
    && |trace| == |ops| + 1 && trace[0] == map[]
    && forall i :: 0 <= i < |ops| ==> Steps(trace[i], trace[i + 1], ops[i], quota, reject)
  }

  lemma {:induction false} ObtainedKeys(m: Subjects, held: Subjects, key: string, r: Request, quota: int, reject: bool)
    requires Obtained(m, Some(held), key, r, quota, reject) && |m| <= quota
    ensures key in held && |held| <= quota
    ensures forall k :: k in m && k !in held ==> !reject && |m| == quota && key !in m && Victim(m, r.now, k)
    ensures forall k :: k in held && k !in m ==> k == key
  {
    hide Victim, Evictable, Carry, Fresh;
    if key in m {
      ReplaceSize(m, key, held[key]);
    } else if |m| != quota {
      AddSize(m, key, Fresh(r));
    } else {
      var k :| Victim(m, r.now, k) && held == (m - {k})[key := Fresh(r)];
      VictimPresent(m, r.now, k);
      RemoveSize(m, k);
      AddSize(m - {k}, key, Fresh(r));
      forall j | j in m && j !in held ensures Victim(m, r.now, j) { assert j == k; }
    }
  }

  lemma VictimPresent(m: Subjects, now: int, k: string)
    requires Victim(m, now, k)
    ensures k in m
  {
  }

  /** What serving a request does to the key set: it may add its own key, at most at the price of the victim. */
  lemma {:induction false} ServeKeys(
    m: Subjects, next: Subjects, key: string, r: Request, change: (Subject, Request) -> Subject, quota: int,
    reject: bool)
    requires ServeSteps(m, next, key, r, change, quota, reject) && |m| <= quota
    ensures |next| <= quota
    ensures forall k :: k in m && k !in next ==> !reject && |m| == quota && key !in m && Victim(m, r.now, k)
    ensures forall k :: k in next && k !in m ==> k == key
  {
    hide Obtained, Victim;
    if next != m {
      var held: Subjects :| Obtained(m, Some(held), key, r, quota, reject) && key in held
                            && next == held[key := Served(held[key], r, change)];
      ObtainedKeys(m, held, key, r, quota, reject);
      ReplaceSize(held, key, Served(held[key], r, change));
    }
  }

  lemma {:induction false} SweepShrinks(m: Subjects, now: int, idleFor: int)
    ensures Swept(m, now, idleFor).Keys <= m.Keys && |Swept(m, now, idleFor)| <= |m|
  {
    Fewer(Swept(m, now, idleFor).Keys, m.Keys);
  }

  lemma {:induction false} Fewer(a: set<string>, b: set<string>)
    requires a <= b
    ensures |a| <= |b|
  {
    assert b == a + (b - a);
  }

  lemma {:induction false} StepBounded(m: Subjects, next: Subjects, op: Op, quota: int, reject: bool)
    requires Steps(m, next, op, quota, reject) && |m| <= quota
    ensures |next| <= quota
  {
    match op
    case Serve(key, r, change) => ServeKeys(m, next, key, r, change, quota, reject);
    case Release(key, id, lease) => if key in m { ReplaceSize(m, key, m[key].(leases := m[key].leases - {id})); }
    case Sweep(now, idleFor) => SweepShrinks(m, now, idleFor);
  }

  /** No shard ever exceeds its quota, whatever the algorithms do to their own entries. */
  lemma {:induction false} ShardBounded(trace: seq<Subjects>, ops: seq<Op>, quota: int, reject: bool, n: int)
    requires Trace(trace, ops, quota, reject) && 1 <= quota && 0 <= n < |trace|
    ensures |trace[n]| <= quota
  {
    if n > 0 {
      ShardBounded(trace, ops, quota, reject, n - 1);
      StepBounded(trace[n - 1], trace[n], ops[n - 1], quota, reject);
    }
  }

  /** A key leaves a shard only by a sweep that finds it idle, or as the victim of a full shard that may evict. */
  lemma {:induction false} WhoLeaves(trace: seq<Subjects>, ops: seq<Op>, quota: int, reject: bool, n: int, k: string)
    requires Trace(trace, ops, quota, reject) && 1 <= quota && 0 <= n < |ops|
    requires k in trace[n] && k !in trace[n + 1]
    ensures match ops[n]
            case Serve(key, r, _) => !reject && |trace[n]| == quota && key !in trace[n] && Victim(trace[n], r.now, k)
            case Release(_, _, _) => false
            case Sweep(now, idleFor) => Idle(trace[n][k], now, idleFor)
  {
    ShardBounded(trace, ops, quota, reject, n);
    match ops[n]
    case Serve(key, r, change) => ServeKeys(trace[n], trace[n + 1], key, r, change, quota, reject);
    case Release(_, _, _) =>
    case Sweep(_, _) =>
  }

  /** A key with a lease active at an operation's instant is still there afterwards. */
  lemma {:induction false} LeasesProtected(
    trace: seq<Subjects>, ops: seq<Op>, quota: int, reject: bool, n: int, k: string)
    requires Trace(trace, ops, quota, reject) && 1 <= quota && 0 <= n < |ops| && k in trace[n]
    requires match ops[n]
             case Serve(_, r, _) => Active(trace[n][k].leases, r.now)
             case Release(_, _, _) => true
             case Sweep(now, _) => Active(trace[n][k].leases, now)
    ensures k in trace[n + 1]
  {
    if k !in trace[n + 1] { WhoLeaves(trace, ops, quota, reject, n, k); }
  }

  /** With RejectOnCapacity and no sweep between them, no key present at one point is missing at a later one. */
  lemma {:induction false} OnlySweepRemoves(trace: seq<Subjects>, ops: seq<Op>, quota: int, i: int, j: int)
    requires Trace(trace, ops, quota, true) && 1 <= quota && 0 <= i <= j < |trace|
    requires forall n :: i <= n < j ==> !ops[n].Sweep?
    ensures trace[i].Keys <= trace[j].Keys
  {
    if i < j {
      OnlySweepRemoves(trace, ops, quota, i, j - 1);
      forall k | k in trace[j - 1] ensures k in trace[j] {
        if k !in trace[j] { WhoLeaves(trace, ops, quota, true, j - 1, k); }
      }
    }
  }

  // ---------------------------------------------------------- the whole store

  /** Quotas as New partitions them. */
  ghost predicate Quotas(quotas: seq<int>, maxKeys: int)
  {
    Sum(quotas) == maxKeys && forall i :: 0 <= i < |quotas| ==> 1 <= quotas[i]
  }

  /** The shard an operation goes to; a sweep visits them all. */
  predicate Visits(op: Op, i: int, shardOf: string -> int)
  {
    match op
    case Serve(key, _, _) => shardOf(key) == i
    case Release(key, _, _) => shardOf(key) == i
    case Sweep(_, _) => true
  }

  ghost predicate StoreSteps(
    store: seq<Subjects>, next: seq<Subjects>, op: Op, quotas: seq<int>, reject: bool, shardOf: string -> int)
  {
    && |store| == |next| == |quotas|
    && forall i :: 0 <= i < |quotas| ==>
         if Visits(op, i, shardOf) then Steps(store[i], next[i], op, quotas[i], reject) else next[i] == store[i]
  }

  /** An empty store under a sequence of operations, keys routed by an arbitrary shard function. */
  ghost predicate StoreTrace(
    trace: seq<seq<Subjects>>, ops: seq<Op>, quotas: seq<int>, reject: bool, shardOf: string -> int)
  {
    && |trace| == |ops| + 1 && |trace[0]| == |quotas|
    && (forall i :: 0 <= i < |quotas| ==> trace[0][i] == map[])
    && forall n :: 0 <= n < |ops| ==> StoreSteps(trace[n], trace[n + 1], ops[n], quotas, reject, shardOf)
  }

  ghost function Len(store: seq<Subjects>): int { Sum(seq(|store|, i requires 0 <= i < |store| => |store[i]|)) }

  lemma {:induction false} ShardsBounded(
    trace: seq<seq<Subjects>>, ops: seq<Op>, quotas: seq<int>, maxKeys: int, reject: bool, shardOf: string -> int,
      n: int)
    requires StoreTrace(trace, ops, quotas, reject, shardOf) && Quotas(quotas, maxKeys) && 0 <= n < |trace|
    ensures |trace[n]| == |quotas| && forall i :: 0 <= i < |quotas| ==> |trace[n][i]| <= quotas[i]
  {
    hide Steps;
    if n > 0 {
      ShardsBounded(trace, ops, quotas, maxKeys, reject, shardOf, n - 1);
      assert StoreSteps(trace[n - 1], trace[n], ops[n - 1], quotas, reject, shardOf);
      forall i | 0 <= i < |quotas| ensures |trace[n][i]| <= quotas[i] {
        if Visits(ops[n - 1], i, shardOf) { StepBounded(trace[n - 1][i], trace[n][i], ops[n - 1], quotas[i], reject); }
      }
    }
  }

  /** Whatever the operations and however keys are spread over shards, the store never holds more than MaxKeys keys. */
  lemma {:induction false} StoreBounded(
    trace: seq<seq<Subjects>>, ops: seq<Op>, quotas: seq<int>, maxKeys: int, reject: bool, shardOf: string -> int,
      n: int)
    requires StoreTrace(trace, ops, quotas, reject, shardOf) && Quotas(quotas, maxKeys) && 0 <= n < |trace|
    ensures Len(trace[n]) <= maxKeys
  {
    hide StoreTrace;
    ShardsBounded(trace, ops, quotas, maxKeys, reject, shardOf, n);
    SumWithin(seq(|trace[n]|, i requires 0 <= i < |trace[n]| => |trace[n][i]|), quotas);
  }
}
