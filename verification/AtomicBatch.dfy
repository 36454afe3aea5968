// All-or-nothing batches: what one atomic transaction computes from the rows it
// loaded, and the receipts it leaves behind.
module AtomicBatch {
  import opened Arithmetic
  import opened Policies
  import opened TokenBucket
  import opened Windows
  import opened States
  import opened StrictRuns
  import opened StrictService

  const MAX_ATOMIC_BATCH: int := 16

  // ---------------------------------------------------------------- identity

  /** policyID + NUL + key. */
  function BucketName(id: string, key: string): string { id + ['\0'] + key }

  /** Identifiers contain no NUL, so the bucket name determines both parts. */
  lemma {:induction false} BucketNameInjective(a: string, x: string, b: string, y: string)
    requires ValidIdentifier(a) && ValidIdentifier(b) && BucketName(a, x) == BucketName(b, y)
    ensures a == b && x == y
  {
    var s := BucketName(a, x);
    assert s[|a|] == '\0' && s[|b|] == '\0';
    assert forall i :: 0 <= i < |a| ==> s[i] == a[i] && IdentifierChar(s[i]);
    assert forall i :: 0 <= i < |b| ==> s[i] == b[i] && IdentifierChar(s[i]);
    assert |a| == |b|;
    assert a == s[..|a|] == b;
    assert x == s[|a| + 1..] == y;
  }

  predicate CommandChar(c: char)
  {
    'a' <= c <= 'z' || 'A' <= c <= 'Z' || '0' <= c <= '9' ||
    c in {'!', '#', '$', '%', '&', '\'', '*', '+', '-', '.', '^', '_', '`', '|', '~'}
  }

  /** Section 5.6.2 of RFC 9110: any visible character that is not a delimiter. */
  lemma CommandChars(c: char)
    ensures CommandChar(c) <==>
              '!' <= c <= '~' &&
              c !in {'"', '(', ')', ',', '/', ':', ';', '<', '=', '>', '?', '@', '[', '\\', ']', '{', '}'}
  {
  }

  /** One to 128 `token` characters of section 5.6.2 of RFC 9110. */
  predicate ValidCommand(id: string)
  {
    1 <= |id| <= 128 && forall i :: 0 <= i < |id| ==> CommandChar(id[i])
  }

  lemma CommandLength(id: string)
    ensures ValidCommand(id) ==> id != "" && |id| < 129
    ensures (forall i :: 0 <= i < |id| ==> CommandChar(id[i])) && 0 < |id| < 129 ==> ValidCommand(id)
  {
  }

  datatype Batch = Batch(commandId: string, requests: seq<Request>)
  {
    function Name(i: int): string
      requires 0 <= i < |requests|
    {
      BucketName(requests[i].policy.id, requests[i].key)
    }

    predicate ValidItem(i: int)
      requires 0 <= i < |requests|
    {
      && requests[i].Valid() && requests[i].now == requests[0].now
      && requests[i].policy.algorithm == TokenBucket
      && requests[i].policy.consistency == Strong && requests[i].policy.failureMode == FailClosed
    }

    ghost predicate Distinct()
    {
      forall i, j :: 0 <= i < j < |requests| ==> Name(i) != Name(j)
    }

    ghost predicate Valid()
    {
      && ValidCommand(commandId) && 1 <= |requests| <= MAX_ATOMIC_BATCH
      && (forall i :: 0 <= i < |requests| ==> ValidItem(i))
      && Distinct()
    }
  }

  /** AtomicBatchRequest.Validate: one pass with a set of the bucket names seen. */
  method Validate(b: Batch) returns (error: Option<Error>)
    ensures error == None <==> b.Valid()
    ensures error != None ==> error == Some(ErrInvalidRequest) || error == Some(ErrUnsupported)
    ensures error == Some(ErrUnsupported) ==>
              exists i :: 0 <= i < |b.requests| && b.requests[i].Valid() && !b.ValidItem(i)
  {
    if !ValidCommand(b.commandId) || |b.requests| < 1 || |b.requests| > MAX_ATOMIC_BATCH {
      return Some(ErrInvalidRequest);
    }
    var seen: set<string> := {};
    for i := 0 to |b.requests|
      invariant forall j :: 0 <= j < i ==> b.ValidItem(j)
      invariant forall j :: 0 <= j < i ==> b.Name(j) in seen
      invariant forall n :: n in seen ==> exists j :: 0 <= j < i && b.Name(j) == n
      invariant forall j, k :: 0 <= j < k < i ==> b.Name(j) != b.Name(k)
    {
      var r := b.requests[i];
      if !r.Valid() || r.now != b.requests[0].now {
        assert !b.ValidItem(i);
        return Some(ErrInvalidRequest);
      }
      if r.policy.algorithm != TokenBucket || r.policy.consistency != Strong || r.policy.failureMode != FailClosed {
        assert !b.ValidItem(i);
        return Some(ErrUnsupported);
      }
      if b.Name(i) in seen {
        return Some(ErrInvalidRequest);
      }
      seen := seen + {b.Name(i)};
    }
    return None;
  }

  // -------------------------------------------------------------- speculation

  datatype Receipt = Receipt(allowed: bool, decisions: seq<Decision>)

  datatype Trial = Trial(states: seq<State>, receipt: Receipt) | TrialFail(error: Error)

  /** One effective observation: the latest of the clock and every loaded state's. */
  function Effective(loaded: seq<Option<State>>, now: int): (e: int)
    ensures e >= now
    ensures forall i :: 0 <= i < |loaded| && loaded[i].Some? ==> loaded[i].value.observed <= e
    ensures e == now || exists i :: 0 <= i < |loaded| && loaded[i].Some? && loaded[i].value.observed == e
  {
    if loaded == [] then now
    else
      var rest := Effective(loaded[..|loaded| - 1], now);
      var last := loaded[|loaded| - 1];
      if last.Some? then Max(rest, last.value.observed) else rest
  }

  ghost predicate Loadable(loaded: seq<Option<State>>)
  {
    forall i :: 0 <= i < |loaded| ==> loaded[i].Some? ==> |loaded[i].value.segments| == SEGMENTS
  }

  ghost predicate AllShaped(states: seq<State>) { forall i :: 0 <= i < |states| ==> |states[i].segments| == SEGMENTS }

  ghost predicate TokenRequests(requests: seq<Request>)
  {
    forall i :: 0 <= i < |requests| ==> requests[i].Sized() && requests[i].policy.algorithm == TokenBucket
  }

  /** One more bucket's step at the effective instant. */
  function Extend(t: Trial, loaded: Option<State>, r: Request, now: int): Trial
    requires r.Sized() && r.policy.algorithm == TokenBucket && (loaded.Some? ==> |loaded.value.segments| == SEGMENTS)
  {
    if t.TrialFail? then t
    else
      match Step(loaded, r.(now := now))
      case Fail(e) => TrialFail(e)
      case Done(next, d, rejected) =>
        if !ResetInOrder(d, next.observed) then TrialFail(ErrCorrupt)
        else Trial(t.states + [next],
                   Receipt(t.receipt.allowed && !rejected, t.receipt.decisions + [Stamp(d, r.policy, "postgres")]))
  }

  /** All buckets in input order, stopping at the first error. */
  ghost function Speculate(loaded: seq<Option<State>>, requests: seq<Request>, now: int): (t: Trial)
    requires |loaded| == |requests| && Loadable(loaded) && TokenRequests(requests)
    ensures t.Trial? ==> |t.states| == |t.receipt.decisions| == |requests| && AllShaped(t.states)
  {
    if requests == [] then Trial([], Receipt(true, []))
    else
      var n := |requests| - 1;
      Extend(Speculate(loaded[..n], requests[..n], now), loaded[n], requests[n], now)
  }

  /** Whatever was loaded, no decision of a trial has a Reset before its bucket's observation. */
  lemma {:induction false} TrialInOrder(loaded: seq<Option<State>>, requests: seq<Request>, now: int)
    requires |loaded| == |requests| && Loadable(loaded) && TokenRequests(requests)
    ensures var t := Speculate(loaded, requests, now);
            t.Trial? ==> forall i :: 0 <= i < |requests| ==>
              t.receipt.decisions[i].reset == ZERO_TIME || t.receipt.decisions[i].reset >= t.states[i].observed
  {
    hide Step;
    if requests != [] {
      var n := |requests| - 1;
      TrialInOrder(loaded[..n], requests[..n], now);
    }
  }

  /** A speculative debit given back, in uint64 arithmetic: the decision reports the undebited balance. */
  function Restore(d: Decision, s: State, r: Request, now: int): Decision
    requires TokenPolicy(r.policy)
  {
    if !d.allowed then d
    else
      var tokens := (s.tokens + r.cost) % WORD;
      d.(allowed := false, reason := AtomicRejected, remaining := tokens,
         reset := now + TokenDuration((r.policy.Limit() - tokens) % WORD, s.remainder % WORD, r.policy))
  }

  /** The outcome of a batch: all next states, or none and restored decisions. */
  ghost function Conclude(loaded: seq<Option<State>>, requests: seq<Request>, now: int): (t: Trial)
    requires |loaded| == |requests| && Loadable(loaded) && TokenRequests(requests)
    ensures t.Trial? && t.receipt.allowed ==> |t.states| == |requests| && AllShaped(t.states)
  {
    match Speculate(loaded, requests, now)
    case TrialFail(e) => TrialFail(e)
    case Trial(states, receipt) =>
      if receipt.allowed then Trial(states, receipt)
      else Trial([], Receipt(false, seq(|requests|, i requires 0 <= i < |requests| =>
                                          Restore(receipt.decisions[i], states[i], requests[i], now))))
  }

  // ------------------------------------------------ what speculation computes

  /** The bucket a request finds at the effective instant: carried over, refilled, not yet debited. */
  function Ready(loaded: Option<State>, r: Request, now: int): Bucket
    requires 0 < r.policy.period
  {
    var s := if loaded.Some? then loaded.value else NewState(r.(now := now));
    Refill(CarryTokens(s, r.policy, now).AsBucket(), r.policy, now)
  }

  ghost predicate GoodLoad(loaded: Option<State>, r: Request, f: Family, now: int)
  {
    && f.Valid() && f.algorithm == TokenBucket && f.Governs(r) && Row(loaded, f)
    && (loaded.Some? ==> loaded.value.observed <= now)
  }

  /** One bucket of a batch, against its refilled balance. */
  lemma {:induction false} BucketStep(loaded: Option<State>, r: Request, f: Family, now: int)
    requires GoodLoad(loaded, r, f, now)
    ensures var ready := Ready(loaded, r, now);
            && Sound(ready, r.policy) && ready.last == now
            && match Step(loaded, r.(now := now))
               case Fail(e) => e == ErrOverflow && !ClockInRange(now, r.policy.period)
               case Done(next, d, rejected) =>
                 && ClockInRange(now, r.policy.period)
                 && Written(next, f) && next.revision == r.policy.revision && next.observed == now && d.reset >= now
                 && (rejected <==> ready.tokens < r.cost)
                 && next.AsBucket() == (if rejected then ready else ready.(tokens := ready.tokens - r.cost))
                 && d.allowed == !rejected && d.limit == r.policy.Limit() && d.remaining == next.tokens
                 && d.reason == (if rejected then Limited else Allowed)
                 && d.retryAfter == (if rejected then Wait(r.cost - ready.tokens, ready.remainder, r.policy) else 0)
                 && d.reset == now + Wait(r.policy.Limit() - next.tokens, next.remainder, r.policy)
  {
    hide Refill, Wait, ExactProduct;
    var at := r.(now := now);
    assert f.Governs(at);
    StepWritten(loaded, at, f);
    StepApplies(loaded, at, f);
    var p := r.policy;
    var s := if loaded.Some? then loaded.value else NewState(at);
    var before := CarryTokens(s, p, now).AsBucket();
    assert Sound(before, p) && before.last <= now;
    RefillSound(before, p, now);
  }

  // ------------------------------------------------------------ whole batches

  type Families = map<string, Family>

  ghost predicate GoodLoads(loaded: seq<Option<State>>, requests: seq<Request>, env: Families, now: int)
  {
    && |loaded| == |requests|
    && forall i :: 0 <= i < |requests| ==>
         requests[i].policy.id in env && GoodLoad(loaded[i], requests[i], env[requests[i].policy.id], now)
  }

  lemma GoodLoadsAre(loaded: seq<Option<State>>, requests: seq<Request>, env: Families, now: int)
    requires GoodLoads(loaded, requests, env, now)
    ensures Loadable(loaded) && TokenRequests(requests)
  {
  }

  ghost predicate Sufficient(loaded: Option<State>, r: Request, now: int)
    requires 0 < r.policy.period
  {
    Ready(loaded, r, now).tokens >= r.cost
  }

  /** A speculated bucket: debited when sufficient, otherwise only refilled. */
  ghost predicate Tried(loaded: Option<State>, r: Request, f: Family, now: int, s: State, d: Decision)
    requires GoodLoad(loaded, r, f, now)
  {
    var ready := Ready(loaded, r, now);
    var enough := Sufficient(loaded, r, now);
    && Sound(ready, r.policy) && ready.last == now
    && Written(s, f) && s.revision == r.policy.revision && s.observed == now && d.reset >= now >= -MAX_EXACT
    && s.AsBucket() == (if enough then ready.(tokens := ready.tokens - r.cost) else ready)
    && d.allowed == enough && d.limit == r.policy.Limit() && d.remaining == s.tokens
    && d.reason == (if enough then Allowed else Limited)
    && d.retryAfter == (if enough then 0 else Wait(r.cost - ready.tokens, ready.remainder, r.policy))
    && d.reset == now + Wait(r.policy.Limit() - s.tokens, s.remainder, r.policy)
    && d.backend == "postgres" && d.policyRevision == r.policy.revision
  }

  lemma {:induction false} BucketTried(loaded: Option<State>, r: Request, f: Family, now: int)
    requires GoodLoad(loaded, r, f, now)
    ensures match Step(loaded, r.(now := now))
            case Fail(e) => e == ErrOverflow && !ClockInRange(now, r.policy.period)
            case Done(next, d, rejected) =>
              && Tried(loaded, r, f, now, next, Stamp(d, r.policy, "postgres"))
              && ResetInOrder(d, next.observed) && (rejected <==> !d.allowed)
  {
    hide Step, Ready, Wait, Written, Row, Sound;
    BucketStep(loaded, r, f, now);
  }

  /** What speculation over good rows yields. */
  ghost predicate GoodTrial(loaded: seq<Option<State>>, requests: seq<Request>, env: Families, now: int, t: Trial)
    requires GoodLoads(loaded, requests, env, now)
  {
    match t
    case TrialFail(e) => e == ErrOverflow
    case Trial(states, receipt) =>
      && |states| == |receipt.decisions| == |requests|
      && (forall i :: 0 <= i < |requests| ==>
            Tried(loaded[i], requests[i], env[requests[i].policy.id], now, states[i], receipt.decisions[i]))
      && (receipt.allowed <==> forall i :: 0 <= i < |requests| ==> receipt.decisions[i].allowed)
  }

  lemma {:induction false} Speculated(loaded: seq<Option<State>>, requests: seq<Request>, env: Families, now: int)
    requires GoodLoads(loaded, requests, env, now)
    ensures Loadable(loaded) && TokenRequests(requests)
    ensures GoodTrial(loaded, requests, env, now, Speculate(loaded, requests, now))
  {
    hide Step, GoodLoad, Tried;
    GoodLoadsAre(loaded, requests, env, now);
    if requests != [] {
      var n := |requests| - 1;
      Speculated(loaded[..n], requests[..n], env, now);
      BucketTried(loaded[n], requests[n], env[requests[n].policy.id], now);
    }
  }

  /** A bucket of an admitted batch: debited by exactly its cost, and full again from its Reset on. */
  ghost predicate Debited(loaded: Option<State>, r: Request, f: Family, now: int, s: State, d: Decision)
    requires GoodLoad(loaded, r, f, now)
  {
    var ready := Ready(loaded, r, now);
    && FullFrom(s.AsBucket(), r.policy, d.reset)
    && Written(s, f) && s.revision == r.policy.revision && s.observed == now
    && s.AsBucket() == ready.(tokens := ready.tokens - r.cost)
    && CompleteAllowed(d, r) && d.remaining == ready.tokens - r.cost >= 0
    && d.backend == "postgres" && d.policyRevision == r.policy.revision
  }

  /** A bucket of a rejected batch: reported at its exact refilled balance, whether it was short or not, with the
      instant it is full again. */
  ghost predicate Untouched(loaded: Option<State>, r: Request, now: int, d: Decision)
    requires 0 < r.policy.period && 1 <= r.policy.capacity
  {
    var ready := Ready(loaded, r, now);
    && FullFrom(ready, r.policy, d.reset)
    && !d.allowed && d.limit == r.policy.Limit() && d.remaining == ready.tokens <= r.policy.Limit()
    && d.reset >= now >= -MAX_EXACT && d.backend == "postgres" && d.policyRevision == r.policy.revision
    && (if ready.tokens >= r.cost then d.reason == AtomicRejected && d.retryAfter == 0
        else d.reason == Limited && d.retryAfter == Wait(r.cost - ready.tokens, ready.remainder, r.policy)
             && 1 <= d.retryAfter <= Wait(r.cost, 0, r.policy))
  }

  lemma {:induction false} WaitShrinks(cost: int, tokens: int, remainder: int, p: Policy)
    requires TokenPolicy(p) && 0 <= tokens < cost && 0 <= remainder < p.period
    ensures 1 <= Wait(cost - tokens, remainder, p) <= Wait(cost, 0, p)
  {
    hide CeilDiv, ExactProduct;
    WaitPositive(cost - tokens, remainder, p);
    var q := CeilDiv(cost * p.period, p.capacity);
    CeilDivLeast(cost * p.period, p.capacity, q);
    assert (cost - tokens) * p.period == cost * p.period - tokens * p.period;
    MulMonotone(0, tokens, p.period);
    CeilDivLeast((cost - tokens) * p.period - remainder, p.capacity, q);
  }

  lemma {:induction false} RestoredUntouched(
    loaded: Option<State>, r: Request, f: Family, now: int, s: State, d: Decision)
    requires GoodLoad(loaded, r, f, now) && Tried(loaded, r, f, now, s, d)
    ensures Untouched(loaded, r, now, Restore(d, s, r, now))
  {
    hide Refill, Wait, ExactProduct, Written, Row, Ready, TokenDuration, FullFrom;
    var p, ready := r.policy, Ready(loaded, r, now);
    PeriodBound(p) by { assert ExactProduct(p.Limit(), p.period); }
    FullAfterWait(ready, p);
    if d.allowed {
      assert (s.tokens + r.cost) % WORD == ready.tokens;
      assert (p.Limit() - ready.tokens) % WORD == p.Limit() - ready.tokens && s.remainder % WORD == ready.remainder;
    } else {
      WaitShrinks(r.cost, ready.tokens, ready.remainder, p);
    }
  }

  lemma {:induction false} TriedDebited(loaded: Option<State>, r: Request, f: Family, now: int, s: State, d: Decision)
    requires GoodLoad(loaded, r, f, now) && Tried(loaded, r, f, now, s, d) && d.allowed
    ensures Debited(loaded, r, f, now, s, d)
  {
    hide Ready, Wait, Written, Row, FullFrom, ExactProduct;
    FullAfterWait(s.AsBucket(), r.policy);
  }

  /** The whole batch: admitted exactly when every bucket suffices; then each is debited by its own cost,
      otherwise none is and each is reported as it stands. */
  ghost predicate AllOrNothing(loaded: seq<Option<State>>, requests: seq<Request>, env: Families, now: int, t: Trial)
    requires GoodLoads(loaded, requests, env, now)
  {
    match t
    case TrialFail(e) => e == ErrOverflow
    case Trial(states, receipt) =>
      && |receipt.decisions| == |requests|
      && (receipt.allowed <==> forall i :: 0 <= i < |requests| ==> Sufficient(loaded[i], requests[i], now))
      && (receipt.allowed ==>
            && |states| == |requests|
            && forall i :: 0 <= i < |requests| ==>
                 Debited(loaded[i], requests[i], env[requests[i].policy.id], now, states[i], receipt.decisions[i]))
      && (!receipt.allowed ==>
            && states == []
            && forall i :: 0 <= i < |requests| ==> Untouched(loaded[i], requests[i], now, receipt.decisions[i]))
  }

  lemma {:induction false} BatchAllOrNothing(
    loaded: seq<Option<State>>, requests: seq<Request>, env: Families, now: int)
    requires GoodLoads(loaded, requests, env, now)
    ensures Loadable(loaded) && TokenRequests(requests)
    ensures AllOrNothing(loaded, requests, env, now, Conclude(loaded, requests, now))
  {
    hide GoodLoad, Tried, Untouched, Debited, Restore, Speculate, Sufficient;
    Speculated(loaded, requests, env, now);
    var t := Speculate(loaded, requests, now);
    if t.Trial? {
      var states, receipt := t.states, t.receipt;
      forall i | 0 <= i < |requests|
        ensures receipt.decisions[i].allowed <==> Sufficient(loaded[i], requests[i], now)
        ensures receipt.decisions[i].allowed ==>
                  Debited(loaded[i], requests[i], env[requests[i].policy.id], now, states[i], receipt.decisions[i])
        ensures Untouched(loaded[i], requests[i], now, Restore(receipt.decisions[i], states[i], requests[i], now))
      {
        var f := env[requests[i].policy.id];
        TriedAllowed(loaded[i], requests[i], f, now, states[i], receipt.decisions[i]);
        RestoredUntouched(loaded[i], requests[i], f, now, states[i], receipt.decisions[i]);
        if receipt.decisions[i].allowed {
          TriedDebited(loaded[i], requests[i], f, now, states[i], receipt.decisions[i]);
        }
      }
    }
  }

  lemma TriedAllowed(loaded: Option<State>, r: Request, f: Family, now: int, s: State, d: Decision)
    requires GoodLoad(loaded, r, f, now) && Tried(loaded, r, f, now, s, d)
    ensures d.allowed <==> Sufficient(loaded, r, now)
  {
  }

  // ---------------------------------------------------------------- receipts

  /** What decodeAtomicReceipt demands of one stored decision. */
  predicate EntryOk(d: Decision, r: Request, allowed: bool)
    requires TokenPolicy(r.policy)
  {
    && d.limit == r.policy.Limit() && d.remaining <= d.limit
    && d.backend == "postgres" && d.policyRevision == r.policy.revision && d.reset != ZERO_TIME
    && (if allowed then
          d.allowed && d.reason == Allowed && d.retryAfter == 0 && d.remaining <= d.limit - r.cost
        else
          && !d.allowed
          && (if d.reason == Limited then
                d.remaining < r.cost && 0 < d.retryAfter <= TokenDuration(r.cost, 0, r.policy)
              else d.reason == AtomicRejected && d.remaining >= r.cost && d.retryAfter == 0))
  }

  ghost predicate ReceiptOk(receipt: Receipt, requests: seq<Request>)
    requires TokenRequests(requests)
  {
    && |receipt.decisions| == |requests|
    && (forall i :: 0 <= i < |requests| ==> EntryOk(receipt.decisions[i], requests[i], receipt.allowed))
    && (!receipt.allowed ==> exists i :: 0 <= i < |requests| && receipt.decisions[i].reason == Limited)
  }

  /** decodeAtomicReceipt: one pass with a running `limited` flag. */
  method DecodeReceipt(receipt: Receipt, requests: seq<Request>) returns (ok: bool)
    requires TokenRequests(requests)
    ensures ok <==> ReceiptOk(receipt, requests)
  {
    if |receipt.decisions| != |requests| {
      return false;
    }
    var limited := false;
    for i := 0 to |requests|
      invariant forall j :: 0 <= j < i ==> EntryOk(receipt.decisions[j], requests[j], receipt.allowed)
      invariant limited <==> !receipt.allowed && exists j :: 0 <= j < i && receipt.decisions[j].reason == Limited
    {
      var d := receipt.decisions[i];
      if !EntryOk(d, requests[i], receipt.allowed) {
        return false;
      }
      if !receipt.allowed && d.reason == Limited {
        limited := true;
      }
    }
    return receipt.allowed || limited;
  }

  /** Every receipt a batch writes is one its own replay accepts, the RetryAfter bound included. */
  lemma {:induction false} WrittenReceiptDecodes(
    loaded: seq<Option<State>>, requests: seq<Request>, env: Families, now: int)
    requires GoodLoads(loaded, requests, env, now)
    ensures Loadable(loaded) && TokenRequests(requests)
    ensures var t := Conclude(loaded, requests, now); t.Trial? ==> ReceiptOk(t.receipt, requests)
  {
    hide Conclude, GoodLoad, Ready, EntryOk, Debited, Untouched, Sufficient;
    BatchAllOrNothing(loaded, requests, env, now);
    var t := Conclude(loaded, requests, now);
    if t.Trial? {
      forall i | 0 <= i < |requests| ensures EntryOk(t.receipt.decisions[i], requests[i], t.receipt.allowed) {
        if t.receipt.allowed {
          DebitedEntry(loaded[i], requests[i], env[requests[i].policy.id], now, t.states[i], t.receipt.decisions[i]);
        } else {
          UntouchedEntry(loaded[i], requests[i], now, t.receipt.decisions[i]);
        }
      }
      if !t.receipt.allowed {
        var i :| 0 <= i < |requests| && !Sufficient(loaded[i], requests[i], now);
        UntouchedEntry(loaded[i], requests[i], now, t.receipt.decisions[i]);
      }
    }
  }

  lemma {:induction false} DebitedEntry(loaded: Option<State>, r: Request, f: Family, now: int, s: State, d: Decision)
    requires GoodLoad(loaded, r, f, now) && Debited(loaded, r, f, now, s, d)
    ensures TokenPolicy(r.policy) && EntryOk(d, r, true)
  {
    hide Ready, TokenDuration, Written, Row, FullFrom;
  }

  lemma {:induction false} UntouchedEntry(loaded: Option<State>, r: Request, now: int, d: Decision)
    requires r.Sized() && r.policy.algorithm == TokenBucket && Untouched(loaded, r, now, d)
    ensures EntryOk(d, r, false)
    ensures !Sufficient(loaded, r, now) ==> d.reason == Limited
  {
    hide Ready, Wait, TokenDuration, ExactProduct, FullFrom;
    DurationIsWait(r.cost, r.policy);
  }

  lemma DurationIsWait(cost: u64, p: Policy)
    requires TokenPolicy(p) && cost <= p.Limit()
    ensures TokenDuration(cost, 0, p) == Wait(cost, 0, p)
  {
  }

  /** A stored decision decodes exactly if it is this store's and revision's, and a complete admission, a complete
      rejection with a wait no longer than its whole cost takes, or a bucket spared. */
  lemma EntryExact(d: Decision, r: Request)
    requires r.Sized() && TokenPolicy(r.policy)
    ensures EntryOk(d, r, true) <==>
              FullAdmission(d, r) && d.backend == "postgres" && d.policyRevision == r.policy.revision
    ensures EntryOk(d, r, false) <==>
              && d.backend == "postgres" && d.policyRevision == r.policy.revision && d.remaining <= r.policy.Limit()
              && ((FullRejection(d, r) && 0 < d.retryAfter <= Wait(r.cost, 0, r.policy)) || Spared(d, r))
  {
    hide Wait, TokenDuration, ExactProduct;
    DurationIsWait(r.cost, r.policy);
  }

  /** A decision of a bucket that had enough in a batch that was rejected. */
  ghost predicate Spared(d: Decision, r: Request)
  {
    && d == Decision(false, d.remaining, r.policy.Limit(), d.reset, 0, AtomicRejected, d.backend, d.policyRevision)
    && r.cost <= d.remaining <= r.policy.Limit() && d.reset != ZERO_TIME
  }

  // -------------------------------------------------------- service boundary

  /** What AdmitAtomicBatch accepts of one decision in a rejected batch that was not itself short. */
  predicate SparedOk(d: Decision, r: Request)
  {
    && !d.allowed && d.reason == AtomicRejected && d.limit == r.policy.Limit()
    && r.cost <= d.remaining <= r.policy.Limit() && d.reset != ZERO_TIME && d.retryAfter == 0
  }

  /** One decision of a complete batch. */
  predicate Fits(d: Decision, r: Request, allowed: bool)
  {
    if allowed then CompleteAllowed(d, r) else CompleteRejected(d, r) || SparedOk(d, r)
  }

  /** The complete results AdmitAtomicBatch believes. */
  ghost predicate Believed(receipt: Receipt, requests: seq<Request>)
  {
    && |receipt.decisions| == |requests|
    && (receipt.allowed ==> forall i :: 0 <= i < |requests| ==> CompleteAllowed(receipt.decisions[i], requests[i]))
    && (!receipt.allowed ==>
          && (forall i :: 0 <= i < |requests| ==>
                CompleteRejected(receipt.decisions[i], requests[i]) || SparedOk(receipt.decisions[i], requests[i]))
          && exists i :: 0 <= i < |requests| && CompleteRejected(receipt.decisions[i], requests[i]))
  }

  /** AtomicBatchDecision: a command ID and the outcome bound to it. */
  datatype BatchDecision = BatchDecision(commandId: string, receipt: Receipt)
  {
    predicate Empty() { commandId == "" && !receipt.allowed && receipt.decisions == [] }
  }

  const NO_RECEIPT := Receipt(false, [])

  /** A complete result that matches the error it came with. */
  ghost predicate Accepted(raw: BatchDecision, b: Batch, error: GoError)
  {
    && raw.commandId == b.commandId && Believed(raw.receipt, b.requests)
    && (if raw.receipt.allowed then error == NoError else Declare(error) == Safe(ErrRejected))
  }

  datatype BatchAnswer = BatchAnswer(decision: BatchDecision, error: GoError)

  function Stamped(receipt: Receipt, requests: seq<Request>, name: string): Receipt
    requires |receipt.decisions| == |requests|
  {
    receipt.(decisions := seq(|requests|, i requires 0 <= i < |requests| =>
                                Stamp(receipt.decisions[i], requests[i].policy, name)))
  }

  /** A category the service passes on when the backend returned nothing else with it. */
  predicate KnownRefusal(error: GoError)
  {
    Declare(error).Safe? && Declare(error).category != ErrRejected && Applicable(Declare(error).category, AdmitMethod)
  }

  /** AdmitAtomicBatch after dispatch; `context` is how the caller's context stands then. */
  ghost function BatchResult(
    name: string, context: OutcomeKind, b: Batch, raw: BatchDecision, error: GoError): BatchAnswer
  {
    if Accepted(raw, b, error) then
      BatchAnswer(BatchDecision(b.commandId, Stamped(raw.receipt, b.requests, name)), error)
    else if raw.Empty() && (Declare(error).Declared? || KnownRefusal(error)) then
      BatchAnswer(BatchDecision(b.commandId, NO_RECEIPT), error)
    else BatchAnswer(BatchDecision(b.commandId, NO_RECEIPT), Outcome(UnknownKind, context))
  }

  /** The acceptance loop of AdmitAtomicBatch, with its two flags. */
  method AcceptBatch(raw: BatchDecision, b: Batch, error: GoError) returns (accepted: bool)
    ensures accepted <==> Accepted(raw, b, error)
  {
    var receipt, requests := raw.receipt, b.requests;
    if raw.commandId != b.commandId || |receipt.decisions| != |requests| {
      return false;
    }
    var rejected, valid := false, true;
    for i := 0 to |requests|
      invariant rejected <==>
                  !receipt.allowed && exists j :: 0 <= j < i && CompleteRejected(receipt.decisions[j], requests[j])
      invariant valid <==> forall j :: 0 <= j < i ==> Fits(receipt.decisions[j], requests[j], receipt.allowed)
    {
      var d, r := receipt.decisions[i], requests[i];
      if receipt.allowed {
        valid := valid && CompleteAllowed(d, r);
      } else if CompleteRejected(d, r) {
        rejected := true;
      } else {
        valid := valid && SparedOk(d, r);
      }
    }
    return valid && (if receipt.allowed then error == NoError else rejected && Declare(error) == Safe(ErrRejected));
  }

  /** The whole of AdmitAtomicBatch after dispatch: accept and stamp, pass a known failure on, or report unknown. */
  method JudgeBatch(name: string, context: OutcomeKind, b: Batch, raw: BatchDecision, error: GoError)
    returns (answer: BatchAnswer)
    ensures answer == BatchResult(name, context, b, raw, error)
  {
    var accepted := AcceptBatch(raw, b, error);
    if accepted {
      var decisions := raw.receipt.decisions;
      for i := 0 to |decisions|
        invariant |decisions| == |b.requests|
        invariant forall j :: 0 <= j < i ==> decisions[j] == Stamp(raw.receipt.decisions[j], b.requests[j].policy, name)
        invariant forall j :: i <= j < |decisions| ==> decisions[j] == raw.receipt.decisions[j]
      {
        decisions := decisions[i := Stamp(decisions[i], b.requests[i].policy, name)];
      }
      assert raw.receipt.(decisions := decisions) == Stamped(raw.receipt, b.requests, name);
      return BatchAnswer(raw.(receipt := raw.receipt.(decisions := decisions)), error);
    }
    if raw.Empty() {
      if Declare(error).Declared? { return BatchAnswer(BatchDecision(b.commandId, NO_RECEIPT), error); }
      if KnownRefusal(error) { return BatchAnswer(BatchDecision(b.commandId, NO_RECEIPT), error); }
    }
    return BatchAnswer(BatchDecision(b.commandId, NO_RECEIPT), Outcome(UnknownKind, context));
  }

  /** What AdmitAtomicBatch accepts, in terms of complete decisions, and the one empty result it passes errors on
      for. */
  lemma AcceptedExactly(raw: BatchDecision, b: Batch, error: GoError)
    ensures Accepted(raw, b, error) <==>
              && raw.commandId == b.commandId && |raw.receipt.decisions| == |b.requests|
              && (if raw.receipt.allowed then
                    && error == NoError
                    && forall i :: 0 <= i < |b.requests| ==> FullAdmission(raw.receipt.decisions[i], b.requests[i])
                  else
                    && Categorised(error, {ErrRejected})
                    && (forall i :: 0 <= i < |b.requests| ==>
                         || FullRejection(raw.receipt.decisions[i], b.requests[i])
                         || Spared(raw.receipt.decisions[i], b.requests[i]))
                    && exists i :: 0 <= i < |b.requests| && FullRejection(raw.receipt.decisions[i], b.requests[i]))
    ensures raw.Empty() <==> raw == BatchDecision("", NO_RECEIPT)
    ensures KnownRefusal(error) <==> Categorised(error, {ErrUnavailable, ErrOverflow, ErrCorrupt, ErrUnsupported})
  {
    var d, q := raw.receipt.decisions, b.requests;
    if |d| == |q| {
      assert forall i :: 0 <= i < |q| ==> (CompleteAllowed(d[i], q[i]) <==> FullAdmission(d[i], q[i]));
      assert forall i :: 0 <= i < |q| ==> (CompleteRejected(d[i], q[i]) <==> FullRejection(d[i], q[i]));
      assert forall i :: 0 <= i < |q| ==> (SparedOk(d[i], q[i]) <==> Spared(d[i], q[i]));
    }
  }

  ghost predicate Unknowing(e: GoError) { e.Outcome? && e.kind == UnknownKind }

  /** Exactly when a batch's outcome is reported unknown: the result is not a complete one that fits its error,
      and it is not an empty one with a canceled, deadline or applicable safe error. */
  lemma UnknownExactly(name: string, context: OutcomeKind, b: Batch, raw: BatchDecision, error: GoError)
    ensures Unknowing(BatchResult(name, context, b, raw, error).error) <==>
              && !Accepted(raw, b, error)
              && !(raw.Empty() && (KnownRefusal(error) || (Declare(error).Declared? && error.kind != UnknownKind)))
  {
  }

  /** Protected work may proceed exactly on a complete admitted batch. */
  lemma BatchFailsClosed(name: string, context: OutcomeKind, b: Batch, raw: BatchDecision, error: GoError)
    ensures var a := BatchResult(name, context, b, raw, error);
            a.error == NoError && a.decision.receipt.allowed <==> Accepted(raw, b, error) && raw.receipt.allowed
  {
  }

  /** The service never relabels a receipt the backend decoded or wrote: whatever decodes is believed. */
  lemma {:induction false} DecodedIsBelieved(receipt: Receipt, requests: seq<Request>)
    requires TokenRequests(requests) && ReceiptOk(receipt, requests)
    ensures Believed(receipt, requests)
  {
    hide TokenDuration;
    if !receipt.allowed {
      var i :| 0 <= i < |requests| && receipt.decisions[i].reason == Limited;
      assert EntryOk(receipt.decisions[i], requests[i], false);
      assert CompleteRejected(receipt.decisions[i], requests[i]);
    }
  }
}
