// The token bucket as a specification: what mutateToken stores and decides,
// written without machine words, and the laws every run of it obeys.
module TokenBucket {
  import opened Arithmetic
  import opened Policies

  /** The three persisted fields a token bucket uses. */
  datatype Bucket = Bucket(tokens: int, remainder: int, last: int)

  ghost predicate TokenPolicy(p: Policy) { p.Valid() && p.algorithm == TokenBucket }

  ghost predicate Sound(b: Bucket, p: Policy)
  {
    && 0 <= b.tokens <= p.Limit()
    && 0 <= b.remainder < p.period
    && (b.tokens == p.Limit() ==> b.remainder == 0)
  }

  /** Tokens in units of 1/period of a token: the exact balance. */
  function Balance(b: Bucket, p: Policy): int { b.tokens * p.period + b.remainder }

  function Fresh(p: Policy, now: int): Bucket { Bucket(p.Limit(), 0, now) }

  function Refill(b: Bucket, p: Policy, now: int): Bucket
    requires 0 < p.period
  {
    if now <= b.last then b
    else if b.tokens >= p.Limit() then b.(last := now)
    else
      var numerator := (now - b.last) * p.capacity + b.remainder;
      if numerator / p.period >= p.Limit() - b.tokens then Bucket(p.Limit(), 0, now)
      else Bucket(b.tokens + numerator / p.period, numerator % p.period, now)
  }

  /** Microseconds until `tokens` more tokens are there, rounded up. */
  function Wait(tokens: int, remainder: int, p: Policy): int
    requires 1 <= p.capacity
  {
    if tokens == 0 then 0 else CeilDiv(tokens * p.period - remainder, p.capacity)
  }

  datatype TokenResult = TokenResult(bucket: Bucket, decision: Decision, rejected: bool)

  function TokenStep(b: Bucket, p: Policy, cost: int, now: int): TokenResult
    requires 0 < p.period && 1 <= p.capacity
  {
    var full := Refill(b, p, now);
    var limit := p.Limit();
    if full.tokens < cost then
      TokenResult(full,
        Decision(false, full.tokens, limit, now + Wait(limit - full.tokens, full.remainder, p),
                 Wait(cost - full.tokens, full.remainder, p), Limited, "", ""), true)
    else
      var left := full.(tokens := full.tokens - cost);
      TokenResult(left,
        Decision(true, left.tokens, limit, now + Wait(limit - left.tokens, left.remainder, p), 0, Allowed, "", ""),
          false)
  }

  // --------------------------------------------------------- 64-bit durations

  /** tokenDuration, over machine words and with its clamping branches. */
  function TokenDuration(tokens: u64, remainder: u64, p: Policy): (d: int)
    requires TokenPolicy(p)
    ensures 0 <= d <= MAX_DURATION
    ensures tokens <= p.Limit() && remainder < p.period ==> d == Wait(tokens, remainder, p) <= MAX_EXACT
  {
    PeriodBound(p);
    if tokens == 0 then 0
    else
      var (high, low) := Mul64(tokens, p.period);
      var (low', borrow) := Sub64(low, remainder);
      var high' := Sub64(high, borrow).0;
      WaitWords(tokens, remainder, p);
      if high' >= p.capacity then MAX_DURATION
      else
        var (micros, rest) := Div64(high', low', p.capacity);
        var micros' := if rest != 0 then WrapAdd(micros, 1) else micros;
        if micros' > MAX_DURATION then MAX_DURATION else micros'
  }

  lemma {:induction false} PeriodBound(p: Policy)
    requires TokenPolicy(p)
    ensures p.period <= MAX_EXACT
  {
    MulMonotone(1, p.Limit(), p.period);
  }

  /** No clamp of TokenDuration fires for a sound bucket: the product fits one word. */
  lemma {:induction false} WaitWords(tokens: u64, remainder: u64, p: Policy)
    requires TokenPolicy(p) && p.period <= MAX_EXACT && 1 <= tokens
    ensures tokens <= p.Limit() && remainder < p.period ==>
              var words := Mul64(tokens, p.period);
              words.0 == 0 && words.1 == tokens * p.period
              && 0 < words.1 - remainder <= MAX_EXACT
              && 0 <= Wait(tokens, remainder, p) <= MAX_EXACT
  {
    if tokens <= p.Limit() && remainder < p.period {
      MulMonotone(tokens, p.Limit(), p.period);
      MulMonotone(1, tokens, p.period);
      var n := tokens * p.period - remainder;
      CeilDivLeast(n, p.capacity, n);
      MulMonotone(1, p.capacity, n);
      CeilDivLeast(n, p.capacity, 0);
    }
  }

  // ------------------------------------------------------------- refill laws

  ghost function Elapsed(b: Bucket, now: int): int { Max(0, now - b.last) }

  /** Tokens and remainder are the quotient and remainder of the balance. */
  lemma {:induction false} BalanceSplits(b: Bucket, p: Policy)
    requires TokenPolicy(p) && Sound(b, p)
    ensures 0 <= Balance(b, p) <= p.Limit() * p.period
    ensures Balance(b, p) / p.period == b.tokens && Balance(b, p) % p.period == b.remainder
    ensures forall c :: b.tokens >= c <==> Balance(b, p) >= c * p.period
    ensures b.tokens == p.Limit() <==> Balance(b, p) == p.Limit() * p.period
  {
    DivUnique(Balance(b, p), p.period, b.tokens);
    MulMonotone(0, b.tokens, p.period);
    forall c ensures b.tokens >= c <==> Balance(b, p) >= c * p.period {
      if b.tokens >= c { MulMonotone(c, b.tokens, p.period); } else { MulMonotone(b.tokens + 1, c, p.period); }
    }
    if b.tokens < p.Limit() { MulMonotone(b.tokens + 1, p.Limit(), p.period); }
  }

  /** Refilling adds capacity per period to the exact balance, up to the limit, and loses nothing to rounding. */
  lemma {:induction false} RefillBalance(b: Bucket, p: Policy, now: int)
    requires TokenPolicy(p) && Sound(b, p)
    ensures var r := Refill(b, p, now);
            && Sound(r, p)
            && r.last == Max(b.last, now)
            && Balance(r, p) == Min(p.Limit() * p.period, Balance(b, p) + Elapsed(b, now) * p.capacity)
  {
    hide ExactProduct;
    BalanceSplits(b, p);
    MulMonotone(0, Elapsed(b, now), p.capacity);
    if now > b.last && b.tokens < p.Limit() {
      RefillCore(p.Limit(), p.period, b.tokens, b.remainder, (now - b.last) * p.capacity);
    }
  }

  /** Quotient and remainder of the grown balance, or the full bucket. */
  lemma {:induction false} RefillCore(limit: int, period: int, tokens: int, remainder: int, grown: int)
    requires 0 < period && 0 <= tokens < limit && 0 <= remainder < period && 0 <= grown
    ensures var added, rest := (grown + remainder) / period, (grown + remainder) % period;
            if added >= limit - tokens then tokens * period + remainder + grown >= limit * period
            else && 0 <= added && 0 <= rest < period
                 && (tokens + added) * period + rest == tokens * period + remainder + grown < limit * period
  {
    var n := grown + remainder;
    var added := n / period;
    DivBounds(n, period);
    DivMonotone(0, n, period);
    assert (tokens + added) * period == tokens * period + added * period;
    if added >= limit - tokens {
      MulMonotone(limit, tokens + added, period);
    } else {
      MulMonotone(tokens + added + 1, limit, period);
      assert (tokens + added + 1) * period == (tokens + added) * period + period;
    }
  }

  lemma {:induction false} RefillSound(b: Bucket, p: Policy, now: int)
    requires TokenPolicy(p) && Sound(b, p)
    ensures Sound(Refill(b, p, now), p) && Refill(b, p, now).last == Max(b.last, now)
  {
    RefillBalance(b, p, now);
  }

  lemma RejectedRefills(b: Bucket, p: Policy, cost: int, now: int)
    requires TokenPolicy(p)
    ensures TokenStep(b, p, cost, now).rejected <==> Refill(b, p, now).tokens < cost
    ensures TokenStep(b, p, cost, now).rejected ==> TokenStep(b, p, cost, now).bucket == Refill(b, p, now)
  {
  }

  lemma RefillIdle(b: Bucket, p: Policy)
    requires 0 < p.period
    ensures Refill(b, p, b.last) == b
  {
  }

  /** Two buckets with one balance and one clock are one bucket. */
  lemma {:induction false} BalanceDetermines(a: Bucket, b: Bucket, p: Policy)
    requires TokenPolicy(p) && Sound(a, p) && Sound(b, p)
    requires Balance(a, p) == Balance(b, p) && a.last == b.last
    ensures a == b
  {
    BalanceSplits(a, p);
    BalanceSplits(b, p);
  }

  /** Path independence: intermediate refills leave tokens and remainder as a single refill would. */
  lemma {:induction false} RefillComposes(b: Bucket, p: Policy, mid: int, now: int)
    requires TokenPolicy(p) && Sound(b, p)
    ensures Refill(Refill(b, p, mid), p, now) == Refill(b, p, Max(mid, now))
  {
    hide Refill;
    var m := Refill(b, p, mid);
    RefillBalance(b, p, mid);
    RefillBalance(m, p, now);
    RefillBalance(b, p, Max(mid, now));
    var e1, e2 := Elapsed(b, mid), Elapsed(m, now);
    assert Elapsed(b, Max(mid, now)) == e1 + e2;
    assert (e1 + e2) * p.capacity == e1 * p.capacity + e2 * p.capacity;
    MulMonotone(0, e1, p.capacity);
    MulMonotone(0, e2, p.capacity);
    BalanceDetermines(Refill(m, p, now), Refill(b, p, Max(mid, now)), p);
  }

  lemma {:induction false} StepSound(b: Bucket, p: Policy, cost: int, now: int)
    requires TokenPolicy(p) && Sound(b, p) && 1 <= cost <= p.Limit()
    ensures var r := TokenStep(b, p, cost, now);
            && Sound(r.bucket, p)
            && r.bucket.last == Max(b.last, now)
            && Balance(r.bucket, p) ==
                 Balance(Refill(b, p, now), p) - (if r.rejected then 0 else cost * p.period)
  {
    hide Refill, Wait, ExactProduct;
    RefillBalance(b, p, now);
    var full := Refill(b, p, now);
    assert (full.tokens - cost) * p.period == full.tokens * p.period - cost * p.period;
  }

  lemma {:induction false} StepKeepsSound(b: Bucket, p: Policy, cost: int, now: int)
    requires TokenPolicy(p) && Sound(b, p) && 1 <= cost <= p.Limit()
    ensures Sound(TokenStep(b, p, cost, now).bucket, p)
    ensures TokenStep(b, p, cost, now).bucket.last == Max(b.last, now)
  {
    StepSound(b, p, cost, now);
  }

  /** Capacity is there once it has had time to refill: the waiting time is exact. */
  lemma {:induction false} WaitExact(b: Bucket, p: Policy, cost: int, now: int)
    requires TokenPolicy(p) && Sound(b, p) && b.tokens < cost <= p.Limit()
    requires b.last <= now
    ensures Refill(b, p, now).tokens >= cost <==> now - b.last >= Wait(cost - b.tokens, b.remainder, p)
    ensures Wait(cost - b.tokens, b.remainder, p) >= 1
  {
    hide Refill;
    var full, span := Refill(b, p, now), now - b.last;
    RefillBalance(b, p, now);
    BalanceSplits(full, p);
    WaitCore(p.Limit(), p.period, p.capacity, b.tokens, b.remainder, cost, span);
  }

  lemma {:induction false} WaitCore(
    limit: int, period: int, capacity: int, tokens: int, remainder: int, cost: int, span: int)
    requires 0 < period && 0 < capacity && tokens < cost <= limit && 0 <= remainder < period
    ensures var wait := CeilDiv((cost - tokens) * period - remainder, capacity);
            && wait >= 1
            && (Min(limit * period, tokens * period + remainder + span * capacity) >= cost * period <==> span >= wait)
  {
    MulMonotone(cost, limit, period);
    var need := (cost - tokens) * period - remainder;
    assert (cost - tokens) * period == cost * period - tokens * period;
    CeilDivLeast(need, capacity, span);
    MulMonotone(1, cost - tokens, period);
    CeilDivLeast(need, capacity, 0);
  }

  // ------------------------------------------------------------------- runs

  datatype Probe = Probe(cost: int, now: int)

  ghost predicate ValidProbes(p: Policy, probes: seq<Probe>)
  {
    forall i :: 0 <= i < |probes| ==> 1 <= probes[i].cost <= p.Limit()
  }

  /** One request, with a clock that went backwards clamped to the last one observed. */
  function Admit(b: Bucket, p: Policy, probe: Probe): TokenResult
    requires 0 < p.period && 1 <= p.capacity
  {
    TokenStep(b, p, probe.cost, Max(probe.now, b.last))
  }

  /** The bucket after a run of requests, oldest first. */
  function Run(b: Bucket, p: Policy, probes: seq<Probe>): Bucket
    requires 0 < p.period && 1 <= p.capacity
  {
    if probes == [] then b
    else
      var prefix := Run(b, p, probes[..|probes| - 1]);
      var probe := probes[|probes| - 1];
      Admit(prefix, p, probe).bucket
  }

  /** Total cost the run admitted. */
  function Admitted(b: Bucket, p: Policy, probes: seq<Probe>): int
    requires 0 < p.period && 1 <= p.capacity
  {
    if probes == [] then 0
    else
      var init := probes[..|probes| - 1];
      var probe := probes[|probes| - 1];
      Admitted(b, p, init) +
        (if Admit(Run(b, p, init), p, probe).rejected then 0 else probe.cost)
  }

  /** Conservation: what a run admits left the balance, which grew by capacity per period at most. */
  lemma {:induction false} RunConserves(b: Bucket, p: Policy, probes: seq<Probe>)
    requires TokenPolicy(p) && Sound(b, p) && ValidProbes(p, probes)
    ensures var e := Run(b, p, probes);
            && Sound(e, p) && e.last >= b.last
            && Admitted(b, p, probes) * p.period + Balance(e, p)
                 <= Balance(b, p) + (e.last - b.last) * p.capacity
  {
    hide Refill, TokenStep, Balance;
    if probes != [] {
      var init, probe := probes[..|probes| - 1], probes[|probes| - 1];
      RunConserves(b, p, init);
      var m := Run(b, p, init);
      var now := Max(probe.now, m.last);
      RefillBalance(m, p, now);
      StepSound(m, p, probe.cost, now);
      var e := Run(b, p, probes);
      assert (m.last - b.last) * p.capacity + (e.last - m.last) * p.capacity == (e.last - b.last) * p.capacity;
      assert (Admitted(b, p, init) + probe.cost) * p.period
          == Admitted(b, p, init) * p.period + probe.cost * p.period;
    }
  }

  /** Rate guarantee: over any span of a run, cost admitted is at most limit + span * capacity / period. */
  lemma {:induction false} RateGuarantee(b: Bucket, p: Policy, probes: seq<Probe>)
    requires TokenPolicy(p) && Sound(b, p) && ValidProbes(p, probes) && probes != []
    ensures var first := Max(b.last, probes[0].now);
            var last := Run(b, p, probes).last;
            && first <= last
            && Admitted(b, p, probes) * p.period <= p.Limit() * p.period + (last - first) * p.capacity
  {
    hide Refill, Run, Admitted;
    // Refilling to the first instant first changes nothing but the starting point of the span.
    var start := Refill(b, p, probes[0].now);
    RefillBalance(b, p, probes[0].now);
    BalanceSplits(start, p);
    StartRefilled(b, p, probes);
    RunConserves(start, p, probes);
    BalanceSplits(Run(start, p, probes), p);
  }

  lemma {:induction false} StartRefilled(b: Bucket, p: Policy, probes: seq<Probe>)
    requires TokenPolicy(p) && Sound(b, p) && ValidProbes(p, probes) && probes != []
    ensures var start := Refill(b, p, probes[0].now);
            && Run(start, p, probes) == Run(b, p, probes)
            && Admitted(start, p, probes) == Admitted(b, p, probes)
  {
    var init := probes[..|probes| - 1];
    var start := Refill(b, p, probes[0].now);
    if init == [] {
      RefillSound(b, p, probes[0].now);
      RefillComposes(b, p, probes[0].now, Max(probes[0].now, start.last));
      RefillComposes(b, p, probes[0].now, Max(probes[0].now, b.last));
      assert Run(start, p, init) == start && Run(b, p, init) == b;
    } else {
      assert init[0] == probes[0];
      StartRefilled(b, p, init);
    }
  }

  ghost predicate AllRejected(b: Bucket, p: Policy, probes: seq<Probe>)
    requires 0 < p.period && 1 <= p.capacity
  {
    probes == [] ||
    var init, probe := probes[..|probes| - 1], probes[|probes| - 1];
    AllRejected(b, p, init) && Admit(Run(b, p, init), p, probe).rejected
  }

  /** Any number of rejected probes is one refill. */
  lemma {:induction false} RejectedProbesRefill(b: Bucket, p: Policy, probes: seq<Probe>)
    requires TokenPolicy(p) && Sound(b, p) && ValidProbes(p, probes) && AllRejected(b, p, probes)
    ensures Run(b, p, probes) == Refill(b, p, Run(b, p, probes).last)
    ensures Run(b, p, probes).last >= b.last
  {
    hide Refill, TokenStep;
    RefillIdle(b, p);
    if probes != [] {
      var init, probe := probes[..|probes| - 1], probes[|probes| - 1];
      RejectedProbesRefill(b, p, init);
      var m := Run(b, p, init);
      var now := Max(probe.now, m.last);
      RejectedRefills(m, p, probe.cost, now);
      RefillSound(b, p, m.last);
      RefillSound(m, p, now);
      RefillComposes(b, p, m.last, now);
    }
  }

  /** Retry exactness: after a rejection at `now`, and whatever else was rejected meanwhile, the same
      request at t is admitted if and only if t has reached now + RetryAfter. */
  lemma {:induction false} RetryExact(b: Bucket, p: Policy, cost: int, now: int, probes: seq<Probe>, t: int)
    requires TokenPolicy(p) && Sound(b, p) && 1 <= cost <= p.Limit() && b.last <= now
    requires TokenStep(b, p, cost, now).rejected
    requires var after := TokenStep(b, p, cost, now).bucket;
             ValidProbes(p, probes) && AllRejected(after, p, probes) && Run(after, p, probes).last <= t
    ensures var first := TokenStep(b, p, cost, now);
            var later := TokenStep(Run(first.bucket, p, probes), p, cost, t);
            && first.decision.retryAfter >= 1
            && (!later.rejected <==> t >= now + first.decision.retryAfter)
  {
    hide Refill;
    var after := TokenStep(b, p, cost, now).bucket;
    RefillBalance(b, p, now);
    RejectedProbesRefill(after, p, probes);
    var m := Run(after, p, probes);
    RefillComposes(after, p, m.last, t);
    WaitExact(after, p, cost, t);
  }

  /** Reset is exact in the same sense: the bucket is full again from Reset on and not before. */
  lemma {:induction false} ResetExact(b: Bucket, p: Policy, cost: int, now: int, t: int)
    requires TokenPolicy(p) && Sound(b, p) && 1 <= cost <= p.Limit() && b.last <= now <= t
    ensures var r := TokenStep(b, p, cost, now);
            Refill(r.bucket, p, t) == Fresh(p, t) <==> t >= r.decision.reset
  {
    var r := TokenStep(b, p, cost, now);
    StepSound(b, p, cost, now);
    RefillBalance(r.bucket, p, t);
    if r.bucket.tokens < p.Limit() {
      WaitExact(r.bucket, p, p.Limit(), t);
    }
  }

  /** From its own clock on, the bucket is full again at `at` and not before. */
  ghost predicate FullFrom(b: Bucket, p: Policy, at: int)
    requires 0 < p.period
  {
    forall t :: t >= b.last ==> (Refill(b, p, t) == Fresh(p, t) <==> t >= at)
  }

  lemma {:induction false} FullAfterWait(b: Bucket, p: Policy)
    requires TokenPolicy(p) && Sound(b, p)
    ensures FullFrom(b, p, b.last + Wait(p.Limit() - b.tokens, b.remainder, p))
  {
    hide Wait;
    forall t | t >= b.last
      ensures Refill(b, p, t) == Fresh(p, t) <==> t >= b.last + Wait(p.Limit() - b.tokens, b.remainder, p)
    {
      RefillSound(b, p, t);
      if b.tokens < p.Limit() { WaitExact(b, p, p.Limit(), t); } else { NoWait(b, p); }
    }
  }

  lemma NoWait(b: Bucket, p: Policy)
    requires 1 <= p.capacity && b.tokens == p.Limit()
    ensures Wait(p.Limit() - b.tokens, b.remainder, p) == 0
  {
  }
}
