// The in-process token bucket. Its refill adds earned tokens in a wrapping
// uint64, which the PostgreSQL one does not, so the two agree exactly where that
// sum does not wrap.
module MemoryTokens {
  import opened Arithmetic
  import opened Policies
  import opened TokenBucket
  import opened PersistedStates

  /** Whole tokens earned since the last refill, from a saturated clock difference. */
  function Earned(b: Bucket, p: Policy, now: int): int
    requires 0 < p.period
  {
    (SatSub(now, b.last) * p.capacity + b.remainder) / p.period
  }

  /** refill of the memory store. */
  function MemoryRefill(b: Bucket, p: Policy, now: int): Bucket
    requires 0 < p.period
  {
    if now <= b.last then b
    else if b.tokens == p.Limit() then Bucket(p.Limit(), 0, now)
    else
      var earned := Earned(b, p, now);
      if earned >= WORD then Bucket(p.Limit(), 0, now)
      else
        var sum := if b.tokens + earned < WORD then b.tokens + earned else b.tokens + earned - WORD;
        var tokens := Min(sum, p.Limit());
        Bucket(tokens, if tokens == p.Limit() then 0
          else (SatSub(now, b.last) * p.capacity + b.remainder) % p.period, now)
  }

  /** The earned tokens fit a word but their sum with the balance does not. */
  predicate Wraps(b: Bucket, p: Policy, now: int)
    requires 0 < p.period
  {
    b.last < now && b.tokens < p.Limit() && Earned(b, p, now) < WORD <= b.tokens + Earned(b, p, now)
  }

  /** The memory refill is the PostgreSQL one if and only if the sum does not wrap. */
  lemma {:induction false} MemoryRefillExact(b: Bucket, p: Policy, now: int)
    requires TokenPolicy(p) && Sound(b, p)
    ensures MemoryRefill(b, p, now) == Refill(b, p, now) <==> !Wraps(b, p, now)
  {
    if b.last < now && b.tokens < p.Limit() {
      var elapsed, span := SatSub(now, b.last), now - b.last;
      var n := elapsed * p.capacity + b.remainder;
      MulMonotone(0, elapsed, p.capacity);
      DivMonotone(0, n, p.period);
      EarnedAgrees(b, p, now);
    }
  }

  /** Saturation does not show: both differences fill the bucket, or they are equal. */
  lemma {:induction false} EarnedAgrees(b: Bucket, p: Policy, now: int)
    requires TokenPolicy(p) && Sound(b, p) && b.last < now && b.tokens < p.Limit()
    ensures var n := SatSub(now, b.last) * p.capacity + b.remainder;
            Refill(b, p, now) == if n / p.period >= p.Limit() - b.tokens then Bucket(p.Limit(), 0, now)
                                 else Bucket(b.tokens + n / p.period, n % p.period, now)
  {
    Saturated(p, SatSub(now, b.last), now - b.last, b.remainder, b.tokens);
  }

  /** Where it wraps, waiting has taken tokens away. */
  lemma WrapLoses(b: Bucket, p: Policy, now: int)
    requires TokenPolicy(p) && Sound(b, p) && Wraps(b, p, now)
    ensures MemoryRefill(b, p, now).tokens < b.tokens
  {
  }

  /** A policy this slow per microsecond never wraps, whatever the clocks. */
  lemma {:induction false} SlowNeverWraps(b: Bucket, p: Policy, now: int)
    requires TokenPolicy(p) && Sound(b, p) && p.capacity <= 1998 * p.period
    ensures !Wraps(b, p, now)
  {
    if b.last < now {
      var elapsed := SatSub(now, b.last);
      MulMonotone(p.capacity, 1998 * p.period, elapsed);
      MulMonotone(elapsed, MAX_DURATION, 1998 * p.period);
      DivMonotone(elapsed * p.capacity + b.remainder, (1998 * MAX_DURATION + 1) * p.period, p.period);
      DivShift(0, 1998 * MAX_DURATION + 1, p.period);
    }
  }

  /** The largest rate a policy may have. */
  const FASTEST := Policy("p", "1", TokenBucket, MAX_EXACT, 1, 0, MAX_EXACT, FailClosed, ProcessLocal, 0)

  /** One request drains a fresh bucket of the fastest policy to 5000 tokens; 2048 microseconds later the refill wraps
      and 2952 are left, where PostgreSQL has a full bucket. */
  lemma WrapExample()
    ensures var drained := TokenStep(MemoryRefill(Fresh(FASTEST, 0), FASTEST, 0), FASTEST, MAX_EXACT - 5000, 0);
            && TokenPolicy(FASTEST) && MAX_EXACT - 5000 <= FASTEST.maxCost
            && !drained.rejected && drained.bucket == Bucket(5000, 0, 0) && Wraps(drained.bucket, FASTEST, 2048)
            && MemoryRefill(drained.bucket, FASTEST, 2048) == Bucket(2952, 0, 2048)
            && Refill(drained.bucket, FASTEST, 2048) == Bucket(MAX_EXACT, 0, 2048)
  {
    assert IdentifierChar("p"[0]) && IdentifierChar("1"[0]);
    assert Earned(Bucket(5000, 0, 0), FASTEST, 2048) == 2048 * MAX_EXACT == WORD - 2048;
  }

  /** The double-word product, carry and quotient of refill. */
  lemma {:induction false} EarnedWords(elapsed: u64, capacity: u64, remainder: u64, period: u64)
    requires elapsed <= MAX_DURATION && capacity <= MAX_EXACT && 0 < period
    ensures var (high, low) := Mul64(elapsed, capacity);
            var (low', carry) := Add64(low, remainder);
            var high' := Add64(high, carry).0;
            var n := high' * WORD + low';
            n == elapsed * capacity + remainder && (high' >= period <==> n / period >= WORD)
  {
    var (high, low) := Mul64(elapsed, capacity);
    var (low', carry) := Add64(low, remainder);
    HighWord(elapsed, capacity, high, low);
    var high' := Add64(high, carry).0;
    var n := high' * WORD + low';
    assert (high + carry) * WORD == high * WORD + carry * WORD;
    if high' >= period {
      MulMonotone(period, high', WORD);
      DivMonotone(WORD * period, n, period);
      DivShift(0, WORD, period);
    } else {
      DivWords(high', low', period);
    }
  }

  /** The token fields of a memory store entry, updated in place. */
  class Counter {
    var tokens: u64
    var remainder: u64
    var lastRefill: int

    ghost function View(): Bucket
      reads this
    {
      Bucket(tokens, remainder, lastRefill)
    }

    constructor (p: Policy, now: int)
      requires p.Limit() <= MAX_EXACT
      ensures View() == Fresh(p, now)
    {
      tokens, remainder, lastRefill := p.Limit(), 0, now;
    }

    method RefillTokens(p: Policy, now: int)
      requires TokenPolicy(p) && Sound(View(), p)
      modifies this
      ensures View() == MemoryRefill(old(View()), p, now) && remainder < p.period
    {
      if now <= lastRefill { return; }
      if tokens == p.Limit() {
        lastRefill, remainder := now, 0;
        return;
      }
      PeriodBound(p);
      var elapsed := SatSub(now, lastRefill);
      EarnedWords(elapsed, p.capacity, remainder, p.period);
      var (high, low) := Mul64(elapsed, p.capacity);
      var (low', carry) := Add64(low, remainder);
      var high' := Add64(high, carry).0;
      if high' >= p.period {
        tokens, remainder, lastRefill := p.Limit(), 0, now;
        return;
      }
      var (earned, rest) := Div64(high', low', p.period);
      DivUnique(high' * WORD + low', p.period, earned);
      tokens := Min(WrapAdd(tokens, earned), p.Limit());
      if tokens == p.Limit() { remainder := 0; } else { remainder := rest; }
      lastRefill := now;
    }

    /** admitToken: what the PostgreSQL step does to the bucket the memory refill left. */
    method Admit(p: Policy, cost: u64, now: int) returns (decision: Decision, rejected: bool)
      requires TokenPolicy(p) && Sound(View(), p) && 1 <= cost <= p.Limit()
      modifies this
      ensures var t := TokenStep(MemoryRefill(old(View()), p, now), p, cost, now);
              View() == t.bucket && decision == t.decision && rejected == t.rejected
    {
      RefillTokens(p, now);
      PeriodBound(p);
      var limit := p.Limit();
      if tokens < cost {
        var retry := TokenDuration(cost - tokens, remainder, p);
        var reset := TokenDuration(limit - tokens, remainder, p);
        return Decision(false, tokens, limit, now + reset, retry, Limited, "", ""), true;
      }
      tokens := tokens - cost;
      var reset := TokenDuration(limit - tokens, remainder, p);
      return Decision(true, tokens, limit, now + reset, 0, Allowed, "", ""), false;
    }
  }

  /** Hence a memory bucket that does not wrap decides and stores what a PostgreSQL one does. */
  lemma {:induction false} MemoryStepExact(b: Bucket, p: Policy, cost: int, now: int)
    requires TokenPolicy(p) && Sound(b, p) && !Wraps(b, p, now)
    ensures TokenStep(MemoryRefill(b, p, now), p, cost, now) == TokenStep(b, p, cost, now)
  {
    MemoryRefillExact(b, p, now);
    RefillIdle(Refill(b, p, now), p);
  }
}
