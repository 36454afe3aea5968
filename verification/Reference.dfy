// The rational-arithmetic oracle. big.Rat is exact, so a rational is a pair of
// integers compared by cross-multiplication; normalising changes no result.
module Reference {
  import opened Arithmetic
  import opened Policies
  import opened TokenBucket

  datatype Rat = Rat(num: int, den: int)
  {
    function Plus(y: Rat): Rat { Rat(num * y.den + y.num * den, den * y.den) }
    function Minus(y: Rat): Rat { Rat(num * y.den - y.num * den, den * y.den) }
    function Times(y: Rat): Rat { Rat(num * y.num, den * y.den) }

    /** Cmp(y) > 0, for positive denominators. */
    predicate Above(y: Rat) { num * y.den > y.num * den }
  }

  function Whole(n: int): Rat { Rat(n, 1) }

  /** floorRat: the truncated quotient, of a value that is never negative here. */
  function FloorRat(x: Rat): int
    requires 0 < x.den
  {
    x.num / x.den
  }

  datatype RefBucket = RefBucket(tokens: Rat, last: int)
  datatype RefResult = RefResult(bucket: RefBucket, decision: Decision, rejected: bool)

  /** referenceRefillDuration: rounded up to a whole microsecond. */
  function RefillDuration(tokens: Rat, p: Policy): int
    requires 1 <= p.capacity && 0 < tokens.den
  {
    if tokens.num <= 0 then 0
    else
      var value := Rat(tokens.num * p.period, tokens.den * p.capacity);
      CeilDiv(value.num, value.den)
  }

  function RefRefill(s: RefBucket, p: Policy, now: int): RefBucket
    requires 0 < p.period
  {
    if now > s.last then
      var elapsed := Rat(SatSub(now, s.last), p.period).Times(Whole(p.capacity));
      var grown := s.tokens.Plus(elapsed);
      RefBucket(if grown.Above(Whole(p.Limit())) then Whole(p.Limit()) else grown, now)
    else s
  }

  /** referenceToken on the effective instant. */
  function RefStep(s: RefBucket, p: Policy, cost: int, now: int): RefResult
    requires 0 < p.period && 1 <= p.capacity && 0 < s.tokens.den
  {
    var full := RefRefill(s, p, now);
    var allowed := !Whole(cost).Above(full.tokens);
    var left := if allowed then full.(tokens := full.tokens.Minus(Whole(cost))) else full;
    var reset := now + RefillDuration(Whole(p.Limit()).Minus(left.tokens), p);
    if allowed then
      RefResult(left, Decision(true, FloorRat(left.tokens), p.Limit(), reset, 0, Allowed, "", ""), false)
    else
      RefResult(left, Decision(false, FloorRat(left.tokens), p.Limit(), reset,
                               RefillDuration(Whole(cost).Minus(left.tokens), p), Limited, "", ""), true)
  }

  function RefAdmit(s: RefBucket, p: Policy, probe: Probe): RefResult
    requires 0 < p.period && 1 <= p.capacity && 0 < s.tokens.den
  {
    RefStep(s, p, probe.cost, Max(probe.now, s.last))
  }

  // ----------------------------------------------------- scaling fractions

  lemma {:induction false} Cancel(a: int, b: int, k: int)
    requires 0 < k
    ensures a * k < b * k <==> a < b
    ensures a * k == b * k <==> a == b
  {
    if a < b { MulMonotone(a + 1, b, k); }
    if b < a { MulMonotone(b + 1, a, k); }
  }

  lemma {:induction false} FloorScales(n: int, d: int, k: int)
    requires 0 < d && 0 < k
    ensures 0 < d * k && (n * k) / (d * k) == n / d
  {
    MulMonotone(1, d, k);
    var q := n / d;
    DivBounds(n, d);
    MulMonotone(q * d, n, k);
    Cancel(n, q * d + d, k);
    Regroup(q, d, k);
    DivUnique(n * k, d * k, q);
  }

  lemma {:induction false} CeilScales(n: int, d: int, k: int)
    requires 0 < d && 0 < k
    ensures 0 < d * k && CeilDiv(n * k, d * k) == CeilDiv(n, d)
  {
    hide CeilDiv;
    MulMonotone(1, d, k);
    var q := CeilDiv(n, d);
    CeilDivBounds(n, d);
    MulMonotone(n, q * d, k);
    Cancel((q - 1) * d, n, k);
    Regroup(q, d, k);
    Regroup(q - 1, d, k);
    CeilDivUnique(n * k, d * k, q);
  }

  lemma Regroup(q: int, d: int, k: int)
    ensures q * d * k == q * (d * k)
    ensures (q * d + d) * k == q * (d * k) + d * k
  {
  }

  // ------------------------------------------------------------- refinement

  /** x is n / d: the same number over another denominator. */
  ghost predicate Equals(x: Rat, n: int, d: int) { 0 < x.den && x.num * d == n * x.den }

  /** tokens + remainder / period is the rational balance. */
  ghost predicate Refines(b: Bucket, s: RefBucket, p: Policy)
  {
    Sound(b, p) && b.last == s.last && Equals(s.tokens, Balance(b, p), p.period)
  }

  /** Comparing and flooring see only the number, not its denominator. */
  lemma {:induction false} EqualsObserved(x: Rat, n: int, d: int, c: int)
    requires 0 < d && Equals(x, n, d)
    ensures FloorRat(x) == n / d
    ensures Whole(c).Above(x) <==> c * d > n
    ensures x.Above(Whole(c)) <==> n > c * d
    ensures x.num <= 0 <==> n <= 0
  {
    FloorScales(x.num, x.den, d);
    FloorScales(n, d, x.den);
    assert x.den * d == d * x.den;
    Cancel(x.num, c * x.den, d);
    Cancel(c * x.den, x.num, d);
    Cancel(n, c * d, x.den);
    Cancel(c * d, n, x.den);
    assert c * x.den * d == c * d * x.den;
    Cancel(0, x.num, d);
    Cancel(0, n, x.den);
  }

  /** A delay rounded up is integer ceiling division of the scaled need. */
  lemma {:induction false} DurationExact(x: Rat, n: int, p: Policy)
    requires 1 <= p.capacity && 0 < p.period && Equals(x, n, p.period)
    ensures RefillDuration(x, p) == if n <= 0 then 0 else CeilDiv(n, p.capacity)
  {
    hide CeilDiv;
    EqualsObserved(x, n, p.period, 0);
    CeilScales(n, p.capacity, x.den);
    assert x.den * p.capacity == p.capacity * x.den;
  }

  lemma {:induction false} MinusEquals(c: int, x: Rat, n: int, d: int)
    requires Equals(x, n, d)
    ensures Equals(Whole(c).Minus(x), c * d - n, d)
    ensures Equals(x.Minus(Whole(c)), n - c * d, d)
  {
    assert (c * x.den - x.num) * d == c * d * x.den - x.num * d;
    assert (x.num - c * x.den) * d == x.num * d - c * d * x.den;
    assert (c * d - n) * x.den == c * d * x.den - n * x.den;
    assert (n - c * d) * x.den == n * x.den - c * d * x.den;
  }

  lemma {:induction false} GrowEquals(x: Rat, n: int, d: int, elapsed: int, capacity: int)
    requires 0 < d && Equals(x, n, d)
    ensures Equals(x.Plus(Rat(elapsed, d).Times(Whole(capacity))), n + elapsed * capacity, d)
  {
    MulMonotone(1, x.den, d);
    var e := elapsed * capacity;
    assert (x.num * d + e * x.den) * d == n * x.den * d + e * (x.den * d);
    assert (n + e) * (x.den * d) == n * x.den * d + e * (x.den * d);
  }

  lemma {:induction false} RefillRefines(b: Bucket, s: RefBucket, p: Policy, now: int)
    requires TokenPolicy(p) && Refines(b, s, p)
    ensures Refines(Refill(b, p, now), RefRefill(s, p, now), p)
  {
    hide Refill, Balance, ExactProduct, Equals, Rat.Above, Rat.Plus, Rat.Times;
    RefillBalance(b, p, now);
    if now > s.last {
      var elapsed := SatSub(now, s.last);
      var grown := s.tokens.Plus(Rat(elapsed, p.period).Times(Whole(p.capacity)));
      var n := Balance(b, p) + elapsed * p.capacity;
      BalanceSplits(b, p);
      ProductWithin(p);
      SaturatedGrowth(p.Limit() * p.period, p.capacity, Balance(b, p), now - s.last, elapsed);
      GrowEquals(s.tokens, Balance(b, p), p.period, elapsed, p.capacity);
      EqualsObserved(grown, n, p.period, p.Limit());
      WholeEquals(p.Limit(), p.period);
    } else {
      RefillStill(b, p, now);
    }
  }

  lemma ProductWithin(p: Policy)
    requires TokenPolicy(p)
    ensures p.Limit() * p.period <= MAX_EXACT
  {
    assert ExactProduct(p.Limit(), p.period);
  }

  /** A saturated clock difference fills the bucket, as the true one would. */
  lemma {:induction false} SaturatedGrowth(full: int, capacity: int, balance: int, span: int, elapsed: int)
    requires 1 <= capacity && full <= MAX_EXACT && 0 <= balance && elapsed == Min(MAX_DURATION, span)
    ensures Min(full, balance + elapsed * capacity) == Min(full, balance + span * capacity)
  {
    if elapsed != span {
      MulMonotone(MAX_DURATION, span, capacity);
      MulMonotone(1, capacity, MAX_DURATION);
    }
  }

  lemma WholeEquals(c: int, d: int)
    ensures Equals(Whole(c), c * d, d)
  {
  }

  lemma RefillStill(b: Bucket, p: Policy, now: int)
    requires 0 < p.period && now <= b.last
    ensures Refill(b, p, now) == b
  {
  }

  /** Every field of the decision and the balance left behind agree with the oracle. */
  lemma {:induction false} StepRefines(b: Bucket, s: RefBucket, p: Policy, cost: int, now: int)
    requires TokenPolicy(p) && Refines(b, s, p) && 1 <= cost <= p.Limit()
    ensures var r, t := TokenStep(b, p, cost, now), RefStep(s, p, cost, now);
            r.decision == t.decision && r.rejected == t.rejected && Refines(r.bucket, t.bucket, p)
  {
    assert 0 < s.tokens.den;
    hide Refill, RefRefill, RefillDuration, Wait, FloorRat, Rat.Above, Rat.Minus, Balance, ExactProduct, Equals;
    var full, refFull := Refill(b, p, now), RefRefill(s, p, now);
    RefillRefines(b, s, p, now);
    var n := Balance(full, p);
    EqualsObserved(refFull.tokens, n, p.period, cost);
    MinusEquals(cost, refFull.tokens, n, p.period);
    BalanceSplits(full, p);
    var r, t := TokenStep(b, p, cost, now), RefStep(s, p, cost, now);
    DebitBalance(full, cost, p);
    StepKeepsSound(b, p, cost, now);
    assert Refines(r.bucket, t.bucket, p);
    EqualsObserved(t.bucket.tokens, Balance(r.bucket, p), p.period, cost);
    BalanceSplits(r.bucket, p);
    DelayRefines(r.bucket, t.bucket, p, p.Limit());
    if r.rejected { DelayRefines(r.bucket, t.bucket, p, cost); }
  }

  lemma DebitBalance(b: Bucket, cost: int, p: Policy)
    ensures Balance(b.(tokens := b.tokens - cost), p) == Balance(b, p) - cost * p.period
  {
  }

  lemma {:induction false} DelayRefines(b: Bucket, s: RefBucket, p: Policy, goal: int)
    requires TokenPolicy(p) && Refines(b, s, p) && b.tokens <= goal <= p.Limit()
    ensures 0 < s.tokens.den && RefillDuration(Whole(goal).Minus(s.tokens), p) == Wait(goal - b.tokens, b.remainder, p)
  {
    hide RefillDuration, CeilDiv, Rat.Minus, ExactProduct;
    var n := Balance(b, p);
    MinusEquals(goal, s.tokens, n, p.period);
    DurationExact(Whole(goal).Minus(s.tokens), goal * p.period - n, p);
    assert (goal - b.tokens) * p.period == goal * p.period - b.tokens * p.period;
    if b.tokens < goal { MulMonotone(1, goal - b.tokens, p.period); }
  }

  /** Decisions of a whole run, oldest first. */
  function Decisions(b: Bucket, p: Policy, probes: seq<Probe>): seq<Decision>
    requires 0 < p.period && 1 <= p.capacity
    decreases |probes|
  {
    if probes == [] then []
    else
      var r := Admit(b, p, probes[0]);
      [r.decision] + Decisions(r.bucket, p, probes[1..])
  }

  function RefDecisions(s: RefBucket, p: Policy, probes: seq<Probe>): seq<Decision>
    requires 0 < p.period && 1 <= p.capacity && 0 < s.tokens.den
    decreases |probes|
  {
    if probes == [] then []
    else
      var r := RefAdmit(s, p, probes[0]);
      [r.decision] + RefDecisions(r.bucket, p, probes[1..])
  }

  function RefRun(s: RefBucket, p: Policy, probes: seq<Probe>): RefBucket
    requires 0 < p.period && 1 <= p.capacity && 0 < s.tokens.den
    decreases |probes|
  {
    if probes == [] then s else RefRun(RefAdmit(s, p, probes[0]).bucket, p, probes[1..])
  }

  lemma {:induction false} RunFront(b: Bucket, p: Policy, probes: seq<Probe>)
    requires 0 < p.period && 1 <= p.capacity && probes != []
    ensures Run(b, p, probes) == Run(Admit(b, p, probes[0]).bucket, p, probes[1..])
    decreases |probes|
  {
    hide Admit;
    if |probes| > 1 {
      var n := |probes| - 1;
      RunFront(b, p, probes[..n]);
      assert probes[..n][1..] == probes[1..][..n - 1];
    }
  }

  /** Within one revision the integer bucket and the rational oracle answer every request sequence alike, and
      tokens + remainder / period is the rational balance after it. */
  lemma {:induction false} RunRefines(b: Bucket, s: RefBucket, p: Policy, probes: seq<Probe>)
    requires TokenPolicy(p) && Refines(b, s, p) && ValidProbes(p, probes)
    ensures Decisions(b, p, probes) == RefDecisions(s, p, probes)
    ensures Refines(Run(b, p, probes), RefRun(s, p, probes), p)
    decreases |probes|
  {
    hide TokenStep, RefStep, Balance;
    if probes != [] {
      StepRefines(b, s, p, probes[0].cost, Max(probes[0].now, b.last));
      RunRefines(Admit(b, p, probes[0]).bucket, RefAdmit(s, p, probes[0]).bucket, p, probes[1..]);
      RunFront(b, p, probes);
    }
  }

  /** ... in particular from the state both create for a key they have not seen. */
  lemma {:induction false} FreshRunRefines(p: Policy, now: int, probes: seq<Probe>)
    requires TokenPolicy(p) && ValidProbes(p, probes)
    ensures var oracle := RefBucket(Whole(p.Limit()), now);
            && Decisions(Fresh(p, now), p, probes) == RefDecisions(oracle, p, probes)
            && Refines(Run(Fresh(p, now), p, probes), RefRun(oracle, p, probes), p)
  {
    RunRefines(Fresh(p, now), RefBucket(Whole(p.Limit()), now), p, probes);
  }
}
