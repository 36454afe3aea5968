// The strict Lua admission script as a transition of one hash. Every quotient,
// and every sum, difference or product that could leave the exact range, is
// rounded to binary64.
module Valkey {
  import opened Arithmetic
  import opened Policies
  import opened TokenBucket
  import opened Windows
  import opened States
  import opened Binary64

  /** One b<slot> field, "index:value". */
  datatype Slot = Slot(index: int, value: int)

  /** The hash fields; `period` is absent from a hash the compatibility script created. */
  datatype Hash = Hash(
    schema: int, policyId: string, algorithm: Algorithm, revision: string,
    tokens: int, remainder: int, last: int, window: int, used: int,
    period: Option<int>, carried: bool, slots: map<int, Slot>)

  datatype Reply =
    | Replied(hash: Hash, allowed: bool, remaining: int, limit: int, reset: int, retry: int, now: int)
    | Refused(error: Error)

  function NewHash(r: Request): Hash
  {
    Hash(STATE_SCHEMA, r.policy.id, r.policy.algorithm, r.policy.revision, r.policy.Limit(), 0, r.now, 0, 0,
         Some(r.policy.period), false, map[])
  }

  /** ceiling(value, divisor) of the strict script. */
  function Ceiling(fl: real -> real, value: int, divisor: int): int
    requires 0 < divisor
  {
    FloorDiv(fl, value - 1, divisor) + 1
  }

  /** What every branch ends with. */
  function Touched(h: Hash, p: Policy, now: int, carried: bool): Hash
  {
    h.(last := now, revision := p.revision, period := Some(p.period), carried := carried)
  }

  // ------------------------------------------------------------ token bucket

  predicate TokenFieldsOk(h: Hash, p: Policy)
  {
    && 0 <= h.tokens <= MAX_EXACT && 0 <= h.remainder <= MAX_EXACT && ValidPersistedMicros(h.last)
    && (h.revision == p.revision ==> h.remainder < p.period && h.tokens <= p.Limit())
  }

  function LuaRefill(fl: real -> real, b: Bucket, p: Policy, now: int): Bucket
    requires 0 < p.period && 0 < p.capacity
  {
    var elapsed := Max(0, Num(fl, now - b.last));
    if elapsed > 0 && b.tokens < p.Limit() then
      if elapsed > FloorDiv(fl, MAX_EXACT - b.remainder, p.capacity) then Bucket(p.Limit(), 0, now)
      else
        var numerator := Num(fl, Num(fl, elapsed * p.capacity) + b.remainder);
        var added := FloorDiv(fl, numerator, p.period);
        var tokens := Min(p.Limit(), Num(fl, b.tokens + added));
        Bucket(tokens, if tokens == p.Limit() then 0 else numerator - Num(fl, added * p.period), now)
    else b.(last := now)
  }

  /** Microseconds the script asks for until `tokens` more tokens are there. */
  function LuaWait(fl: real -> real, tokens: int, remainder: int, p: Policy): int
    requires 0 < p.capacity
  {
    Ceiling(fl, Num(fl, tokens * p.period) - remainder, p.capacity)
  }

  function LuaToken(fl: real -> real, h: Hash, p: Policy, cost: int, now: int): Reply
    requires 0 < p.period && 0 < p.capacity
  {
    if !TokenFieldsOk(h, p) then Refused(ErrCorrupt)
    else
      var limit := p.Limit();
      var loaded := if h.revision != p.revision then Bucket(Min(h.tokens, limit), 0, now)
                    else Bucket(h.tokens, h.remainder, h.last);
      var full := LuaRefill(fl, loaded, p, now);
      var allowed := full.tokens >= cost;
      var tokens := if allowed then full.tokens - cost else full.tokens;
      var retry := if allowed then 0 else LuaWait(fl, cost - tokens, full.remainder, p);
      var reset := Num(fl, now + Max(0, LuaWait(fl, limit - tokens, full.remainder, p)));
      Replied(Touched(h.(tokens := tokens, remainder := full.remainder), p, now, h.carried),
              allowed, tokens, limit, reset, retry, now)
  }

  // ------------------------------------------------------------ fixed window

  function LuaWindow(fl: real -> real, now: int, period: int): int
    requires 0 < period
  {
    Num(fl, FloorDiv(fl, now, period) * period)
  }

  /** The fixed-window branch, in the window the range check has already computed. */
  function LuaFixed(fl: real -> real, h: Hash, p: Policy, cost: int, now: int, window: int): Reply
  {
    var limit := p.Limit();
    if !ValidPersistedMicros(h.window) || !(0 <= h.used <= MAX_EXACT)
       || (h.revision == p.revision && h.used > limit && !h.carried) then Refused(ErrCorrupt)
    else
      var carried := if h.revision != p.revision then h.used > limit else h.carried;
      var used := if h.window != window then 0 else h.used;
      var kept := carried && h.window == window;
      var remaining := Max(0, limit - used);
      var reset := Num(fl, window + p.period);
      var allowed := cost <= remaining;
      var after := if allowed then used + cost else used;
      Replied(Touched(h.(window := window, used := after), p, now, kept && after > limit),
              allowed, if allowed then limit - after else remaining, limit, reset,
              if allowed then 0 else Max(0, Num(fl, reset - now)), now)
  }

  // ---------------------------------------------------------- sliding window

  function LuaWidth(fl: real -> real, period: int): (w: int)
    requires Rounding(fl) && 0 < period
    ensures 1 <= w
    ensures period <= MAX_EXACT ==> w == Width(period)
  {
    WidthRounds(fl, period);
    FloorDiv(fl, Num(fl, period + 15), 16)
  }

  lemma {:induction false} WidthRounds(fl: real -> real, period: int)
    requires Rounding(fl) && 0 < period
    ensures 1 <= FloorDiv(fl, Num(fl, period + 15), 16)
    ensures period <= MAX_EXACT ==> FloorDiv(fl, Num(fl, period + 15), 16) == Width(period)
  {
    hide Rounding, FloorDiv, Num;
    NumInside(fl, period + 15, 15);
    FloorDivPositive(fl, Num(fl, period + 15));
    if period + 15 < EXACT {
      NumExact(fl, period + 15);
      FloorDivExact(fl, period + 15, 16);
    } else if period <= MAX_EXACT {
      NumWithin(fl, period + 15, EXACT, EXACT + 14);
      LongWidth(fl, Num(fl, period + 15));
    }
  }

  /** Past 2^53 the sum may round, but stays within the same sixteenth. */
  lemma {:induction false} LongWidth(fl: real -> real, n: int)
    requires Rounding(fl) && EXACT <= n <= EXACT + 14
    ensures FloorDiv(fl, n, 16) == EXACT / 16
  {
    var x := n as real / 16.0;
    assert fl((EXACT / 16) as real) == Image(fl, EXACT / 16) == (EXACT / 16) as real;
    assert Close(fl(x), x);
  }

  /** The slots in ring order, an absent field counting as an empty segment. */
  function Ring(slots: map<int, Slot>): (r: seq<Segment>)
    ensures |r| == SEGMENTS
    ensures forall j :: 0 <= j < SEGMENTS ==> r[j] == At(slots, j)
  {
    seq(SEGMENTS, j => At(slots, j))
  }

  function At(slots: map<int, Slot>, j: int): Segment
  {
    if j in slots then Segment(slots[j].index, slots[j].value) else EMPTY
  }

  predicate SlotOk(slots: map<int, Slot>, j: int, oldest: int, current: int)
  {
    j in slots ==>
      && ValidPersistedMicros(slots[j].index) && 0 <= slots[j].value <= MAX_EXACT
      && (slots[j].value > 0 && slots[j].index > oldest ==> slots[j].index <= current && slots[j].index % SEGMENTS == j)
  }

  predicate SlotsOk(slots: map<int, Slot>, oldest: int, current: int)
  {
    && (forall j :: 0 <= j < SEGMENTS ==> SlotOk(slots, j, oldest, current))
    && LiveUsed(Ring(slots), oldest) <= MAX_EXACT
  }

  /** The scan over b0 .. b15: it accepts exactly the well placed rings, sums their live usage, finds the
      earliest live index and the fields to delete. */
  method Scan(fl: real -> real, slots: map<int, Slot>, oldest: int, current: int)
    returns (ok: bool, used: int, earliest: Option<int>, expired: set<int>)
    requires Rounding(fl)
    ensures ok <==> SlotsOk(slots, oldest, current)
    ensures ok ==> used == LiveUsed(Ring(slots), oldest)
    ensures ok ==> Earliest(Ring(slots), oldest) == if earliest.Some? then earliest.value else MAX_INT64
    ensures ok ==> expired == set j | 0 <= j < SEGMENTS && j in slots && slots[j].index <= oldest
  {
    ok, used, earliest, expired := false, 0, None, {};
    var seen: set<int> := {};
    ghost var ring := Ring(slots);
    var slot := 0;
    while slot < SEGMENTS
      invariant 0 <= slot <= SEGMENTS
      invariant forall j :: 0 <= j < slot ==> SlotOk(slots, j, oldest, current)
      invariant used == LiveUsed(ring[..slot], oldest) <= MAX_EXACT
      invariant Earliest(ring[..slot], oldest) == if earliest.Some? then earliest.value else MAX_INT64
      invariant earliest.Some? ==> earliest.value <= MAX_EXACT
      invariant expired == set j | 0 <= j < slot && j in slots && slots[j].index <= oldest
      invariant forall i :: i in seen ==> i % SEGMENTS < slot
    {
      assert ring[..slot + 1][..slot] == ring[..slot];
      assert ring[slot] == At(slots, slot);
      if slot in slots {
        var idx, value := slots[slot].index, slots[slot].value;
        if !ValidPersistedMicros(idx) || value < 0 || value > MAX_EXACT {
          assert !SlotOk(slots, slot, oldest, current);
          return;
        }
        if value > 0 && idx > oldest {
          Sixteenth(fl, idx);
          if idx > current || idx - FloorDiv(fl, idx, SEGMENTS) * SEGMENTS != slot || idx in seen {
            assert !SlotOk(slots, slot, oldest, current);
            return;
          }
          seen := seen + {idx};
        }
        if idx <= oldest {
          expired := expired + {slot};
        } else {
          if value > MAX_EXACT - used {
            TooMuch(slots, oldest, current, slot + 1);
            return;
          }
          used := used + value;
          if value > 0 && (earliest.None? || idx < earliest.value) { earliest := Some(idx); }
        }
      }
      slot := slot + 1;
    }
    assert ring[..SEGMENTS] == ring;
    ok := true;
  }

  /** idx % 16 in rounded arithmetic is the Euclidean remainder. */
  lemma {:induction false} Sixteenth(fl: real -> real, idx: int)
    requires Rounding(fl) && ValidPersistedMicros(idx)
    ensures idx - FloorDiv(fl, idx, SEGMENTS) * SEGMENTS == idx % SEGMENTS
  {
    FloorDivExact(fl, idx, SEGMENTS);
  }

  /** A prefix already over the bound refuses the whole ring. */
  lemma {:induction false} TooMuch(slots: map<int, Slot>, oldest: int, current: int, k: int)
    requires 0 <= k <= SEGMENTS && LiveUsed(Ring(slots)[..k], oldest) > MAX_EXACT
    ensures !SlotsOk(slots, oldest, current)
    decreases SEGMENTS - k
  {
    var ring := Ring(slots);
    if k == SEGMENTS {
      assert ring[..k] == ring;
    } else if SlotOk(slots, k, oldest, current) {
      assert ring[..k + 1][..k] == ring[..k];
      assert ring[k] == At(slots, k);
      TooMuch(slots, oldest, current, k + 1);
    }
  }

  /** The slot fields left once the expired ones are deleted. */
  function Unexpired(slots: map<int, Slot>, oldest: int): map<int, Slot>
  {
    map j | j in slots && slots[j].index > oldest :: slots[j]
  }

  /** The slot fields after charging the current segment. */
  function Debited(fl: real -> real, slots: map<int, Slot>, current: int, cost: int): map<int, Slot>
  {
    var slot := current - FloorDiv(fl, current, SEGMENTS) * SEGMENTS;
    var value := if slot in slots && slots[slot].index == current then slots[slot].value else 0;
    slots[slot := Slot(current, Num(fl, value + cost))]
  }

  /** The segment the window starts in. */
  function LuaOldest(fl: real -> real, now: int, period: int): int
    requires Rounding(fl) && 0 < period
  {
    FloorDiv(fl, Num(fl, now - period), LuaWidth(fl, period))
  }

  function LuaSliding(fl: real -> real, h: Hash, p: Policy, cost: int, now: int): Reply
    requires Rounding(fl) && 0 < p.period
  {
    var width := LuaWidth(fl, p.period);
    LuaSlidingAt(fl, h, p, cost, now, width, FloorDiv(fl, now, width), LuaOldest(fl, now, p.period))
  }

  /** The branch from the segment width, the current and the oldest segment on. */
  function LuaSlidingAt(
    fl: real -> real, h: Hash, p: Policy, cost: int, now: int, width: int, current: int, oldest: int): Reply
  {
    var limit := p.Limit();
    var used := LiveUsed(Ring(h.slots), oldest);
    if !SlotsOk(h.slots, oldest, current) || (h.revision == p.revision && used > limit && !h.carried) then
      Refused(ErrCorrupt)
    else
      var carried := if h.revision != p.revision then used > limit else h.carried;
      var earliest := Earliest(Ring(h.slots), oldest);
      var remaining := Max(0, limit - used);
      var reset := if earliest != MAX_INT64 then Num(fl, Num(fl, (earliest + 1) * width) + p.period)
        else Num(fl, now + p.period);
      var kept := Unexpired(h.slots, oldest);
      var allowed := cost <= remaining;
      Replied(Touched(h.(slots := if allowed then Debited(fl, kept, current, cost) else kept), p, now, carried &&
        used > limit),
              allowed, if allowed then remaining - cost else remaining, limit, reset,
              if allowed then 0 else Max(0, Num(fl, reset - now)), now)
  }

  // ---------------------------------------------------------------- dispatch

  /** Only a sliding window has slot fields, and only b0 .. b15. */
  predicate FieldsOk(h: Hash)
  {
    forall j :: j in h.slots ==> h.algorithm == SlidingWindow && 0 <= j < SEGMENTS
  }

  function LuaAdmit(fl: real -> real, current: Option<Hash>, r: Request): Reply
    requires Rounding(fl)
  {
    var p := r.policy;
    if p.period <= 0 || p.capacity <= 0 || r.cost <= 0 || p.Limit() > MAX_EXACT then Refused(ErrOverflow)
    else if !ValidPersistedMicros(r.now) || p.period > MAX_EXACT ||
      r.now > MAX_EXACT - p.period then Refused(ErrOverflow)
    else if p.algorithm == FixedWindow && !ValidPersistedMicros(LuaWindow(fl, r.now, p.period)) then
      Refused(ErrOverflow)
    else if current.Some? && (current.value.schema != STATE_SCHEMA || current.value.policyId != p.id ||
      current.value.algorithm != p.algorithm)
      then Refused(ErrCorrupt)
    else
      var h := if current.Some? then current.value else NewHash(r);
      if !FieldsOk(h) then Refused(ErrCorrupt)
      else if WindowAlgorithm(p.algorithm) && h.period.Some? && h.period.value != p.period then Refused(ErrCorrupt)
      else if !ValidPersistedMicros(h.last) then Refused(ErrCorrupt)
      else
        var now := Max(r.now, h.last);
        if now > MAX_EXACT - p.period then Refused(ErrOverflow)
        else if p.algorithm == FixedWindow &&
          !ValidPersistedMicros(LuaWindow(fl, now, p.period)) then Refused(ErrOverflow)
        else match p.algorithm
             case TokenBucket => LuaToken(fl, h, p, r.cost, now)
             case FixedWindow => LuaFixed(fl, h, p, r.cost, now, LuaWindow(fl, now, p.period))
             case SlidingWindow => LuaSliding(fl, h, p, r.cost, now)
             case Concurrency => Refused(ErrCorrupt)
  }
}
