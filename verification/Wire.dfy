// The version-1 wire envelope. Window period and carry travel in fields the
// window algorithms do not otherwise use.
module Wire {
  import opened Arithmetic
  import opened Policies
  import opened TokenBucket
  import opened Windows
  import opened States
  import opened StrictRuns

  datatype Envelope = Envelope(
    schema: int, policyId: string, revision: string, algorithm: Algorithm,
    tokens: int, remainder: int, last: int, observed: int, window: int, used: int,
    segments: seq<Segment>, leases: map<string, LeaseRecord>)

  function Encode(s: State): Envelope
  {
    var packed := WindowAlgorithm(s.algorithm) && s.period != 0;
    Envelope(s.schema, s.policyId, s.revision, s.algorithm, s.tokens,
             if packed then s.period else s.remainder,
             if packed then (if s.carried then 1 else 0) else s.last,
             s.observed, s.window, s.used, s.segments, s.leases)
  }

  /** Released decoding: metadata stays where the wire has it. */
  function DecodeLegacy(w: Envelope): State
  {
    State(w.schema, w.policyId, w.revision, w.algorithm, w.tokens, w.remainder, w.last, w.observed,
          w.window, w.used, 0, false, w.segments, w.leases)
  }

  /** Strict decoding: shape, identity and metadata are checked and the metadata unpacked. */
  function Decode(w: Envelope): Result<State>
  {
    if |w.segments| != SEGMENTS || w.schema != STATE_SCHEMA || w.policyId == "" then Err(ErrCorrupt)
    else if WindowAlgorithm(w.algorithm) && w.remainder != 0 then
      if w.remainder > MAX_EXACT || (w.last != 0 && w.last != 1) then Err(ErrCorrupt)
      else Ok(DecodeLegacy(w).(period := w.remainder, carried := w.last == 1))
    else Ok(DecodeLegacy(w))
  }

  /** Strict decoding accepts exactly whole envelopes of this schema whose packed metadata is in range; what it accepts
      encodes to the same envelope again, and the rest is corrupt. */
  lemma DecodeExact(w: Envelope)
    requires 0 <= w.remainder
    ensures Decode(w).Ok? <==>
              && |w.segments| == SEGMENTS && w.schema == 1 && w.policyId != ""
              && (w.algorithm in {FixedWindow, SlidingWindow} && 1 <= w.remainder ==>
                    w.remainder <= MAX_EXACT && w.last in {0, 1})
    ensures Decode(w).Ok? ==> Encode(Decode(w).value) == w
    ensures Decode(w).Err? ==> Decode(w).error == ErrCorrupt
  {
  }

  // ------------------------------------------------------------- equivalence

  /** A state with every field its algorithm never reads blanked. */
  function Core(s: State): State
  {
    match s.algorithm
    case TokenBucket => s.(window := 0, used := 0, period := 0, carried := false, segments := EmptySegments(),
      leases := map[])
    case FixedWindow => s.(tokens := 0, remainder := 0, last := 0, segments := EmptySegments(), leases := map[])
    case SlidingWindow => s.(tokens := 0, remainder := 0, last := 0, window := 0, leases := map[])
    case Concurrency => s.(tokens := 0, remainder := 0, last := 0, window := 0, used := 0, segments := EmptySegments())
  }

  /** Two outcomes no client or later step can tell apart. */
  ghost predicate Same(a: StepResult, b: StepResult)
  {
    match (a, b)
    case (Fail(e), Fail(f)) => e == f
    case (Done(s, d, x), Done(t, c, y)) => Core(s) == Core(t) && d == c && x == y
    case _ => false
  }

  /** Blanked fields do not influence a step: equivalence is a bisimulation. */
  lemma {:induction false} CoreStep(a: State, b: State, r: Request)
    requires r.Sized() && r.policy.algorithm != Concurrency
    requires |a.segments| == SEGMENTS == |b.segments| && Core(a) == Core(b)
    ensures Same(Step(Some(a), r), Step(Some(b), r))
  {
    hide TokenStep, FixedStep, SlidingStep, LiveUsed, PositionsOk, ExactProduct;
    var p := r.policy;
    assert LoadedOk(a, p) <==> LoadedOk(b, p);
    if LoadedOk(a, p) {
      var now := Max(r.now, a.observed);
      assert WindowOk(a, p, now) <==> WindowOk(b, p, now);
      assert Core(Prepare(a, p, now)) == Core(Prepare(b, p, now));
    }
  }

  /** Packing loses nothing a strict step reads, whatever revision wrote the row. */
  lemma {:induction false} RoundTrip(s: State, f: Family)
    requires Written(s, f)
    ensures Decode(Encode(s)).Ok?
    ensures Core(Decode(Encode(s)).value) == Core(s)
    ensures s.algorithm == TokenBucket ==> Decode(Encode(s)).value == s
  {
    var p := f.policies[s.revision];
    assert f.Member(s.revision, p);
    MulMonotone(1, p.Limit(), p.period);
  }

  /** mutateState in legacy mode, past its identity checks: no range or carry checks, no period recorded, and a
      sliding window that leaves the carry flag alone. */
  function LegacyStep(s: State, p: Policy, cost: int, now: int): (next: State)
    requires 0 < p.period && 1 <= p.capacity && |s.segments| == SEGMENTS
  {
    var effective := Max(now, s.observed);
    var next := Apply(s.(observed := effective, revision := p.revision), p, cost, effective).next;
    if p.algorithm == SlidingWindow then next.(carried := s.carried) else next
  }

  /** A released reader decodes and rewrites a strict row without disturbing its metadata, even when it
      admits a request in between: window algorithms leave those two fields alone. */
  lemma LegacyPassThrough(w: Envelope, p: Policy, cost: int, now: int)
    requires WindowAlgorithm(w.algorithm) && w.algorithm == p.algorithm && 0 < p.period && 1 <= p.capacity
    requires |w.segments| == SEGMENTS
    ensures Encode(DecodeLegacy(w)) == w
    ensures var next := Encode(LegacyStep(DecodeLegacy(w), p, cost, now));
            && next.remainder == w.remainder && next.last == w.last
            && (Decode(w).Ok? ==>
                  && Decode(next).Ok?
                  && Decode(next).value.period == Decode(w).value.period
                  && Decode(next).value.carried == Decode(w).value.carried)
    ensures var next := LegacyStep(DecodeLegacy(w), p, cost, now);
            && next.observed >= w.observed && next.observed >= now && next.observed in {w.observed, now}
            && next.revision == p.revision && next.tokens == w.tokens && next.leases == w.leases
            && (next.carried <==> w.algorithm == FixedWindow && next.used > p.Limit())
  {
  }

  // ---------------------------------------------------------------- stored rows

  datatype RowResult = Stored(row: Envelope, decision: Decision, rejected: bool) | Refused(error: Error)

  /** One strict admission against a stored row: decode, step, encode. */
  function StepRow(row: Option<Envelope>, r: Request): RowResult
    requires r.Sized() && r.policy.algorithm != Concurrency
  {
    if row.Some? && Decode(row.value).Err? then Refused(Decode(row.value).error)
    else
      match Step(if row.Some? then Some(Decode(row.value).value) else None, r)
      case Fail(e) => Refused(e)
      case Done(next, d, rejected) => Stored(Encode(next), d, rejected)
  }

  ghost function RunStored(f: Family, moments: seq<Moment>): Option<Envelope>
    requires f.Valid() && Governed(moments, f)
  {
    if moments == [] then None
    else
      var before := RunStored(f, moments[..|moments| - 1]);
      match moments[|moments| - 1]
      case Dropped => None
      case Called(r) =>
        match StepRow(before, r)
        case Stored(row, _, _) => Some(row)
        case Refused(_) => before
  }

  /** A stored row stands for a state kept in memory. */
  ghost predicate Stands(row: Option<Envelope>, kept: Option<State>, f: Family)
  {
    && (row.None? <==> kept.None?)
    && (row.Some? ==>
          && Decode(row.value).Ok? && Written(kept.value, f) && Written(Decode(row.value).value, f)
          && Core(Decode(row.value).value) == Core(kept.value))
  }

  /** The stored and the kept state answer alike and stay in step. */
  lemma {:induction false} StoredStep(row: Option<Envelope>, kept: Option<State>, r: Request, f: Family)
    requires f.Valid() && f.Governs(r) && Stands(row, kept, f)
    ensures match (StepRow(row, r), Step(kept, r))
            case (Refused(e), Fail(g)) => e == g == ErrOverflow
            case (Stored(w, d, x), Done(s, c, y)) => d == c && x == y && Stands(Some(w), Some(s), f)
            case _ => false
  {
    hide Step, Core, Written;
    var loaded := if row.Some? then Some(Decode(row.value).value) else None;
    WrittenShape(loaded, f);
    WrittenShape(kept, f);
    StepWritten(loaded, r, f);
    StepWritten(kept, r, f);
    if row.Some? { CoreStep(loaded.value, kept.value, r); }
    if Step(loaded, r).Done? {
      RoundTrip(Step(loaded, r).next, f);
      CoreWritten(Step(loaded, r).next, Decode(Encode(Step(loaded, r).next)).value, f);
    }
  }

  lemma WrittenShape(s: Option<State>, f: Family)
    requires Row(s, f)
    ensures s.Some? ==> |s.value.segments| == SEGMENTS
  {
  }

  lemma {:induction false} CoreWritten(s: State, t: State, f: Family)
    requires Written(s, f) && Core(s) == Core(t) && |t.segments| == SEGMENTS
    requires s.algorithm == TokenBucket ==> s == t
    ensures Written(t, f)
  {
    hide LiveUsed, Placed, AllInRange, Settled, Floor, ExactProduct;
  }

  /** Wire packing is invisible over every strict run: storing and reloading between requests changes no
      decision, across revisions, clock rollback and removals. */
  lemma {:induction false} StoredRunAgrees(f: Family, moments: seq<Moment>)
    requires f.Valid() && Governed(moments, f)
    ensures Stands(RunStored(f, moments), RunRow(f, moments), f)
  {
    hide StepRow, Step, Decode, Written, Core;
    if moments != [] {
      var init, last := moments[..|moments| - 1], moments[|moments| - 1];
      StoredRunAgrees(f, init);
      if last.Called? { StoredStep(RunStored(f, init), RunRow(f, init), last.request, f); }
    }
  }
}
