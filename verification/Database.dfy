// The two tables of the PostgreSQL store and the transactions on them, each
// taken alone: single admissions and atomic commands.
module Database {
  import opened Policies
  import opened Windows
  import opened States
  import opened Retention
  import opened AtomicBatch

  type Shaped = s: State | |s.segments| == SEGMENTS
    witness State(1, "", "", TokenBucket, 0, 0, 0, 0, 0, 0, 0, false, EmptySegments(), map[])

  datatype BucketRow = BucketRow(state: Shaped, expires: int)

  datatype IntentEntry = IntentEntry(policy: Policy, key: string, kind: string, cost: int)

  /** What a command binds: clock profile and ordered policies, keys and costs, but not the retry's Now.
      Its digest is taken to be injective. */
  datatype Intent = Intent(serverClock: bool, entries: seq<IntentEntry>)

  datatype Command = Command(intent: Intent, receipt: Receipt)

  /** Rows by bucket name, commands by command ID; digests are taken to be injective. */
  datatype Db = Db(rows: map<string, BucketRow>, commands: map<string, Command>)

  function IntentOf(b: Batch, serverClock: bool): Intent
  {
    Intent(serverClock, seq(|b.requests|, i requires 0 <= i < |b.requests| =>
                              IntentEntry(b.requests[i].policy, b.requests[i].key, b.requests[i].kind,
                                b.requests[i].cost)))
  }

  /** What a stored intent was bound to: the clock profile and, in order, each policy, key, kind and cost. */
  ghost predicate Binds(intent: Intent, b: Batch, serverClock: bool)
  {
    && intent.serverClock == serverClock && |intent.entries| == |b.requests|
    && forall i :: 0 <= i < |b.requests| ==>
         && intent.entries[i].policy == b.requests[i].policy && intent.entries[i].key == b.requests[i].key
         && intent.entries[i].kind == b.requests[i].kind && intent.entries[i].cost == b.requests[i].cost
  }

  /** Two presentations of one command: only the clocks of their requests may differ. */
  ghost predicate SameCommand(a: Batch, x: bool, b: Batch, y: bool)
  {
    && x == y && |a.requests| == |b.requests|
    && forall i :: 0 <= i < |a.requests| ==>
         && a.requests[i].policy == b.requests[i].policy && a.requests[i].key == b.requests[i].key
         && a.requests[i].kind == b.requests[i].kind && a.requests[i].cost == b.requests[i].cost
  }

  lemma {:induction false} IntentBinds(intent: Intent, b: Batch, serverClock: bool)
    ensures intent == IntentOf(b, serverClock) <==> Binds(intent, b, serverClock)
  {
    if Binds(intent, b, serverClock) {
      assert intent.entries == IntentOf(b, serverClock).entries;
    }
  }

  lemma {:induction false} IntentExact(a: Batch, x: bool, b: Batch, y: bool)
    ensures IntentOf(a, x) == IntentOf(b, y) <==> SameCommand(a, x, b, y)
  {
    hide IntentOf;
    IntentBinds(IntentOf(a, x), b, y);
    IntentBinds(IntentOf(a, x), a, x);
  }

  function RowFor(s: Shaped, p: Policy): BucketRow
    requires p.Valid() && p.algorithm != Concurrency
  {
    BucketRow(s, s.observed + AdmissionTTL(p))
  }

  /** loadStateStrict. */
  function LoadBucket(rows: map<string, BucketRow>, name: string, now: int): Option<Shaped>
  {
    if name in rows && Load(rows[name].state, rows[name].expires, now).Some? then Some(rows[name].state) else None
  }

  /** What loadStateStrict leaves of the table: an expired row is deleted. */
  function Purge(rows: map<string, BucketRow>, name: string, now: int): map<string, BucketRow>
  {
    if name in rows && rows[name].expires <= now then rows - {name} else rows
  }

  /** Loading deletes exactly the row it does not load, and no other. */
  lemma PurgeExact(rows: map<string, BucketRow>, name: string, now: int)
    ensures var next := Purge(rows, name, now);
            && (name in next <==> LoadBucket(rows, name, now).Some?)
            && (name in next ==> next[name] == rows[name])
            && next - {name} == rows - {name}
  {
  }

  /** A row written at an observation is gone once two periods, a second and, for a token bucket, a full refill have
      passed since, and not before. */
  lemma {:induction false} RowExpires(rows: map<string, BucketRow>, name: string, s: Shaped, p: Policy, now: int)
    requires p.Valid() && p.algorithm != Concurrency && name in rows && rows[name] == RowFor(s, p)
    ensures var age := now - s.observed;
            LoadBucket(rows, name, now).None? <==>
              CoversTwo(p.period, age) && (p.algorithm == TokenBucket ==> CoversRefill(p, age))
  {
    hide AdmissionTTL, CoversRefill, ExactProduct;
    TTLCovers(p);
    if now >= s.observed { AdmissionTTLLeast(p, now - s.observed); }
  }

  // --------------------------------------------------------- single admissions

  datatype Reply = Admission(decision: Decision, rejected: bool) | Outcomes(receipt: Receipt) | Refused(error: Error)

  datatype Committed = Committed(db: Db, reply: Reply)

  /** admitStrict on the effective clock `now`; a failure changes nothing. */
  function Single(db: Db, r: Request, now: int): Committed
    requires r.Sized() && r.policy.algorithm != Concurrency
  {
    SingleFrom(db, r, now, LoadBucket(db.rows, BucketName(r.policy.id, r.key), now))
  }

  function SingleFrom(db: Db, r: Request, now: int, loaded: Option<Shaped>): Committed
    requires r.Sized() && r.policy.algorithm != Concurrency
  {
    match Step(loaded, r.(now := now))
    case Fail(e) => Committed(db, Refused(e))
    case Done(next, d, rejected) =>
      if !ResetInOrder(d, next.observed) then Committed(db, Refused(ErrCorrupt))
      else Committed(db.(rows := db.rows[BucketName(r.policy.id, r.key) := RowFor(next, r.policy)]),
        Admission(d, rejected))
  }

  /** Whatever the tables hold, an admission is committed only with a Reset not before the observation it writes, and a
      refusal changes nothing. */
  lemma SingleInOrder(db: Db, r: Request, now: int)
    requires r.Sized() && r.policy.algorithm != Concurrency
    ensures var name := BucketName(r.policy.id, r.key);
            var next := Single(db, r, now);
            match next.reply
            case Refused(_) => next.db == db
            case Outcomes(_) => false
            case Admission(d, _) =>
              && name in next.db.rows && next.db.commands == db.commands
              && (d.reset == ZERO_TIME || d.reset >= next.db.rows[name].state.observed)
              && forall other :: other != name ==>
                   (other in next.db.rows <==> other in db.rows)
                   && (other in db.rows ==> next.db.rows[other] == db.rows[other])
  {
    hide BucketName, Step, AdmissionTTL;
  }

  // ------------------------------------------------------------ atomic commands

  ghost function LoadAll(rows: map<string, BucketRow>, b: Batch, now: int): (loaded: seq<Option<Shaped>>)
    ensures |loaded| == |b.requests|
  {
    seq(|b.requests|, i requires 0 <= i < |b.requests| => LoadBucket(rows, b.Name(i), now))
  }

  /** Rows after the first n loads: expired ones are gone. */
  ghost function PurgeRows(rows: map<string, BucketRow>, b: Batch, now: int, n: nat): map<string, BucketRow>
    requires n <= |b.requests|
  {
    if n == 0 then rows else Purge(PurgeRows(rows, b, now, n - 1), b.Name(n - 1), now)
  }

  /** Rows after the first n writes of an admitted batch. */
  ghost function WriteRows(rows: map<string, BucketRow>, b: Batch, states: seq<Shaped>, n: nat): map<string, BucketRow>
    requires n <= |b.requests| && n <= |states| && TokenRequests(b.requests)
  {
    if n == 0 then rows
    else WriteRows(rows, b, states, n - 1)[b.Name(n - 1) := RowFor(states[n - 1], b.requests[n - 1].policy)]
  }

  /** admitAtomic alone, from rows it loaded itself. */
  ghost function Atomic(db: Db, b: Batch, serverClock: bool, now: int): Committed
    requires b.Valid()
  {
    AtomicFrom(db, b, serverClock, now, LoadAll(db.rows, b, now))
  }

  lemma ValidBatchTokens(b: Batch)
    requires b.Valid()
    ensures TokenRequests(b.requests)
  {
    forall i | 0 <= i < |b.requests| ensures b.requests[i].Sized() && b.requests[i].policy.algorithm == TokenBucket {
      assert b.ValidItem(i);
    }
  }

  /** What a first execution decides from the rows it loaded. */
  ghost function Verdict(b: Batch, now: int, loaded: seq<Option<Shaped>>): (t: Trial)
    requires b.Valid() && |loaded| == |b.requests|
    ensures t.Trial? && t.receipt.allowed ==> |t.states| == |b.requests| && AllShaped(t.states)
  {
    ValidBatchTokens(b);
    Conclude(loaded, b.requests, Effective(loaded, now))
  }

  /** The rows a first execution leaves: every bucket written, or none. */
  ghost function RowsAfter(rows: map<string, BucketRow>, b: Batch, now: int, t: Trial): map<string, BucketRow>
    requires b.Valid() && t.Trial? && (t.receipt.allowed ==> |t.states| == |b.requests| && AllShaped(t.states))
  {
    ValidBatchTokens(b);
    var purged := PurgeRows(rows, b, now, |b.requests|);
    if t.receipt.allowed then WriteRows(purged, b, t.states, |b.requests|) else purged
  }

  ghost function AtomicFrom(db: Db, b: Batch, serverClock: bool, now: int, loaded: seq<Option<Shaped>>): Committed
    requires b.Valid() && |loaded| == |b.requests|
  {
    var intent := IntentOf(b, serverClock);
    if b.commandId in db.commands then
      var saved := db.commands[b.commandId];
      if saved.intent != intent then Committed(db, Refused(ErrInvalidRequest))
      else if !Decodes(saved.receipt, b) then Committed(db, Refused(ErrCorrupt))
      else Committed(db, Outcomes(saved.receipt))
    else
      var t := Verdict(b, now, loaded);
      if t.TrialFail? then Committed(db, Refused(t.error))
      else Committed(Db(RowsAfter(db.rows, b, now, t), db.commands[b.commandId := Command(intent, t.receipt)]),
        Outcomes(t.receipt))
  }

  ghost predicate Decodes(receipt: Receipt, b: Batch)
    requires b.Valid()
  {
    ValidBatchTokens(b);
    ReceiptOk(receipt, b.requests)
  }

  // -------------------------------------------------------------- transactions

  /** How a COMMIT ends, as the caller sees it. */
  datatype Commit = Acknowledged | AcknowledgementLost | CommitFailed

  datatype Answer = Known(reply: Reply) | Unknown

  /** How a command's transaction ends: only a COMMIT that took effect changes the tables, a refusal changes nothing and
      is known, and any other reply is known exactly when the COMMIT was acknowledged. */
  ghost predicate Ends(before: Db, after: Db, alone: Committed, commit: Commit, answer: Answer)
  {
    && after == (if commit.CommitFailed? then before else alone.db)
    && (alone.reply.Refused? ==> after == before && answer == Known(alone.reply))
    && (!alone.reply.Refused? ==> answer == if commit.Acknowledged? then Known(alone.reply) else Unknown)
  }

  lemma PurgeKeepsLoads(rows: map<string, BucketRow>, b: Batch, now: int, n: nat, name: string)
    requires n <= |b.requests|
    ensures LoadBucket(PurgeRows(rows, b, now, n), name, now) == LoadBucket(rows, name, now)
  {
  }

  lemma AtomicRefusal(db: Db, b: Batch, serverClock: bool, now: int)
    requires b.Valid()
    ensures Atomic(db, b, serverClock, now).reply.Refused? ==> Atomic(db, b, serverClock, now).db == db
  {
  }

  class Store {
    var rows: map<string, BucketRow>
    var commands: map<string, Command>

    ghost function View(): Db
      reads this
    {
      Db(rows, commands)
    }

    /** admitAtomic with its locks held. Loads, speculation and writes happen in the transaction; only a
        commit that took effect changes the tables, whether or not its acknowledgement arrived. */
    method AdmitAtomic(b: Batch, serverClock: bool, now: int, commit: Commit) returns (answer: Answer)
      requires b.Valid()
      modifies this
      ensures Ends(old(View()), View(), Atomic(old(View()), b, serverClock, now), commit, answer)
    {
      hide Atomic;
      var next := Transact(b, serverClock, now);
      if next.reply.Refused? {
        AtomicRefusal(View(), b, serverClock, now);
        return Known(next.reply);
      }
      if commit.CommitFailed? {
        return Unknown;
      }
      rows, commands := next.db.rows, next.db.commands;
      return if commit.Acknowledged? then Known(next.reply) else Unknown;
    }

    /** Everything before COMMIT: replay of a stored receipt, or a first execution. */
    method Transact(b: Batch, serverClock: bool, now: int) returns (next: Committed)
      requires b.Valid()
      ensures next == Atomic(View(), b, serverClock, now)
    {
      ValidBatchTokens(b);
      hide Verdict, RowsAfter, LoadAll, ReceiptOk, Batch.Valid, IntentOf;
      if b.commandId in commands {
        var saved := commands[b.commandId];
        if saved.intent != IntentOf(b, serverClock) {
          return Committed(Db(rows, commands), Refused(ErrInvalidRequest));
        }
        var ok := DecodeReceipt(saved.receipt, b.requests);
        return Committed(Db(rows, commands), if ok then Outcomes(saved.receipt) else Refused(ErrCorrupt));
      }
      var work, trial := Execute(b, now);
      if trial.TrialFail? {
        return Committed(Db(rows, commands), Refused(trial.error));
      }
      var command := Command(IntentOf(b, serverClock), trial.receipt);
      return Committed(Db(work, commands[b.commandId := command]), Outcomes(trial.receipt));
    }

    /** A first execution: load, mutate speculatively, then write every bucket or restore every decision. */
    method Execute(b: Batch, now: int) returns (work: map<string, BucketRow>, trial: Trial)
      requires b.Valid()
      ensures trial == Verdict(b, now, LoadAll(rows, b, now))
      ensures trial.Trial? ==> work == RowsAfter(rows, b, now, trial)
    {
      ValidBatchTokens(b);
      hide Speculate, Effective, LoadAll, PurgeRows, WriteRows, Restore, Batch.Valid;
      var loaded;
      work, loaded := LoadRows(b, now);
      var effective := Observe(loaded, now);
      trial := Try(loaded, b.requests, effective);
      if trial.TrialFail? {
        return;
      }
      if trial.receipt.allowed {
        work := WriteAll(work, b, trial.states);
      } else {
        var receipt := GiveBack(trial, b.requests, effective);
        trial := Trial([], receipt);
      }
    }

    /** The load loop: expired rows are deleted as they are met. */
    method LoadRows(b: Batch, now: int) returns (work: map<string, BucketRow>, loaded: seq<Option<Shaped>>)
      ensures work == PurgeRows(rows, b, now, |b.requests|) && loaded == LoadAll(rows, b, now)
    {
      work, loaded := rows, [];
      for i := 0 to |b.requests|
        invariant work == PurgeRows(rows, b, now, i) && loaded == LoadAll(rows, b, now)[..i]
      {
        PurgeKeepsLoads(rows, b, now, i, b.Name(i));
        loaded := loaded + [LoadBucket(work, b.Name(i), now)];
        work := Purge(work, b.Name(i), now);
      }
    }
  }

  /** The write loop of an admitted batch. */
  method WriteAll(rows: map<string, BucketRow>, b: Batch, states: seq<Shaped>) returns (work: map<string, BucketRow>)
    requires TokenRequests(b.requests) && |states| == |b.requests|
    ensures work == WriteRows(rows, b, states, |b.requests|)
  {
    work := rows;
    for i := 0 to |b.requests|
      invariant work == WriteRows(rows, b, states, i)
    {
      work := work[b.Name(i) := RowFor(states[i], b.requests[i].policy)];
    }
  }

  /** One effective observation over all loaded states. */
  method Observe(loaded: seq<Option<Shaped>>, now: int) returns (effective: int)
    ensures effective == Effective(loaded, now)
  {
    effective := now;
    for i := 0 to |loaded|
      invariant effective == Effective(loaded[..i], now)
    {
      assert loaded[..i + 1][..i] == loaded[..i];
      if loaded[i].Some? && loaded[i].value.observed > effective {
        effective := loaded[i].value.observed;
      }
    }
    assert loaded[..|loaded|] == loaded;
  }

  /** The mutation loop of admitAtomic, abandoned at the first error. */
  method Try(loaded: seq<Option<Shaped>>, requests: seq<Request>, now: int) returns (trial: Trial)
    requires |loaded| == |requests| && TokenRequests(requests)
    ensures trial == Speculate(loaded, requests, now)
  {
    hide Extend;
    trial := Trial([], Receipt(true, []));
    for i := 0 to |requests|
      invariant trial == Speculate(loaded[..i], requests[..i], now)
    {
      assert loaded[..i + 1][..i] == loaded[..i] && requests[..i + 1][..i] == requests[..i];
      trial := Extend(trial, loaded[i], requests[i], now);
      if trial.TrialFail? {
        FailsAll(loaded, requests, now, i + 1);
        return;
      }
    }
    assert loaded[..|loaded|] == loaded && requests[..|requests|] == requests;
  }

  /** A failed prefix fails the batch with the same error. */
  lemma {:induction false} FailsAll(loaded: seq<Option<State>>, requests: seq<Request>, now: int, n: nat)
    requires |loaded| == |requests| && Loadable(loaded) && TokenRequests(requests) && n <= |requests|
    requires Speculate(loaded[..n], requests[..n], now).TrialFail?
    ensures Speculate(loaded, requests, now) == Speculate(loaded[..n], requests[..n], now)
  {
    var m := |requests| - 1;
    if n == |requests| {
      assert loaded[..n] == loaded && requests[..n] == requests;
    } else {
      assert loaded[..m][..n] == loaded[..n] && requests[..m][..n] == requests[..n];
      FailsAll(loaded[..m], requests[..m], now, n);
    }
  }

  /** The restoring loop of a rejected batch. */
  method GiveBack(trial: Trial, requests: seq<Request>, now: int) returns (receipt: Receipt)
    requires trial.Trial? && |trial.states| == |trial.receipt.decisions| == |requests| && TokenRequests(requests)
    ensures receipt == Receipt(false, seq(|requests|, i requires 0 <= i < |requests| =>
                                            Restore(trial.receipt.decisions[i], trial.states[i], requests[i], now)))
  {
    var decisions := trial.receipt.decisions;
    for i := 0 to |requests|
      invariant |decisions| == |requests|
      invariant forall j :: 0 <= j < i ==>
                decisions[j] == Restore(trial.receipt.decisions[j], trial.states[j], requests[j], now)
      invariant forall j :: i <= j < |requests| ==> decisions[j] == trial.receipt.decisions[j]
    {
      decisions := decisions[i := Restore(decisions[i], trial.states[i], requests[i], now)];
    }
    return Receipt(false, decisions);
  }
}
