// Committed histories: what every sequence of single admissions, atomic commands
// and cleanups leaves in the tables.
module Commands {
  import opened Policies
  import opened TokenBucket
  import opened States
  import opened StrictRuns
  import opened StrictService
  import opened Retention
  import opened AtomicBatch
  import opened Database

  // -------------------------------------------------------------- good tables

  ghost predicate ValidEnv(env: Families)
  {
    forall id :: id in env ==> ValidIdentifier(id) && env[id].Valid() && env[id].id == id
  }

  ghost predicate GovernedSingle(r: Request, env: Families)
  {
    r.Sized() && r.policy.algorithm != Concurrency && r.policy.id in env && env[r.policy.id].Governs(r)
  }

  ghost predicate GovernedBatch(b: Batch, env: Families)
  {
    b.Valid() && forall i :: 0 <= i < |b.requests| ==>
      b.requests[i].policy.id in env && env[b.requests[i].policy.id].Governs(b.requests[i])
  }

  /** A row belongs to every policy and key its name can be read as; there is only one. */
  ghost predicate RowOk(name: string, row: BucketRow, env: Families)
  {
    forall id, key :: id in env && BucketName(id, key) == name ==> Written(row.state, env[id])
  }

  ghost predicate RowsOk(rows: map<string, BucketRow>, env: Families)
  {
    forall name :: name in rows ==> RowOk(name, rows[name], env)
  }

  /** A stored receipt decodes for every request that presents its intent. */
  ghost predicate CommandOk(c: Command)
  {
    forall b: Batch, server :: b.Valid() && IntentOf(b, server) == c.intent ==> Decodes(c.receipt, b)
  }

  ghost predicate DbOk(db: Db, env: Families)
  {
    && ValidEnv(env) && RowsOk(db.rows, env)
    && forall c :: c in db.commands ==> CommandOk(db.commands[c])
  }

  lemma {:induction false} WrittenRowOk(id: string, key: string, row: BucketRow, env: Families)
    requires ValidEnv(env) && id in env && Written(row.state, env[id])
    ensures RowOk(BucketName(id, key), row, env)
  {
    forall i, k | i in env && BucketName(i, k) == BucketName(id, key) ensures Written(row.state, env[i]) {
      BucketNameInjective(i, k, id, key);
    }
  }

  lemma LoadedRow(rows: map<string, BucketRow>, r: Request, env: Families, now: int)
    requires RowsOk(rows, env) && r.policy.id in env
    ensures Row(LoadBucket(rows, BucketName(r.policy.id, r.key), now), env[r.policy.id])
  {
  }

  // ---------------------------------------------------------- single admissions

  /** A single strict admission keeps the tables good and is never refused as corrupt. */
  lemma {:induction false} SingleKeeps(db: Db, r: Request, now: int, env: Families)
    requires DbOk(db, env) && GovernedSingle(r, env)
    ensures DbOk(Single(db, r, now).db, env)
    ensures Single(db, r, now).reply.Refused? ==>
            Single(db, r, now).reply.error == ErrOverflow && Single(db, r, now).db == db
    ensures match Single(db, r, now).reply
            case Admission(d, rejected) => if rejected then CompleteRejected(d, r) else CompleteAllowed(d, r)
            case _ => true
  {
    hide Step, Written, RowOk, CommandOk, AdmissionTTL, BucketName;
    var name, at, f := BucketName(r.policy.id, r.key), r.(now := now), env[r.policy.id];
    LoadedRow(db.rows, r, env, now);
    var loaded := LoadBucket(db.rows, name, now);
    assert f.Governs(at);
    StepWritten(loaded, at, f);
    var s := Step(loaded, at);
    if s.Done? {
      WrittenRowOk(r.policy.id, r.key, RowFor(s.next, r.policy), env);
    }
  }

  // ------------------------------------------------------------ atomic commands

  lemma {:induction false} BatchLoads(db: Db, b: Batch, now: int, env: Families)
    requires DbOk(db, env) && GovernedBatch(b, env)
    ensures var loaded := LoadAll(db.rows, b, now);
            GoodLoads(loaded, b.requests, env, Effective(loaded, now))
  {
    hide Written, RowOk, CommandOk, BucketName;
    var loaded := LoadAll(db.rows, b, now);
    forall i | 0 <= i < |b.requests|
      ensures b.requests[i].policy.id in env &&
              GoodLoad(loaded[i], b.requests[i], env[b.requests[i].policy.id], Effective(loaded, now))
    {
      assert b.ValidItem(i);
      LoadedRow(db.rows, b.requests[i], env, now);
    }
  }

  lemma {:induction false} PurgedRows(rows: map<string, BucketRow>, b: Batch, now: int, n: nat)
    requires n <= |b.requests|
    ensures forall name :: name in PurgeRows(rows, b, now, n) ==>
            name in rows && PurgeRows(rows, b, now, n)[name] == rows[name]
    ensures forall name :: name in rows && name !in PurgeRows(rows, b, now, n) ==> rows[name].expires <= now
    ensures forall name :: name in rows && (forall i :: 0 <= i < n ==> b.Name(i) != name) ==>
            name in PurgeRows(rows, b, now, n)
  {
    if n > 0 { PurgedRows(rows, b, now, n - 1); }
  }

  lemma {:induction false} RowWritten(rows: map<string, BucketRow>, b: Batch, states: seq<Shaped>, n: nat, i: nat)
    requires i < n <= |b.requests| && n <= |states| && TokenRequests(b.requests) && b.Distinct()
    ensures b.Name(i) in WriteRows(rows, b, states, n)
    ensures WriteRows(rows, b, states, n)[b.Name(i)] == RowFor(states[i], b.requests[i].policy)
  {
    hide RowFor, Batch.Name;
    if i < n - 1 {
      RowWritten(rows, b, states, n - 1, i);
      assert b.Name(i) != b.Name(n - 1);
    }
  }

  lemma {:induction false} RowKept(rows: map<string, BucketRow>, b: Batch, states: seq<Shaped>, n: nat, name: string)
    requires n <= |b.requests| && n <= |states| && TokenRequests(b.requests)
    requires forall i :: 0 <= i < n ==> b.Name(i) != name
    ensures name in WriteRows(rows, b, states, n) <==> name in rows
    ensures name in rows ==> WriteRows(rows, b, states, n)[name] == rows[name]
  {
    hide RowFor, Batch.Name;
    if n > 0 { RowKept(rows, b, states, n - 1, name); }
  }

  /** Requests that share an intent differ in their clocks only, and a receipt does not look at clocks. */
  lemma {:induction false} ReceiptForIntent(receipt: Receipt, a: Batch, b: Batch, x: bool, y: bool)
    requires a.Valid() && b.Valid() && IntentOf(a, x) == IntentOf(b, y) && Decodes(receipt, a)
    ensures Decodes(receipt, b)
  {
    hide EntryOk, BucketName;
    ValidBatchTokens(a);
    ValidBatchTokens(b);
    assert |a.requests| == |IntentOf(a, x).entries| == |b.requests|;
    forall i | 0 <= i < |b.requests| ensures EntryOk(receipt.decisions[i], b.requests[i], receipt.allowed) {
      assert IntentOf(a, x).entries[i] == IntentOf(b, y).entries[i];
      EntryIgnoresClock(receipt.decisions[i], a.requests[i], b.requests[i], receipt.allowed);
    }
  }

  lemma EntryIgnoresClock(d: Decision, a: Request, b: Request, allowed: bool)
    requires TokenPolicy(a.policy) && a.policy == b.policy && a.cost == b.cost
    ensures EntryOk(d, a, allowed) == EntryOk(d, b, allowed)
  {
  }

  /** Loaded rows are good, so a first execution is all or nothing and its receipt decodes. */
  lemma {:induction false} VerdictGood(db: Db, b: Batch, now: int, env: Families)
    requires DbOk(db, env) && GovernedBatch(b, env)
    ensures var loaded := LoadAll(db.rows, b, now);
            var e := Effective(loaded, now);
            && GoodLoads(loaded, b.requests, env, e)
            && AllOrNothing(loaded, b.requests, env, e, Verdict(b, now, loaded))
    ensures var t := Verdict(b, now, LoadAll(db.rows, b, now)); t.Trial? ==> Decodes(t.receipt, b)
  {
    hide DbOk, AllOrNothing, GoodLoads, Conclude, ReceiptOk, LoadAll, Batch.Valid;
    ValidBatchTokens(b);
    BatchLoads(db, b, now, env);
    var loaded := LoadAll(db.rows, b, now);
    var e := Effective(loaded, now);
    BatchAllOrNothing(loaded, b.requests, env, e);
    WrittenReceiptDecodes(loaded, b.requests, env, e);
  }

  /** Rows of other buckets stay as they were. */
  lemma {:induction false} OthersKept(rows: map<string, BucketRow>, b: Batch, now: int, t: Trial, name: string)
    requires b.Valid() && t.Trial? && (t.receipt.allowed ==> |t.states| == |b.requests| && AllShaped(t.states))
    requires forall i :: 0 <= i < |b.requests| ==> b.Name(i) != name
    ensures var next := RowsAfter(rows, b, now, t);
            (name in next <==> name in rows) && (name in rows ==> next[name] == rows[name])
  {
    hide RowFor, Batch.Name, PurgeRows, WriteRows;
    ValidBatchTokens(b);
    PurgedRows(rows, b, now, |b.requests|);
    if t.receipt.allowed { RowKept(PurgeRows(rows, b, now, |b.requests|), b, t.states, |b.requests|, name); }
  }

  /** Rows of the batch's own buckets: all written, or all loading as before. */
  lemma {:induction false} OwnRows(rows: map<string, BucketRow>, b: Batch, now: int, t: Trial, i: nat)
    requires b.Valid() && t.Trial? && (t.receipt.allowed ==> |t.states| == |b.requests| && AllShaped(t.states))
    requires i < |b.requests|
    ensures b.ValidItem(i)
    ensures var next := RowsAfter(rows, b, now, t);
            if t.receipt.allowed then b.Name(i) in next && next[b.Name(i)] == RowFor(t.states[i], b.requests[i].policy)
            else LoadBucket(next, b.Name(i), now) == LoadBucket(rows, b.Name(i), now)
  {
    hide RowFor, PurgeRows, WriteRows, BucketName;
    ValidBatchTokens(b);
    assert b.ValidItem(i);
    PurgeKeepsLoads(rows, b, now, |b.requests|, b.Name(i));
    if t.receipt.allowed { RowWritten(PurgeRows(rows, b, now, |b.requests|), b, t.states, |b.requests|, i); }
  }

  /** A rejected batch changes no row except that expired ones may be gone. */
  lemma {:induction false} RejectionWritesNothing(rows: map<string, BucketRow>, b: Batch, now: int, t: Trial)
    requires b.Valid() && t.Trial? && !t.receipt.allowed
    ensures var next := RowsAfter(rows, b, now, t);
            && (forall name :: name in next ==> name in rows && next[name] == rows[name])
            && (forall name :: name in rows && name !in next ==> rows[name].expires <= now)
  {
    PurgedRows(rows, b, now, |b.requests|);
  }

  /** An atomic command keeps the tables good. It is refused only for a changed intent or a clock out of
      range, and what it returns the service believes. */
  lemma {:induction false} AtomicKeeps(db: Db, b: Batch, server: bool, now: int, env: Families)
    requires DbOk(db, env) && GovernedBatch(b, env)
    ensures DbOk(Atomic(db, b, server, now).db, env)
    ensures match Atomic(db, b, server, now).reply
            case Refused(e) =>
              && Atomic(db, b, server, now).db == db
              && e == (if b.commandId in db.commands then ErrInvalidRequest else ErrOverflow)
            case Outcomes(receipt) => Decodes(receipt, b) && Believed(receipt, b.requests)
            case Admission(_, _) => false
  {
    hide Verdict, RowsAfter, Decodes, CommandOk, RowsOk, AllOrNothing, Believed, LoadAll, Batch.Valid;
    VerdictGood(db, b, now, env);
    var loaded := LoadAll(db.rows, b, now);
    var t := Verdict(b, now, loaded);
    if b.commandId in db.commands {
      var saved := db.commands[b.commandId];
      if saved.intent == IntentOf(b, server) {
        SavedDecodes(saved, b, server);
        BelievedReceipt(saved.receipt, b);
      }
    } else if t.Trial? {
      BelievedReceipt(t.receipt, b);
      StoredOk(b, server, t.receipt);
      RowsAfterOk(db, b, now, env);
    } else {
      OverflowOnly(loaded, b.requests, env, Effective(loaded, now), t);
    }
  }

  lemma SavedDecodes(c: Command, b: Batch, server: bool)
    requires CommandOk(c) && b.Valid() && c.intent == IntentOf(b, server)
    ensures Decodes(c.receipt, b)
  {
  }

  lemma OverflowOnly(loaded: seq<Option<State>>, requests: seq<Request>, env: Families, e: int, t: Trial)
    requires GoodLoads(loaded, requests, env, e) && AllOrNothing(loaded, requests, env, e, t) && t.TrialFail?
    ensures t.error == ErrOverflow
  {
  }

  lemma {:induction false} BelievedReceipt(receipt: Receipt, b: Batch)
    requires b.Valid() && Decodes(receipt, b)
    ensures Believed(receipt, b.requests)
  {
    ValidBatchTokens(b);
    DecodedIsBelieved(receipt, b.requests);
  }

  lemma {:induction false} StoredOk(b: Batch, server: bool, receipt: Receipt)
    requires b.Valid() && Decodes(receipt, b)
    ensures CommandOk(Command(IntentOf(b, server), receipt))
  {
    hide Decodes, IntentOf, Batch.Valid;
    forall c: Batch, s | c.Valid() && IntentOf(c, s) == IntentOf(b, server) ensures Decodes(receipt, c) {
      ReceiptForIntent(receipt, b, c, server, s);
    }
  }

  lemma {:induction false} RowsAfterOk(db: Db, b: Batch, now: int, env: Families)
    requires DbOk(db, env) && GovernedBatch(b, env)
    ensures var t := Verdict(b, now, LoadAll(db.rows, b, now)); t.Trial? ==> RowsOk(RowsAfter(db.rows, b, now, t), env)
  {
    hide Verdict, RowsAfter, RowOk, CommandOk, LoadAll, BucketName, RowFor;
    VerdictGood(db, b, now, env);
    var loaded := LoadAll(db.rows, b, now);
    var t := Verdict(b, now, loaded);
    if t.Trial? {
      var next := RowsAfter(db.rows, b, now, t);
      forall name | name in next ensures RowOk(name, next[name], env) {
        if i: nat :| i < |b.requests| && b.Name(i) == name {
          OwnRowOk(db, b, now, env, t, i);
        } else {
          OthersKept(db.rows, b, now, t, name);
        }
      }
    }
  }

  lemma {:induction false} OwnRowOk(db: Db, b: Batch, now: int, env: Families, t: Trial, i: nat)
    requires DbOk(db, env) && GovernedBatch(b, env) && t == Verdict(b, now, LoadAll(db.rows, b, now)) && t.Trial?
    requires i < |b.requests| && b.Name(i) in RowsAfter(db.rows, b, now, t)
    ensures RowOk(b.Name(i), RowsAfter(db.rows, b, now, t)[b.Name(i)], env)
  {
    hide Verdict, RowsAfter, RowOk, CommandOk, LoadAll, BucketName, Written, Ready;
    VerdictGood(db, b, now, env);
    OwnRows(db.rows, b, now, t, i);
    var r := b.requests[i];
    if t.receipt.allowed {
      var loaded := LoadAll(db.rows, b, now);
      assert Debited(loaded[i], r, env[r.policy.id], Effective(loaded, now), t.states[i], t.receipt.decisions[i]);
      WrittenRowOk(r.policy.id, r.key, RowFor(t.states[i], r.policy), env);
    } else {
      RejectionWritesNothing(db.rows, b, now, t);
    }
  }

  // ------------------------------------------------------------------ debits

  /** Tokens request r would find at instant e, loading at `now`. */
  ghost function Available(rows: map<string, BucketRow>, r: Request, now: int, e: int): int
    requires 0 < r.policy.period
  {
    Ready(LoadBucket(rows, BucketName(r.policy.id, r.key), now), r, e).tokens
  }

  /** What one transaction took out of the i-th bucket of a batch, measured on the bucket itself. */
  ghost function Debit(db: Db, next: Db, b: Batch, now: int, i: nat): int
    requires b.Valid() && i < |b.requests|
  {
    assert b.ValidItem(i);
    var e := Effective(LoadAll(db.rows, b, now), now);
    Available(db.rows, b.requests[i], now, e) - Available(next.rows, b.requests[i], now, e)
  }

  /** All-or-nothing conservation: each bucket loses exactly its cost on the first execution of a command
      that is admitted, and nothing on a rejected execution, a replay, a changed intent or a failure. */
  lemma {:induction false} AtomicDebits(db: Db, b: Batch, server: bool, now: int, env: Families, i: nat)
    requires DbOk(db, env) && GovernedBatch(b, env) && i < |b.requests|
    ensures var c := Atomic(db, b, server, now);
            Debit(db, c.db, b, now, i) ==
              if b.commandId !in db.commands && c.reply.Outcomes? && c.reply.receipt.allowed
              then b.requests[i].cost else 0
  {
    hide Verdict, RowsAfter, RowOk, CommandOk, LoadAll, BucketName, Ready, Effective;
    assert b.ValidItem(i);
    var loaded := LoadAll(db.rows, b, now);
    var t := Verdict(b, now, loaded);
    if b.commandId !in db.commands && t.Trial? {
      OwnRows(db.rows, b, now, t, i);
      LoadedAt(db.rows, b, now, i);
      if t.receipt.allowed {
        VerdictGood(db, b, now, env);
        var r, e := b.requests[i], Effective(loaded, now);
        assert Debited(loaded[i], r, env[r.policy.id], e, t.states[i], t.receipt.decisions[i]);
        WrittenRowLoads(RowsAfter(db.rows, b, now, t), r, now, e, t.states[i], env[r.policy.id]);
      }
    }
  }

  lemma LoadedAt(rows: map<string, BucketRow>, b: Batch, now: int, i: nat)
    requires i < |b.requests|
    ensures LoadAll(rows, b, now)[i] == LoadBucket(rows, b.Name(i), now)
  {
  }

  /** A row just written at e is found again at e, holding what was written. */
  lemma {:induction false} WrittenRowLoads(
    rows: map<string, BucketRow>, r: Request, now: int, e: int, s: Shaped, f: Family)
    requires r.Sized() && r.policy.algorithm == TokenBucket && f.Valid() && f.algorithm == TokenBucket && Written(s, f)
    requires s.revision == r.policy.revision && s.observed == e >= now
    requires var name := BucketName(r.policy.id, r.key); name in rows && rows[name] == RowFor(s, r.policy)
    ensures Available(rows, r, now, e) == s.tokens
  {
    hide BucketName, AdmissionTTL, ExactProduct;
    TTLCovers(r.policy);
    RefillIdle(s.AsBucket(), r.policy);
  }

  // --------------------------------------------------------------- histories

  /** Transactions in commit order. `now` is the clock each one used. */
  datatype Event =
    | SingleDone(request: Request, now: int)
    | BatchDone(batch: Batch, server: bool, now: int)
    | Removed(names: set<string>)

  ghost predicate Governed(e: Event, env: Families)
  {
    match e
    case SingleDone(r, _) => GovernedSingle(r, env)
    case BatchDone(b, _, _) => GovernedBatch(b, env)
    case Removed(_) => true
  }

  /** One event applied alone. */
  ghost function Serial(db: Db, e: Event, env: Families): Db
    requires Governed(e, env)
  {
    match e
    case SingleDone(r, now) => Single(db, r, now).db
    case BatchDone(b, server, now) => Atomic(db, b, server, now).db
    case Removed(names) => db.(rows := db.rows - names)
  }

  ghost predicate GovernedAll(h: seq<Event>, env: Families)
  {
    ValidEnv(env) && forall i :: 0 <= i < |h| ==> Governed(h[i], env)
  }

  ghost function Replay(h: seq<Event>, env: Families): Db
    requires GovernedAll(h, env)
  {
    if h == [] then Db(map[], map[]) else Serial(Replay(h[..|h| - 1], env), h[|h| - 1], env)
  }

  lemma {:induction false} SerialKeeps(db: Db, e: Event, env: Families)
    requires DbOk(db, env) && Governed(e, env)
    ensures DbOk(Serial(db, e, env), env)
    ensures forall c :: c in db.commands ==>
            c in Serial(db, e, env).commands && Serial(db, e, env).commands[c] == db.commands[c]
  {
    hide Written, RowOk, CommandOk, Verdict, RowsAfter, Step;
    match e
    case SingleDone(r, now) => SingleKeeps(db, r, now, env);
    case BatchDone(b, server, now) => AtomicKeeps(db, b, server, now, env);
    case Removed(_) =>
  }

  /** Over every history the tables stay good: no stored row is ever corrupt and no receipt fails to decode. */
  lemma {:induction false} ReplayOk(h: seq<Event>, env: Families)
    requires GovernedAll(h, env)
    ensures DbOk(Replay(h, env), env)
  {
    hide Serial;
    if h != [] {
      ReplayOk(h[..|h| - 1], env);
      SerialKeeps(Replay(h[..|h| - 1], env), h[|h| - 1], env);
    }
  }

  /** What event e took from bucket `name` on behalf of command c. */
  ghost function DebitFor(db: Db, e: Event, env: Families, c: string, name: string): int
    requires Governed(e, env)
  {
    if e.BatchDone? && e.batch.commandId == c then
      DebitFrom(db, Serial(db, e, env), e.batch, e.now, name, |e.batch.requests|) else 0
  }

  /** The debit of the bucket called `name`, among the first n of a batch. */
  ghost function DebitFrom(db: Db, next: Db, b: Batch, now: int, name: string, n: nat): int
    requires b.Valid() && n <= |b.requests|
  {
    if n == 0 then 0
    else DebitFrom(db, next, b, now, name, n - 1) + if b.Name(n - 1) == name then Debit(db, next, b, now, n - 1) else 0
  }

  /** Everything history h took from bucket `name` on behalf of command c. */
  ghost function Spent(h: seq<Event>, env: Families, c: string, name: string): int
    requires GovernedAll(h, env)
  {
    if h == [] then 0
    else
      var init, e := h[..|h| - 1], h[|h| - 1];
      Spent(init, env, c, name) + DebitFor(Replay(init, env), e, env, c, name)
  }

  /** The cost an intent asks of bucket `name`. */
  ghost function Asked(entries: seq<IntentEntry>, name: string): int
  {
    if entries == [] then 0
    else
      var x := entries[|entries| - 1];
      Asked(entries[..|entries| - 1], name) + if BucketName(x.policy.id, x.key) == name then x.cost else 0
  }

  /** What the command table says command c is owed from bucket `name`. */
  ghost function Owed(db: Db, c: string, name: string): int
  {
    if c in db.commands && db.commands[c].receipt.allowed then Asked(db.commands[c].intent.entries, name) else 0
  }

  lemma {:induction false} DebitsAsked(db: Db, b: Batch, server: bool, now: int, env: Families, name: string, n: nat)
    requires DbOk(db, env) && GovernedBatch(b, env) && n <= |b.requests|
    ensures var c := Atomic(db, b, server, now);
            DebitFrom(db, c.db, b, now, name, n) ==
              if b.commandId !in db.commands && c.reply.Outcomes? && c.reply.receipt.allowed
              then Asked(IntentOf(b, server).entries[..n], name) else 0
  {
    hide Atomic, Debit, BucketName, DbOk, Batch.Valid;
    if n > 0 {
      DebitsAsked(db, b, server, now, env, name, n - 1);
      AtomicDebits(db, b, server, now, env, n - 1);
      var entries := IntentOf(b, server).entries;
      assert entries[..n][..n - 1] == entries[..n - 1] && entries[..n][n - 1] == entries[n - 1];
    }
  }

  lemma {:induction false} EventDebits(db: Db, e: Event, env: Families, c: string, name: string)
    requires DbOk(db, env) && Governed(e, env)
    ensures DebitFor(db, e, env, c, name) == Owed(Serial(db, e, env), c, name) - Owed(db, c, name)
  {
    hide Verdict, RowsAfter, CommandOk, RowsOk, DebitFrom, Step, Asked, Batch.Valid, LoadAll;
    match e {
      case SingleDone(r, now) =>
      case Removed(_) =>
      case BatchDone(b, server, now) =>
        DebitsAsked(db, b, server, now, env, name, |b.requests|);
        AtomicKeeps(db, b, server, now, env);
        assert IntentOf(b, server).entries[..|b.requests|] == IntentOf(b, server).entries;
    }
  }

  /** Exactly-once debit: whatever is retried, lost, rolled back or interleaved, the total a command took
      from each bucket is its intent's cost there if the command table holds an allowed receipt for it, and
      zero otherwise. */
  lemma {:induction false} ExactlyOnce(h: seq<Event>, env: Families, c: string, name: string)
    requires GovernedAll(h, env)
    ensures Spent(h, env, c, name) == Owed(Replay(h, env), c, name)
  {
    hide Serial, DebitFor, Owed;
    OwedNothing(c, name);
    if h != [] {
      var init := h[..|h| - 1];
      ExactlyOnce(init, env, c, name);
      ReplayOk(init, env);
      EventDebits(Replay(init, env), h[|h| - 1], env, c, name);
    }
  }

  lemma OwedNothing(c: string, name: string)
    ensures Owed(Db(map[], map[]), c, name) == 0
  {
  }

  lemma {:induction false} CommandsKept(h: seq<Event>, more: seq<Event>, env: Families, c: string)
    requires GovernedAll(h + more, env) && GovernedAll(h, env) && c in Replay(h, env).commands
    ensures c in Replay(h + more, env).commands && Replay(h + more, env).commands[c] == Replay(h, env).commands[c]
    decreases |more|
  {
    hide Serial;
    if more == [] {
      assert h + more == h;
    } else {
      var init := more[..|more| - 1];
      assert (h + more)[..|h + more| - 1] == h + init;
      CommandsKept(h, init, env, c);
      ReplayOk(h + init, env);
      SerialKeeps(Replay(h + init, env), (h + more)[|h + more| - 1], env);
    }
  }

  /** Replay stability: once a command is in the table, the same intent returns the original receipt after
      any further history, and a changed intent is refused; neither touches a row. */
  lemma {:induction false} ReplayStable(
    h: seq<Event>, more: seq<Event>, env: Families, b: Batch, server: bool, now: int)
    requires GovernedAll(h + more, env) && GovernedAll(h, env) && GovernedBatch(b, env)
    requires b.commandId in Replay(h, env).commands
    ensures var saved := Replay(h, env).commands[b.commandId];
            var db := Replay(h + more, env);
            var again := Atomic(db, b, server, now);
            && again.db == db
            && again.reply == if Binds(saved.intent, b, server) then Outcomes(saved.receipt)
                 else Refused(ErrInvalidRequest)
  {
    hide Serial, Decodes, CommandOk, RowsOk, Verdict, LoadAll, Batch.Valid, IntentOf, Binds;
    IntentBinds(Replay(h, env).commands[b.commandId].intent, b, server);
    CommandsKept(h, more, env, b.commandId);
    ReplayOk(h + more, env);
    var db := Replay(h + more, env);
    if db.commands[b.commandId].intent == IntentOf(b, server) {
      SavedDecodes(db.commands[b.commandId], b, server);
    }
  }

  /** So between two presentations of a command, whatever happens in between: the second is told the first one's receipt
      if and only if they differ in nothing but the clocks of their requests. */
  lemma {:induction false} SecondPresentation(
    h: seq<Event>, more: seq<Event>, env: Families, a: Batch, x: bool, t: int, b: Batch, y: bool, now: int)
    requires GovernedAll(h + [BatchDone(a, x, t)] + more, env) && GovernedAll(h, env)
    requires GovernedBatch(a, env) && GovernedBatch(b, env) && a.commandId == b.commandId
    requires a.commandId !in Replay(h, env).commands && Atomic(Replay(h, env), a, x, t).reply.Outcomes?
    ensures var first := Atomic(Replay(h, env), a, x, t);
            var db := Replay(h + [BatchDone(a, x, t)] + more, env);
            var again := Atomic(db, b, y, now);
            && again.db == db
            && again.reply == if SameCommand(a, x, b, y) then first.reply else Refused(ErrInvalidRequest)
  {
    hide Verdict, LoadAll, RowsAfter, Decodes, Batch.Valid, IntentOf, Binds, SameCommand;
    var mid := h + [BatchDone(a, x, t)];
    assert mid[..|h|] == h;
    assert GovernedAll(mid, env) by {
      forall i | 0 <= i < |mid| ensures Governed(mid[i], env) { assert mid[i] == (mid + more)[i]; }
    }
    assert Replay(mid, env) == Atomic(Replay(h, env), a, x, t).db;
    ReplayStable(mid, more, env, b, y, now);
    IntentBinds(IntentOf(a, x), b, y);
    IntentExact(a, x, b, y);
  }
}
