// Concurrent transactions as a step machine: locks taken one at a time, rows read
// one at a time, commits that may fail or lose their acknowledgement, aborts at
// any point, and cleaners that hold row locks but skip rows others hold.
module Protocol {
  import opened Policies
  import opened AtomicBatch
  import opened Database
  import opened Commands
  import opened Locks

  datatype Call = SingleCall(request: Request) | BatchCall(batch: Batch, server: bool)

  /** Digest prefixes used as lock keys; nothing is assumed of them, collisions included. */
  datatype Hashes = Hashes(bucket: string -> int, command: string -> int)

  ghost predicate GovernedCall(c: Call, env: Families)
  {
    match c
    case SingleCall(r) => GovernedSingle(r, env)
    case BatchCall(b, _) => GovernedBatch(b, env)
  }

  /** The rows a call touches, in the order it reads them. */
  function Names(c: Call): seq<string>
  {
    match c
    case SingleCall(r) => [BucketName(r.policy.id, r.key)]
    case BatchCall(b, _) => seq(|b.requests|, i requires 0 <= i < |b.requests| => b.Name(i))
  }

  function Keys(names: seq<string>, h: Hashes): seq<int>
  {
    seq(|names|, i requires 0 <= i < |names| => h.bucket(names[i]))
  }

  /** The command lock, if any, then one lock for each distinct bucket key in ascending order. */
  function Plan(c: Call, h: Hashes): seq<Lock>
  {
    var buckets := BucketPlan(Keys(Names(c), h));
    match c
    case SingleCall(_) => buckets
    case BatchCall(b, _) => [CommandLock(h.command(b.commandId))] + buckets
  }

  datatype Phase =
    | Locking(looked: bool)
    | Replaying(reply: Reply)
    | Reading(now: int, loaded: seq<Option<Shaped>>)

  /** `settled` is the entry the command table already held when a batch began. */
  datatype Tx = Tx(call: Call, plan: seq<Lock>, held: nat, phase: Phase, settled: Option<Command>)
  {
    ghost predicate Holds(l: Lock) { held <= |plan| && l in plan[..held] }

    /** Ready to ask for its next lock: a batch has looked its command up before any bucket lock. */
    predicate Asks()
    {
      phase.Locking? && held < |plan| && (call.BatchCall? && held >= 1 ==> phase.looked)
    }
  }

  /** A call that ended with an answer to its caller. */
  datatype Ending = Ending(call: Call, settled: Option<Command>, answer: Answer)

  /** Cleaners hold the rows they are about to delete, each with the clock that found it expired. */
  datatype World = World(
    db: Db, txs: map<nat, Tx>, cleaners: map<nat, map<string, int>>, history: seq<Event>, answers: seq<Ending>)

  /** What is fixed in a run: the policies' parameters and the lock hashes. */
  datatype Config = Config(env: Families, hashes: Hashes)

  datatype Step =
    | Begin(id: nat, call: Call)
    | Acquire(id: nat)
    | Lookup(id: nat)
    | Observe(id: nat, now: int)
    | Read(id: nat)
    | Finish(id: nat, commit: Commit)
    | Abort(id: nat)
    | Sweep(cleaner: nat)
    | Grab(cleaner: nat, name: string, clock: int)
    | Cleaned(cleaner: nat, committed: bool)

  ghost predicate Free(w: World, l: Lock) { forall id :: id in w.txs ==> !w.txs[id].Holds(l) }

  /** Row locks: rows a transaction has read stay locked until it ends. */
  ghost predicate RowLocked(w: World, name: string)
  {
    exists id :: id in w.txs && ReadBy(w.txs[id], name)
  }

  ghost predicate ReadBy(t: Tx, name: string)
  {
    t.phase.Reading? && exists i :: 0 <= i < |t.phase.loaded| && i < |Names(t.call)| && Names(t.call)[i] == name
  }

  /** A row some cleaner holds. */
  ghost predicate Grabbed(w: World, name: string)
  {
    exists k :: k in w.cleaners && name in w.cleaners[k]
  }

  /** The row a transaction reads next. */
  function NextRow(t: Tx): Option<string>
  {
    if t.phase.Reading? && |t.phase.loaded| < |Names(t.call)| then Some(Names(t.call)[|t.phase.loaded|]) else None
  }

  /** Reading waits for row locks; a cleaner skips locked rows instead. */
  ghost predicate Enabled(w: World, s: Step, c: Config)
  {
    match s
    case Begin(id, call) => id !in w.txs && GovernedCall(call, c.env)
    case Acquire(id) => id in w.txs && w.txs[id].Asks() && Free(w, w.txs[id].plan[w.txs[id].held])
    case Lookup(id) =>
      && id in w.txs && w.txs[id].call.BatchCall? && w.txs[id].call.batch.Valid()
      && w.txs[id].held == 1 && w.txs[id].phase == Locking(false)
    case Observe(id, _) =>
      && id in w.txs && w.txs[id].held == |w.txs[id].plan| && w.txs[id].phase.Locking?
      && (w.txs[id].call.BatchCall? ==> w.txs[id].phase.looked)
    case Read(id) => id in w.txs && NextRow(w.txs[id]).Some? && !Grabbed(w, NextRow(w.txs[id]).value)
    case Finish(id, _) =>
      && id in w.txs && GovernedCall(w.txs[id].call, c.env) && !w.txs[id].phase.Locking?
      && (w.txs[id].phase.Reading? ==> |w.txs[id].phase.loaded| == |Names(w.txs[id].call)|)
    case Abort(id) => id in w.txs
    case Sweep(k) => k !in w.cleaners
    case Grab(k, name, clock) =>
      && k in w.cleaners && name in w.db.rows && w.db.rows[name].expires <= clock
      && !RowLocked(w, name) && !Grabbed(w, name)
    case Cleaned(k, _) => k in w.cleaners
  }

  /** What a transaction that has read all its rows would commit. */
  ghost function Outcome(db: Db, t: Tx, env: Families): Committed
    requires t.phase.Reading? && GovernedCall(t.call, env) && |t.phase.loaded| == |Names(t.call)|
  {
    match t.call
    case SingleCall(r) => SingleFrom(db, r, t.phase.now, t.phase.loaded[0])
    case BatchCall(b, server) => AtomicFrom(db, b, server, t.phase.now, t.phase.loaded)
  }

  function EventOf(t: Tx): Event
    requires t.phase.Reading?
  {
    match t.call
    case SingleCall(r) => SingleDone(r, t.phase.now)
    case BatchCall(b, server) => BatchDone(b, server, t.phase.now)
  }

  /** The reply of a replay, from the stored command. */
  ghost function Replayed(db: Db, b: Batch, server: bool): Reply
    requires b.Valid() && b.commandId in db.commands
  {
    var saved := db.commands[b.commandId];
    if saved.intent != IntentOf(b, server) then Refused(ErrInvalidRequest)
    else if !Decodes(saved.receipt, b) then Refused(ErrCorrupt)
    else Outcomes(saved.receipt)
  }

  /** A transaction ends and its caller is answered. */
  function Answered(w: World, id: nat, a: Answer): (next: World)
    requires id in w.txs
    ensures |next.answers| == |w.answers| + 1
  {
    w.(txs := w.txs - {id}, answers := w.answers + [Ending(w.txs[id].call, w.txs[id].settled, a)])
  }

  ghost function Ended(w: World, id: nat, commit: Commit, env: Families): (next: World)
    requires id in w.txs && GovernedCall(w.txs[id].call, env) && !w.txs[id].phase.Locking?
    requires w.txs[id].phase.Reading? ==> |w.txs[id].phase.loaded| == |Names(w.txs[id].call)|
    ensures |next.answers| == |w.answers| + 1
  {
    var t := w.txs[id];
    if t.phase.Replaying? then
      Answered(w, id, if commit.Acknowledged? || t.phase.reply.Refused? then Known(t.phase.reply) else Unknown)
    else
      var o := Outcome(w.db, t, env);
      if o.reply.Refused? then Answered(w, id, Known(o.reply))
      else if commit.CommitFailed? then Answered(w, id, Unknown)
      else Answered(w.(db := o.db, history := w.history + [EventOf(t)]), id,
                    if commit.Acknowledged? then Known(o.reply) else Unknown)
  }

  /** What the command table holds for a call. */
  function Settled(db: Db, call: Call): Option<Command>
  {
    if call.BatchCall? && call.batch.commandId in db.commands then Some(db.commands[call.batch.commandId]) else None
  }

  ghost function Do(w: World, s: Step, c: Config): World
    requires Enabled(w, s, c)
  {
    match s
    case Begin(id, call) =>
      w.(txs := w.txs[id := Tx(call, Plan(call, c.hashes), 0, Locking(false), Settled(w.db, call))])
    case Acquire(id) => w.(txs := w.txs[id := w.txs[id].(held := w.txs[id].held + 1)])
    case Lookup(id) =>
      var t := w.txs[id];
      var phase := if t.call.batch.commandId in w.db.commands
                   then Replaying(Replayed(w.db, t.call.batch, t.call.server)) else Locking(true);
      w.(txs := w.txs[id := t.(phase := phase)])
    case Observe(id, now) => w.(txs := w.txs[id := w.txs[id].(phase := Reading(now, []))])
    case Read(id) =>
      var t := w.txs[id];
      var row := LoadBucket(w.db.rows, Names(t.call)[|t.phase.loaded|], t.phase.now);
      w.(txs := w.txs[id := t.(phase := Reading(t.phase.now, t.phase.loaded + [row]))])
    case Finish(id, commit) => Ended(w, id, commit, c.env)
    case Abort(id) => w.(txs := w.txs - {id})
    case Sweep(k) => w.(cleaners := w.cleaners[k := map[]])
    case Grab(k, name, clock) => w.(cleaners := w.cleaners[k := w.cleaners[k][name := clock]])
    case Cleaned(k, committed) =>
      var rest := w.(cleaners := w.cleaners - {k});
      if !committed then rest
      else rest.(db := w.db.(rows := w.db.rows - w.cleaners[k].Keys),
                 history := w.history + [Removed(w.cleaners[k].Keys)])
  }

  // ----------------------------------------------------------------- invariant

  /** One transaction against the tables: what it has learnt under its locks is still so. */
  ghost predicate TxOk(t: Tx, db: Db, c: Config)
  {
    && GovernedCall(t.call, c.env) && t.plan == Plan(t.call, c.hashes) && t.held <= |t.plan|
    && (t.settled.Some? ==> Settled(db, t.call) == t.settled)
    && (t.call.SingleCall? ==> t.phase.Reading? || t.phase == Locking(false))
    && (t.call.BatchCall? && t.phase == Locking(false) ==> t.held <= 1)
    && (t.call.BatchCall? && (t.phase.Reading? || t.phase == Locking(true)) ==>
          t.held >= 1 && t.call.batch.commandId !in db.commands)
    && (t.phase.Replaying? ==>
          && t.call.BatchCall? && t.held >= 1 && t.call.batch.commandId in db.commands
          && t.phase.reply == Replayed(db, t.call.batch, t.call.server))
    && (t.phase.Reading? ==>
          && t.held == |t.plan| && |t.phase.loaded| <= |Names(t.call)|
          && forall i :: 0 <= i < |t.phase.loaded| ==>
               t.phase.loaded[i] == LoadBucket(db.rows, Names(t.call)[i], t.phase.now))
  }

  ghost predicate Apart(t: Tx, u: Tx) { forall l :: !(t.Holds(l) && u.Holds(l)) }

  ghost predicate TxsOk(w: World, c: Config)
  {
    && (forall id :: id in w.txs ==> TxOk(w.txs[id], w.db, c))
    && (forall a, b :: a in w.txs && b in w.txs && a != b ==> Apart(w.txs[a], w.txs[b]))
  }

  /** A known receipt is the one in the command table, under the caller's own intent; and a call that began once its
      command was in the table is answered from there. */
  ghost predicate AnswerOk(e: Ending, db: Db)
  {
    && (e.call.BatchCall? && e.answer.Known? && e.answer.reply.Outcomes? ==>
          Settled(db, e.call) == Some(Command(IntentOf(e.call.batch, e.call.server), e.answer.reply.receipt)))
    && (e.settled.Some? ==>
          && Settled(db, e.call) == e.settled && e.call.BatchCall? && e.call.batch.Valid()
          && (e.answer.Known? ==> e.answer.reply == Replayed(db, e.call.batch, e.call.server)))
  }

  /** No transaction has read a row a cleaner holds. */
  ghost predicate Ungrabbed(w: World, t: Tx) { forall name :: Grabbed(w, name) ==> !ReadBy(t, name) }

  /** Rows cleaners hold have stayed as they were found, and no two hold the same one. */
  ghost predicate CleanersOk(db: Db, cleaners: map<nat, map<string, int>>)
  {
    && (forall k, name :: k in cleaners && name in cleaners[k] ==>
         name in db.rows && db.rows[name].expires <= cleaners[k][name])
    && (forall j, k, name :: j in cleaners && k in cleaners && j != k && name in cleaners[j] ==> name !in cleaners[k])
  }

  ghost predicate Inv(w: World, c: Config)
  {
    && GovernedAll(w.history, c.env) && w.db == Replay(w.history, c.env)
    && TxsOk(w, c)
    && (forall id :: id in w.txs ==> Ungrabbed(w, w.txs[id]))
    && AnswersOk(w.answers, w.db) && CleanersOk(w.db, w.cleaners)
  }

  // ------------------------------------------------------------------- frames

  /** The tables changed nothing transaction t relies on. */
  ghost predicate Spared(t: Tx, db: Db, next: Db)
  {
    && (forall name :: ReadBy(t, name) ==>
         (name in db.rows <==> name in next.rows) && (name in db.rows ==> db.rows[name] == next.rows[name]))
    && (t.call.BatchCall? && t.held >= 1 ==>
          var k := t.call.batch.commandId;
          (k in db.commands <==> k in next.commands) && (k in db.commands ==> db.commands[k] == next.commands[k]))
    && (t.settled.Some? ==> Settled(next, t.call) == Settled(db, t.call))
  }

  lemma {:induction false} SparedTxOk(t: Tx, db: Db, next: Db, c: Config)
    requires TxOk(t, db, c) && Spared(t, db, next)
    ensures TxOk(t, next, c)
  {
    hide GovernedCall, Plan, Decodes;
    if t.phase.Reading? {
      forall i | 0 <= i < |t.phase.loaded|
        ensures t.phase.loaded[i] == LoadBucket(next.rows, Names(t.call)[i], t.phase.now)
      {
        assert ReadBy(t, Names(t.call)[i]);
      }
    }
  }

  /** Two transactions apart share no row either has locked. */
  lemma {:induction false} ApartNames(t: Tx, u: Tx, c: Config, name: string)
    requires Apart(t, u) && t.plan == Plan(t.call, c.hashes) && u.plan == Plan(u.call, c.hashes)
    requires t.held == |t.plan| && u.held == |u.plan|
    requires name in Names(t.call)
    ensures name !in Names(u.call)
  {
    if name in Names(u.call) {
      BucketHeld(t, c, name);
      BucketHeld(u, c, name);
    }
  }

  lemma {:induction false} BucketHeld(t: Tx, c: Config, name: string)
    requires t.plan == Plan(t.call, c.hashes) && t.held == |t.plan| && name in Names(t.call)
    ensures t.Holds(BucketLock(c.hashes.bucket(name)))
  {
    var keys := Keys(Names(t.call), c.hashes);
    var i :| 0 <= i < |Names(t.call)| && Names(t.call)[i] == name;
    assert keys[i] == c.hashes.bucket(name);
    BucketPlanIncreases(keys);
    assert BucketLock(keys[i]) in BucketPlan(keys);
    assert t.plan[..t.held] == t.plan;
  }

  lemma {:induction false} ApartCommands(t: Tx, u: Tx, c: Config)
    requires Apart(t, u) && t.plan == Plan(t.call, c.hashes) && u.plan == Plan(u.call, c.hashes)
    requires t.call.BatchCall? && u.call.BatchCall? && 1 <= t.held <= |t.plan| && 1 <= u.held <= |u.plan|
    ensures t.call.batch.commandId != u.call.batch.commandId
  {
    var l := CommandLock(c.hashes.command(t.call.batch.commandId));
    assert t.plan[..t.held][0] == l;
    if t.call.batch.commandId == u.call.batch.commandId {
      assert u.plan[..u.held][0] == l;
      assert t.Holds(l) && u.Holds(l);
    }
  }

  // ------------------------------------------------------------------ commits

  /** A transaction that has read all its rows, at the point of COMMIT. */
  ghost predicate AtCommit(u: Tx, db: Db, c: Config)
  {
    TxOk(u, db, c) && u.phase.Reading? && |u.phase.loaded| == |Names(u.call)|
  }

  /** Its commit is the transaction run alone on the tables as they are now. */
  lemma {:induction false} OutcomeSerial(u: Tx, db: Db, c: Config)
    requires AtCommit(u, db, c)
    ensures Governed(EventOf(u), c.env)
    ensures Outcome(db, u, c.env).db == Serial(db, EventOf(u), c.env)
    ensures u.call.BatchCall? ==>
              && u.call.batch.Valid() && |u.phase.loaded| == |u.call.batch.requests|
              && Outcome(db, u, c.env) == Atomic(db, u.call.batch, u.call.server, u.phase.now)
              && u.phase.loaded == LoadAll(db.rows, u.call.batch, u.phase.now)
  {
    hide GovernedSingle, Plan, SingleFrom, AtomicFrom, LoadBucket, BucketName;
    match u.call {
      case SingleCall(r) =>
        assert u.phase.loaded[0] == LoadBucket(db.rows, Names(u.call)[0], u.phase.now);
      case BatchCall(b, server) =>
        assert u.phase.loaded == LoadAll(db.rows, b, u.phase.now);
    }
  }

  /** ... and it touches nothing another transaction relies on. */
  lemma {:induction false} OutcomeSpares(t: Tx, u: Tx, db: Db, c: Config)
    requires TxOk(t, db, c) && AtCommit(u, db, c) && Apart(t, u)
    ensures Spared(t, db, Outcome(db, u, c.env).db)
  {
    hide GovernedCall, Plan, SingleFrom, AtomicFrom, Names, BucketName, Verdict, RowsAfter;
    var next := Outcome(db, u, c.env).db;
    forall name | ReadBy(t, name)
      ensures (name in db.rows <==> name in next.rows) && (name in db.rows ==> db.rows[name] == next.rows[name])
    {
      ApartNames(t, u, c, name);
      RowsOfOthers(u, db, c, name);
    }
    if t.call.BatchCall? && t.held >= 1 {
      if u.call.BatchCall? { ApartCommands(t, u, c); }
      CommandsOfOthers(u, db, c, t.call.batch.commandId);
    }
    CommandsStay(u, db, c);
  }

  lemma CommandsStay(u: Tx, db: Db, c: Config)
    requires AtCommit(u, db, c)
    ensures var next := Outcome(db, u, c.env).db;
            forall k :: k in db.commands ==> k in next.commands && next.commands[k] == db.commands[k]
  {
    hide Plan, Verdict, RowsAfter, States.Step;
  }

  lemma {:induction false} RowsOfOthers(u: Tx, db: Db, c: Config, name: string)
    requires AtCommit(u, db, c) && name !in Names(u.call)
    ensures var next := Outcome(db, u, c.env).db;
            (name in db.rows <==> name in next.rows) && (name in db.rows ==> db.rows[name] == next.rows[name])
  {
    hide Plan, BucketName, Verdict, RowsAfter, States.Step, Batch.Name;
    match u.call {
      case SingleCall(r) => assert Names(u.call)[0] != name;
      case BatchCall(b, server) =>
        forall i | 0 <= i < |b.requests| ensures b.Name(i) != name {
          assert Names(u.call)[i] == b.Name(i) && Names(u.call)[i] in Names(u.call);
        }
        var t := Verdict(b, u.phase.now, u.phase.loaded);
        if t.Trial? { OthersKept(db.rows, b, u.phase.now, t, name); }
    }
  }

  lemma CommandsOfOthers(u: Tx, db: Db, c: Config, k: string)
    requires AtCommit(u, db, c) && (u.call.BatchCall? ==> u.call.batch.commandId != k)
    ensures var next := Outcome(db, u, c.env).db;
            (k in db.commands <==> k in next.commands) && (k in db.commands ==> db.commands[k] == next.commands[k])
  {
    hide Plan, Verdict, RowsAfter, States.Step;
  }

  // --------------------------------------------------------------- every step

  /** Changing one transaction in place keeps the rest. */
  lemma {:induction false} TxChanged(w: World, id: nat, t: Tx, c: Config)
    requires TxsOk(w, c) && TxOk(t, w.db, c)
    requires forall k :: k in w.txs && k != id ==> Apart(w.txs[k], t)
    ensures TxsOk(w.(txs := w.txs[id := t]), c)
  {
    hide TxOk;
    var next := w.(txs := w.txs[id := t]);
    forall a, b | a in next.txs && b in next.txs && a != b ensures Apart(next.txs[a], next.txs[b]) {
      if a == id { assert Apart(w.txs[b], t); } else if b == id { assert Apart(w.txs[a], t); }
    }
  }

  /** A transaction holding no more than before stays apart from the others. */
  lemma HoldsNoMore(w: World, id: nat, t: Tx, c: Config)
    requires TxsOk(w, c) && id in w.txs && t.plan == w.txs[id].plan && t.held == w.txs[id].held
    ensures forall k :: k in w.txs && k != id ==> Apart(w.txs[k], t)
  {
    hide TxOk;
    forall k | k in w.txs && k != id ensures Apart(w.txs[k], t) {
      assert Apart(w.txs[k], w.txs[id]);
      forall l ensures !(w.txs[k].Holds(l) && t.Holds(l)) {
        assert t.Holds(l) == w.txs[id].Holds(l);
      }
    }
  }

  /** Taking a free lock keeps transactions apart. */
  lemma {:induction false} AcquireApart(w: World, id: nat, c: Config)
    requires TxsOk(w, c) && id in w.txs && w.txs[id].held < |w.txs[id].plan| && Free(w, w.txs[id].plan[w.txs[id].held])
    ensures var t := w.txs[id].(held := w.txs[id].held + 1);
            forall k :: k in w.txs && k != id ==> Apart(w.txs[k], t)
  {
    hide TxOk;
    var old' := w.txs[id];
    var t := old'.(held := old'.held + 1);
    assert t.plan[..t.held] == old'.plan[..old'.held] + [old'.plan[old'.held]];
    forall k | k in w.txs && k != id ensures Apart(w.txs[k], t) {
      assert Apart(w.txs[k], old') && !w.txs[k].Holds(old'.plan[old'.held]);
      forall l ensures !(w.txs[k].Holds(l) && t.Holds(l)) {
        if t.Holds(l) && l != old'.plan[old'.held] { assert old'.Holds(l); }
      }
    }
  }

  lemma {:induction false} EndedTxsOk(w: World, id: nat, next: Db, c: Config)
    requires TxsOk(w, c) && id in w.txs
    requires forall k :: k in w.txs && k != id ==> Spared(w.txs[k], w.db, next)
    ensures forall k, h, a :: TxsOk(World(next, w.txs - {id}, k, h, a), c)
  {
    hide TxOk, Spared, Apart;
    forall k | k in w.txs && k != id ensures TxOk(w.txs[k], next, c) { SparedTxOk(w.txs[k], w.db, next, c); }
  }

  lemma SparedSame(t: Tx, db: Db)
    ensures Spared(t, db, db)
  {
  }

  ghost predicate AnswersOk(answers: seq<Ending>, db: Db)
  {
    forall i :: 0 <= i < |answers| ==> AnswerOk(answers[i], db)
  }

  lemma AnswersGrow(answers: seq<Ending>, db: Db, next: Db)
    requires AnswersOk(answers, db)
    requires forall k :: k in db.commands ==> k in next.commands && next.commands[k] == db.commands[k]
    ensures AnswersOk(answers, next)
  {
    forall i | 0 <= i < |answers| ensures AnswerOk(answers[i], next) {
      assert AnswerOk(answers[i], db);
    }
  }

  /** A change to transaction `id` alone. */
  lemma {:induction false} TxStep(w: World, id: nat, t: Tx, c: Config)
    requires Inv(w, c) && TxOk(t, w.db, c) && Ungrabbed(w, t) &&
             (forall k :: k in w.txs && k != id ==> Apart(w.txs[k], t))
    ensures Inv(w.(txs := w.txs[id := t]), c)
  {
    hide Replay, TxOk, TxsOk, GovernedAll, Apart, ReadBy, AnswersOk;
    TxChanged(w, id, t, c);
  }

  lemma {:induction false} BeginStep(w: World, id: nat, call: Call, c: Config)
    requires Inv(w, c) && Enabled(w, Begin(id, call), c)
    ensures Inv(Do(w, Begin(id, call), c), c)
  {
    hide Inv, Plan, GovernedCall;
    var t := Tx(call, Plan(call, c.hashes), 0, Locking(false), Settled(w.db, call));
    HoldsNothing(w, t);
    TxStep(w, id, t, c);
  }

  lemma {:induction false} AcquireStep(w: World, id: nat, c: Config)
    requires Inv(w, c) && Enabled(w, Acquire(id), c)
    ensures Inv(Do(w, Acquire(id), c), c)
  {
    hide Replay, Plan, GovernedCall, GovernedAll, Apart, Replayed, LoadBucket;
    AcquireApart(w, id, c);
    assert TxOk(w.txs[id], w.db, c);
    TxStep(w, id, w.txs[id].(held := w.txs[id].held + 1), c);
  }

  /** Looking up, observing and reading happen under locks already held. */
  lemma {:induction false} PhaseStep(w: World, s: Step, id: nat, c: Config)
    requires Inv(w, c) && Enabled(w, s, c) && (s == Lookup(id) || s == Read(id) || (s.Observe? && s.id == id))
    ensures Inv(Do(w, s, c), c)
  {
    hide Replay, Plan, GovernedCall, GovernedAll, Apart, Replayed, LoadBucket;
    var t := Do(w, s, c).txs[id];
    assert TxOk(w.txs[id], w.db, c);
    HoldsNoMore(w, id, t, c);
    TxStep(w, id, t, c);
  }

  lemma {:induction false} AbortStep(w: World, id: nat, c: Config)
    requires Inv(w, c) && Enabled(w, Abort(id), c)
    ensures Inv(Do(w, Abort(id), c), c)
  {
    hide Replay, TxOk, Apart, Spared;
    forall k | k in w.txs && k != id ensures Spared(w.txs[k], w.db, w.db) { SparedSame(w.txs[k], w.db); }
    EndedTxsOk(w, id, w.db, c);
    assert Do(w, Abort(id), c) == World(w.db, w.txs - {id}, w.cleaners, w.history, w.answers);
  }

  lemma HoldsNothing(w: World, t: Tx)
    requires t.held == 0
    ensures forall k :: k in w.txs ==> Apart(w.txs[k], t)
  {
  }

  lemma {:induction false} ReplayExtends(h: seq<Event>, e: Event, env: Families)
    requires GovernedAll(h, env) && Governed(e, env)
    ensures GovernedAll(h + [e], env) && Replay(h + [e], env) == Serial(Replay(h, env), e, env)
  {
    hide Serial, Governed;
    assert (h + [e])[..|h|] == h;
  }

  /** A cleaner starting, or taking a row no transaction has read. */
  lemma {:induction false} GrabStep(w: World, s: Step, c: Config)
    requires Inv(w, c) && Enabled(w, s, c) && (s.Sweep? || s.Grab?)
    ensures Inv(Do(w, s, c), c)
  {
    hide Replay, TxOk, GovernedAll, Apart, ReadBy, AnswersOk, AnswerOk;
    var next := Do(w, s, c);
    forall id | id in w.txs ensures Ungrabbed(next, w.txs[id]) {
      forall name | Grabbed(next, name) ensures !ReadBy(w.txs[id], name) {
        if !Grabbed(w, name) { assert s.Grab? && name == s.name; }
      }
    }
  }

  lemma {:induction false} CleanedStep(w: World, k: nat, committed: bool, c: Config)
    requires Inv(w, c) && Enabled(w, Cleaned(k, committed), c)
    ensures Inv(Do(w, Cleaned(k, committed), c), c)
  {
    hide Replay, TxOk, GovernedAll, Apart, ReadBy, AnswersOk, AnswerOk, Spared;
    var next := w.db.(rows := w.db.rows - w.cleaners[k].Keys);
    ReplayExtends(w.history, Removed(w.cleaners[k].Keys), c.env);
    forall id | id in w.txs ensures TxOk(w.txs[id], next, c) {
      CleanedSpares(w, k, id);
      SparedTxOk(w.txs[id], w.db, next, c);
    }
    AnswersGrow(w.answers, w.db, next);
  }

  lemma CleanedSpares(w: World, k: nat, id: nat)
    requires id in w.txs && k in w.cleaners && Ungrabbed(w, w.txs[id])
    ensures Spared(w.txs[id], w.db, w.db.(rows := w.db.rows - w.cleaners[k].Keys))
  {
    forall name | ReadBy(w.txs[id], name) ensures name !in w.cleaners[k] {
      assert name in w.cleaners[k] ==> Grabbed(w, name);
    }
  }

  /** A replay answers with the stored receipt. */
  lemma {:induction false} ReplayAnswer(t: Tx, a: Answer, db: Db, c: Config)
    requires TxOk(t, db, c) && t.phase.Replaying? && (a == Known(t.phase.reply) || a == Unknown)
    ensures AnswerOk(Ending(t.call, t.settled, a), db)
  {
    hide Decodes, IntentOf, Plan;
  }

  /** A first execution answers with the receipt it stores. */
  lemma {:induction false} CommitAnswer(u: Tx, a: Answer, db: Db, c: Config)
    requires AtCommit(u, db, c)
    requires var o := Outcome(db, u, c.env); a == Unknown || a == Known(o.reply)
    ensures AnswerOk(Ending(u.call, u.settled, a), Outcome(db, u, c.env).db)
  {
    hide Verdict, RowsAfter, Plan, GovernedCall, SingleFrom, LoadBucket;
  }

  /** A commit leaves the rows cleaners hold alone. */
  lemma {:induction false} CommitSparesCleaners(w: World, u: Tx, c: Config)
    requires AtCommit(u, w.db, c) && Ungrabbed(w, u) && CleanersOk(w.db, w.cleaners)
    ensures CleanersOk(Outcome(w.db, u, c.env).db, w.cleaners)
  {
    hide Outcome, GovernedCall, Plan;
    forall k, name | k in w.cleaners && name in w.cleaners[k]
      ensures var next := Outcome(w.db, u, c.env).db;
              name in next.rows && next.rows[name] == w.db.rows[name]
    {
      assert Grabbed(w, name);
      RowsOfOthers(u, w.db, c, name);
    }
  }

  lemma {:induction false} FinishStep(w: World, id: nat, commit: Commit, c: Config)
    requires Inv(w, c) && Enabled(w, Finish(id, commit), c)
    ensures Inv(Do(w, Finish(id, commit), c), c)
  {
    hide Replay, TxOk, GovernedAll, GovernedCall, Outcome, AnswerOk, Spared, Serial, Governed, CleanersOk, ReadBy;
    var t := w.txs[id];
    var end := Do(w, Finish(id, commit), c);
    var a := end.answers[|w.answers|].answer;
    assert TxOk(t, w.db, c) && AnswersOk(w.answers, w.db);
    ReplayOk(w.history, c.env);
    if end.history == w.history {
      forall k | k in w.txs && k != id ensures Spared(w.txs[k], w.db, w.db) { SparedSame(w.txs[k], w.db); }
      EndedTxsOk(w, id, w.db, c);
      QuietAnswer(w, id, commit, c);
    } else {
      OutcomeSerial(t, w.db, c);
      ReplayExtends(w.history, EventOf(t), c.env);
      SerialKeeps(w.db, EventOf(t), c.env);
      forall k | k in w.txs && k != id ensures Spared(w.txs[k], w.db, end.db) {
        assert Apart(w.txs[k], t);
        OutcomeSpares(w.txs[k], t, w.db, c);
      }
      EndedTxsOk(w, id, end.db, c);
      AnswersGrow(w.answers, w.db, end.db);
      CommitAnswer(t, a, w.db, c);
      CommitSparesCleaners(w, t, c);
    }
  }

  lemma {:induction false} QuietAnswer(w: World, id: nat, commit: Commit, c: Config)
    requires id in w.txs && TxOk(w.txs[id], w.db, c) && !w.txs[id].phase.Locking?
    requires w.txs[id].phase.Reading? ==> |w.txs[id].phase.loaded| == |Names(w.txs[id].call)|
    ensures GovernedCall(w.txs[id].call, c.env)
    ensures var end := Ended(w, id, commit, c.env);
            end.history == w.history ==> end.db == w.db && AnswerOk(end.answers[|w.answers|], w.db)
  {
    hide Replay, GovernedAll, GovernedCall, Outcome, Plan;
    var t := w.txs[id];
    if t.phase.Replaying? {
      ReplayAnswer(t, Ended(w, id, commit, c.env).answers[|w.answers|].answer, w.db, c);
    }
  }

  /** Every step of every transaction keeps the invariant. */
  lemma {:induction false} StepInv(w: World, s: Step, c: Config)
    requires Inv(w, c) && Enabled(w, s, c)
    ensures Inv(Do(w, s, c), c)
  {
    match s
    case Finish(id, commit) => FinishStep(w, id, commit, c);
    case Sweep(_) => GrabStep(w, s, c);
    case Grab(_, _, _) => GrabStep(w, s, c);
    case Cleaned(k, committed) => CleanedStep(w, k, committed, c);
    case Begin(id, call) => BeginStep(w, id, call, c);
    case Acquire(id) => AcquireStep(w, id, c);
    case Abort(id) => AbortStep(w, id, c);
    case Lookup(id) => PhaseStep(w, s, id, c);
    case Observe(id, _) => PhaseStep(w, s, id, c);
    case Read(id) => PhaseStep(w, s, id, c);
  }

  // -------------------------------------------------------------------- runs

  const START := World(Db(map[], map[]), map[], map[], [], [])

  /** The state a run leads to, if each step is enabled where it is taken. */
  ghost function RunFrom(steps: seq<Step>, c: Config): Option<World>
  {
    if steps == [] then Some(START)
    else
      match RunFrom(steps[..|steps| - 1], c)
      case None => None
      case Some(w) => if Enabled(w, steps[|steps| - 1], c) then Some(Do(w, steps[|steps| - 1], c)) else None
  }

  ghost predicate Runs(steps: seq<Step>, c: Config) { RunFrom(steps, c).Some? }

  ghost function After(steps: seq<Step>, c: Config): World
    requires Runs(steps, c)
  {
    RunFrom(steps, c).value
  }

  /** Serialisability: after any interleaving the tables are those of the committed transactions run one at
      a time in commit order, and every transaction in flight still sees the rows it read. */
  lemma {:induction false} Serialisable(steps: seq<Step>, c: Config)
    requires ValidEnv(c.env) && Runs(steps, c)
    ensures Inv(After(steps, c), c)
  {
    hide Do, Enabled;
    if steps == [] {
      assert Inv(START, c);
    } else {
      Serialisable(steps[..|steps| - 1], c);
      StepInv(After(steps[..|steps| - 1], c), steps[|steps| - 1], c);
    }
  }

  /** Exactly-once debit in every concurrent run: what a command took from a bucket is what its stored
      receipt entitles it to. */
  lemma {:induction false} ConcurrentExactlyOnce(steps: seq<Step>, c: Config, command: string, name: string)
    requires ValidEnv(c.env) && Runs(steps, c)
    ensures var w := After(steps, c);
            GovernedAll(w.history, c.env) && Spent(w.history, c.env, command, name) == Owed(w.db, command, name)
  {
    hide After, Spent, Owed, TxsOk;
    Serialisable(steps, c);
    ExactlyOnce(After(steps, c).history, c.env, command, name);
  }

  /** A caller that was told a receipt. */
  predicate ToldReceipt(e: Ending) { e.call.BatchCall? && e.answer.Known? && e.answer.reply.Outcomes? }

  /** Any two callers told a receipt for the same command were told the same one, for the same intent, and
      it is the one stored. */
  lemma {:induction false} AnswersAgree(steps: seq<Step>, c: Config, i: nat, j: nat)
    requires ValidEnv(c.env) && Runs(steps, c)
    requires i < |After(steps, c).answers| && j < |After(steps, c).answers|
    requires var a := After(steps, c).answers[i];
             var b := After(steps, c).answers[j];
             ToldReceipt(a) && ToldReceipt(b) && a.call.batch.commandId == b.call.batch.commandId
    ensures var a := After(steps, c).answers[i];
            var b := After(steps, c).answers[j];
            && a.answer == b.answer && SameCommand(a.call.batch, a.call.server, b.call.batch, b.call.server)
            && Settled(After(steps, c).db, a.call) ==
                 Some(Command(IntentOf(a.call.batch, a.call.server), a.answer.reply.receipt))
  {
    hide After, TxsOk, Replay, IntentOf, SameCommand;
    Serialisable(steps, c);
    var w := After(steps, c);
    var a, b := w.answers[i], w.answers[j];
    assert AnswerOk(a, w.db) && AnswerOk(b, w.db);
    IntentExact(a.call.batch, a.call.server, b.call.batch, b.call.server);
  }

  /** Replay stability under concurrency: a call that began when its command was in the table, whatever ran
      meanwhile, is told the stored receipt if it is told anything known under the same intent, and is refused under
      another. */
  lemma {:induction false} LateCallers(steps: seq<Step>, c: Config, i: nat)
    requires ValidEnv(c.env) && Runs(steps, c) && i < |After(steps, c).answers|
    requires After(steps, c).answers[i].settled.Some?
    ensures var e := After(steps, c).answers[i];
            && e.call.BatchCall? && Settled(After(steps, c).db, e.call) == e.settled
            && (e.answer.Known? ==>
                  e.answer.reply ==
                    if Binds(e.settled.value.intent, e.call.batch, e.call.server) then
                      Outcomes(e.settled.value.receipt)
                    else Refused(ErrInvalidRequest))
  {
    hide After, TxsOk, Replay, IntentOf, Decodes, Binds;
    Serialisable(steps, c);
    var w := After(steps, c);
    var e := w.answers[i];
    ReplayOk(w.history, c.env);
    assert AnswerOk(e, w.db);
    IntentBinds(e.settled.value.intent, e.call.batch, e.call.server);
    if e.settled.value.intent == IntentOf(e.call.batch, e.call.server) {
      SavedDecodes(e.settled.value, e.call.batch, e.call.server);
    }
  }

  /** Against another caller's receipt: a later call is told that receipt if and only if the two calls differ in nothing
      but the clocks of their requests, and is refused otherwise. */
  lemma {:induction false} RetriesTold(steps: seq<Step>, c: Config, i: nat, j: nat)
    requires ValidEnv(c.env) && Runs(steps, c)
    requires i < |After(steps, c).answers| && j < |After(steps, c).answers|
    requires var a := After(steps, c).answers[i];
             var b := After(steps, c).answers[j];
             && ToldReceipt(a) && b.settled.Some? && b.call.BatchCall? && b.answer.Known?
             && a.call.batch.commandId == b.call.batch.commandId
    ensures var a := After(steps, c).answers[i];
            var b := After(steps, c).answers[j];
            b.answer.reply ==
              if SameCommand(a.call.batch, a.call.server, b.call.batch, b.call.server) then a.answer.reply
              else Refused(ErrInvalidRequest)
  {
    hide After, TxsOk, Replay, IntentOf, Binds, SameCommand;
    var a, b := After(steps, c).answers[i], After(steps, c).answers[j];
    AnswersAgree(steps, c, i, i);
    LateCallers(steps, c, j);
    IntentBinds(IntentOf(a.call.batch, a.call.server), b.call.batch, b.call.server);
    IntentExact(a.call.batch, a.call.server, b.call.batch, b.call.server);
  }

  /** A call run alone. */
  ghost function Alone(db: Db, call: Call, now: int, env: Families): Committed
    requires GovernedCall(call, env)
  {
    match call
    case SingleCall(r) => Single(db, r, now)
    case BatchCall(b, server) => Atomic(db, b, server, now)
  }

  /** At COMMIT a transaction answers what its call run alone on the tables of that moment does. */
  lemma {:induction false} OutcomeAlone(t: Tx, db: Db, c: Config)
    requires AtCommit(t, db, c)
    ensures Outcome(db, t, c.env) == Alone(db, t.call, t.phase.now, c.env)
  {
    hide Plan, SingleFrom, AtomicFrom, LoadBucket, BucketName, GovernedCall;
    OutcomeSerial(t, db, c);
    if t.call.SingleCall? { assert t.phase.loaded[0] == LoadBucket(db.rows, Names(t.call)[0], t.phase.now); }
  }

  /** So does a replay, whatever the clock. */
  lemma {:induction false} ReplayAlone(t: Tx, db: Db, c: Config, now: int)
    requires TxOk(t, db, c) && t.phase.Replaying?
    ensures Alone(db, t.call, now, c.env) == Committed(db, t.phase.reply)
  {
    hide Plan, Verdict, RowsAfter, LoadAll, Decodes, IntentOf;
  }

  lemma {:induction false} RefusalAlone(db: Db, call: Call, now: int, env: Families)
    requires GovernedCall(call, env)
    ensures Alone(db, call, now, env).reply.Refused? ==> Alone(db, call, now, env).db == db
  {
    hide Verdict, RowsAfter, LoadAll, BucketName, States.Step, RowFor;
  }

  /** A transaction ends as its call run alone on the tables of that moment would; a replay reads no clock. */
  lemma {:induction false} FinishEnds(w: World, id: nat, commit: Commit, c: Config, now: int)
    requires Inv(w, c) && Enabled(w, Finish(id, commit), c)
    requires w.txs[id].phase.Reading? ==> now == w.txs[id].phase.now
    ensures var end := Do(w, Finish(id, commit), c);
            && |end.answers| == |w.answers| + 1
            && Ends(w.db, end.db, Alone(w.db, w.txs[id].call, now, c.env), commit, end.answers[|w.answers|].answer)
  {
    hide Replay, GovernedAll, GovernedCall, TxOk, Alone, Outcome, Apart, Ungrabbed, AnswersOk, CleanersOk;
    var t := w.txs[id];
    assert TxOk(t, w.db, c);
    RefusalAlone(w.db, t.call, now, c.env);
    if t.phase.Reading? { OutcomeAlone(t, w.db, c); } else { ReplayAlone(t, w.db, c, now); }
  }

  /** A cleaner can take exactly the rows that would not be loaded at its clock and that nobody else holds. */
  lemma GrabExact(w: World, c: Config, k: nat, name: string, clock: int)
    requires k in w.cleaners && name in w.db.rows
    ensures Enabled(w, Grab(k, name, clock), c) <==>
              && LoadBucket(w.db.rows, name, clock).None?
              && (forall id :: id in w.txs ==> !ReadBy(w.txs[id], name))
              && (forall j :: j in w.cleaners ==> name !in w.cleaners[j])
  {
  }

  /** Cleanup is never seen: in every interleaving a cleaner removes only rows that had expired at the clock it read, so
      at every clock from then on each call finds the same rows and is told the same. */
  lemma {:induction false} CleanupUnseen(steps: seq<Step>, c: Config, k: nat, call: Call, now: int)
    requires ValidEnv(c.env) && Runs(steps, c) && k in After(steps, c).cleaners && GovernedCall(call, c.env)
    requires forall name :: name in After(steps, c).cleaners[k] ==> now >= After(steps, c).cleaners[k][name]
    ensures var w := After(steps, c);
            var next := Do(w, Cleaned(k, true), c);
            && (forall name :: LoadBucket(next.db.rows, name, now) == LoadBucket(w.db.rows, name, now))
            && Alone(next.db, call, now, c.env).reply == Alone(w.db, call, now, c.env).reply
  {
    hide After, TxsOk, Replay, States.Step, Verdict, Decodes, IntentOf, BucketName, RowFor, RowsAfter, AnswersOk;
    Serialisable(steps, c);
    var w := After(steps, c);
    var next := Do(w, Cleaned(k, true), c);
    assert forall name :: LoadBucket(next.db.rows, name, now) == LoadBucket(w.db.rows, name, now);
    if call.BatchCall? { assert LoadAll(next.db.rows, call.batch, now) == LoadAll(w.db.rows, call.batch, now); }
  }

  // -------------------------------------------------------------- no deadlock

  lemma {:induction false} PlanIncreases(call: Call, h: Hashes)
    ensures Increasing(Plan(call, h))
  {
    BucketPlanIncreases(Keys(Names(call), h));
  }

  /** The lock a transaction asks for next, if it asks. */
  function NextLock(t: Tx): Lock { if t.held < |t.plan| then t.plan[t.held] else BucketLock(0) }

  /** Transaction a asks for a lock transaction b holds. */
  ghost predicate WaitsFor(w: World, a: nat, b: nat)
  {
    a in w.txs && b in w.txs && w.txs[a].Asks() && w.txs[b].Holds(NextLock(w.txs[a]))
  }

  /** Transaction a is about to read a row cleaner k holds. */
  ghost predicate WaitsForCleaner(w: World, a: nat, k: nat)
  {
    a in w.txs && k in w.cleaners && NextRow(w.txs[a]).Some? && NextRow(w.txs[a]).value in w.cleaners[k]
  }

  /** Everything that can hold a lock. A cleaner never asks for one. */
  datatype Party = Transaction(id: nat) | Cleaner(id: nat)

  ghost predicate Waits(w: World, a: Party, b: Party)
  {
    a.Transaction? && if b.Transaction? then WaitsFor(w, a.id, b.id) else WaitsForCleaner(w, a.id, b.id)
  }

  ghost predicate InFlight(w: World, a: Party) { if a.Transaction? then a.id in w.txs else a.id in w.cleaners }

  ghost predicate Blocked(w: World, a: Party)
  {
    exists b :: Waits(w, a, b)
  }

  /** Waiting goes up the lock order. */
  lemma {:induction false} WaitsUpwards(w: World, a: nat, b: nat, c: Config)
    requires TxsOk(w, c) && WaitsFor(w, a, b) && w.txs[b].held < |w.txs[b].plan|
    ensures Before(NextLock(w.txs[a]), NextLock(w.txs[b]))
  {
    var t := w.txs[b];
    assert TxOk(t, w.db, c);
    PlanIncreases(t.call, c.hashes);
    var i :| 0 <= i < t.held && t.plan[..t.held][i] == NextLock(w.txs[a]);
  }

  /** A chain of waiting parties. */
  ghost predicate Chain(w: World, parties: seq<Party>)
  {
    |parties| >= 2 && Waits(w, parties[0], parties[1]) && (|parties| > 2 ==> Chain(w, parties[1..]))
  }

  lemma {:induction false} ChainUpwards(w: World, parties: seq<Party>, c: Config)
    requires TxsOk(w, c) && Chain(w, parties)
    requires var z := parties[|parties| - 1]; z.Transaction? && z.id in w.txs && w.txs[z.id].Asks()
    ensures parties[0].Transaction? && parties[0].id in w.txs && w.txs[parties[0].id].Asks()
    ensures Before(NextLock(w.txs[parties[0].id]), NextLock(w.txs[parties[|parties| - 1].id]))
  {
    hide TxsOk;
    if |parties| > 2 { ChainUpwards(w, parties[1..], c); }
    WaitsUpwards(w, parties[0].id, parties[1].id, c);
    if |parties| > 2 {
      BeforeTransitive(NextLock(w.txs[parties[0].id]), NextLock(w.txs[parties[1].id]),
        NextLock(w.txs[parties[|parties| - 1].id]));
    }
  }

  /** A transaction that waits for a transaction asks; one that waits for a cleaner waits for a party that does not. */
  lemma {:induction false} ChainAsks(w: World, parties: seq<Party>)
    requires Chain(w, parties) && parties[|parties| - 1].Transaction?
    ensures parties[0].Transaction? && parties[0].id in w.txs && w.txs[parties[0].id].Asks()
  {
    if |parties| > 2 { ChainAsks(w, parties[1..]); }
  }

  /** No deadlock: in every reachable state the waits-for relation has no cycle, for any set of concurrent atomic and
      single transactions and cleaners, and whatever lock keys collide. */
  lemma {:induction false} NoWaitCycle(steps: seq<Step>, c: Config, parties: seq<Party>)
    requires ValidEnv(c.env) && Runs(steps, c) && Chain(After(steps, c), parties)
    ensures parties[0] != parties[|parties| - 1]
  {
    hide After, TxOk;
    Serialisable(steps, c);
    var w := After(steps, c);
    assert Waits(w, parties[0], parties[1]);
    if parties[0] == parties[|parties| - 1] {
      ChainAsks(w, parties);
      ChainUpwards(w, parties, c);
    }
  }

  /** Among blocked transactions one asks for a latest lock. */
  lemma {:induction false} LatestWaiter(w: World, s: set<nat>) returns (m: nat)
    requires s != {} && forall a :: a in s ==> a in w.txs && w.txs[a].Asks()
    ensures m in s && forall a :: a in s ==> !Before(NextLock(w.txs[m]), NextLock(w.txs[a]))
    decreases |s|
  {
    var x :| x in s;
    var rest := s - {x};
    if rest == {} {
      assert s == {x};
      m := x;
    } else {
      var y := LatestWaiter(w, rest);
      assert forall a :: a in s ==> a == x || a in rest;
      if Before(NextLock(w.txs[y]), NextLock(w.txs[x])) {
        forall a | a in s ensures !Before(NextLock(w.txs[x]), NextLock(w.txs[a])) {
          if Before(NextLock(w.txs[x]), NextLock(w.txs[a])) {
            BeforeTransitive(NextLock(w.txs[y]), NextLock(w.txs[x]), NextLock(w.txs[a]));
          }
        }
        m := x;
      } else {
        m := y;
      }
    }
  }

  /** A cleaner is never blocked. Without one, neither is the transaction asking for the latest lock. */
  lemma {:induction false} SomeoneUnblocked(w: World, c: Config)
    requires TxsOk(w, c) && (w.txs.Keys != {} || w.cleaners.Keys != {})
    ensures exists a :: InFlight(w, a) && !Blocked(w, a)
  {
    hide TxsOk;
    if w.cleaners.Keys != {} {
      var k :| k in w.cleaners.Keys;
      assert InFlight(w, Cleaner(k)) && !Blocked(w, Cleaner(k));
    } else if forall id :: id in w.txs.Keys ==> w.txs[id].Asks() {
      var m := LatestWaiter(w, w.txs.Keys);
      if Blocked(w, Transaction(m)) {
        var b :| Waits(w, Transaction(m), b);
        WaitsUpwards(w, m, b.id, c);
      }
      assert InFlight(w, Transaction(m)) && !Blocked(w, Transaction(m));
    } else {
      var id :| id in w.txs.Keys && !w.txs[id].Asks();
      assert InFlight(w, Transaction(id)) && !Blocked(w, Transaction(id));
    }
  }

  /** Progress: whenever a transaction or a cleaner is in flight, one of them is not waiting for a lock. */
  lemma {:induction false} SomeoneProceeds(steps: seq<Step>, c: Config)
    requires ValidEnv(c.env) && Runs(steps, c) &&
             (After(steps, c).txs.Keys != {} || After(steps, c).cleaners.Keys != {})
    ensures exists a :: InFlight(After(steps, c), a) && !Blocked(After(steps, c), a)
  {
    hide After, TxsOk, Blocked, Replay;
    Serialisable(steps, c);
    SomeoneUnblocked(After(steps, c), c);
  }

  /** A step of a party in flight that gets it further. */
  predicate Advances(s: Step) { s.Acquire? || s.Lookup? || s.Observe? || s.Read? || s.Finish? || s.Cleaned? }

  /** What a transaction that is not waiting can do next. */
  function NextStep(t: Tx, id: nat): Step
  {
    match t.phase
    case Locking(looked) =>
      if t.call.BatchCall? && !looked && t.held == 1 then Lookup(id)
      else if t.held < |t.plan| then Acquire(id)
      else Observe(id, 0)
    case Replaying(_) => Finish(id, Acknowledged)
    case Reading(_, loaded) => if |loaded| < |Names(t.call)| then Read(id) else Finish(id, Acknowledged)
  }

  lemma {:induction false} UnblockedSteps(w: World, id: nat, c: Config)
    requires TxsOk(w, c) && id in w.txs && !Blocked(w, Transaction(id))
    ensures Enabled(w, NextStep(w.txs[id], id), c)
  {
    hide Plan, Replayed, LoadBucket, GovernedSingle, GovernedAll;
    var t := w.txs[id];
    assert TxOk(t, w.db, c);
    PlanStarts(t.call, c);
    if NextStep(t, id).Acquire? {
      forall b | b in w.txs ensures !w.txs[b].Holds(t.plan[t.held]) {
        assert !Waits(w, Transaction(id), Transaction(b));
      }
    } else if NextStep(t, id).Read? {
      forall k | k in w.cleaners ensures NextRow(t).value !in w.cleaners[k] {
        assert !Waits(w, Transaction(id), Cleaner(k));
      }
    }
  }

  /** A batch locks its command and then at least one bucket. */
  lemma {:induction false} PlanStarts(call: Call, c: Config)
    requires GovernedCall(call, c.env)
    ensures |Plan(call, c.hashes)| >= if call.BatchCall? then 2 else 1
  {
    var keys := Keys(Names(call), c.hashes);
    BucketPlanIncreases(keys);
    assert BucketLock(keys[0]) in BucketPlan(keys);
  }

  /** Progress: whenever a transaction or a cleaner is in flight, one of them can take a step that gets it further. */
  lemma {:induction false} SomeoneSteps(steps: seq<Step>, c: Config)
    requires ValidEnv(c.env) && Runs(steps, c) &&
             (After(steps, c).txs.Keys != {} || After(steps, c).cleaners.Keys != {})
    ensures exists s :: Advances(s) && Enabled(After(steps, c), s, c)
  {
    hide After, TxsOk, Blocked, Replay, Enabled, NextStep;
    SomeoneProceeds(steps, c);
    Serialisable(steps, c);
    var w := After(steps, c);
    var a :| InFlight(w, a) && !Blocked(w, a);
    match a {
      case Transaction(id) =>
        UnblockedSteps(w, id, c);
        NextAdvances(w.txs[id], id);
      case Cleaner(k) => CleanerSteps(w, k, c);
    }
  }

  lemma NextAdvances(t: Tx, id: nat)
    ensures Advances(NextStep(t, id))
  {
  }

  lemma CleanerSteps(w: World, k: nat, c: Config)
    requires k in w.cleaners
    ensures Enabled(w, Cleaned(k, true), c) && Advances(Cleaned(k, true))
  {
  }
}
