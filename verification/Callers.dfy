// What callers learn of transactions that end in every possible way, against what
// those transactions did to the tables.
module Callers {
  import opened Policies
  import opened StrictService
  import opened Recognition
  import opened AtomicBatch
  import opened BatchRecognition
  import opened Commands
  import D = Database
  import P = Protocol

  // ----------------------------------------------------------------- commands

  /** The command table holds this receipt for the command as it was presented. */
  ghost predicate Holds(db: D.Db, b: Batch, server: bool, receipt: Receipt)
  {
    && b.commandId in db.commands && db.commands[b.commandId].receipt == receipt
    && D.Binds(db.commands[b.commandId].intent, b, server)
  }

  /** What the caller of a command is told, against the tables before and after its transaction: no error only with an
      admitted receipt that is stored; a known error only if nothing changed or with a rejected receipt that is stored;
      and unknown whenever something may have changed that was not acknowledged. */
  ghost predicate Truthful(
    before: D.Db, after: D.Db, b: Batch, server: bool, commit: D.Commit, refused: bool, told: BatchAnswer, name: string)
  {
    && (told.error == NoError ==>
          exists receipt :: Holds(after, b, server, receipt) && receipt.allowed && Handed(told, receipt, b, name))
    && (told.error != NoError && !Unknowing(told.error) ==>
          || after == before
          || exists receipt :: Holds(after, b, server, receipt) && !receipt.allowed && Handed(told, receipt, b, name))
    && (!refused && !commit.Acknowledged? ==> Unknowing(told.error))
    && (Unknowing(told.error) ==> told.decision.receipt == NO_RECEIPT)
  }

  ghost predicate Handed(told: BatchAnswer, receipt: Receipt, b: Batch, name: string)
  {
    && |receipt.decisions| == |b.requests|
    && told.decision == BatchDecision(b.commandId, Stamped(receipt, b.requests, name))
  }

  lemma {:induction false} CallersTold(
    before: D.Db, after: D.Db, b: Batch, server: bool, now: int, commit: D.Commit, answer: D.Answer, name: string,
    context: OutcomeKind)
    requires b.Valid() && D.Ends(before, after, D.Atomic(before, b, server, now), commit, answer)
    ensures OfBatch(answer)
    ensures Truthful(before, after, b, server, commit, D.Atomic(before, b, server, now).reply.Refused?,
                     BatchTold(answer, b, name, context), name)
  {
    hide D.Verdict, D.RowsAfter, D.LoadAll, D.Decodes, D.IntentOf, D.Binds, Batch.Valid, CompleteAllowed,
      CompleteRejected, SparedOk;
    D.IntentBinds(D.IntentOf(b, server), b, server);
    var alone := D.Atomic(before, b, server, now);
    if answer.Known? && answer.reply.Outcomes? {
      assert Holds(after, b, server, answer.reply.receipt);
    }
  }

  // -------------------------------------------------------- single admissions

  /** What AdmitStrict returns for the reply of a transaction, or for a COMMIT whose fate it does not know. */
  function SingleReturns(answer: D.Answer, context: OutcomeKind): Told<Decision>
    requires OfSingle(answer)
  {
    match answer
    case Unknown => Told(ZERO_DECISION, Outcome(UnknownKind, context))
    case Known(Refused(e)) => Told(ZERO_DECISION, Sentinel(e))
    case Known(Admission(d, rejected)) => Told(d, if rejected then Sentinel(ErrRejected) else NoError)
  }

  /** The answer to a single admission is never a command's. */
  predicate OfSingle(answer: D.Answer) { answer.Known? ==> !answer.reply.Outcomes? }

  function SingleTold(answer: D.Answer, r: Request, name: string, context: OutcomeKind): Answer
    requires OfSingle(answer)
  {
    var told := SingleReturns(answer, context);
    NormalizeAdmit(name, context, r, told.value, told.error)
  }

  /** Work proceeds only on an admission that is committed and acknowledged; a known error is told only if nothing
      changed or with a committed rejection; and the outcome is unknown whenever a COMMIT is not acknowledged. */
  ghost predicate SingleTruthful(
    before: D.Db, after: D.Db, alone: D.Committed, r: Request, commit: D.Commit, told: Answer, name: string)
  {
    && (told.decision.allowed || told.error == NoError ==>
          && commit.Acknowledged? && after == alone.db && alone.reply.Admission? && !alone.reply.rejected
          && told == Answer(Stamp(alone.reply.decision, r.policy, name), NoError))
    && (told.error != NoError && !Unknowing(told.error) ==>
          || after == before
          || (after == alone.db && alone.reply.Admission? && alone.reply.rejected
              && told.decision == Stamp(alone.reply.decision, r.policy, name)))
    && (!alone.reply.Refused? && !commit.Acknowledged? ==> Unknowing(told.error))
  }

  lemma {:induction false} SingleCallersTold(
    before: D.Db, after: D.Db, r: Request, now: int, commit: D.Commit, answer: D.Answer, name: string,
    context: OutcomeKind)
    requires r.Sized() && r.policy.algorithm != Concurrency
    requires D.Ends(before, after, D.Single(before, r, now), commit, answer)
    ensures OfSingle(answer)
    ensures SingleTruthful(before, after, D.Single(before, r, now), r, commit, SingleTold(answer, r, name, context),
                           name)
  {
    hide BucketName, D.RowFor;
  }

  /** After every history, an acknowledged admission is handed on with its error, and a refusal is a known overflow. */
  lemma {:induction false} SinglesRecognised(
    h: seq<Event>, env: Families, r: Request, now: int, name: string, context: OutcomeKind)
    requires GovernedAll(h, env) && GovernedSingle(r, env)
    ensures var reply := D.Single(Replay(h, env), r, now).reply;
            && OfSingle(D.Known(reply))
            && var told := SingleTold(D.Known(reply), r, name, context);
            match reply
            case Admission(d, rejected) =>
              told == Answer(Stamp(d, r.policy, name), if rejected then Sentinel(ErrRejected) else NoError)
            case _ => told.error == Sentinel(ErrOverflow) && !told.decision.allowed
  {
    hide Replay, DbOk, D.Single;
    ReplayOk(h, env);
    SingleKeeps(Replay(h, env), r, now, env);
    D.SingleInOrder(Replay(h, env), r, now);
  }

  // ------------------------------------------------------------- interleavings

  /** In every interleaving: what the caller of a command is told, against the tables when its transaction ends. */
  lemma {:induction false} ConcurrentCallersTold(
    steps: seq<P.Step>, c: P.Config, id: nat, commit: D.Commit, now: int, name: string, context: OutcomeKind)
    requires ValidEnv(c.env) && P.Runs(steps, c) && P.Enabled(P.After(steps, c), P.Finish(id, commit), c)
    requires P.After(steps, c).txs[id].phase.Reading? ==> now == P.After(steps, c).txs[id].phase.now
    ensures var w := P.After(steps, c);
            var end := P.Do(w, P.Finish(id, commit), c);
            && |end.answers| == |w.answers| + 1
            && var answer := end.answers[|w.answers|].answer;
            match w.txs[id].call
            case BatchCall(b, server) =>
              && b.Valid() && OfBatch(answer)
              && Truthful(w.db, end.db, b, server, commit, D.Atomic(w.db, b, server, now).reply.Refused?,
                          BatchTold(answer, b, name, context), name)
            case SingleCall(r) =>
              && r.Sized() && r.policy.algorithm != Concurrency && OfSingle(answer)
              && SingleTruthful(w.db, end.db, D.Single(w.db, r, now), r, commit,
                                SingleTold(answer, r, name, context), name)
  {
    hide P.After, Truthful, SingleTruthful, D.Atomic, D.Single, BatchTold, SingleTold;
    P.Serialisable(steps, c);
    var w := P.After(steps, c);
    var end := P.Do(w, P.Finish(id, commit), c);
    P.FinishEnds(w, id, commit, c, now);
    var answer := end.answers[|w.answers|].answer;
    match w.txs[id].call {
      case BatchCall(b, server) => CallersTold(w.db, end.db, b, server, now, commit, answer, name, context);
      case SingleCall(r) => SingleCallersTold(w.db, end.db, r, now, commit, answer, name, context);
    }
  }
}
