// What the service tells the caller of an atomic command, from what the
// transaction did.
module BatchRecognition {
  import opened Policies
  import opened StrictService
  import opened AtomicBatch
  import D = Database
  import opened Commands

  datatype Returned = Returned(raw: BatchDecision, error: GoError)

  /** What AdmitAtomicStrict returns for the reply of a transaction, or for a COMMIT whose fate it does not know. */
  function BackendReturns(answer: D.Answer, b: Batch, context: OutcomeKind): Returned
    requires OfBatch(answer)
  {
    match answer
    case Unknown => Returned(BatchDecision("", NO_RECEIPT), Outcome(UnknownKind, context))
    case Known(Refused(e)) => Returned(BatchDecision("", NO_RECEIPT), Sentinel(e))
    case Known(Outcomes(receipt)) =>
      Returned(BatchDecision(b.commandId, receipt), if receipt.allowed then NoError else Sentinel(ErrRejected))
  }

  /** The answer to a command is never a single admission's. */
  predicate OfBatch(answer: D.Answer) { answer.Known? ==> !answer.reply.Admission? }

  ghost function BatchTold(answer: D.Answer, b: Batch, name: string, context: OutcomeKind): BatchAnswer
    requires OfBatch(answer)
  {
    var r := BackendReturns(answer, b, context);
    BatchResult(name, context, b, r.raw, r.error)
  }

  /** Of the refusals, an invalid policy or request and a lease or rejection category become unknown; the
      others are passed on. */
  lemma RefusalsTold(e: Error, b: Batch, name: string, context: OutcomeKind)
    requires b.Valid()
    ensures var a := BatchTold(D.Known(D.Refused(e)), b, name, context);
            && (Unknowing(a.error) <==> e !in {ErrUnavailable, ErrOverflow, ErrCorrupt, ErrUnsupported})
            && (!Unknowing(a.error) ==> a.error == Sentinel(e))
            && a.decision == BatchDecision(b.commandId, NO_RECEIPT)
  {
  }

  ghost predicate ChangedIntent(db: D.Db, b: Batch, server: bool)
  {
    b.commandId in db.commands && !D.Binds(db.commands[b.commandId].intent, b, server)
  }

  /** After every history, the caller of a command whose transaction ended known is handed its receipt, stamped, with
      its error, or a known overflow; the outcome is unknown if and only if the command was presented with another
      intent before. */
  lemma {:induction false} CommandsRecognised(
    h: seq<Event>, env: Families, b: Batch, server: bool, now: int, name: string, context: OutcomeKind)
    requires GovernedAll(h, env) && GovernedBatch(b, env)
    ensures var db := Replay(h, env);
            var reply := D.Atomic(db, b, server, now).reply;
            OfBatch(D.Known(reply)) &&
            var a := BatchTold(D.Known(reply), b, name, context);
            && (Unknowing(a.error) <==> ChangedIntent(db, b, server))
            && (reply.Refused? && !ChangedIntent(db, b, server) ==> a.error == Sentinel(ErrOverflow))
            && (reply.Outcomes? ==>
                  && |reply.receipt.decisions| == |b.requests|
                  && a == BatchAnswer(BatchDecision(b.commandId, Stamped(reply.receipt, b.requests, name)),
                                      if reply.receipt.allowed then NoError else Sentinel(ErrRejected)))
  {
    hide D.Atomic, Replay, DbOk, D.Decodes, D.IntentOf, D.Binds;
    ReplayOk(h, env);
    var db := Replay(h, env);
    AtomicKeeps(db, b, server, now, env);
    IntentDecides(db, b, server, now);
  }

  lemma IntentDecides(db: D.Db, b: Batch, server: bool, now: int)
    requires b.Valid()
    ensures b.commandId in db.commands ==>
              (D.Atomic(db, b, server, now).reply == D.Refused(ErrInvalidRequest) <==> ChangedIntent(db, b, server))
  {
    if b.commandId in db.commands { D.IntentBinds(db.commands[b.commandId].intent, b, server); }
  }
}
