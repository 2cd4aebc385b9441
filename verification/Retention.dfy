/** What the retention of inbox rows is for: a cleanup that keeps them for as long as requests can
    still arrive leaves every event's effect committed at most once. */
module Retention {
  import opened Common
  import opened OutboxTable
  import opened EndToEnd
  import Protocol
  import Inbox
  import Numerals

  /** The step makes the transaction carry the event's effect: its request was told that the event is new. */
  ghost predicate TellsNew(cfg: Protocol.Config, w: World, step: Step, tx: Inbox.TxId, id: EventId) {
    && Handles(cfg, w, step, id) && step.tx == tx
    && id !in HandlingOf(w, tx).effects && id in HandlingOf(Next(cfg, w, step), tx).effects
  }

  /** When a transaction was last told that the event is new. */
  ghost function ToldNewAt(cfg: Protocol.Config, steps: seq<Step>, tx: Inbox.TxId, id: EventId): Option<Millis> {
    if steps == [] then None else
      var n := |steps| - 1;
      var w := Run(cfg, steps[..n]);
      if TellsNew(cfg, w, steps[n], tx, id) then Some(w.inbox.now) else ToldNewAt(cfg, steps[..n], tx, id)
  }

  /** When the event was received in the first transaction that has committed its effect. */
  ghost function FirstReceipt(cfg: Protocol.Config, steps: seq<Step>, id: EventId): Option<Millis> {
    if steps == [] then None else
      var n := |steps| - 1;
      var before := FirstReceipt(cfg, steps[..n], id);
      if before.None? && CommitsEffect(cfg, Run(cfg, steps[..n]), steps[n], id) then
        ToldNewAt(cfg, steps[..n], steps[n].inboxStep.tx, id)
      else before
  }

  /** Every request about the event is handled within the given time of its first committed receipt. */
  ghost predicate HandledWithin(cfg: Protocol.Config, steps: seq<Step>, id: EventId, within: Millis) {
    forall j :: 0 <= j < |steps| && Handles(cfg, Run(cfg, steps[..j]), steps[j], id) ==>
      var receipt := FirstReceipt(cfg, steps[..j], id);
      receipt.Some? ==> Run(cfg, steps[..j]).inbox.now <= receipt.value + within
  }

  ghost predicate RetentionAtLeast(steps: seq<Step>, retention: Millis) {
    forall step :: step in steps && step.InboxStep? && step.inboxStep.Cleanup? ==>
      step.inboxStep.retentionMs >= retention
  }

  ghost predicate InsertDated(w: World, tx: Inbox.TxId, id: EventId, told: Option<Millis>) {
    tx in w.inbox.txs && KeyOf(id) in w.inbox.txs[tx].inserted ==>
      var row := w.inbox.txs[tx].inserted[KeyOf(id)];
      told.Some? && (row.status == Inbox.Processed ==> row.processedAt == told.value)
  }

  /** A key inserted by an open transaction carries the instant at which the transaction was told so. */
  lemma {:induction false} InsertsAreDated(cfg: Protocol.Config, steps: seq<Step>, tx: Inbox.TxId, id: EventId)
    ensures InsertDated(Run(cfg, steps), tx, id, ToldNewAt(cfg, steps, tx, id))
  {
    if steps != [] {
      var n := |steps| - 1;
      InsertsAreDated(cfg, steps[..n], tx, id);
      AlwaysConsistent(cfg, steps[..n]);
      AlwaysConsistent(cfg, steps);
      var told := ToldNewAt(cfg, steps[..n], tx, id);
      InsertDatedInStep(cfg, Run(cfg, steps[..n]), steps[n], tx, id, told);
    }
  }

  lemma InsertDatedInStep(cfg: Protocol.Config, w: World, step: Step, tx: Inbox.TxId, id: EventId, told: Option<Millis>)
    requires InsertDated(w, tx, id, told)
    requires EffectMatchesInsert(w, tx, id) && EffectMatchesInsert(Next(cfg, w, step), tx, id)
    ensures InsertDated(Next(cfg, w, step), tx, id,
                        if TellsNew(cfg, w, step, tx, id) then Some(w.inbox.now) else told)
  {
    if step.Handle? && KeyOf(step.delivery.1) == KeyOf(id) {
      Numerals.DecimalIsInjective(step.delivery.1, id);
    }
  }

  lemma {:induction false} ReceiptHasAnEffect(cfg: Protocol.Config, steps: seq<Step>, id: EventId)
    ensures FirstReceipt(cfg, steps, id).Some? ==> EffectCount(cfg, steps, id) >= 1
  {
    if steps != [] {
      ReceiptHasAnEffect(cfg, steps[..|steps| - 1], id);
    }
  }

  ghost predicate CommittedDated(w: World, id: EventId, receipt: Option<Millis>) {
    KeyOf(id) in w.inbox.committed && w.inbox.committed[KeyOf(id)].status == Inbox.Processed ==>
      receipt.Some? && w.inbox.committed[KeyOf(id)].processedAt == receipt.value
  }

  /** The transaction of a commit or rollback; any other step has none. */
  ghost function EndingTx(step: Step): Inbox.TxId {
    if step.InboxStep? && step.inboxStep.Commit? then step.inboxStep.tx else 0
  }

  lemma CommittedDatedInStep(cfg: Protocol.Config, w: World, step: Step, id: EventId, told: Option<Millis>,
                             before: Option<Millis>)
    requires CommittedDated(w, id, before) && (KeyOf(id) !in w.inbox.committed ==> before.None?)
    requires EffectMatchesInsert(w, EndingTx(step), id) && InsertDated(w, EndingTx(step), id, told)
    requires Inbox.Isolated(w.inbox)
    ensures CommittedDated(Next(cfg, w, step), id,
                           if before.None? && CommitsEffect(cfg, w, step, id) then told else before)
  {
  }

  /** A key never cleaned up yet carries the instant of its first committed receipt. */
  lemma {:induction false} CommittedAreDated(cfg: Protocol.Config, steps: seq<Step>, id: EventId)
    requires Deletions(cfg, steps, id) == 0
    ensures CommittedDated(Run(cfg, steps), id, FirstReceipt(cfg, steps, id))
  {
    if steps != [] {
      var n := |steps| - 1;
      var w, tx := Run(cfg, steps[..n]), EndingTx(steps[n]);
      DeletionsGrow(cfg, steps, id);
      CommittedAreDated(cfg, steps[..n], id);
      AlwaysConsistent(cfg, steps[..n]);
      assert EffectMatchesInsert(w, tx, id);
      InsertsAreDated(cfg, steps[..n], tx, id);
      ExactlyOnce(cfg, steps[..n], id);
      ReceiptHasAnEffect(cfg, steps[..n], id);
      Inbox.AlwaysIsolated(InboxSteps(cfg, steps[..n]));
      CommittedDatedInStep(cfg, w, steps[n], id, ToldNewAt(cfg, steps[..n], tx, id), FirstReceipt(cfg, steps[..n], id));
    }
  }

  lemma {:induction false} ReceiptStays(cfg: Protocol.Config, steps: seq<Step>, id: EventId, i: nat, j: nat)
    requires i <= j <= |steps| && FirstReceipt(cfg, steps[..i], id).Some?
    ensures FirstReceipt(cfg, steps[..j], id) == FirstReceipt(cfg, steps[..i], id)
    decreases j
  {
    if i < j {
      ReceiptStays(cfg, steps, id, i, j - 1);
      assert steps[..j][..j - 1] == steps[..j - 1];
    }
  }

  lemma {:induction false} ClockMovesForward(cfg: Protocol.Config, steps: seq<Step>, i: nat, j: nat)
    requires i <= j <= |steps|
    ensures Run(cfg, steps[..i]).inbox.now <= Run(cfg, steps[..j]).inbox.now
    decreases j
  {
    if i < j {
      ClockMovesForward(cfg, steps, i, j - 1);
      assert steps[..j][..j - 1] == steps[..j - 1];
    }
  }

  /** The first cleanup that deletes the event's row. */
  lemma {:induction false} FirstCleanup(cfg: Protocol.Config, steps: seq<Step>, id: EventId, i: nat) returns (c: nat)
    requires i < |steps| && CleansUp(cfg, Run(cfg, steps[..i]), steps[i], id)
    ensures c <= i && CleansUp(cfg, Run(cfg, steps[..c]), steps[c], id) && Deletions(cfg, steps[..c], id) == 0
    decreases i
  {
    if Deletions(cfg, steps[..i], id) == 0 {
      c := i;
    } else {
      var k := DeletedByACleanup(cfg, steps[..i], id);
      assert steps[..i][..k] == steps[..k];
      c := FirstCleanup(cfg, steps, id, k);
    }
  }

  /** It comes more than the retention after the first committed receipt. */
  lemma CleanupComesLate(cfg: Protocol.Config, steps: seq<Step>, id: EventId, c: nat, retention: Millis)
    requires c < |steps| && CleansUp(cfg, Run(cfg, steps[..c]), steps[c], id) && Deletions(cfg, steps[..c], id) == 0
    requires RetentionAtLeast(steps, retention)
    ensures var receipt := FirstReceipt(cfg, steps[..c], id);
      receipt.Some? && Run(cfg, steps[..c]).inbox.now > receipt.value + retention
  {
    CommittedAreDated(cfg, steps[..c], id);
    assert steps[c] in steps;
  }

  /** So no request in time comes after it. */
  lemma {:induction false} InTimeIsBeforeCleanup(cfg: Protocol.Config, steps: seq<Step>, id: EventId,
                                                 retention: Millis)
    requires RetentionAtLeast(steps, retention) && HandledWithin(cfg, steps, id, retention)
    ensures NoneHandledAfterCleanup(cfg, steps, id)
  {
    forall i, j | 0 <= i < j < |steps| && CleansUp(cfg, Run(cfg, steps[..i]), steps[i], id)
      ensures !Handles(cfg, Run(cfg, steps[..j]), steps[j], id)
    {
      var c := FirstCleanup(cfg, steps, id, i);
      CleanupComesLate(cfg, steps, id, c, retention);
      ReceiptStays(cfg, steps, id, c, j);
      ClockMovesForward(cfg, steps, c, j);
    }
  }

  /** If every cleanup keeps processed rows for at least the retention, and every request about an event is
      handled within it, counted from the event's first committed receipt, the event's effect is committed at
      most once in the whole run, and exactly once if the event has succeeded. */
  lemma {:induction false} AtMostOnceWithinRetention(cfg: Protocol.Config, steps: seq<Step>, id: EventId,
                                                     retention: Millis)
    requires RetentionAtLeast(steps, retention) && HandledWithin(cfg, steps, id, retention)
    ensures EffectCount(cfg, steps, id) <= 1
    ensures var rows := Run(cfg, steps).outbox.rows;
      id in rows && rows[id].status == Succeeded ==> EffectCount(cfg, steps, id) == 1
  {
    InTimeIsBeforeCleanup(cfg, steps, id, retention);
    AtMostOnceIfNoneHandledAfterCleanup(cfg, steps, id);
  }
}
