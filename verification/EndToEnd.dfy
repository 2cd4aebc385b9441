/** Outbox and inbox together: workers deliver events to a consumer that receives each under
    the event's own id, commits, and only then acknowledges. */
module EndToEnd {
  import opened Common
  import opened OutboxTable
  import Protocol
  import Inbox
  import Numerals

  /** One delivery attempt: which batch sent which event. */
  type Delivery = (Protocol.FlightId, EventId)

  /** The idempotency key a consumer uses for an event: its id. */
  function KeyOf(id: EventId): Inbox.Key {
    Numerals.Decimal(id)
  }

  /** What a consumer transaction has taken on: the deliveries it will acknowledge when it
      commits, and the events whose business effect it carries. */
  datatype Handling = Handling(deliveries: set<Delivery>, effects: set<EventId>)

  datatype World = World(
    outbox: Protocol.State,
    inbox: Inbox.State,
    sent: set<Delivery>,
    acknowledged: set<Delivery>,
    handling: map<Inbox.TxId, Handling>)

  const INITIAL := World(Protocol.INITIAL, Inbox.INITIAL, {}, {}, map[])

  datatype Step =
    | OutboxStep(step: Protocol.Step)
    | Send(delivery: Delivery)
    | Handle(tx: Inbox.TxId, delivery: Delivery, newId: Inbox.RowId)
    | InboxStep(inboxStep: Inbox.Step)

  /** A publisher reports success only for deliveries the consumer has acknowledged; a request
      once sent may be handled at any later time, any number of times, or never. */
  predicate Enabled(cfg: Protocol.Config, w: World, step: Step) {
    match step
    case OutboxStep(s) =>
      && Protocol.Enabled(cfg, w.outbox, s)
      && (s.DecideBatch? ==> forall id | id in s.results :: s.results[id].success ==> (s.flight, id) in w.acknowledged)
    case Send((f, id)) =>
      f in w.outbox.flights && w.outbox.flights[f].phase.Publishing? && id in w.outbox.flights[f].attempts
    case Handle(tx, delivery, newId) =>
      delivery in w.sent && Inbox.Enabled(w.inbox, Inbox.Receive(tx, KeyOf(delivery.1), newId))
    case InboxStep(s) => !s.Receive? && Inbox.Enabled(w.inbox, s)
  }

  function HandlingOf(w: World, tx: Inbox.TxId): Handling {
    if tx in w.handling then w.handling[tx] else Handling({}, {})
  }

  function After(cfg: Protocol.Config, w: World, step: Step): World
    requires Enabled(cfg, w, step)
  {
    match step
    case OutboxStep(s) => w.(outbox := Protocol.After(cfg, w.outbox, s))
    case Send(delivery) => w.(sent := w.sent + {delivery})
    case Handle(tx, delivery, newId) =>
      var h := HandlingOf(w, tx);
      w.(inbox := Inbox.After(w.inbox, Inbox.Receive(tx, KeyOf(delivery.1), newId)),
         handling := w.handling[tx := Handling(
           h.deliveries + {delivery},
           if Inbox.IsNew(w.inbox, tx, KeyOf(delivery.1)) then h.effects + {delivery.1} else h.effects)])
    case InboxStep(s) =>
      var next := w.(inbox := Inbox.After(w.inbox, s));
      match s
      case Commit(tx) =>
        next.(acknowledged := w.acknowledged + HandlingOf(w, tx).deliveries, handling := w.handling - {tx})
      case Rollback(tx) => next.(handling := w.handling - {tx})
      case _ => next
  }

  function Next(cfg: Protocol.Config, w: World, step: Step): World {
    if Enabled(cfg, w, step) then After(cfg, w, step) else w
  }

  function Run(cfg: Protocol.Config, steps: seq<Step>): World {
    if steps == [] then INITIAL else Next(cfg, Run(cfg, steps[..|steps| - 1]), steps[|steps| - 1])
  }

  /** The step commits the business effect of the event. */
  ghost predicate CommitsEffect(cfg: Protocol.Config, w: World, step: Step, id: EventId) {
    step.InboxStep? && step.inboxStep.Commit? && Enabled(cfg, w, step) && id in HandlingOf(w, step.inboxStep.tx).effects
  }

  /** How often the event's effect has been committed. */
  ghost function EffectCount(cfg: Protocol.Config, steps: seq<Step>, id: EventId): nat {
    if steps == [] then 0 else
      var n := |steps| - 1;
      EffectCount(cfg, steps[..n], id) + (if CommitsEffect(cfg, Run(cfg, steps[..n]), steps[n], id) then 1 else 0)
  }

  /** What the run does to the inbox. */
  ghost function InboxSteps(cfg: Protocol.Config, steps: seq<Step>): seq<Inbox.Step> {
    if steps == [] then [] else
      var n := |steps| - 1;
      InboxSteps(cfg, steps[..n]) + InboxPart(cfg, Run(cfg, steps[..n]), steps[n])
  }

  ghost function InboxPart(cfg: Protocol.Config, w: World, step: Step): seq<Inbox.Step> {
    if !Enabled(cfg, w, step) then []
    else match step
      case Handle(tx, delivery, newId) => [Inbox.Receive(tx, KeyOf(delivery.1), newId)]
      case InboxStep(s) => [s]
      case _ => []
  }

  /** How often the inbox cleanup has deleted the event's row. */
  ghost function Deletions(cfg: Protocol.Config, steps: seq<Step>, id: EventId): nat {
    Inbox.DeletionCount(InboxSteps(cfg, steps), KeyOf(id))
  }

  lemma InboxGrows(h: seq<Inbox.Step>, s: Inbox.Step, key: Inbox.Key)
    ensures Inbox.Run(h + [s]) == Inbox.Next(Inbox.Run(h), s)
    ensures Inbox.ProcessedCount(h + [s], key)
      == Inbox.ProcessedCount(h, key) + (if Inbox.CommitsProcessed(Inbox.Run(h), s, key) then 1 else 0)
  {
  }

  ghost predicate EffectMatchesInsert(w: World, tx: Inbox.TxId, id: EventId) {
    id in HandlingOf(w, tx).effects <==> tx in w.inbox.txs && KeyOf(id) in w.inbox.txs[tx].inserted
  }

  /** The event was received for good: some committed transaction was told that it is new. */
  ghost predicate ReceivedForGood(h: seq<Inbox.Step>, id: EventId) {
    Inbox.ProcessedCount(h, KeyOf(id)) >= 1
  }

  /** An open transaction carries an event's effect exactly if it inserted the event's key. */
  ghost predicate EffectsMatch(w: World) {
    forall tx, id :: EffectMatchesInsert(w, tx, id)
  }

  /** What a transaction will acknowledge is its own insert, or was received for good before. */
  ghost predicate DeliveriesCovered(w: World, h: seq<Inbox.Step>) {
    forall tx, d :: d in HandlingOf(w, tx).deliveries ==> d.1 in HandlingOf(w, tx).effects || ReceivedForGood(h, d.1)
  }

  ghost predicate AcknowledgedCovered(w: World, h: seq<Inbox.Step>) {
    forall d :: d in w.acknowledged ==> ReceivedForGood(h, d.1)
  }

  /** A batch about to mark an event succeeded, and a row so marked, are about events received for good. */
  ghost predicate SuccessCovered(o: Protocol.State, h: seq<Inbox.Step>) {
    && (forall f, id :: Succeeding(o, f, id) ==> ReceivedForGood(h, id))
    && (forall id :: id in o.rows && o.rows[id].status == Succeeded ==> ReceivedForGood(h, id))
  }

  ghost predicate Succeeding(o: Protocol.State, f: Protocol.FlightId, id: EventId) {
    f in o.flights && o.flights[f].phase.Writing? && id in o.flights[f].phase.succeeded
  }

  ghost predicate Consistent(w: World, h: seq<Inbox.Step>) {
    && w.inbox == Inbox.Run(h) && EffectsMatch(w) && DeliveriesCovered(w, h)
    && AcknowledgedCovered(w, h) && SuccessCovered(w.outbox, h)
  }

  lemma EffectsMatchInStep(cfg: Protocol.Config, w: World, step: Step, tx: Inbox.TxId, id: EventId)
    requires EffectMatchesInsert(w, tx, id) && Enabled(cfg, w, step)
    ensures EffectMatchesInsert(After(cfg, w, step), tx, id)
  {
    if step.Handle? && KeyOf(id) == KeyOf(step.delivery.1) {
      Numerals.DecimalIsInjective(id, step.delivery.1);
    }
  }

  lemma GoodStaysGood(cfg: Protocol.Config, w: World, step: Step, h: seq<Inbox.Step>, id: EventId)
    requires ReceivedForGood(h, id)
    ensures ReceivedForGood(h + InboxPart(cfg, w, step), id)
  {
    var part := InboxPart(cfg, w, step);
    if part == [] {
      assert h + part == h;
    } else {
      InboxGrows(h, part[0], KeyOf(id));
    }
  }

  lemma InboxFollows(cfg: Protocol.Config, w: World, step: Step, h: seq<Inbox.Step>)
    requires w.inbox == Inbox.Run(h) && Enabled(cfg, w, step)
    ensures After(cfg, w, step).inbox == Inbox.Run(h + InboxPart(cfg, w, step))
  {
    var part := InboxPart(cfg, w, step);
    if part == [] {
      assert h + part == h;
    } else {
      InboxGrows(h, part[0], "");
    }
  }

  /** A delivery is handled as an insert of its key, or finds the key inserted already. */
  lemma HandledDeliveryIsCovered(cfg: Protocol.Config, w: World, step: Step, h: seq<Inbox.Step>)
    requires Consistent(w, h) && Enabled(cfg, w, step) && step.Handle?
    ensures var id := step.delivery.1;
      id in HandlingOf(After(cfg, w, step), step.tx).effects || ReceivedForGood(h, id)
  {
    var id := step.delivery.1;
    assert EffectMatchesInsert(w, step.tx, id);
    if KeyOf(id) in w.inbox.committed {
      Inbox.Conservation(h, KeyOf(id));
    }
  }

  lemma DeliveriesStayCovered(cfg: Protocol.Config, w: World, step: Step, h: seq<Inbox.Step>)
    requires Consistent(w, h) && Enabled(cfg, w, step)
    ensures DeliveriesCovered(After(cfg, w, step), h + InboxPart(cfg, w, step))
  {
    var t := After(cfg, w, step);
    forall tx, d | d in HandlingOf(t, tx).deliveries
      ensures d.1 in HandlingOf(t, tx).effects || ReceivedForGood(h + InboxPart(cfg, w, step), d.1)
    {
      if step.Handle? && step.tx == tx && d == step.delivery {
        HandledDeliveryIsCovered(cfg, w, step, h);
      } else {
        assert d in HandlingOf(w, tx).deliveries;
      }
      if ReceivedForGood(h, d.1) {
        GoodStaysGood(cfg, w, step, h, d.1);
      }
    }
  }

  lemma AcknowledgedStaysCovered(cfg: Protocol.Config, w: World, step: Step, h: seq<Inbox.Step>)
    requires Consistent(w, h) && Enabled(cfg, w, step)
    ensures AcknowledgedCovered(After(cfg, w, step), h + InboxPart(cfg, w, step))
  {
    var t := After(cfg, w, step);
    forall d | d in t.acknowledged
      ensures ReceivedForGood(h + InboxPart(cfg, w, step), d.1)
    {
      if d in w.acknowledged || ReceivedForGood(h, d.1) {
        GoodStaysGood(cfg, w, step, h, d.1);
      } else {
        var tx := step.inboxStep.tx;
        assert d in HandlingOf(w, tx).deliveries && EffectMatchesInsert(w, tx, d.1);
        InboxGrows(h, step.inboxStep, KeyOf(d.1));
      }
    }
  }

  lemma SuccessStaysCovered(cfg: Protocol.Config, w: World, step: Step, h: seq<Inbox.Step>)
    requires Consistent(w, h) && Enabled(cfg, w, step)
    ensures SuccessCovered(After(cfg, w, step).outbox, h + InboxPart(cfg, w, step))
  {
    var t := After(cfg, w, step).outbox;
    forall f, id | Succeeding(t, f, id)
      ensures ReceivedForGood(h + InboxPart(cfg, w, step), id)
    {
      if !Succeeding(w.outbox, f, id) {
        assert step.OutboxStep? && step.step.DecideBatch? && step.step.flight == f && step.step.results[id].success;
        assert (f, id) in w.acknowledged;
      }
      GoodStaysGood(cfg, w, step, h, id);
    }
    forall id | id in t.rows && t.rows[id].status == Succeeded
      ensures ReceivedForGood(h + InboxPart(cfg, w, step), id)
    {
      if id in w.outbox.rows {
        if step.OutboxStep? {
          Protocol.RowsInStep(cfg, w.outbox, step.step, id);
          assert w.outbox.rows[id].status == Succeeded || Succeeding(w.outbox, step.step.flight, id);
        }
        GoodStaysGood(cfg, w, step, h, id);
      }
    }
  }

  lemma {:induction false} AlwaysConsistent(cfg: Protocol.Config, steps: seq<Step>)
    ensures Consistent(Run(cfg, steps), InboxSteps(cfg, steps))
  {
    if steps != [] {
      var n := |steps| - 1;
      var w, h := Run(cfg, steps[..n]), InboxSteps(cfg, steps[..n]);
      AlwaysConsistent(cfg, steps[..n]);
      if Enabled(cfg, w, steps[n]) {
        ConsistentInStep(cfg, w, steps[n], h);
      } else {
        assert h + InboxPart(cfg, w, steps[n]) == h;
      }
    }
  }

  lemma ConsistentInStep(cfg: Protocol.Config, w: World, step: Step, h: seq<Inbox.Step>)
    requires Consistent(w, h) && Enabled(cfg, w, step)
    ensures Consistent(After(cfg, w, step), h + InboxPart(cfg, w, step))
  {
    InboxFollows(cfg, w, step, h);
    forall tx, id
      ensures EffectMatchesInsert(After(cfg, w, step), tx, id)
    {
      EffectsMatchInStep(cfg, w, step, tx, id);
    }
    DeliveriesStayCovered(cfg, w, step, h);
    AcknowledgedStaysCovered(cfg, w, step, h);
    SuccessStaysCovered(cfg, w, step, h);
  }

  /** An event's effect is committed once for each committed 'processed' answer about its key. */
  lemma {:induction false} EffectsAreProcessedAnswers(cfg: Protocol.Config, steps: seq<Step>, id: EventId)
    ensures EffectCount(cfg, steps, id) == Inbox.ProcessedCount(InboxSteps(cfg, steps), KeyOf(id))
  {
    if steps != [] {
      var n := |steps| - 1;
      var w, h := Run(cfg, steps[..n]), InboxSteps(cfg, steps[..n]);
      EffectsAreProcessedAnswers(cfg, steps[..n], id);
      AlwaysConsistent(cfg, steps[..n]);
      var part := InboxPart(cfg, w, steps[n]);
      if part == [] {
        assert h + part == h;
      } else {
        InboxGrows(h, part[0], KeyOf(id));
        if steps[n].InboxStep? && steps[n].inboxStep.Commit? {
          assert EffectMatchesInsert(w, steps[n].inboxStep.tx, id);
        }
      }
    }
  }

  /** Exactly-once processing, for every run: with late writers, crashes, recoveries, replays,
      repeated and delayed requests, and rollbacks. An event's effect has been committed once for
      each cleanup of its inbox row, and once more if the row is there; and it has been committed
      if its outbox row has succeeded. So it is committed at most once before a cleanup, and
      exactly once for a succeeded event whose inbox row was never cleaned up. */
  lemma {:induction false} ExactlyOnce(cfg: Protocol.Config, steps: seq<Step>, id: EventId)
    ensures EffectCount(cfg, steps, id)
      == Deletions(cfg, steps, id) + (if KeyOf(id) in Run(cfg, steps).inbox.committed then 1 else 0)
    ensures var rows := Run(cfg, steps).outbox.rows;
      id in rows && rows[id].status == Succeeded ==> EffectCount(cfg, steps, id) >= 1
    ensures var rows := Run(cfg, steps).outbox.rows;
      Deletions(cfg, steps, id) == 0 && id in rows && rows[id].status == Succeeded ==> EffectCount(cfg, steps, id) == 1
  {
    EffectsAreProcessedAnswers(cfg, steps, id);
    Inbox.Conservation(InboxSteps(cfg, steps), KeyOf(id));
    AlwaysConsistent(cfg, steps);
  }

  // What an operator has to see to for at most one effect, cleanups included.

  ghost predicate CleansUp(cfg: Protocol.Config, w: World, step: Step, id: EventId) {
    step.InboxStep? && Enabled(cfg, w, step) && Inbox.Deletes(w.inbox, step.inboxStep, KeyOf(id))
  }

  ghost predicate Handles(cfg: Protocol.Config, w: World, step: Step, id: EventId) {
    step.Handle? && Enabled(cfg, w, step) && step.delivery.1 == id
  }

  /** No request about the event is handled after a cleanup has deleted its inbox row. */
  ghost predicate NoneHandledAfterCleanup(cfg: Protocol.Config, steps: seq<Step>, id: EventId) {
    forall i, j :: 0 <= i < j < |steps| && CleansUp(cfg, Run(cfg, steps[..i]), steps[i], id) ==>
      !Handles(cfg, Run(cfg, steps[..j]), steps[j], id)
  }

  /** The event's key is neither committed nor about to be. */
  ghost predicate Gone(w: World, id: EventId) {
    && KeyOf(id) !in w.inbox.committed
    && forall tx :: tx in w.inbox.txs ==> KeyOf(id) !in w.inbox.txs[tx].inserted
  }

  lemma CleanupRemoves(cfg: Protocol.Config, w: World, step: Step, id: EventId)
    requires Inbox.Isolated(w.inbox) && CleansUp(cfg, w, step, id)
    ensures Gone(Next(cfg, w, step), id)
  {
  }

  lemma GoneStays(cfg: Protocol.Config, w: World, step: Step, id: EventId)
    requires Gone(w, id) && !Handles(cfg, w, step, id)
    ensures Gone(Next(cfg, w, step), id) && !CleansUp(cfg, w, step, id)
  {
    if step.Handle? && KeyOf(step.delivery.1) == KeyOf(id) {
      Numerals.DecimalIsInjective(step.delivery.1, id);
    }
  }

  lemma DeletionsGrow(cfg: Protocol.Config, steps: seq<Step>, id: EventId)
    requires steps != []
    ensures var n := |steps| - 1;
      Deletions(cfg, steps, id) == Deletions(cfg, steps[..n], id)
        + (if CleansUp(cfg, Run(cfg, steps[..n]), steps[n], id) then 1 else 0)
  {
    var n := |steps| - 1;
    var h, part := InboxSteps(cfg, steps[..n]), InboxPart(cfg, Run(cfg, steps[..n]), steps[n]);
    AlwaysConsistent(cfg, steps[..n]);
    if part == [] {
      assert h + part == h;
    } else {
      assert (h + part)[..|h|] == h;
    }
  }

  lemma {:induction false} DeletedByACleanup(cfg: Protocol.Config, steps: seq<Step>, id: EventId) returns (i: nat)
    requires Deletions(cfg, steps, id) > 0
    ensures i < |steps| && CleansUp(cfg, Run(cfg, steps[..i]), steps[i], id)
  {
    var n := |steps| - 1;
    DeletionsGrow(cfg, steps, id);
    if CleansUp(cfg, Run(cfg, steps[..n]), steps[n], id) {
      i := n;
    } else {
      i := DeletedByACleanup(cfg, steps[..n], id);
      assert steps[..n][..i] == steps[..i];
    }
  }

  lemma {:induction false} PrefixHandlesNoneEither(cfg: Protocol.Config, steps: seq<Step>, id: EventId, n: nat)
    requires n <= |steps| && NoneHandledAfterCleanup(cfg, steps, id)
    ensures NoneHandledAfterCleanup(cfg, steps[..n], id)
  {
    var prefix := steps[..n];
    forall i, j | 0 <= i < j < |prefix| && CleansUp(cfg, Run(cfg, prefix[..i]), prefix[i], id)
      ensures !Handles(cfg, Run(cfg, prefix[..j]), prefix[j], id)
    {
      assert prefix[..i] == steps[..i] && prefix[..j] == steps[..j];
    }
  }

  lemma {:induction false} GoneAfterCleanup(cfg: Protocol.Config, steps: seq<Step>, id: EventId)
    requires NoneHandledAfterCleanup(cfg, steps, id)
    ensures Deletions(cfg, steps, id) <= 1
    ensures Deletions(cfg, steps, id) == 1 ==> Gone(Run(cfg, steps), id)
  {
    if steps != [] {
      var n := |steps| - 1;
      var w := Run(cfg, steps[..n]);
      DeletionsGrow(cfg, steps, id);
      PrefixHandlesNoneEither(cfg, steps, id, n);
      GoneAfterCleanup(cfg, steps[..n], id);
      if Deletions(cfg, steps[..n], id) > 0 {
        var i := DeletedByACleanup(cfg, steps[..n], id);
        assert steps[..n][..i] == steps[..i];
        GoneStays(cfg, w, steps[n], id);
      } else if CleansUp(cfg, w, steps[n], id) {
        AlwaysConsistent(cfg, steps[..n]);
        Inbox.AlwaysIsolated(InboxSteps(cfg, steps[..n]));
        CleanupRemoves(cfg, w, steps[n], id);
      }
    }
  }

  /** If no request about an event is handled after its inbox row was cleaned up, its effect is committed at
      most once in the whole run, and exactly once if the event has succeeded. */
  lemma {:induction false} AtMostOnceIfNoneHandledAfterCleanup(cfg: Protocol.Config, steps: seq<Step>, id: EventId)
    requires NoneHandledAfterCleanup(cfg, steps, id)
    ensures EffectCount(cfg, steps, id) <= 1
    ensures var rows := Run(cfg, steps).outbox.rows;
      id in rows && rows[id].status == Succeeded ==> EffectCount(cfg, steps, id) == 1
  {
    ExactlyOnce(cfg, steps, id);
    GoneAfterCleanup(cfg, steps, id);
  }

  // An event processed twice.

  lemma OneMoreStep(cfg: Protocol.Config, steps: seq<Step>, step: Step, id: EventId)
    ensures var w := Run(cfg, steps);
      && Run(cfg, steps + [step]) == Next(cfg, w, step)
      && EffectCount(cfg, steps + [step], id)
        == EffectCount(cfg, steps, id) + (if CommitsEffect(cfg, w, step, id) then 1 else 0)
  {
    assert (steps + [step])[..|steps|] == steps;
  }

  /** Every cleanup of the run deletes processed rows older than the retention. */
  ghost predicate CleansAfter(steps: seq<Step>, retention: Millis) {
    forall step :: step in steps && step.InboxStep? && step.inboxStep.Cleanup? ==>
      step.inboxStep.retentionMs == retention
  }

  /** A request about event 0 has been sent, and its inbox row is not there. */
  ghost predicate Requested(w: World, now: Millis) {
    && (0, 0) in w.sent && w.handling == map[] && w.inbox.now == now
    && KeyOf(0) !in w.inbox.committed && w.inbox.txs == map[]
  }

  /** It has been received at the given instant, and committed. */
  ghost predicate ReceivedAt(w: World, now: Millis) {
    && (0, 0) in w.sent && w.handling == map[] && w.inbox.now == now && w.inbox.txs == map[]
    && KeyOf(0) in w.inbox.committed && w.inbox.committed[KeyOf(0)].status == Inbox.Processed
    && w.inbox.committed[KeyOf(0)].processedAt == now
  }

  /** The request is handled in a transaction of its own, and the transaction commits. */
  lemma HandledOnce(cfg: Protocol.Config, before: seq<Step>, tx: Inbox.TxId, now: Millis) returns (steps: seq<Step>)
    requires Requested(Run(cfg, before), now)
    ensures EffectCount(cfg, steps, 0) == EffectCount(cfg, before, 0) + 1
    ensures ReceivedAt(Run(cfg, steps), now)
    ensures forall retention :: CleansAfter(before, retention) ==> CleansAfter(steps, retention)
  {
    var begin, handle := InboxStep(Inbox.Begin(tx)), Handle(tx, (0, 0), tx);
    var begun := before + [begin];
    var handled := begun + [handle];
    OneMoreStep(cfg, before, begin, 0);
    OneMoreStep(cfg, begun, handle, 0);
    OneMoreStep(cfg, handled, InboxStep(Inbox.Commit(tx)), 0);
    assert HandlingOf(Run(cfg, handled), tx).effects == {0};
    steps := handled + [InboxStep(Inbox.Commit(tx))];
  }

  /** After more than the retention the cleanup deletes the inbox row. */
  lemma CleanedUp(cfg: Protocol.Config, before: seq<Step>, retention: Millis, delay: Millis) returns (steps: seq<Step>)
    requires ReceivedAt(Run(cfg, before), 0.0) && CleansAfter(before, retention)
    requires delay > 0.0 && delay > retention
    ensures Requested(Run(cfg, steps), delay) && EffectCount(cfg, steps, 0) == EffectCount(cfg, before, 0)
    ensures CleansAfter(steps, retention)
  {
    var wait, cleanup := InboxStep(Inbox.Tick(delay)), InboxStep(Inbox.Cleanup(retention));
    var waited := before + [wait];
    OneMoreStep(cfg, before, wait, 0);
    OneMoreStep(cfg, waited, cleanup, 0);
    assert KeyOf(0) in Inbox.ExpiredKeys(Run(cfg, waited).inbox, retention);
    steps := waited + [cleanup];
  }

  const INSERT_EVENT := Protocol.Issue(Insert(0, EventData("", "", "", ""), None, 5))
  const CLAIM_EVENT := Protocol.ClaimBatch(0, map[0 := 0])

  lemma EventIsClaimed(cfg: Protocol.Config)
    requires cfg.batchSize > 0
    ensures Protocol.Enabled(cfg, Protocol.INITIAL, INSERT_EVENT)
    ensures var s := Protocol.After(cfg, Protocol.INITIAL, INSERT_EVENT);
      && Protocol.Enabled(cfg, s, CLAIM_EVENT)
      && Protocol.After(cfg, s, CLAIM_EVENT).flights == map[0 := Protocol.Flight(0.0, map[0 := 0], Protocol.Publishing)]
  {
    assert map[0 := 0].Keys == {0};
  }

  /** An event is inserted, claimed and sent. */
  lemma Sent(cfg: Protocol.Config) returns (steps: seq<Step>)
    requires cfg.batchSize > 0
    ensures Requested(Run(cfg, steps), 0.0) && EffectCount(cfg, steps, 0) == 0
    ensures forall retention :: CleansAfter(steps, retention)
  {
    EventIsClaimed(cfg);
    var inserted := [] + [OutboxStep(INSERT_EVENT)];
    var claimed := inserted + [OutboxStep(CLAIM_EVENT)];
    OneMoreStep(cfg, [], OutboxStep(INSERT_EVENT), 0);
    OneMoreStep(cfg, inserted, OutboxStep(CLAIM_EVENT), 0);
    OneMoreStep(cfg, claimed, Send((0, 0)), 0);
    steps := claimed + [Send((0, 0))];
  }

  /** For every configuration, retention and longer delay: a request delivered again that long after the event was
      received, and after a cleanup that keeps the retention, has the event processed a second time. */
  lemma {:induction false} LateRequestIsProcessedAgain(cfg: Protocol.Config, retention: Millis, delay: Millis)
    returns (steps: seq<Step>)
    requires cfg.batchSize > 0 && delay > 0.0 && delay > retention
    ensures CleansAfter(steps, retention) && Run(cfg, steps).inbox.now == delay
    ensures EffectCount(cfg, steps, 0) == 2
  {
    var sent := Sent(cfg);
    var once := HandledOnce(cfg, sent, 0, 0.0);
    var cleaned := CleanedUp(cfg, once, retention, delay);
    steps := HandledOnce(cfg, cleaned, 1, delay);
  }
}
