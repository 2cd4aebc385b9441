/** One batch in a worker: publish, sort the results into three groups, issue three batch
    writes concurrently. */
module Worker {
  import opened Common
  import opened OutboxTable
  import opened Retry
  import opened Protocol
  import opened PgEventRepository

  /** publisher.publish(): it throws, or returns a map that may lack ids or have extra ones. */
  datatype PublishOutcome = Threw(message: string) | Returned(results: map<EventId, PublishResult>)

  /** What the worker makes of the outcome for one event. */
  function ResultFor(outcome: PublishOutcome, id: EventId): PublishResult {
    match outcome
    case Threw(message) => PublishResult(false, Some(message), true)
    case Returned(results) => if id in results then results[id] else PublishResult(false, None, true)
  }

  /** The entries of a JavaScript Map, in insertion order. */
  type Entries = seq<(EventId, PublishResult)>

  /** Map.set: an existing key keeps its place. */
  function MapSet(entries: Entries, id: EventId, result: PublishResult): Entries {
    if entries == [] then [(id, result)]
    else if entries[0].0 == id then [(id, result)] + entries[1..]
    else [entries[0]] + MapSet(entries[1..], id, result)
  }

  lemma {:induction false} SettingNewKeyAppends(entries: Entries, id: EventId, result: PublishResult)
    requires forall i :: 0 <= i < |entries| ==> entries[i].0 != id
    ensures MapSet(entries, id, result) == entries + [(id, result)]
  {
    if entries != [] {
      SettingNewKeyAppends(entries[1..], id, result);
    }
  }

  datatype BatchGroupingResult = BatchGroupingResult(succeeded: seq<EventId>, retried: seq<EventId>, dlq: seq<EventId>)

  function DecisionOf(entry: (EventId, PublishResult), retryCounts: map<EventId, nat>, maxRetries: int): Decision {
    DecideRetry(entry.1, if entry.0 in retryCounts then retryCounts[entry.0] else 0, maxRetries)
  }

  /** The ids with the given decision, in the order of the entries. */
  ghost function Select(entries: Entries, retryCounts: map<EventId, nat>, maxRetries: int, d: Decision): seq<EventId> {
    if entries == [] then [] else
      var n := |entries| - 1;
      Select(entries[..n], retryCounts, maxRetries, d)
        + (if DecisionOf(entries[n], retryCounts, maxRetries) == d then [entries[n].0] else [])
  }

  method GroupBatchResults(results: Entries, retryCounts: map<EventId, nat>, maxRetries: int)
    returns (grouped: BatchGroupingResult)
    ensures grouped.succeeded == Select(results, retryCounts, maxRetries, Succeed)
    ensures grouped.retried == Select(results, retryCounts, maxRetries, Reschedule)
    ensures grouped.dlq == Select(results, retryCounts, maxRetries, GiveUp)
  {
    var succeeded, retried, dlq := [], [], [];
    for i := 0 to |results|
      invariant succeeded == Select(results[..i], retryCounts, maxRetries, Succeed)
      invariant retried == Select(results[..i], retryCounts, maxRetries, Reschedule)
      invariant dlq == Select(results[..i], retryCounts, maxRetries, GiveUp)
    {
      assert results[..i + 1][..i] == results[..i];
      var (eventId, result) := results[i];
      var currentRetryCount := if eventId in retryCounts then retryCounts[eventId] else 0;
      match DecideRetry(result, currentRetryCount, maxRetries) {
        case Succeed => succeeded := succeeded + [eventId];
        case Reschedule => retried := retried + [eventId];
        case GiveUp => dlq := dlq + [eventId];
      }
    }
    assert results[..|results|] == results;
    grouped := BatchGroupingResult(succeeded, retried, dlq);
  }

  /** An id is in a group exactly when some entry of it has that decision. */
  lemma {:induction false} SelectContains(entries: Entries, retryCounts: map<EventId, nat>, maxRetries: int,
                                          d: Decision, id: EventId)
    ensures id in Select(entries, retryCounts, maxRetries, d) <==>
      exists i :: 0 <= i < |entries| && entries[i].0 == id && DecisionOf(entries[i], retryCounts, maxRetries) == d
  {
    if entries != [] {
      var n := |entries| - 1;
      SelectContains(entries[..n], retryCounts, maxRetries, d, id);
      if id in Select(entries[..n], retryCounts, maxRetries, d) {
        var i :| 0 <= i < n && entries[..n][i].0 == id && DecisionOf(entries[..n][i], retryCounts, maxRetries) == d;
        assert entries[i] == entries[..n][i];
      }
      if i :| 0 <= i < |entries| && entries[i].0 == id && DecisionOf(entries[i], retryCounts, maxRetries) == d {
        assert i < n ==> entries[..n][i] == entries[i];
      }
    }
  }

  /** How often an id occurs in the group of a decision. */
  ghost function Occurrences(entries: Entries, retryCounts: map<EventId, nat>, maxRetries: int, d: Decision,
                             id: EventId): nat {
    multiset(Select(entries, retryCounts, maxRetries, d))[id]
  }

  lemma OccurrencesGrow(entries: Entries, retryCounts: map<EventId, nat>, maxRetries: int, d: Decision, id: EventId)
    requires entries != []
    ensures var n := |entries| - 1;
      Occurrences(entries, retryCounts, maxRetries, d, id) == Occurrences(entries[..n], retryCounts, maxRetries, d, id)
        + (if DecisionOf(entries[n], retryCounts, maxRetries) == d && entries[n].0 == id then 1 else 0)
  {
  }

  lemma KeysGrow(entries: Entries, id: EventId)
    requires entries != []
    ensures var n := |entries| - 1;
      multiset(Keys(entries))[id] == multiset(Keys(entries[..n]))[id] + (if entries[n].0 == id then 1 else 0)
  {
    var n := |entries| - 1;
    assert Keys(entries) == Keys(entries[..n]) + [entries[n].0];
  }

  lemma {:induction false} GroupCounts(entries: Entries, retryCounts: map<EventId, nat>, maxRetries: int, id: EventId)
    ensures Occurrences(entries, retryCounts, maxRetries, Succeed, id)
      + Occurrences(entries, retryCounts, maxRetries, Reschedule, id)
      + Occurrences(entries, retryCounts, maxRetries, GiveUp, id) == multiset(Keys(entries))[id]
  {
    if entries != [] {
      var n := |entries| - 1;
      GroupCounts(entries[..n], retryCounts, maxRetries, id);
      KeysGrow(entries, id);
      OccurrencesGrow(entries, retryCounts, maxRetries, Succeed, id);
      OccurrencesGrow(entries, retryCounts, maxRetries, Reschedule, id);
      OccurrencesGrow(entries, retryCounts, maxRetries, GiveUp, id);
    }
  }

  /** The three groups split the entries: every entry's id is in exactly one of them, once. */
  lemma GroupsPartition(entries: Entries, retryCounts: map<EventId, nat>, maxRetries: int)
    ensures multiset(Select(entries, retryCounts, maxRetries, Succeed))
      + multiset(Select(entries, retryCounts, maxRetries, Reschedule))
      + multiset(Select(entries, retryCounts, maxRetries, GiveUp)) == multiset(Keys(entries))
  {
    forall id: EventId
      ensures multiset(Select(entries, retryCounts, maxRetries, Succeed))[id]
        + multiset(Select(entries, retryCounts, maxRetries, Reschedule))[id]
        + multiset(Select(entries, retryCounts, maxRetries, GiveUp))[id] == multiset(Keys(entries))[id]
    {
      GroupCounts(entries, retryCounts, maxRetries, id);
    }
  }

  ghost function Keys(entries: Entries): seq<EventId> {
    seq(|entries|, i requires 0 <= i < |entries| => entries[i].0)
  }

  // The whole batch.

  ghost function EventDecision(e: Event, outcome: PublishOutcome, maxRetries: int): Decision {
    DecideRetry(ResultFor(outcome, e.id), e.retryCount, maxRetries)
  }

  /** The error text of one event, as a message map of its own. */
  ghost function OwnMessage(id: EventId, error: Option<string>): map<EventId, string> {
    if error.Some? then map[id := error.value] else map[]
  }

  /** Each event is in the group of its own decision and in no other, and nothing else is in a group. */
  ghost predicate GroupedByDecision(events: seq<Event>, outcome: PublishOutcome, maxRetries: int,
                                    grouped: BatchGroupingResult) {
    && (forall e :: e in events ==>
          && (e.id in grouped.succeeded <==> EventDecision(e, outcome, maxRetries) == Succeed)
          && (e.id in grouped.retried <==> EventDecision(e, outcome, maxRetries) == Reschedule)
          && (e.id in grouped.dlq <==> EventDecision(e, outcome, maxRetries) == GiveUp))
    && (forall id :: id in grouped.succeeded || id in grouped.retried || id in grouped.dlq ==> id in EventIds(events))
  }

  /** The ids of the events with the given decision, in the order of the batch. */
  ghost function IdsDecided(events: seq<Event>, outcome: PublishOutcome, maxRetries: int, d: Decision): seq<EventId> {
    if events == [] then [] else
      var n := |events| - 1;
      IdsDecided(events[..n], outcome, maxRetries, d)
        + (if EventDecision(events[n], outcome, maxRetries) == d then [events[n].id] else [])
  }

  ghost predicate GroupedInOrder(events: seq<Event>, outcome: PublishOutcome, maxRetries: int,
                                 grouped: BatchGroupingResult) {
    && grouped.succeeded == IdsDecided(events, outcome, maxRetries, Succeed)
    && grouped.retried == IdsDecided(events, outcome, maxRetries, Reschedule)
    && grouped.dlq == IdsDecided(events, outcome, maxRetries, GiveUp)
  }

  lemma {:induction false} SelectFollowsTheBatch(events: seq<Event>, outcome: PublishOutcome, entries: Entries,
                                                 retryCounts: map<EventId, nat>, maxRetries: int, d: Decision)
    requires |entries| == |events|
    requires forall j :: 0 <= j < |events| ==> entries[j] == (events[j].id, ResultFor(outcome, events[j].id))
    requires forall j :: 0 <= j < |events| ==>
      events[j].id in retryCounts && retryCounts[events[j].id] == events[j].retryCount
    ensures Select(entries, retryCounts, maxRetries, d) == IdsDecided(events, outcome, maxRetries, d)
  {
    if events != [] {
      var n := |events| - 1;
      SelectFollowsTheBatch(events[..n], outcome, entries[..n], retryCounts, maxRetries, d);
    }
  }

  /** No id is in two groups. */
  ghost predicate Apart(grouped: BatchGroupingResult) {
    && (forall id :: id in grouped.succeeded ==> id !in grouped.retried && id !in grouped.dlq)
    && (forall id :: id in grouped.retried ==> id !in grouped.dlq)
  }

  /** What the worker knows of one event: the publisher's result for it, or a failure to be retried. */
  ghost predicate Answered(outcome: PublishOutcome, id: EventId, result: PublishResult) {
    match outcome
    case Threw(message) => result == PublishResult(false, Some(message), true)
    case Returned(results) =>
      if id in results then result == results[id] else !result.success && result.error == None && result.retryable
  }

  /** Each event has the message of its own result, if that has one. */
  ghost predicate MessagesPerEvent(events: seq<Event>, outcome: PublishOutcome, messages: map<EventId, string>) {
    && (forall e, result :: e in events && Answered(outcome, e.id, result) ==> MessageIs(messages, e.id, result.error))
    && (forall id :: id in messages ==> id in EventIds(events))
  }

  /** The three Maps hold, event by event, its result, its retry count and its error message. */
  ghost predicate Collected(events: seq<Event>, outcome: PublishOutcome, entries: Entries,
                            retryCounts: map<EventId, nat>, messages: map<EventId, string>) {
    && |entries| == |events|
    && (forall j :: 0 <= j < |events| ==> entries[j] == (events[j].id, ResultFor(outcome, events[j].id)))
    && (forall j :: 0 <= j < |events| ==>
          events[j].id in retryCounts && retryCounts[events[j].id] == events[j].retryCount)
    && (forall j :: 0 <= j < |events| ==> MessageIs(messages, events[j].id, ResultFor(outcome, events[j].id).error))
    && (forall id :: id in messages ==> exists j :: 0 <= j < |events| && events[j].id == id)
  }

  lemma CollectOneMore(events: seq<Event>, event: Event, outcome: PublishOutcome, entries: Entries,
                       retryCounts: map<EventId, nat>, messages: map<EventId, string>)
    requires Collected(events, outcome, entries, retryCounts, messages)
    requires forall j :: 0 <= j < |events| ==> events[j].id != event.id
    ensures var result := ResultFor(outcome, event.id);
      Collected(events + [event], outcome, MapSet(entries, event.id, result), retryCounts[event.id := event.retryCount],
                if result.error.Some? then messages[event.id := result.error.value] else messages)
  {
    var result := ResultFor(outcome, event.id);
    assert forall j :: 0 <= j < |events| ==> entries[j].0 == events[j].id;
    SettingNewKeyAppends(entries, event.id, result);
    var all := events + [event];
    var more := if result.error.Some? then messages[event.id := result.error.value] else messages;
    assert event.id !in messages;
    forall j | 0 <= j < |all|
      ensures MessageIs(more, all[j].id, ResultFor(outcome, all[j].id).error)
    {
      if j < |events| {
        assert all[j] == events[j] && MessageIs(messages, events[j].id, ResultFor(outcome, events[j].id).error);
      }
    }
    forall id | id in more
      ensures exists j :: 0 <= j < |all| && all[j].id == id
    {
      if id == event.id {
        assert all[|events|].id == id;
      } else {
        var j :| 0 <= j < |events| && events[j].id == id;
        assert all[j].id == id;
      }
    }
  }

  /** The row once the batch writes in `landed` have reached the database. */
  ghost function Written(row: Row, id: EventId, grouped: BatchGroupingResult, messages: map<EventId, string>,
                         workerId: string, backoff: Backoff, when: WriteKind -> Millis, landed: set<WriteKind>): Row {
    if id in grouped.succeeded && SuccessWrite in landed then
      RowAfter(MarkSucceeded(Elements(grouped.succeeded), workerId), id, row, when(SuccessWrite))
    else if id in grouped.retried && RetryWrite in landed then
      RowAfter(ScheduleRetry(Elements(grouped.retried), messages, backoff), id, row, when(RetryWrite))
    else if id in grouped.dlq && DlqWrite in landed then
      RowAfter(MoveToDlq(Elements(grouped.dlq), messages), id, row, when(DlqWrite))
    else row
  }

  lemma {:induction false} OneWorkerForAll(results: seq<(EventId, string)>, ids: seq<EventId>, workerId: string,
                                           id: EventId)
    requires |results| == |ids| && forall i :: 0 <= i < |ids| ==> results[i] == (ids[i], workerId)
    ensures WorkerFor(results, id) == if id in ids then Some(workerId) else None
  {
    if ids != [] {
      OneWorkerForAll(results[1..], ids[1..], workerId, id);
    }
  }

  class OutboxWorker {
    const repository: PgEventRepository
    const workerId: string
    const maxRetries: nat
    const backoff: Backoff

    constructor (repository: PgEventRepository, workerId: string, maxRetries: nat, backoff: Backoff)
      ensures this.repository == repository && this.workerId == workerId
      ensures this.maxRetries == maxRetries && this.backoff == backoff
    {
      this.repository := repository;
      this.workerId := workerId;
      this.maxRetries := maxRetries;
      this.backoff := backoff;
    }

    /** Fills the three Maps of a batch, event by event. */
    method CollectResults(events: seq<Event>, outcome: PublishOutcome)
      returns (resultsMap: Entries, retryCounts: map<EventId, nat>, messages: map<EventId, string>)
      requires Distinct(EventIds(events))
      ensures Collected(events, outcome, resultsMap, retryCounts, messages)
    {
      resultsMap, retryCounts, messages := [], map[], map[];
      for i := 0 to |events|
        invariant Collected(events[..i], outcome, resultsMap, retryCounts, messages)
      {
        var event := events[i];
        var result := ResultFor(outcome, event.id);
        assert events[..i + 1] == events[..i] + [event];
        assert forall j :: 0 <= j < i ==> events[..i][j].id == EventIds(events)[j] != EventIds(events)[i];
        CollectOneMore(events[..i], event, outcome, resultsMap, retryCounts, messages);
        resultsMap := MapSet(resultsMap, event.id, result);
        retryCounts := retryCounts[event.id := event.retryCount];
        if result.error.Some? {
          messages := messages[event.id := result.error.value];
        }
      }
      assert events[..|events|] == events;
    }

    /** From the publisher's outcome to the three groups and the error messages. */
    method SortBatch(events: seq<Event>, outcome: PublishOutcome)
      returns (grouped: BatchGroupingResult, messages: map<EventId, string>)
      requires Distinct(EventIds(events))
      ensures GroupedByDecision(events, outcome, maxRetries, grouped)
      ensures GroupedInOrder(events, outcome, maxRetries, grouped)
      ensures MessagesPerEvent(events, outcome, messages)
      ensures multiset(grouped.succeeded) + multiset(grouped.retried) + multiset(grouped.dlq)
        == multiset(EventIds(events))
    {
      var resultsMap, retryCounts, collected := CollectResults(events, outcome);
      messages := collected;
      grouped := GroupBatchResults(resultsMap, retryCounts, maxRetries);
      GroupsPartition(resultsMap, retryCounts, maxRetries);
      assert Keys(resultsMap) == EventIds(events);
      SortedByDecision(events, outcome, resultsMap, retryCounts, grouped);
      SelectFollowsTheBatch(events, outcome, resultsMap, retryCounts, maxRetries, Succeed);
      SelectFollowsTheBatch(events, outcome, resultsMap, retryCounts, maxRetries, Reschedule);
      SelectFollowsTheBatch(events, outcome, resultsMap, retryCounts, maxRetries, GiveUp);
      forall id | id in messages
        ensures id in EventIds(events)
      {
        var j :| 0 <= j < |events| && events[j].id == id;
        assert EventIds(events)[j] == id;
      }
      forall e, result | e in events && Answered(outcome, e.id, result)
        ensures MessageIs(messages, e.id, result.error)
      {
        var j :| 0 <= j < |events| && events[j] == e;
        assert result == ResultFor(outcome, e.id);
        assert MessageIs(messages, events[j].id, ResultFor(outcome, events[j].id).error);
      }
    }

    lemma SortedByDecision(events: seq<Event>, outcome: PublishOutcome, entries: Entries, retryCounts: map<EventId,
                           nat>,
                           grouped: BatchGroupingResult)
      requires Distinct(EventIds(events)) && |entries| == |events|
      requires forall j :: 0 <= j < |events| ==> entries[j] == (events[j].id, ResultFor(outcome, events[j].id))
      requires forall j :: 0 <= j < |events| ==>
        events[j].id in retryCounts && retryCounts[events[j].id] == events[j].retryCount
      requires grouped.succeeded == Select(entries, retryCounts, maxRetries, Succeed)
      requires grouped.retried == Select(entries, retryCounts, maxRetries, Reschedule)
      requires grouped.dlq == Select(entries, retryCounts, maxRetries, GiveUp)
      ensures GroupedByDecision(events, outcome, maxRetries, grouped)
    {
      forall d: Decision, id: EventId
        ensures id in Select(entries, retryCounts, maxRetries, d) <==>
          exists j :: 0 <= j < |events| && events[j].id == id && EventDecision(events[j], outcome, maxRetries) == d
      {
        SelectContains(entries, retryCounts, maxRetries, d, id);
        if j :| 0 <= j < |events| && events[j].id == id && EventDecision(events[j], outcome, maxRetries) == d {
          assert entries[j].0 == id && DecisionOf(entries[j], retryCounts, maxRetries) == d;
        }
        if i :| 0 <= i < |entries| && entries[i].0 == id && DecisionOf(entries[i], retryCounts, maxRetries) == d {
          assert EventDecision(events[i], outcome, maxRetries) == d;
        }
      }
      forall e, d: Decision | e in events
        ensures e.id in Select(entries, retryCounts, maxRetries, d) <==> EventDecision(e, outcome, maxRetries) == d
      {
        var k :| 0 <= k < |events| && events[k] == e;
        if j :| 0 <= j < |events| && events[j].id == e.id && EventDecision(events[j], outcome, maxRetries) == d {
          assert EventIds(events)[j] == EventIds(events)[k];
        }
      }
      forall id, d: Decision | id in Select(entries, retryCounts, maxRetries, d)
        ensures id in EventIds(events)
      {
        var j :| 0 <= j < |events| && events[j].id == id && EventDecision(events[j], outcome, maxRetries) == d;
        assert EventIds(events)[j] == id;
      }
    }

    ghost function WriteStatement(grouped: BatchGroupingResult, messages: map<EventId, string>,
                                  kind: WriteKind): Statement {
      match kind
      case SuccessWrite => MarkSucceeded(Elements(grouped.succeeded), workerId)
      case RetryWrite => ScheduleRetry(Elements(grouped.retried), messages, backoff)
      case DlqWrite => MoveToDlq(Elements(grouped.dlq), messages)
    }

    /** None of the group's rows has succeeded meanwhile. */
    ghost predicate StillOpen(rows: Rows, ids: seq<EventId>) {
      forall id :: id in ids && id in rows ==> rows[id].status != Succeeded
    }

    /** Sends one of the batch's writes; an empty group sends nothing. While the rows have not
        succeeded the database accepts it. */
    method SendWrite(grouped: BatchGroupingResult, messages: map<EventId, string>, kind: WriteKind, now: Millis)
      returns (ok: bool)
      modifies repository.pool
      ensures ok ==>
        Effected(old(repository.pool.rows), WriteStatement(grouped, messages, kind), now, repository.pool.rows)
      ensures !ok ==> repository.pool.rows == old(repository.pool.rows)
      ensures UniqueKeys(old(repository.pool.rows)) && StillOpen(old(repository.pool.rows), GroupOf(grouped, kind)) ==>
        ok && UniqueKeys(repository.pool.rows)
    {
      ghost var before, statement := repository.pool.rows, WriteStatement(grouped, messages, kind);
      match kind {
        case SuccessWrite =>
          var ids := grouped.succeeded;
          var results := seq(|ids|, i requires 0 <= i < |ids| => (ids[i], workerId));
          ok := repository.MarkSucceeded(results, now);
          forall id: EventId
            ensures WorkerFor(results, id) == if id in ids then Some(workerId) else None
          {
            OneWorkerForAll(results, ids, workerId, id);
          }
        case RetryWrite =>
          ok := repository.ScheduleRetry(grouped.retried, messages, backoff, now);
        case DlqWrite =>
          ok := repository.MoveToDLQ(grouped.dlq, messages, now);
      }
      if UniqueKeys(before) && StillOpen(before, GroupOf(grouped, kind)) {
        BatchWriteKeepsKeysUnique(before, statement, now);
        if ok {
          EffectIsApply(before, statement, now, repository.pool.rows);
        }
      }
    }

    ghost predicate AllWritten(before: Rows, after: Rows, grouped: BatchGroupingResult, messages: map<EventId, string>,
                               when: WriteKind -> Millis, landed: set<WriteKind>) {
      && after.Keys == before.Keys
      && forall id :: id in before ==>
           after[id] == Written(before[id], id, grouped, messages, workerId, backoff, when, landed)
    }

    /** The three writes, concurrently: `order` is the order in which they land, `when` the
        database's clock at each, `lost` the ones that fail on the way. While the batch's rows
        have not succeeded, exactly the writes that were not lost take effect. */
    method WriteBatch(grouped: BatchGroupingResult, messages: map<EventId, string>,
                      order: seq<WriteKind>, when: WriteKind -> Millis,
                      lost: set<WriteKind>) returns (landed: set<WriteKind>)
      requires Apart(grouped)
      requires Distinct(order)
      modifies repository.pool
      ensures landed <= Elements(order) - lost
      ensures UniqueKeys(old(repository.pool.rows)) && BatchOpen(grouped, old(repository.pool.rows)) ==>
        landed == Elements(order) - lost
      ensures AllWritten(old(repository.pool.rows), repository.pool.rows, grouped, messages, when, landed)
    {
      landed := {};
      for i := 0 to |order|
        invariant landed <= Elements(order[..i]) - lost
        invariant AllWritten(old(repository.pool.rows), repository.pool.rows, grouped, messages, when, landed)
        invariant UniqueKeys(old(repository.pool.rows)) && BatchOpen(grouped, old(repository.pool.rows)) ==>
          landed == Elements(order[..i]) - lost && UniqueKeys(repository.pool.rows)
      {
        var kind := order[i];
        assert kind !in Elements(order[..i]);
        assert Elements(order[..i + 1]) == Elements(order[..i]) + {kind};
        if kind !in lost {
          landed := WriteNext(grouped, messages, when, landed, kind, old(repository.pool.rows));
        }
      }
      assert order[..|order|] == order;
    }

    /** One more of the three writes. */
    method WriteNext(grouped: BatchGroupingResult, messages: map<EventId, string>, when: WriteKind -> Millis,
                     landed: set<WriteKind>, kind: WriteKind, ghost start: Rows) returns (more: set<WriteKind>)
      requires Apart(grouped) && kind !in landed
      requires AllWritten(start, repository.pool.rows, grouped, messages, when, landed)
      modifies repository.pool
      ensures more == landed || more == landed + {kind}
      ensures AllWritten(start, repository.pool.rows, grouped, messages, when, more)
      ensures UniqueKeys(old(repository.pool.rows)) && BatchOpen(grouped, start) ==>
        more == landed + {kind} && UniqueKeys(repository.pool.rows)
    {
      ghost var before := repository.pool.rows;
      var ok := SendWrite(grouped, messages, kind, when(kind));
      more := if ok then landed + {kind} else landed;
      OneMoreWritten(grouped, messages, when, landed, kind, start, before, repository.pool.rows, ok);
      if BatchOpen(grouped, start) {
        assert StillOpen(before, GroupOf(grouped, kind));
      }
    }

    lemma OneMoreWritten(grouped: BatchGroupingResult, messages: map<EventId, string>, when: WriteKind -> Millis,
                         landed: set<WriteKind>, kind: WriteKind, start: Rows, before: Rows, after: Rows, ok: bool)
      requires Apart(grouped) && kind !in landed && AllWritten(start, before, grouped, messages, when, landed)
      requires ok ==> Effected(before, WriteStatement(grouped, messages, kind), when(kind), after)
      requires !ok ==> after == before
      ensures AllWritten(start, after, grouped, messages, when, if ok then landed + {kind} else landed)
    {
    }

    ghost predicate BatchOpen(grouped: BatchGroupingResult, rows: Rows) {
      forall kind :: StillOpen(rows, GroupOf(grouped, kind))
    }

    /** What the writes that landed make of one event's row, from the publisher's result for it. */
    ghost predicate WrittenBack(before: Row, after: Row, e: Event, result: PublishResult, when: WriteKind -> Millis,
                                landed: set<WriteKind>) {
      if result.success then
        if SuccessWrite in landed then Succeeds(before, after, workerId, when(SuccessWrite)) else after == before
      else if result.retryable && e.retryCount < maxRetries then
        if RetryWrite in landed then Rescheduled(before, after, result.error, backoff, when(RetryWrite))
        else after == before
      else
        if DlqWrite in landed then DeadLettered(before, after, result.error, when(DlqWrite)) else after == before
    }

    /** Every event's row is written back by its own result; every other row is as it was. */
    ghost predicate AllWrittenBack(before: Rows, after: Rows, events: seq<Event>, outcome: PublishOutcome,
                                   when: WriteKind -> Millis, landed: set<WriteKind>) {
      && after.Keys == before.Keys
      && (forall id :: id in before && id !in EventIds(events) ==> after[id] == before[id])
      && (forall e, result :: e in events && e.id in before && Answered(outcome, e.id, result) ==>
            WrittenBack(before[e.id], after[e.id], e, result, when, landed))
    }

    lemma OwnWriteWritesBack(row: Row, e: Event, outcome: PublishOutcome, result: PublishResult,
                             when: WriteKind -> Millis, landed: set<WriteKind>)
      requires Answered(outcome, e.id, result)
      ensures var kind := KindOf(EventDecision(e, outcome, maxRetries));
        var after := if kind in landed then RowAfter(OwnWrite(e, outcome), e.id, row, when(kind)) else row;
        WrittenBack(row, after, e, result, when, landed)
    {
      assert result == ResultFor(outcome, e.id);
      if EventDecision(e, outcome, maxRetries) == Reschedule {
        RetryByColumns(row, e.id, {e.id}, OwnMessage(e.id, result.error), backoff, when(RetryWrite), result.error);
      }
    }

    lemma OneByOneWritesBack(before: Rows, after: Rows, events: seq<Event>, outcome: PublishOutcome,
                             when: WriteKind -> Millis, landed: set<WriteKind>)
      requires Distinct(EventIds(events)) && SameTable(after, OneByOne(before, events, outcome, when, landed))
      ensures AllWrittenBack(before, after, events, outcome, when, landed)
    {
      OneByOneKeepsKeys(before, events, outcome, when, landed);
      forall id | id in before && id !in EventIds(events)
        ensures after[id] == before[id]
      {
        assert forall j :: 0 <= j < |events| ==> events[j].id == EventIds(events)[j];
        OneByOneOthers(before, events, outcome, when, landed, id);
      }
      forall e, result | e in events && e.id in before && Answered(outcome, e.id, result)
        ensures WrittenBack(before[e.id], after[e.id], e, result, when, landed)
      {
        var k :| 0 <= k < |events| && events[k] == e;
        OneByOneRow(before, events, outcome, when, landed, k);
        OwnWriteWritesBack(before[e.id], e, outcome, result, when, landed);
      }
    }

    /** Publish, sort, write: whatever the publisher answered and in whatever order the writes
        land, the table ends as if the events whose write landed had been updated one by one,
        each with its own result and its own error text; the others are as they were claimed.
        While the batch still owns its rows, every write that was not lost takes effect. */
    method ExecuteBatchProcessing(events: seq<Event>, outcome: PublishOutcome,
                                  order: seq<WriteKind>, when: WriteKind -> Millis, lost: set<WriteKind>)
      returns (landed: set<WriteKind>)
      requires Distinct(EventIds(events)) && Distinct(order)
      modifies repository.pool
      ensures landed <= Elements(order) - lost
      ensures UniqueKeys(old(repository.pool.rows)) && Owned(events, old(repository.pool.rows)) ==>
        landed == Elements(order) - lost
      ensures SameTable(repository.pool.rows, OneByOne(old(repository.pool.rows), events, outcome, when, landed))
      ensures AllWrittenBack(old(repository.pool.rows), repository.pool.rows, events, outcome, when, landed)
    {
      ghost var before := repository.pool.rows;
      var grouped, messages := SortBatch(events, outcome);
      GroupsAreApart(events, outcome, grouped);
      OwnedIsOpen(events, outcome, grouped, before);
      landed := WriteBatch(grouped, messages, order, when, lost);
      OneByOneKeepsKeys(before, events, outcome, when, landed);
      forall id | id in before
        ensures repository.pool.rows[id] == OneByOne(before, events, outcome, when, landed)[id]
      {
        WrittenIsOneByOne(before, events, outcome, grouped, messages, when, landed, id);
      }
      OneByOneWritesBack(before, repository.pool.rows, events, outcome, when, landed);
    }

    /** The rows are as the claim left them. */
    ghost predicate Owned(events: seq<Event>, rows: Rows) {
      forall e :: e in events && e.id in rows ==> rows[e.id].status == Processing
    }

    lemma OwnedIsOpen(events: seq<Event>, outcome: PublishOutcome, grouped: BatchGroupingResult, rows: Rows)
      requires GroupedByDecision(events, outcome, maxRetries, grouped)
      ensures Owned(events, rows) ==> BatchOpen(grouped, rows)
    {
    }

    lemma GroupsAreApart(events: seq<Event>, outcome: PublishOutcome, grouped: BatchGroupingResult)
      requires GroupedByDecision(events, outcome, maxRetries, grouped)
      ensures Apart(grouped)
    {
    }

    /** The statement that would update this one event on its own. */
    ghost function OwnWrite(e: Event, outcome: PublishOutcome): Statement {
      match EventDecision(e, outcome, maxRetries)
      case Succeed => MarkSucceeded({e.id}, workerId)
      case Reschedule => ScheduleRetry({e.id}, OwnMessage(e.id, ResultFor(outcome, e.id).error), backoff)
      case GiveUp => MoveToDlq({e.id}, OwnMessage(e.id, ResultFor(outcome, e.id).error))
    }

    /** The simple form: one statement per event, in order, leaving out the kinds that never landed. */
    ghost function OneByOne(rows: Rows, events: seq<Event>, outcome: PublishOutcome,
                            when: WriteKind -> Millis, landed: set<WriteKind>): Rows {
      if events == [] then rows else
        var n := |events| - 1;
        var before := OneByOne(rows, events[..n], outcome, when, landed);
        var kind := KindOf(EventDecision(events[n], outcome, maxRetries));
        if kind in landed then Apply(before, OwnWrite(events[n], outcome), when(kind)) else before
    }

    lemma {:induction false} OneByOneKeepsKeys(rows: Rows, events: seq<Event>, outcome: PublishOutcome,
                                               when: WriteKind -> Millis, landed: set<WriteKind>)
      ensures OneByOne(rows, events, outcome, when, landed).Keys == rows.Keys
    {
      if events != [] {
        OneByOneKeepsKeys(rows, events[..|events| - 1], outcome, when, landed);
      }
    }

    lemma {:induction false} OneByOneOthers(rows: Rows, events: seq<Event>, outcome: PublishOutcome,
                                            when: WriteKind -> Millis, landed: set<WriteKind>, id: EventId)
      requires id in rows && forall j :: 0 <= j < |events| ==> events[j].id != id
      ensures id in OneByOne(rows, events, outcome, when, landed)
      ensures OneByOne(rows, events, outcome, when, landed)[id] == rows[id]
    {
      if events != [] {
        OneByOneOthers(rows, events[..|events| - 1], outcome, when, landed, id);
      }
    }

    lemma {:induction false} OneByOneRow(rows: Rows, events: seq<Event>, outcome: PublishOutcome,
                                         when: WriteKind -> Millis, landed: set<WriteKind>, k: nat)
      requires Distinct(EventIds(events)) && k < |events| && events[k].id in rows
      ensures events[k].id in OneByOne(rows, events, outcome, when, landed)
      ensures var kind := KindOf(EventDecision(events[k], outcome, maxRetries));
        OneByOne(rows, events, outcome, when, landed)[events[k].id] ==
          if kind in landed then RowAfter(OwnWrite(events[k], outcome), events[k].id, rows[events[k].id], when(kind))
          else rows[events[k].id]
    {
      var n := |events| - 1;
      var id := events[k].id;
      assert forall j :: 0 <= j < n ==> events[..n][j].id == EventIds(events)[j];
      assert EventIds(events)[k] == id && EventIds(events)[n] == events[n].id;
      if k == n {
        OneByOneOthers(rows, events[..n], outcome, when, landed, id);
      } else {
        assert Distinct(EventIds(events[..n])) by {
          assert forall j :: 0 <= j < n ==> EventIds(events[..n])[j] == EventIds(events)[j];
        }
        OneByOneRow(rows, events[..n], outcome, when, landed, k);
      }
    }

    /** On one event, the batch's writes do what its own write would do. */
    lemma WriteActsOnEventAlone(events: seq<Event>, outcome: PublishOutcome, grouped: BatchGroupingResult,
                                messages: map<EventId, string>, when: WriteKind -> Millis, landed: set<WriteKind>,
                                e: Event, row: Row)
      requires GroupedByDecision(events, outcome, maxRetries, grouped) && MessagesPerEvent(events, outcome, messages)
      requires e in events
      ensures var kind := KindOf(EventDecision(e, outcome, maxRetries));
        Written(row, e.id, grouped, messages, workerId, backoff, when, landed)
          == if kind in landed then RowAfter(OwnWrite(e, outcome), e.id, row, when(kind)) else row
    {
      assert Answered(outcome, e.id, ResultFor(outcome, e.id));
      assert MessageIs(messages, e.id, ResultFor(outcome, e.id).error);
    }

    lemma WrittenIsOneByOne(rows: Rows, events: seq<Event>, outcome: PublishOutcome, grouped: BatchGroupingResult,
                            messages: map<EventId, string>, when: WriteKind -> Millis, landed: set<WriteKind>,
                            id: EventId)
      requires Distinct(EventIds(events)) && id in rows
      requires GroupedByDecision(events, outcome, maxRetries, grouped) && MessagesPerEvent(events, outcome, messages)
      ensures id in OneByOne(rows, events, outcome, when, landed)
      ensures Written(rows[id], id, grouped, messages, workerId, backoff, when, landed)
        == OneByOne(rows, events, outcome, when, landed)[id]
    {
      if k :| 0 <= k < |events| && events[k].id == id {
        OneByOneRow(rows, events, outcome, when, landed, k);
        WriteActsOnEventAlone(events, outcome, grouped, messages, when, landed, events[k], rows[id]);
      } else {
        assert id !in EventIds(events);
        OneByOneOthers(rows, events, outcome, when, landed, id);
      }
    }

    /** Every claimed row was 'processing' from the instant of the claim and is written back by its own result;
        every other row is as it was. */
    ghost predicate ClaimedAndWrittenBack(before: Rows, after: Rows, events: seq<Event>, outcome: PublishOutcome,
                                          now: Millis, when: WriteKind -> Millis, landed: set<WriteKind>) {
      && after.Keys == before.Keys
      && (forall id :: id in before && id !in EventIds(events) ==> after[id] == before[id])
      && (forall e, result :: e in events && e.id in before && Answered(outcome, e.id, result) ==>
            WrittenBack(before[e.id].(status := Processing, processingStartedAt := Some(now)), after[e.id], e, result,
                        when, landed))
    }

    /** One turn of the poll loop with nothing else at the database: claim, publish, write. Every
        write that is not lost lands; every claimed row is settled by its own result; a row whose
        result asks for a retry its own limit forbids is left 'processing'; nothing else changes. */
    method PollOnce(batchSize: nat, now: Millis, locked: set<EventId>, publisher: seq<Event> -> PublishOutcome,
                    order: seq<WriteKind>, when: WriteKind -> Millis, lost: set<WriteKind>)
      returns (events: seq<Event>, landed: set<WriteKind>)
      requires UniqueKeys(repository.pool.rows) && Distinct(order)
      modifies repository.pool
      ensures var available := Available(old(repository.pool.rows), now, locked);
        && Elements(EventIds(events)) <= available && Distinct(EventIds(events))
        && |events| == (if batchSize < |available| then batchSize else |available|)
      ensures events != [] ==> landed == Elements(order) - lost
      ensures forall e :: e in events ==> IsRow(e, old(repository.pool.rows))
      ensures ClaimedAndWrittenBack(old(repository.pool.rows), repository.pool.rows, events, publisher(events), now,
                                    when, landed)
    {
      ghost var before := repository.pool.rows;
      events := repository.ClaimPendingEvents(batchSize, now, locked);
      landed := {};
      ghost var claimed := repository.pool.rows;
      assert Elements(EventIds(events)) <= Available(before, now, locked) by {
        assert forall i :: 0 <= i < |events| ==> EventIds(events)[i] == events[i].id;
      }
      if events != [] {
        ClaimedIsOwned(before, claimed, events, now);
        landed := ExecuteBatchProcessing(events, publisher(events), order, when, lost);
      }
      ClaimThenWriteBack(before, claimed, repository.pool.rows, events, batchSize, locked, publisher(events), now, when,
                         landed);
    }

    lemma ClaimThenWriteBack(before: Rows, claimed: Rows, after: Rows, events: seq<Event>, batchSize: nat,
                             locked: set<EventId>, outcome: PublishOutcome, now: Millis, when: WriteKind -> Millis,
                             landed: set<WriteKind>)
      requires OldestClaimed(before, claimed, EventIds(events), batchSize, locked, now)
      requires events == [] ==> after == claimed
      requires events != [] ==> AllWrittenBack(claimed, after, events, outcome, when, landed)
      ensures ClaimedAndWrittenBack(before, after, events, outcome, now, when, landed)
    {
      forall e | e in events
        ensures e.id in EventIds(events)
      {
        var j :| 0 <= j < |events| && events[j] == e;
        assert EventIds(events)[j] == e.id;
      }
    }

    lemma ClaimedIsOwned(before: Rows, claimed: Rows, events: seq<Event>, now: Millis)
      requires Effected(before, Claim(Elements(EventIds(events))), now, claimed)
      requires forall id :: id in EventIds(events) ==> id in before && Eligible(before[id], now)
      ensures Owned(events, claimed)
    {
      forall e | e in events && e.id in claimed
        ensures claimed[e.id].status == Processing
      {
        var j :| 0 <= j < |events| && events[j] == e;
        assert EventIds(events)[j] in Elements(EventIds(events));
      }
    }

    /** The statements of a batch are those the protocol attributes to its flight. */
    lemma SendsTheProtocolsWrites(cfg: Config, flight: Flight, events: seq<Event>, outcome: PublishOutcome,
                                  results: map<EventId, PublishResult>, grouped: BatchGroupingResult,
                                  messages: map<EventId, string>)
      requires cfg.maxRetries == maxRetries && cfg.backoff == backoff
      requires flight.attempts.Keys == results.Keys == Elements(EventIds(events))
      requires forall e :: e in events ==>
        e.id in results && flight.attempts[e.id] == e.retryCount && results[e.id] == ResultFor(outcome, e.id)
      requires GroupedByDecision(events, outcome, maxRetries, grouped) && MessagesPerEvent(events, outcome, messages)
      ensures MessagesOf(results, messages)
      ensures forall kind ::
        WriteStatement(grouped, messages, kind) == WriteOf(cfg, Decided(cfg, flight, workerId, results, messages), kind)
    {
      forall id | id in results
        ensures MessageIs(messages, id, results[id].error)
      {
        var j :| 0 <= j < |events| && EventIds(events)[j] == id;
        assert events[j] in events && Answered(outcome, id, results[id]);
      }
    }
  }

  function GroupOf(grouped: BatchGroupingResult, kind: WriteKind): seq<EventId> {
    match kind
    case SuccessWrite => grouped.succeeded
    case RetryWrite => grouped.retried
    case DlqWrite => grouped.dlq
  }

  ghost predicate SameTable(a: Rows, b: Rows) {
    a.Keys == b.Keys && forall id :: id in a ==> a[id] == b[id]
  }

  ghost function KindOf(d: Decision): WriteKind {
    match d
    case Succeed => SuccessWrite
    case Reschedule => RetryWrite
    case GiveUp => DlqWrite
  }
}
