/** The worker's PostgreSQL repository: batch updates built as one statement with numbered
    parameters and a CASE expression over them. */
module PgEventRepository {
  import opened Common
  import opened OutboxTable

  /** An event as a worker receives it. */
  datatype Event = Event(id: EventId, data: EventData, retryCount: nat)

  datatype Param = IdParam(id: EventId) | TextParam(text: string) | NumberParam(number: real)

  /** WHEN $when THEN $result, both numbered from 1. */
  datatype Branch = Branch(when_: nat, result: nat)

  /** CASE id WHEN ... END: the result of the first matching branch, NULL if there is none. */
  function EvalCase(branches: seq<Branch>, params: seq<Param>, id: EventId): Option<string> {
    if branches == [] then None else
      var b := branches[0];
      if 1 <= b.when_ <= |params| && params[b.when_ - 1] == IdParam(id) then
        if 1 <= b.result <= |params| && params[b.result - 1].TextParam? then Some(params[b.result - 1].text) else None
      else EvalCase(branches[1..], params, id)
  }

  /** The branch list that pairs parameter i with parameter n + i. */
  ghost predicate PairsUp(branches: seq<Branch>, n: nat) {
    |branches| == n && forall i :: 0 <= i < n ==> branches[i] == Branch(i + 1, n + i + 1)
  }

  ghost predicate Carries(params: seq<Param>, ids: seq<EventId>, texts: seq<string>) {
    && |texts| == |ids| && 2 * |ids| <= |params|
    && forall i :: 0 <= i < |ids| ==> params[i] == IdParam(ids[i]) && params[|ids| + i] == TextParam(texts[i])
  }

  /** The CASE gives each event the text that was pushed for its first occurrence. */
  lemma {:induction false} CaseFindsText(branches: seq<Branch>, params: seq<Param>, ids: seq<EventId>,
                                         texts: seq<string>,
                                         from: nat, at: nat)
    requires PairsUp(branches, |ids|) && Carries(params, ids, texts)
    requires from <= at < |ids|
    requires forall i :: from <= i < at ==> ids[i] != ids[at]
    ensures EvalCase(branches[from..], params, ids[at]) == Some(texts[at])
    decreases at - from
  {
    assert branches[from..][0] == branches[from];
    if from < at {
      assert branches[from..][1..] == branches[from + 1..];
      CaseFindsText(branches, params, ids, texts, from + 1, at);
    }
  }

  lemma {:induction false} FirstOccurrence(ids: seq<EventId>, id: EventId) returns (at: nat)
    requires id in ids
    ensures at < |ids| && ids[at] == id && forall i :: 0 <= i < at ==> ids[i] != id
  {
    if ids[0] == id {
      at := 0;
    } else {
      at := FirstOccurrence(ids[1..], id);
      at := at + 1;
    }
  }

  ghost function StoredTexts(ids: seq<EventId>, messages: map<EventId, string>): seq<string> {
    seq(|ids|, i requires 0 <= i < |ids| => StoredError(messages, ids[i]))
  }

  lemma CaseGivesStoredErrors(branches: seq<Branch>, params: seq<Param>, ids: seq<EventId>, messages: map<EventId,
                              string>)
    requires PairsUp(branches, |ids|) && Carries(params, ids, StoredTexts(ids, messages))
    ensures forall id :: id in ids ==> EvalCase(branches, params, id) == Some(StoredError(messages, id))
    ensures forall id, message :: id in ids && MessageIs(messages, id, message) ==>
      KeepsError(EvalCase(branches, params, id), message)
  {
    forall id | id in ids
      ensures EvalCase(branches, params, id) == Some(StoredError(messages, id))
    {
      var at := FirstOccurrence(ids, id);
      assert branches[0..] == branches;
      CaseFindsText(branches, params, ids, StoredTexts(ids, messages), 0, at);
    }
  }

  /** The statement changed the table to `after`, row by row. */
  ghost predicate Effected(before: Rows, statement: Statement, now: Millis, after: Rows) {
    after.Keys == before.Keys && forall id :: id in before ==> after[id] == RowAfter(statement, id, before[id], now)
  }

  /** The index accepts the changed table exactly if it accepts the statement. */
  lemma EffectIsApply(before: Rows, statement: Statement, now: Millis, after: Rows)
    requires Effected(before, statement, now, after) && !statement.Insert?
    ensures UniqueKeys(after) <==> UniqueKeys(Apply(before, statement, now))
  {
    RowsPersist(before, statement, now);
    UniqueKeysByRow(after, Apply(before, statement, now));
  }

  ghost predicate IsRow(event: Event, rows: Rows) {
    event.id in rows && event.data == rows[event.id].data && event.retryCount == rows[event.id].retryCount
  }

  lemma ClaimKeepsKeysUnique(before: Rows, ids: set<EventId>, now: Millis, after: Rows)
    requires UniqueKeys(before) && Effected(before, Claim(ids), now, after)
    ensures UniqueKeys(after)
  {
  }

  /** RETURNING *, mapped to events. */
  function MapRows(rows: Rows, ids: seq<EventId>): (events: seq<Event>)
    requires forall i :: 0 <= i < |ids| ==> ids[i] in rows
    ensures EventIds(events) == ids
    ensures forall i :: 0 <= i < |events| ==> IsRow(events[i], rows)
  {
    seq(|ids|, i requires 0 <= i < |ids| => Event(ids[i], rows[ids[i]].data, rows[ids[i]].retryCount))
  }

  /** What an event is published with was the same before the claim. */
  lemma ClaimReturnsOldValues(before: Rows, ids: seq<EventId>, now: Millis, after: Rows, events: seq<Event>)
    requires Effected(before, Claim(Elements(ids)), now, after)
    requires forall i :: 0 <= i < |events| ==> IsRow(events[i], after)
    ensures forall i :: 0 <= i < |events| ==> IsRow(events[i], before)
  {
  }

  /** Rows the claim may take: eligible and not locked by another transaction. */
  ghost function Available(rows: Rows, now: Millis, locked: set<EventId>): set<EventId> {
    set id | id in rows && id !in locked && Eligible(rows[id], now)
  }

  /** No row of the second set was created before one of the first. */
  ghost predicate NoOlder(rows: Rows, first: set<EventId>, second: set<EventId>) {
    forall i, j :: i in first && j in second && i in rows && j in rows ==> rows[i].createdAt <= rows[j].createdAt
  }

  /** A claim of up to batchSize of the available rows: the oldest, each once, with their stored values. */
  ghost predicate ClaimOutcome(rows: Rows, now: Millis, locked: set<EventId>, batchSize: nat, events: seq<Event>) {
    var available := Available(rows, now, locked);
    && Distinct(EventIds(events))
    && |events| == (if batchSize < |available| then batchSize else |available|)
    && (forall i :: 0 <= i < |events| ==> events[i].id in available && IsRow(events[i], rows))
    && NoOlder(rows, Elements(EventIds(events)), available - Elements(EventIds(events)))
  }

  /** How a claim's size compares with the count. */
  ghost predicate CountBounds(rows: Rows, now: Millis, count: nat, locked: set<EventId>, batchSize: nat,
                              events: seq<Event>) {
    && |events| <= count
    && (locked == {} ==> |events| == if batchSize < count then batchSize else count)
    && (locked == {} && batchSize >= count ==> Elements(EventIds(events)) == Available(rows, now, {}))
  }

  ghost predicate CountsClaims(rows: Rows, now: Millis, count: nat) {
    forall locked, batchSize, events :: ClaimOutcome(rows, now, locked, batchSize, events) ==>
      CountBounds(rows, now, count, locked, batchSize, events)
  }

  /** No claim returns more events than the count; an unlocked claim returns as many as its batch
      size allows, and with a batch size of at least the count exactly the counted rows. */
  lemma CountPredictsClaim(rows: Rows, now: Millis, locked: set<EventId>, batchSize: nat, events: seq<Event>)
    requires ClaimOutcome(rows, now, locked, batchSize, events)
    ensures CountBounds(rows, now, |Available(rows, now, {})|, locked, batchSize, events)
  {
    var ids, all := EventIds(events), Available(rows, now, {});
    assert Elements(ids) <= all by {
      assert forall i :: 0 <= i < |events| ==> ids[i] == events[i].id;
    }
    DistinctFills(ids, all);
  }

  /** ids are the oldest rows of all, each once; left are the others. */
  ghost predicate Taken(rows: Rows, ids: seq<EventId>, left: set<EventId>, all: set<EventId>) {
    && left <= all && Distinct(ids) && Elements(ids) == all - left && |ids| + |left| == |all|
    && NoOlder(rows, Elements(ids), left)
  }

  lemma TakenNext(rows: Rows, ids: seq<EventId>, left: set<EventId>, all: set<EventId>, oldest: EventId)
    requires Taken(rows, ids, left, all) && all <= rows.Keys && oldest in left
    requires forall id :: id in left ==> rows[oldest].createdAt <= rows[id].createdAt
    ensures Taken(rows, ids + [oldest], left - {oldest}, all)
  {
    assert oldest !in Elements(ids);
    assert Elements(ids + [oldest]) == Elements(ids) + {oldest};
  }

  function WorkerFor(results: seq<(EventId, string)>, id: EventId): Option<string> {
    if results == [] then None
    else if results[0].0 == id then Some(results[0].1)
    else WorkerFor(results[1..], id)
  }

  lemma {:induction false} WorkerOfFirst(results: seq<(EventId, string)>, at: nat)
    requires at < |results| && forall i :: 0 <= i < at ==> results[i].0 != results[at].0
    ensures WorkerFor(results, results[at].0) == Some(results[at].1)
  {
    if at > 0 {
      WorkerOfFirst(results[1..], at - 1);
    }
  }

  lemma {:induction false} WorkerOfNone(results: seq<(EventId, string)>, id: EventId)
    requires forall i :: 0 <= i < |results| ==> results[i].0 != id
    ensures WorkerFor(results, id).None?
  {
    if results != [] {
      WorkerOfNone(results[1..], id);
    }
  }

  function Credit(row: Row, workerId: Option<string>, now: Millis): Row {
    if workerId.Some? then row.(status := Succeeded, processedAt := Some(now), processedByWorker := workerId) else row
  }

  /** Every listed event is 'succeeded' by its own worker, every other row is as before. */
  ghost predicate Credited(before: Rows, results: seq<(EventId, string)>, now: Millis, after: Rows) {
    && after.Keys == before.Keys
    && forall id :: id in before ==> after[id] == Credit(before[id], WorkerFor(results, id), now)
  }

  // What the statements do to a row, on its columns.

  /** A claim may take the row. */
  ghost predicate Due(row: Row, now: Millis) {
    && (row.status == Pending || row.status == Failed) && row.deletedAt == None
    && (row.nextRetryAt.Some? ==> now >= row.nextRetryAt.value)
  }

  ghost function DueIds(rows: Rows, now: Millis): set<EventId> {
    set id | id in rows && Due(rows[id], now)
  }

  /** The text kept of an event's message: the first 1000 characters, or 'Unknown error' without a message. */
  ghost predicate KeepsError(stored: Option<string>, message: Option<string>) {
    var text := if message.Some? then message.value else "Unknown error";
    stored == Some(if |text| <= 1000 then text else text[..1000])
  }

  ghost predicate MessageIs(messages: map<EventId, string>, id: EventId, message: Option<string>) {
    if message.Some? then id in messages && messages[id] == message.value else id !in messages
  }

  /** The row failed at the given instant, with a retry left, and waits base * multiplier ^ (retries so far). */
  ghost predicate Rescheduled(before: Row, after: Row, message: Option<string>, config: Backoff, now: Millis) {
    if before.retryCount >= before.maxRetries then after == before else
      && after == before.(status := Failed, retryCount := before.retryCount + 1, lastError := after.lastError,
                          nextRetryAt := Some(now + config.baseMs * Pow(config.multiplier, before.retryCount)))
      && KeepsError(after.lastError, message)
  }

  ghost predicate DeadLettered(before: Row, after: Row, message: Option<string>, now: Millis) {
    && after == before.(status := Dlq, lastError := after.lastError, processedAt := Some(now))
    && KeepsError(after.lastError, message)
  }

  ghost predicate Succeeds(before: Row, after: Row, workerId: string, now: Millis) {
    after == before.(status := Succeeded, processedAt := Some(now), processedByWorker := Some(workerId))
  }

  /** Each listed event is rescheduled with its own message, and no other row changes. */
  ghost predicate AllRescheduled(before: Rows, after: Rows, ids: seq<EventId>, messages: map<EventId, string>,
                                 config: Backoff, now: Millis) {
    && after.Keys == before.Keys
    && forall id, message :: id in before && MessageIs(messages, id, message) ==>
         if id in ids then Rescheduled(before[id], after[id], message, config, now) else after[id] == before[id]
  }

  ghost predicate AllDeadLettered(before: Rows, after: Rows, ids: seq<EventId>, messages: map<EventId, string>,
                                  now: Millis) {
    && after.Keys == before.Keys
    && forall id, message :: id in before && MessageIs(messages, id, message) ==>
         if id in ids then DeadLettered(before[id], after[id], message, now) else after[id] == before[id]
  }

  /** Each listed event succeeds, credited to the worker listed first for it, and no other row changes. */
  ghost predicate AllSucceeded(before: Rows, after: Rows, results: seq<(EventId, string)>, now: Millis) {
    && after.Keys == before.Keys
    && (forall id :: id in before && (forall i :: 0 <= i < |results| ==> results[i].0 != id) ==>
          after[id] == before[id])
    && forall at :: 0 <= at < |results| && results[at].0 in before
                    && (forall i :: 0 <= i < at ==> results[i].0 != results[at].0) ==>
         Succeeds(before[results[at].0], after[results[at].0], results[at].1, now)
  }

  /** The listed rows are due and not locked, the oldest such rows, as many as the batch takes; they are
      'processing' since this instant, and no other row changes. */
  ghost predicate OldestClaimed(before: Rows, after: Rows, ids: seq<EventId>, batchSize: nat, locked: set<EventId>,
                                now: Millis) {
    && |ids| <= batchSize && after.Keys == before.Keys
    && (forall id :: id in ids ==> id in before && Due(before[id], now) && id !in locked)
    && (forall id :: id in before && Due(before[id], now) && id !in locked && id !in ids ==>
          |ids| == batchSize && forall i :: i in ids ==> before[i].createdAt <= before[id].createdAt)
    && (forall id :: id in before ==> after[id] == if id in ids
          then before[id].(status := Processing, processingStartedAt := Some(now))
          else before[id])
  }

  lemma DelayIsGeometric(config: Backoff, retryCount: nat)
    ensures Delay(config, retryCount) == config.baseMs * Pow(config.multiplier, retryCount)
  {
  }

  lemma RetryByColumns(row: Row, id: EventId, ids: set<EventId>, messages: map<EventId, string>, config: Backoff,
                       now: Millis, message: Option<string>)
    requires id in ids && MessageIs(messages, id, message)
    ensures Rescheduled(row, RowAfter(ScheduleRetry(ids, messages, config), id, row, now), message, config, now)
  {
    var delay := Delay(config, row.retryCount);
    DelayIsGeometric(config, row.retryCount);
    var after := RowAfter(ScheduleRetry(ids, messages, config), id, row, now);
    assert row.retryCount < row.maxRetries ==> after.nextRetryAt == Some(now + delay);
  }

  lemma EffectedReschedules(before: Rows, after: Rows, ids: seq<EventId>, messages: map<EventId, string>,
                            config: Backoff, now: Millis)
    requires Effected(before, ScheduleRetry(Elements(ids), messages, config), now, after)
    ensures AllRescheduled(before, after, ids, messages, config, now)
  {
    forall id, message | id in before && MessageIs(messages, id, message)
      ensures if id in ids then Rescheduled(before[id], after[id], message, config, now) else after[id] == before[id]
    {
      if id in ids {
        RetryByColumns(before[id], id, Elements(ids), messages, config, now, message);
      }
    }
  }

  lemma EffectedDeadLetters(before: Rows, after: Rows, ids: seq<EventId>, messages: map<EventId, string>, now: Millis)
    requires Effected(before, MoveToDlq(Elements(ids), messages), now, after)
    ensures AllDeadLettered(before, after, ids, messages, now)
  {
  }

  lemma CreditedSucceeds(before: Rows, after: Rows, results: seq<(EventId, string)>, now: Millis)
    requires Credited(before, results, now, after)
    ensures AllSucceeded(before, after, results, now)
  {
    forall id | id in before && forall i :: 0 <= i < |results| ==> results[i].0 != id
      ensures after[id] == before[id]
    {
      WorkerOfNone(results, id);
    }
    forall at | 0 <= at < |results| && results[at].0 in before
                && forall i :: 0 <= i < at ==> results[i].0 != results[at].0
      ensures Succeeds(before[results[at].0], after[results[at].0], results[at].1, now)
    {
      WorkerOfFirst(results, at);
    }
  }

  lemma EffectedClaims(before: Rows, after: Rows, events: seq<Event>, batchSize: nat, locked: set<EventId>, now: Millis)
    requires ClaimOutcome(before, now, locked, batchSize, events)
    requires Effected(before, Claim(Elements(EventIds(events))), now, after)
    ensures OldestClaimed(before, after, EventIds(events), batchSize, locked, now)
  {
    var ids, available := EventIds(events), Available(before, now, locked);
    assert forall i :: 0 <= i < |events| ==> ids[i] == events[i].id;
    assert Elements(ids) <= available;
    DistinctFills(ids, available);
  }

  /** The database server, as far as outbox_events goes. Every query is told NOW(). */
  class OutboxDatabase {
    var rows: Rows

    /** Commits a statement's result unless it breaks the unique index. */
    method Commit(next: Rows) returns (ok: bool)
      modifies this
      ensures ok == UniqueKeys(next)
      ensures rows == if ok then next else old(rows)
    {
      ok := UniqueKeys(next);
      if ok {
        rows := next;
      }
    }

    /** SELECT id ... ORDER BY created_at LIMIT ... FOR UPDATE SKIP LOCKED */
    method SelectOldest(limit: nat, now: Millis, locked: set<EventId>) returns (ids: seq<EventId>)
      ensures Distinct(ids) && Elements(ids) <= Available(rows, now, locked)
      ensures |ids| == if limit < |Available(rows, now, locked)| then limit else |Available(rows, now, locked)|
      ensures NoOlder(rows, Elements(ids), Available(rows, now, locked) - Elements(ids))
    {
      ids := [];
      var left := set id | id in rows && id !in locked && Eligible(rows[id], now);
      ghost var all := left;
      while |ids| < limit && left != {}
        invariant all == Available(rows, now, locked) && |ids| <= limit
        invariant Taken(rows, ids, left, all)
        decreases |left|
      {
        var oldest := Oldest(left);
        TakenNext(rows, ids, left, all, oldest);
        ids := ids + [oldest];
        left := left - {oldest};
      }
    }

    method Oldest(candidates: set<EventId>) returns (oldest: EventId)
      requires candidates != {} && candidates <= rows.Keys
      ensures oldest in candidates
      ensures forall id :: id in candidates ==> rows[oldest].createdAt <= rows[id].createdAt
    {
      oldest :| oldest in candidates;
      var left := candidates - {oldest};
      while left != {}
        invariant left <= candidates && oldest in candidates
        invariant forall id :: id in candidates - left ==> rows[oldest].createdAt <= rows[id].createdAt
        decreases |left|
      {
        var next :| next in left;
        if rows[next].createdAt < rows[oldest].createdAt {
          oldest := next;
        }
        left := left - {next};
      }
    }
  }

  class PgEventRepository {
    const pool: OutboxDatabase

    constructor (pool: OutboxDatabase)
      ensures this.pool == pool
    {
      this.pool := pool;
    }

    /** Claims the oldest available events, all in one statement; the events returned are the rows claimed. */
    method ClaimPendingEvents(batchSize: nat, now: Millis, locked: set<EventId>) returns (events: seq<Event>)
      requires UniqueKeys(pool.rows)
      modifies pool
      ensures ClaimOutcome(old(pool.rows), now, locked, batchSize, events)
      ensures Effected(old(pool.rows), Claim(Elements(EventIds(events))), now, pool.rows)
      ensures OldestClaimed(old(pool.rows), pool.rows, EventIds(events), batchSize, locked, now)
      ensures UniqueKeys(pool.rows)
    {
      var ids := pool.SelectOldest(batchSize, now, locked);
      ghost var before := pool.rows;
      var next := map id | id in pool.rows ::
        if id in ids then pool.rows[id].(status := Processing, processingStartedAt := Some(now)) else pool.rows[id];
      assert Effected(before, Claim(Elements(ids)), now, next);
      ClaimKeepsKeysUnique(before, Elements(ids), now, next);
      var ok := pool.Commit(next);
      assert ok && forall i :: 0 <= i < |ids| ==> ids[i] in Elements(ids);
      events := MapRows(pool.rows, ids);
      ClaimReturnsOldValues(before, ids, now, pool.rows, events);
      EffectedClaims(before, pool.rows, events, batchSize, locked, now);
    }

    /** SELECT COUNT(*): what a claim at the same instant can at most return, and does return if
        its batch is large enough and nothing is locked. */
    method GetPendingEventCount(now: Millis) returns (count: nat)
      ensures count == |Available(pool.rows, now, {})|
      ensures count == |DueIds(pool.rows, now)|
      ensures CountsClaims(pool.rows, now, count)
    {
      var eligible := set id | id in pool.rows && Eligible(pool.rows[id], now);
      assert eligible == Available(pool.rows, now, {});
      assert eligible == DueIds(pool.rows, now);
      count := |eligible|;
      forall locked, batchSize, events | ClaimOutcome(pool.rows, now, locked, batchSize, events)
        ensures CountBounds(pool.rows, now, count, locked, batchSize, events)
      {
        CountPredictsClaim(pool.rows, now, locked, batchSize, events);
      }
    }

    /** UPDATE ... SET status = 'succeeded', processed_by_worker = CASE id ... END WHERE id IN (...) */
    method MarkSucceeded(results: seq<(EventId, string)>, now: Millis) returns (ok: bool)
      modifies pool
      ensures results == [] ==> ok
      ensures ok ==> Credited(old(pool.rows), results, now, pool.rows)
      ensures ok ==> AllSucceeded(old(pool.rows), pool.rows, results, now)
      ensures !ok ==> pool.rows == old(pool.rows)
      ensures UniqueKeys(old(pool.rows)) ==> ok
    {
      if results == [] {
        CreditedSucceeds(pool.rows, pool.rows, results, now);
        return true;
      }
      var eventIds := seq(|results|, i requires 0 <= i < |results| => results[i].0);
      ghost var workers := seq(|results|, i requires 0 <= i < |results| => results[i].1);
      var params := seq(|eventIds|, i requires 0 <= i < |eventIds| => IdParam(eventIds[i]));
      var branches: seq<Branch> := [];
      for i := 0 to |results|
        invariant |branches| == i && |params| == |results| + i
        invariant forall j :: 0 <= j < |results| ==> params[j] == IdParam(eventIds[j])
        invariant forall j :: 0 <= j < i ==> params[|results| + j] == TextParam(workers[j])
        invariant forall j :: 0 <= j < i ==> branches[j] == Branch(j + 1, |results| + j + 1)
      {
        params := params + [TextParam(results[i].1)];
        branches := branches + [Branch(i + 1, |eventIds| + i + 1)];
      }
      assert PairsUp(branches, |eventIds|) && Carries(params, eventIds, workers);
      var rows := pool.rows;
      var next := map id | id in rows ::
        if id in eventIds
        then rows[id].(
          status := Succeeded, processedAt := Some(now), processedByWorker := EvalCase(branches, params, id))
        else rows[id];
      forall id: EventId
        ensures if id in eventIds then EvalCase(branches, params, id)
          == WorkerFor(results, id) && WorkerFor(results, id).Some?
                else WorkerFor(results, id).None?
      {
        assert forall i :: 0 <= i < |results| ==> eventIds[i] == results[i].0;
        if id in eventIds {
          var at := FirstOccurrence(eventIds, id);
          assert branches[0..] == branches;
          CaseFindsText(branches, params, eventIds, workers, 0, at);
          WorkerOfFirst(results, at);
        } else {
          WorkerOfNone(results, id);
        }
      }
      assert Credited(rows, results, now, next);
      CreditedSucceeds(rows, next, results, now);
      ok := pool.Commit(next);
    }

    /** The parameters and CASE branches that give each event its stored error text. */
    method BuildErrorCase(eventIds: seq<EventId>, messages: map<EventId, string>)
      returns (params: seq<Param>, branches: seq<Branch>)
      ensures |params| == 2 * |eventIds|
      ensures PairsUp(branches, |eventIds|) && Carries(params, eventIds, StoredTexts(eventIds, messages))
    {
      params := seq(|eventIds|, i requires 0 <= i < |eventIds| => IdParam(eventIds[i]));
      branches := [];
      ghost var texts := StoredTexts(eventIds, messages);
      for i := 0 to |eventIds|
        invariant |branches| == i && |params| == |eventIds| + i
        invariant forall j :: 0 <= j < |eventIds| ==> params[j] == IdParam(eventIds[j])
        invariant forall j :: 0 <= j < i ==> params[|eventIds| + j] == TextParam(texts[j])
        invariant forall j :: 0 <= j < i ==> branches[j] == Branch(j + 1, |eventIds| + j + 1)
      {
        params := params + [TextParam(StoredError(messages, eventIds[i]))];
        branches := branches + [Branch(i + 1, |eventIds| + i + 1)];
      }
    }

    /** UPDATE ... SET status = 'failed', retry_count = retry_count + 1, ... WHERE id IN (...) AND retry_count <
        max_retries */
    method ScheduleRetry(eventIds: seq<EventId>, messages: map<EventId, string>, config: Backoff, now: Millis)
      returns (ok: bool)
      modifies pool
      ensures var statement := OutboxTable.ScheduleRetry(Elements(eventIds), messages, config);
        && (ok <==> eventIds == [] || UniqueKeys(Apply(old(pool.rows), statement, now)))
        && (ok ==> Effected(old(pool.rows), statement, now, pool.rows))
      ensures !ok ==> pool.rows == old(pool.rows)
      ensures ok ==> AllRescheduled(old(pool.rows), pool.rows, eventIds, messages, config, now)
    {
      if eventIds == [] {
        return true;
      }
      var params, branches := BuildErrorCase(eventIds, messages);
      var baseIdx := |params| + 1;
      var multIdx := |params| + 2;
      params := params + [NumberParam(config.baseMs), NumberParam(config.multiplier)];
      CaseGivesStoredErrors(branches, params, eventIds, messages);
      var bound := Backoff(params[baseIdx - 1].number, params[multIdx - 1].number);
      assert bound == config;
      var rows := pool.rows;
      var next := map id | id in rows ::
        if id in eventIds && rows[id].retryCount < rows[id].maxRetries
        then rows[id].(
          status := Failed, retryCount := rows[id].retryCount + 1, lastError := EvalCase(branches, params, id),
          nextRetryAt := Some(now + Delay(bound, rows[id].retryCount)))
        else rows[id];
      forall id | id in rows
        ensures next[id] == RowAfter(OutboxTable.ScheduleRetry(Elements(eventIds), messages, config), id, rows[id], now)
      {
        assert id in Elements(eventIds) <==> id in eventIds;
      }
      EffectIsApply(rows, OutboxTable.ScheduleRetry(Elements(eventIds), messages, config), now, next);
      EffectedReschedules(rows, next, eventIds, messages, config, now);
      ok := pool.Commit(next);
    }

    /** UPDATE ... SET status = 'dlq', last_error = CASE id ... END, processed_at = NOW() WHERE id IN (...) */
    method MoveToDLQ(eventIds: seq<EventId>, messages: map<EventId, string>, now: Millis) returns (ok: bool)
      modifies pool
      ensures var statement := MoveToDlq(Elements(eventIds), messages);
        && (ok <==> eventIds == [] || UniqueKeys(Apply(old(pool.rows), statement, now)))
        && (ok ==> Effected(old(pool.rows), statement, now, pool.rows))
      ensures !ok ==> pool.rows == old(pool.rows)
      ensures ok ==> AllDeadLettered(old(pool.rows), pool.rows, eventIds, messages, now)
    {
      if eventIds == [] {
        return true;
      }
      var params, branches := BuildErrorCase(eventIds, messages);
      CaseGivesStoredErrors(branches, params, eventIds, messages);
      var rows := pool.rows;
      var next := map id | id in rows ::
        if id in eventIds
        then rows[id].(status := Dlq, lastError := EvalCase(branches, params, id), processedAt := Some(now))
        else rows[id];
      assert Effected(rows, MoveToDlq(Elements(eventIds), messages), now, next);
      EffectIsApply(rows, MoveToDlq(Elements(eventIds), messages), now, next);
      EffectedDeadLetters(rows, next, eventIds, messages, now);
      ok := pool.Commit(next);
    }
  }

  function EventIds(events: seq<Event>): (ids: seq<EventId>)
    ensures |ids| == |events|
  {
    seq(|events|, i requires 0 <= i < |events| => events[i].id)
  }
}
