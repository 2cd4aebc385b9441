/** The outbox_events table on PostgreSQL: its rows, and what each SQL statement that the
    program issues does to them. A statement is one atomic step: its WHERE clause is
    `Hits`, its SET clause is `Changed`, and every right-hand side reads the old row. */
module OutboxTable {
  import opened Common

  /** A uuid, of which only equality is used. */
  type EventId = nat

  /** Instants and delays, in milliseconds. */
  type Millis = real

  datatype Status = Pending | Processing | Succeeded | Failed | Dlq | Cancelled

  /** The columns written once, at insertion, and handed to the publisher. */
  datatype EventData = EventData(destinationUrl: string, aggregateType: string, aggregateId: string, eventType: string)

  datatype Row = Row(
    data: EventData,
    idempotencyKey: Option<string>,
    status: Status,
    retryCount: nat,
    maxRetries: int,
    nextRetryAt: Option<Millis>,
    lastError: Option<string>,
    createdAt: Millis,
    processingStartedAt: Option<Millis>,
    processedAt: Option<Millis>,
    processedByWorker: Option<string>,
    deletedAt: Option<Millis>)

  type Rows = map<EventId, Row>

  datatype Backoff = Backoff(baseMs: real, multiplier: real)

  datatype Statement =
    | Insert(id: EventId, data: EventData, key: Option<string>, maxRetries: int)
    | Claim(claimed: set<EventId>)
    | MarkSucceeded(delivered: set<EventId>, workerId: string)
    | ScheduleRetry(retried: set<EventId>, messages: map<EventId, string>, backoff: Backoff)
    | MoveToDlq(dead: set<EventId>, messages: map<EventId, string>)
    | RecoverStale(thresholdMs: Millis)
    | ReplayOne(id: EventId)
    | ReplayRows(replayed: set<EventId>)
    | ClearKeys(retentionMs: Millis)

  const STALE_MESSAGE := "Recovered from stale processing state"

  /** Delay before the next attempt, computed from the retry_count stored before the update. */
  function Delay(backoff: Backoff, retryCount: nat): Millis {
    backoff.baseMs * Pow(backoff.multiplier, retryCount)
  }

  const MAX_ERROR_LENGTH := 1000

  function Truncate(message: string): string {
    if |message| <= MAX_ERROR_LENGTH then message else message[..MAX_ERROR_LENGTH]
  }

  /** The text that last_error gets for one event of a failure write. */
  function StoredError(messages: map<EventId, string>, id: EventId): string {
    Truncate(if id in messages then messages[id] else "Unknown error")
  }

  /** WHERE clause of the claim and of the pending count. */
  predicate Eligible(row: Row, now: Millis) {
    && (row.status == Pending || row.status == Failed)
    && (row.nextRetryAt.None? || row.nextRetryAt.value <= now)
    && row.deletedAt.None?
  }

  predicate Stale(row: Row, now: Millis, thresholdMs: Millis) {
    && row.status == Processing
    && row.processingStartedAt.Some? && row.processingStartedAt.value < now - thresholdMs
    && row.retryCount < row.maxRetries
  }

  predicate Replayable(row: Row) {
    (row.status == Failed || row.status == Dlq) && row.deletedAt.None?
  }

  predicate KeyExpired(row: Row, now: Millis, retentionMs: Millis) {
    && row.status == Succeeded
    && row.idempotencyKey.Some?
    && row.processedAt.Some? && row.processedAt.value < now - retentionMs
  }

  predicate Hits(s: Statement, id: EventId, row: Row, now: Millis) {
    match s
    case Insert(_, _, _, _) => false
    case Claim(ids) => id in ids && Eligible(row, now)
    case MarkSucceeded(ids, _) => id in ids
    case ScheduleRetry(ids, _, _) => id in ids && row.retryCount < row.maxRetries
    case MoveToDlq(ids, _) => id in ids
    case RecoverStale(thresholdMs) => Stale(row, now, thresholdMs)
    case ReplayOne(target) => id == target && Replayable(row)
    case ReplayRows(ids) => id in ids
    case ClearKeys(retentionMs) => KeyExpired(row, now, retentionMs)
  }

  function Reset(row: Row): Row {
    row.(status := Pending, retryCount := 0, nextRetryAt := None, lastError := None,
         processingStartedAt := None, processedAt := None)
  }

  function Changed(s: Statement, id: EventId, row: Row, now: Millis): Row
    requires Hits(s, id, row, now)
  {
    match s
    case Claim(_) => row.(status := Processing, processingStartedAt := Some(now))
    case MarkSucceeded(_, workerId) =>
      row.(status := Succeeded, processedAt := Some(now), processedByWorker := Some(workerId))
    case ScheduleRetry(_, messages, backoff) =>
      row.(status := Failed, retryCount := row.retryCount + 1, lastError := Some(StoredError(messages, id)),
           nextRetryAt := Some(now + Delay(backoff, row.retryCount)))
    case MoveToDlq(_, messages) =>
      row.(status := Dlq, lastError := Some(StoredError(messages, id)), processedAt := Some(now))
    case RecoverStale(_) =>
      row.(status := Failed, retryCount := row.retryCount + 1, lastError := Some(STALE_MESSAGE),
           nextRetryAt := Some(now + 1000.0))
    case ReplayOne(_) => Reset(row)
    case ReplayRows(_) => Reset(row)
    case ClearKeys(_) => row.(idempotencyKey := None)
  }

  function RowAfter(s: Statement, id: EventId, row: Row, now: Millis): Row {
    if Hits(s, id, row, now) then Changed(s, id, row, now) else row
  }

  /** Column defaults of the table, plus the values every INSERT of the program supplies. */
  function FreshRow(data: EventData, key: Option<string>, maxRetries: int, now: Millis): Row {
    Row(data, key, Pending, 0, maxRetries, None, None, now, None, None, None, None)
  }

  /** Inserted at the given instant and not touched since, whatever its data, key and limit. */
  ghost predicate IsPendingSince(row: Row, now: Millis) {
    && row.status == Pending && row.retryCount == 0 && row.createdAt == now
    && row.nextRetryAt == None && row.lastError == None && row.deletedAt == None
    && row.processingStartedAt == None && row.processedAt == None && row.processedByWorker == None
  }

  function Apply(rows: Rows, s: Statement, now: Millis): Rows {
    match s
    case Insert(id, data, key, maxRetries) =>
      if id in rows then rows else rows[id := FreshRow(data, key, maxRetries, now)]
    case _ => map id | id in rows :: RowAfter(s, id, rows[id], now)
  }

  /** The row is covered by the partial unique index under the given key. */
  predicate Indexed(row: Row, key: string) {
    row.idempotencyKey == Some(key) && row.status != Succeeded
  }

  /** The partial unique index idx_outbox_idempotency holds. */
  predicate UniqueKeys(rows: Rows) {
    forall i, j | i in rows && j in rows && i != j ::
      rows[i].idempotencyKey.Some? && rows[i].status != Succeeded && rows[j].status != Succeeded
      ==> rows[i].idempotencyKey != rows[j].idempotencyKey
  }

  /** A statement that would break the unique index is rejected as a whole. */
  function Execute(rows: Rows, s: Statement, now: Millis): Rows {
    var next := Apply(rows, s, now);
    if UniqueKeys(next) then next else rows
  }

  /** No statement removes a row, or rewrites what its INSERT stored. */
  lemma RowsPersist(rows: Rows, s: Statement, now: Millis)
    ensures rows.Keys <= Apply(rows, s, now).Keys
    ensures forall id :: id in rows ==>
      && Apply(rows, s, now)[id] == RowAfter(s, id, rows[id], now)
      && Apply(rows, s, now)[id].maxRetries == rows[id].maxRetries
      && Apply(rows, s, now)[id].data == rows[id].data
      && Apply(rows, s, now)[id].deletedAt == rows[id].deletedAt
  {
  }

  /** A batch write on rows that have not succeeded never breaks the unique index. */
  lemma BatchWriteKeepsKeysUnique(rows: Rows, s: Statement, now: Millis)
    requires UniqueKeys(rows) && (s.MarkSucceeded? || s.ScheduleRetry? || s.MoveToDlq?)
    requires forall id :: id in rows && rows[id].status == Succeeded && Hits(s, id, rows[id], now) ==> s.MarkSucceeded?
    ensures UniqueKeys(Apply(rows, s, now))
  {
  }

  /** Whether the index holds depends on the rows alone. */
  lemma UniqueKeysByRow(a: Rows, b: Rows)
    requires a.Keys == b.Keys && forall id :: id in a ==> a[id] == b[id]
    ensures UniqueKeys(a) <==> UniqueKeys(b)
  {
  }
}
