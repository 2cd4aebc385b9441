/** Stale recovery, key cleanup and admin replay on PostgreSQL. Where an operation is two
    statements, other clients may change the table in between: `meanwhile` is what the second
    statement finds. */
module PgService {
  import opened Common
  import opened OutboxTable
  import opened PgEventRepository
  import opened IdempotencyKeys

  /** The rows a statement changes. */
  ghost function Affected(rows: Rows, statement: Statement, now: Millis): set<EventId> {
    set id | id in rows && Hits(statement, id, rows[id], now)
  }

  /** Recovery and key cleanup never break the unique index. */
  lemma MaintenanceKeepsKeysUnique(before: Rows, statement: Statement, now: Millis, after: Rows)
    requires UniqueKeys(before) && Effected(before, statement, now, after)
    requires statement.RecoverStale? || statement.ClearKeys?
    ensures UniqueKeys(after)
  {
  }

  datatype RangeInput = RangeInput(
    startDate: Millis,
    endDate: Millis,
    status: Option<Status>,
    aggregateType: Option<string>,
    limit: Option<nat>)
  {
    function Status(): OutboxTable.Status {
      if status.Some? then status.value else Dlq
    }

    function Limit(): nat {
      if limit.Some? then limit.value else 100
    }
  }

  // What the statements do to a row, on its columns.

  /** 'processing' for longer than the threshold, with a retry left. */
  ghost predicate Abandoned(row: Row, now: Millis, thresholdMs: Millis) {
    && row.status == Processing && row.retryCount < row.maxRetries
    && row.processingStartedAt.Some? && now > row.processingStartedAt.value + thresholdMs
  }

  ghost function AbandonedIds(rows: Rows, now: Millis, thresholdMs: Millis): set<EventId> {
    set id | id in rows && Abandoned(rows[id], now, thresholdMs)
  }

  /** Taken back as one more failure, due in a second. */
  ghost predicate TakenBack(before: Row, after: Row, now: Millis) {
    after == before.(status := Failed, retryCount := before.retryCount + 1, nextRetryAt := Some(now + 1000.0),
                     lastError := Some("Recovered from stale processing state"))
  }

  /** Succeeded longer ago than the retention, and still under a key. */
  ghost predicate KeyIsOld(row: Row, now: Millis, retentionMs: Millis) {
    && row.status == Succeeded && row.idempotencyKey != None
    && row.processedAt.Some? && now > row.processedAt.value + retentionMs
  }

  ghost function OldKeyIds(rows: Rows, now: Millis, retentionMs: Millis): set<EventId> {
    set id | id in rows && KeyIsOld(rows[id], now, retentionMs)
  }

  /** Back to the start: pending, no retry counted, nothing left of the attempts but who processed it. */
  ghost predicate StartsOver(before: Row, after: Row) {
    after == Row(before.data, before.idempotencyKey, Pending, 0, before.maxRetries, None, None, before.createdAt, None,
                 None, before.processedByWorker, before.deletedAt)
  }

  ghost predicate Replays(before: Row) {
    before.deletedAt == None && (before.status == Failed || before.status == Dlq)
  }

  /** The input asks for the row: the status, 'dlq' where none is given, the dates, both included, and the
      aggregate type, if one is given. */
  ghost predicate AsksFor(input: RangeInput, row: Row) {
    && row.deletedAt == None
    && (match input.status case Some(status) => row.status == status case None => row.status == Dlq)
    && row.createdAt >= input.startDate && row.createdAt <= input.endDate
    && (input.aggregateType == None || input.aggregateType == Some("")
        || input.aggregateType == Some(row.data.aggregateType))
  }

  /** As many of the rows asked for as the limit allows, which is 100 where none is given. */
  ghost predicate SelectsAsAsked(input: RangeInput, rows: Rows, ids: set<EventId>) {
    && (forall id :: id in ids ==> id in rows && AsksFor(input, rows[id]))
    && (match input.limit case Some(limit) => |ids| <= limit case None => |ids| <= 100)
    && ((match input.limit case Some(limit) => |ids| < limit case None => |ids| < 100) ==>
          forall id :: id in rows && AsksFor(input, rows[id]) ==> id in ids)
  }

  predicate CanReplay(rows: Rows, id: EventId) {
    id in rows && Replayable(rows[id])
  }

  class PgMaintenance {
    const pool: OutboxDatabase

    constructor (pool: OutboxDatabase)
      ensures this.pool == pool
    {
      this.pool := pool;
    }

    /** One UPDATE; returns how many rows it took back. */
    method RecoverStaleEvents(thresholdMs: Millis, now: Millis) returns (count: nat)
      requires UniqueKeys(pool.rows)
      modifies pool
      ensures count == |Affected(old(pool.rows), RecoverStale(thresholdMs), now)|
      ensures Effected(old(pool.rows), RecoverStale(thresholdMs), now, pool.rows)
      ensures count == |AbandonedIds(old(pool.rows), now, thresholdMs)|
      ensures pool.rows.Keys == old(pool.rows).Keys
      ensures forall id :: id in pool.rows ==>
        if Abandoned(old(pool.rows)[id], now, thresholdMs) then TakenBack(old(pool.rows)[id], pool.rows[id], now)
        else pool.rows[id] == old(pool.rows)[id]
    {
      var rows := pool.rows;
      var hit := set id | id in rows && Stale(rows[id], now, thresholdMs);
      assert hit == Affected(rows, RecoverStale(thresholdMs), now);
      assert hit == AbandonedIds(rows, now, thresholdMs);
      var next := map id | id in rows ::
        if id in hit
        then rows[id].(status := Failed, retryCount := rows[id].retryCount + 1, lastError := Some(STALE_MESSAGE),
                       nextRetryAt := Some(now + 1000.0))
        else rows[id];
      MaintenanceKeepsKeysUnique(rows, RecoverStale(thresholdMs), now, next);
      var ok := pool.Commit(next);
      count := |hit|;
    }

    method CleanupStaleIdempotencyKeys(retentionDays: nat, now: Millis) returns (count: nat)
      requires UniqueKeys(pool.rows)
      modifies pool
      ensures var retention := retentionDays as real * 86400000.0;
        && count == |Affected(old(pool.rows), ClearKeys(retention), now)|
        && Effected(old(pool.rows), ClearKeys(retention), now, pool.rows)
      ensures var retention := retentionDays as real * 24.0 * 3600.0 * 1000.0;
        && count == |OldKeyIds(old(pool.rows), now, retention)|
        && pool.rows.Keys == old(pool.rows).Keys
        && forall id :: id in pool.rows ==>
             pool.rows[id] == if KeyIsOld(old(pool.rows)[id], now, retention)
               then old(pool.rows)[id].(idempotencyKey := None)
               else old(pool.rows)[id]
    {
      var rows := pool.rows;
      var retention := retentionDays as real * 86400000.0;
      var hit := set id | id in rows && KeyExpired(rows[id], now, retention);
      assert hit == Affected(rows, ClearKeys(retention), now);
      assert hit == OldKeyIds(rows, now, retention);
      var next := map id | id in rows :: if id in hit then rows[id].(idempotencyKey := None) else rows[id];
      MaintenanceKeepsKeysUnique(rows, ClearKeys(retention), now, next);
      var ok := pool.Commit(next);
      count := |hit|;
    }
  }

  class PgEventService {
    const pool: OutboxDatabase

    constructor (pool: OutboxDatabase)
      ensures this.pool == pool
    {
      this.pool := pool;
    }

    /** A plain INSERT: it fails exactly when another row that has not succeeded holds the key. */
    method CreateEvent(id: EventId, data: EventData, key: Option<string>, maxRetries: Option<int>, now: Millis)
      returns (ok: bool)
      requires UniqueKeys(pool.rows) && id !in pool.rows
      modifies pool
      ensures ok <==> key.None? || Holders(old(pool.rows), key.value) == {}
      ensures pool.rows == if ok
        then old(pool.rows)[id := FreshRow(data, key, if maxRetries.Some? then maxRetries.value else 5, now)]
        else old(pool.rows)
      ensures ok ==> pool.rows[id].data == data && pool.rows[id].idempotencyKey == key
      ensures ok ==> pool.rows[id].maxRetries == match maxRetries case Some(limit) => limit case None => 5
      ensures ok ==> IsPendingSince(pool.rows[id], now)
    {
      var limit := if maxRetries.Some? then maxRetries.value else 5;
      InsertRejectedExactlyByHolder(pool.rows, Insert(id, data, key, limit), now);
      ok := pool.Commit(pool.rows[id := FreshRow(data, key, limit, now)]);
    }

    /** Finds the row that holds the key, if any; there is never more than one to choose from. */
    method FindByIdempotencyKey(key: string) returns (found: Option<EventId>)
      requires UniqueKeys(pool.rows)
      ensures found.None? ==> forall id :: id in Holders(pool.rows, key) ==> pool.rows[id].deletedAt.Some?
      ensures found.Some? ==> Holders(pool.rows, key) == {found.value} && pool.rows[found.value].deletedAt.None?
    {
      var rows := pool.rows;
      var holders := set id | id in rows && Indexed(rows[id], key) && rows[id].deletedAt.None?;
      if holders == {} {
        assert forall id :: id in Holders(rows, key) && rows[id].deletedAt.None? ==> id in holders;
        found := None;
      } else {
        var id :| id in holders;
        found := Some(id);
      }
    }

    /** SELECT the status, then a guarded UPDATE: true exactly when both looks find the event
        failed or dead-lettered, and the table changes exactly then. */
    method ReplayEvent(id: EventId, meanwhile: Rows, now: Millis) returns (replayed: bool)
      requires UniqueKeys(meanwhile)
      modifies pool
      ensures replayed <==> CanReplay(old(pool.rows), id) && CanReplay(meanwhile, id)
      ensures replayed ==> Effected(meanwhile, ReplayOne(id), now, pool.rows) && pool.rows[id].status == Pending
      ensures replayed <==>
        && id in old(pool.rows) && Replays(old(pool.rows)[id])
        && id in meanwhile && Replays(meanwhile[id])
      ensures replayed ==> pool.rows.Keys == meanwhile.Keys && StartsOver(meanwhile[id], pool.rows[id])
      ensures replayed ==> forall i :: i in meanwhile && i != id ==> pool.rows[i] == meanwhile[i]
      ensures !replayed ==> pool.rows == (if CanReplay(old(pool.rows), id) then meanwhile else old(pool.rows))
    {
      var rows := pool.rows;
      if id !in rows || rows[id].deletedAt.Some? {
        return false;
      }
      if rows[id].status != Failed && rows[id].status != Dlq {
        return false;
      }
      pool.rows := meanwhile;
      if id in meanwhile && Replayable(meanwhile[id]) {
        var next := map i | i in meanwhile :: if i == id then Reset(meanwhile[i]) else meanwhile[i];
        assert Effected(meanwhile, ReplayOne(id), now, next);
        replayed := pool.Commit(next);
      } else {
        replayed := false;
      }
    }

    /** SELECT the ids in range, then an UPDATE of exactly those, whatever they have become. */
    method ReplayEventsInRange(input: RangeInput, meanwhile: Rows, now: Millis)
      returns (eventIds: set<EventId>, ok: bool)
      modifies pool
      ensures SelectsAsAsked(input, old(pool.rows), eventIds)
      ensures ok <==> eventIds == {} || UniqueKeys(Apply(meanwhile, ReplayRows(eventIds), now))
      ensures eventIds != {} && ok ==> Effected(meanwhile, ReplayRows(eventIds), now, pool.rows)
      ensures eventIds != {} && ok ==> pool.rows.Keys == meanwhile.Keys && forall id :: id in meanwhile ==>
        if id in eventIds then StartsOver(meanwhile[id], pool.rows[id]) else pool.rows[id] == meanwhile[id]
      ensures eventIds != {} && !ok ==> pool.rows == meanwhile
      ensures eventIds == {} ==> pool.rows == old(pool.rows)
    {
      eventIds := SelectInRange(input);
      if eventIds == {} {
        return eventIds, true;
      }
      pool.rows := meanwhile;
      ok := ResetSelected(eventIds, now);
    }

    method SelectInRange(input: RangeInput) returns (eventIds: set<EventId>)
      ensures SelectsAsAsked(input, pool.rows, eventIds)
    {
      var rows := pool.rows;
      var inRange := set id | id in rows && rows[id].status == input.Status() && input.startDate <= rows[id].createdAt
        && rows[id].createdAt <= input.endDate && rows[id].deletedAt.None?;
      if input.aggregateType.Some? && input.aggregateType.value != "" {
        inRange := set id | id in inRange && rows[id].data.aggregateType == input.aggregateType.value;
      }
      assert forall id :: id in rows ==> (id in inRange <==> AsksFor(input, rows[id]));
      eventIds := Take(inRange, input.Limit());
    }

    method ResetSelected(eventIds: set<EventId>, now: Millis) returns (ok: bool)
      modifies pool
      ensures var rows := old(pool.rows);
        && (ok <==> UniqueKeys(Apply(rows, ReplayRows(eventIds), now)))
        && (ok ==> Effected(rows, ReplayRows(eventIds), now, pool.rows))
        && (ok ==> forall id :: id in rows ==>
              if id in eventIds then StartsOver(rows[id], pool.rows[id]) else pool.rows[id] == rows[id])
        && (!ok ==> pool.rows == rows)
    {
      var rows := pool.rows;
      var next := map id | id in rows :: if id in eventIds then Reset(rows[id]) else rows[id];
      assert Effected(rows, ReplayRows(eventIds), now, next);
      EffectIsApply(rows, ReplayRows(eventIds), now, next);
      ok := pool.Commit(next);
    }
  }

  /** LIMIT without ORDER BY: any ids, as many as allowed. */
  method Take(candidates: set<EventId>, limit: nat) returns (ids: set<EventId>)
    ensures ids <= candidates
    ensures |ids| == limit || (|ids| < limit && ids == candidates)
  {
    ids := {};
    var left := candidates;
    while |ids| < limit && left != {}
      invariant ids !! left && ids + left == candidates && |ids| <= limit
      decreases |left|
    {
      var id :| id in left;
      left := left - {id};
      ids := ids + {id};
    }
  }
}
