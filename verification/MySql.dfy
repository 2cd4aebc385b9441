/** The MySQL adapter, beside PostgreSQL's: the same eligibility, a different delay, and a
    stale recovery in two statements, of which only the SELECT checks anything. */
module MySql {
  import opened Common
  import opened OutboxTable
  import AttemptBound
  import PgEventRepository

  /** A call of recoverStaleEvents. */
  type RecoveryId = nat

  datatype MySqlStatement =
    | Shared(statement: Statement)
    | MySqlClaim(claimed: set<EventId>)
    | MySqlScheduleRetry(retried: set<EventId>, messages: map<EventId, string>, backoff: Backoff)
    | MySqlMoveToDlq(dead: set<EventId>, messages: map<EventId, string>)
    | SelectStale(recovery: RecoveryId, thresholdMs: Millis)
    | RecoverSelected(recovery: RecoveryId)

  /** The table, and the ids that recoveries between their two statements have selected. */
  datatype MySqlState = MySqlState(rows: Rows, selections: map<RecoveryId, set<EventId>>)

  /** Statements that both adapters send in the same form. */
  predicate SentByBoth(s: Statement) {
    s.Insert? || s.MarkSucceeded? || s.ReplayOne? || s.ReplayRows? || s.ClearKeys?
  }

  /** status = 'pending' OR (status = 'failed' AND next_retry_at <= NOW()); NULL compares as false. */
  predicate MySqlEligible(row: Row, now: Millis) {
    && (row.status == Pending || (row.status == Failed && row.nextRetryAt.Some? && row.nextRetryAt.value <= now))
    && row.deletedAt.None?
  }

  function CeilSeconds(ms: Millis): int {
    var whole := (ms / 1000.0).Floor;
    if whole as real == ms / 1000.0 then whole else whole + 1
  }

  /** SET runs left to right, so POW sees the retry count already incremented; the result is
      rounded up to seconds. */
  function MySqlDelay(backoff: Backoff, retryCount: nat): Millis {
    CeilSeconds(Delay(backoff, retryCount + 1)) as real * 1000.0
  }

  /** MySQL's texts fall back on an empty message too. */
  function MySqlStoredError(messages: map<EventId, string>, id: EventId, fallback: string): string {
    Truncate(if id in messages && messages[id] != "" then messages[id] else fallback)
  }

  /** WHERE clause of the recovery's SELECT, with the threshold rounded up to seconds. */
  predicate MySqlStale(row: Row, now: Millis, thresholdMs: Millis) {
    Stale(row, now, CeilSeconds(thresholdMs) as real * 1000.0)
  }

  function StaleIds(rows: Rows, now: Millis, thresholdMs: Millis): set<EventId> {
    set id | id in rows && MySqlStale(rows[id], now, thresholdMs)
  }

  /** The ids the recovery's UPDATE names: those its SELECT returned. */
  function SelectedBy(state: MySqlState, recovery: RecoveryId): set<EventId> {
    if recovery in state.selections then state.selections[recovery] else {}
  }

  predicate MySqlHits(state: MySqlState, s: MySqlStatement, id: EventId, row: Row, now: Millis) {
    match s
    case Shared(statement) => SentByBoth(statement) && Hits(statement, id, row, now)
    case MySqlClaim(ids) => id in ids && MySqlEligible(row, now)
    case MySqlScheduleRetry(ids, _, _) => id in ids && row.retryCount < row.maxRetries
    case MySqlMoveToDlq(ids, _) => id in ids
    case SelectStale(_, _) => false
    case RecoverSelected(recovery) => id in SelectedBy(state, recovery)
  }

  function MySqlRowAfter(state: MySqlState, s: MySqlStatement, id: EventId, row: Row, now: Millis): Row {
    if !MySqlHits(state, s, id, row, now) then row else
      match s
      case Shared(statement) => RowAfter(statement, id, row, now)
      case MySqlClaim(_) => row.(status := Processing, processingStartedAt := Some(now))
      case MySqlScheduleRetry(_, messages, backoff) =>
        row.(status := Failed, retryCount := row.retryCount + 1,
             nextRetryAt := Some(now + MySqlDelay(backoff, row.retryCount)),
             lastError := Some(MySqlStoredError(messages, id, "Unknown error")),
             processingStartedAt := None)
      case MySqlMoveToDlq(_, messages) =>
        row.(status := Dlq, lastError := Some(MySqlStoredError(messages, id, "Moved to DLQ")))
      case SelectStale(_, _) => row
      case RecoverSelected(_) =>
        row.(status := Failed, retryCount := row.retryCount + 1, lastError := Some(STALE_MESSAGE),
             nextRetryAt := Some(now + 1000.0))
  }

  function RowsAfter(state: MySqlState, s: MySqlStatement, now: Millis): Rows {
    if s.Shared? && s.statement.Insert? then Apply(state.rows, s.statement, now)
    else map id | id in state.rows :: MySqlRowAfter(state, s, id, state.rows[id], now)
  }

  /** A recovery selects once, and is over with its UPDATE. */
  function SelectionsAfter(state: MySqlState, s: MySqlStatement, now: Millis): map<RecoveryId, set<EventId>> {
    match s
    case SelectStale(recovery, thresholdMs) =>
      if recovery in state.selections then state.selections
      else state.selections[recovery := StaleIds(state.rows, now, thresholdMs)]
    case RecoverSelected(recovery) => state.selections - {recovery}
    case _ => state.selections
  }

  datatype MySqlEntry = MySqlEntry(statement: MySqlStatement, now: Millis)

  ghost function StateAfter(log: seq<MySqlEntry>): MySqlState {
    if log == [] then MySqlState(map[], map[]) else
      var before, last := StateAfter(log[..|log| - 1]), log[|log| - 1];
      MySqlState(RowsAfter(before, last.statement, last.now), SelectionsAfter(before, last.statement, last.now))
  }

  ghost function MySqlTable(log: seq<MySqlEntry>): Rows {
    StateAfter(log).rows
  }

  /** What one entry does to one row. */
  lemma RowInEntry(log: seq<MySqlEntry>, k: nat, id: EventId)
    requires k < |log| && id in MySqlTable(log[..k])
    ensures id in MySqlTable(log[..k + 1])
    ensures var row := MySqlTable(log[..k])[id];
      && MySqlTable(log[..k + 1])[id] == MySqlRowAfter(StateAfter(log[..k]), log[k].statement, id, row, log[k].now)
      && MySqlTable(log[..k + 1])[id].maxRetries == row.maxRetries
  {
    assert log[..k + 1][..k] == log[..k];
  }

  /** pending has no retry time, failed has one. */
  ghost predicate RetryTimeMatchesStatus(row: Row) {
    && (row.status == Pending ==> row.nextRetryAt.None?)
    && (row.status == Failed ==> row.nextRetryAt.Some?)
  }

  lemma {:induction false} RetryTimesMatch(log: seq<MySqlEntry>, id: EventId)
    requires id in MySqlTable(log)
    ensures RetryTimeMatchesStatus(MySqlTable(log)[id])
  {
    if log != [] {
      var before := MySqlTable(log[..|log| - 1]);
      if id in before {
        RetryTimesMatch(log[..|log| - 1], id);
      }
    }
  }

  /** On every row either database can reach, the two claim predicates agree at every instant. */
  lemma EligibilityIsTheSame(pgLog: seq<AttemptBound.Entry>, myLog: seq<MySqlEntry>, now: Millis)
    ensures forall id :: id in AttemptBound.Table(pgLog) ==>
      (Eligible(AttemptBound.Table(pgLog)[id], now) <==> MySqlEligible(AttemptBound.Table(pgLog)[id], now))
    ensures forall id :: id in MySqlTable(myLog) ==>
      (Eligible(MySqlTable(myLog)[id], now) <==> MySqlEligible(MySqlTable(myLog)[id], now))
  {
    forall id | id in AttemptBound.Table(pgLog)
      ensures Eligible(AttemptBound.Table(pgLog)[id], now) <==> MySqlEligible(AttemptBound.Table(pgLog)[id], now)
    {
      AttemptBound.RowInvariantHolds(pgLog, id);
    }
    forall id | id in MySqlTable(myLog)
      ensures Eligible(MySqlTable(myLog)[id], now) <==> MySqlEligible(MySqlTable(myLog)[id], now)
    {
      RetryTimesMatch(myLog, id);
    }
  }

  /** Rounding up never shortens the delay MySQL computes, and adds less than a second; the
      delay it computes is PostgreSQL's for the retry after this one. */
  lemma RoundingAddsUnderASecond(backoff: Backoff, retryCount: nat)
    ensures Delay(backoff, retryCount + 1) <= MySqlDelay(backoff, retryCount) < Delay(backoff, retryCount + 1) + 1000.0
    ensures Delay(backoff, retryCount + 1) == backoff.multiplier * Delay(backoff, retryCount)
  {
  }

  // What MySQL's own statements do to a row, on its columns.

  /** The first 1000 characters of the message, or the fallback where there is no message or an empty one. */
  ghost predicate KeepsError(stored: Option<string>, messages: map<EventId, string>, id: EventId, fallback: string) {
    var text := if id !in messages || messages[id] == "" then fallback else messages[id];
    stored == Some(if |text| <= 1000 then text else text[..1000])
  }

  /** The least number of whole seconds that is not below the duration. */
  ghost predicate WholeSeconds(ms: Millis, seconds: int) {
    (seconds - 1) as real * 1000.0 < ms <= seconds as real * 1000.0
  }

  lemma CeilIsWholeSeconds(ms: Millis)
    ensures WholeSeconds(ms, CeilSeconds(ms))
  {
  }

  lemma ClaimByColumns(state: MySqlState, row: Row, id: EventId, ids: set<EventId>, now: Millis)
    ensures MySqlRowAfter(state, MySqlClaim(ids), id, row, now)
      == if && id in ids && row.deletedAt == None
            && (row.status == Pending
                || (row.status == Failed && row.nextRetryAt.Some? && now >= row.nextRetryAt.value))
         then row.(status := Processing, processingStartedAt := Some(now))
         else row
  {
  }

  /** A retry waits the whole seconds of base * multiplier ^ (retries so far + 1), and clears the start time. */
  lemma ScheduleRetryByColumns(state: MySqlState, row: Row, id: EventId, ids: set<EventId>,
                               messages: map<EventId, string>, config: Backoff, now: Millis, seconds: int)
    requires WholeSeconds(config.baseMs * Pow(config.multiplier, row.retryCount + 1), seconds)
    ensures var after := MySqlRowAfter(state, MySqlScheduleRetry(ids, messages, config), id, row, now);
      if id in ids && row.retryCount < row.maxRetries then
        && after == row.(status := Failed, retryCount := row.retryCount + 1, processingStartedAt := None,
                         lastError := after.lastError, nextRetryAt := Some(now + seconds as real * 1000.0))
        && KeepsError(after.lastError, messages, id, "Unknown error")
      else after == row
  {
    var ms := Delay(config, row.retryCount + 1);
    PgEventRepository.DelayIsGeometric(config, row.retryCount + 1);
    CeilIsWholeSeconds(ms);
    assert seconds == CeilSeconds(ms);
  }

  lemma MoveToDlqByColumns(state: MySqlState, row: Row, id: EventId, ids: set<EventId>,
                           messages: map<EventId, string>, now: Millis)
    ensures var after := MySqlRowAfter(state, MySqlMoveToDlq(ids, messages), id, row, now);
      if id in ids then
        after == row.(status := Dlq, lastError := after.lastError)
          && KeepsError(after.lastError, messages, id, "Moved to DLQ")
      else after == row
  {
  }

  /** A recovery's SELECT names exactly the rows 'processing' for longer than the threshold, in whole seconds, with a
      retry left; its UPDATE fails every named row once more, whatever it has become, to be retried in a second. */
  lemma RecoveryByColumns(rows: Rows, state: MySqlState, recovery: RecoveryId, thresholdMs: Millis, seconds: int,
                          id: EventId, row: Row, now: Millis)
    requires WholeSeconds(thresholdMs, seconds)
    ensures id in StaleIds(rows, now, thresholdMs) <==>
      && id in rows && rows[id].status == Processing && rows[id].retryCount < rows[id].maxRetries
      && rows[id].processingStartedAt.Some?
      && now > rows[id].processingStartedAt.value + seconds as real * 1000.0
    ensures MySqlRowAfter(state, RecoverSelected(recovery), id, row, now)
      == if recovery in state.selections && id in state.selections[recovery]
         then row.(status := Failed, retryCount := row.retryCount + 1, nextRetryAt := Some(now + 1000.0),
                   lastError := Some("Recovered from stale processing state"))
         else row
  {
    CeilIsWholeSeconds(thresholdMs);
    assert seconds == CeilSeconds(thresholdMs);
  }

  ghost function MySqlAvailable(rows: Rows, now: Millis, locked: set<EventId>): set<EventId> {
    set id | id in rows && id !in locked && MySqlEligible(rows[id], now)
  }

  /** MySQL's claim: available rows in any order, each once, as many as the batch allows. */
  ghost predicate MySqlClaimOutcome(rows: Rows, now: Millis, locked: set<EventId>, batchSize: nat, ids: seq<EventId>) {
    var available := MySqlAvailable(rows, now, locked);
    && Distinct(ids) && Elements(ids) <= available
    && |ids| == (if batchSize < |available| then batchSize else |available|)
  }

  /** On every reachable table MySQL's count is PostgreSQL's; an unlocked claim with a batch size of
      at least the count returns exactly the counted rows, and no claim returns more. */
  lemma MySqlCountPredictsClaim(log: seq<MySqlEntry>, now: Millis, locked: set<EventId>, batchSize: nat,
                                ids: seq<EventId>)
    requires MySqlClaimOutcome(MySqlTable(log), now, locked, batchSize, ids)
    ensures var count := |MySqlAvailable(MySqlTable(log), now, {})|;
      && count == |PgEventRepository.Available(MySqlTable(log), now, {})|
      && |ids| <= count
      && (locked == {} && batchSize >= count ==> Elements(ids) == MySqlAvailable(MySqlTable(log), now, {}))
  {
    EligibilityIsTheSame([], log, now);
    assert MySqlAvailable(MySqlTable(log), now, {}) == PgEventRepository.Available(MySqlTable(log), now, {});
    DistinctFills(ids, MySqlAvailable(MySqlTable(log), now, {}));
  }

  // Two-statement recovery.

  ghost predicate WithinRetries(row: Row) {
    row.retryCount <= Max(0, row.maxRetries)
  }

  /** Entries i and k are the SELECT and the UPDATE of one recovery. */
  ghost predicate IsRecovery(log: seq<MySqlEntry>, i: nat, k: nat) {
    && i < k < |log|
    && log[i].statement.SelectStale? && log[k].statement == RecoverSelected(log[i].statement.recovery)
    && log[i].statement.recovery !in StateAfter(log[..i]).selections
    && forall j :: i < j < k ==> log[j].statement != log[k].statement
  }

  /** The recovery selected the row: it was stale, with a retry left. */
  ghost predicate Selected(log: seq<MySqlEntry>, i: nat, id: EventId)
    requires i < |log| && log[i].statement.SelectStale?
  {
    var rows := MySqlTable(log[..i]);
    id in rows && MySqlStale(rows[id], log[i].now, log[i].statement.thresholdMs)
  }

  /** The entry counts a retry on the row. */
  ghost predicate CountsRetry(log: seq<MySqlEntry>, j: nat, id: EventId)
    requires j < |log|
  {
    && id in MySqlTable(log[..j])
    && (log[j].statement.MySqlScheduleRetry? || log[j].statement.RecoverSelected?)
    && MySqlHits(StateAfter(log[..j]), log[j].statement, id, MySqlTable(log[..j])[id], log[j].now)
  }

  /** The entry counts a retry that leaves the row none. */
  ghost predicate UsesLastRetry(log: seq<MySqlEntry>, j: nat, id: EventId)
    requires j < |log|
  {
    CountsRetry(log, j, id) && MySqlTable(log[..j])[id].retryCount + 1 >= MySqlTable(log[..j])[id].maxRetries
  }

  ghost predicate Replays(log: seq<MySqlEntry>, j: nat, id: EventId)
    requires j < |log|
  {
    && id in MySqlTable(log[..j])
    && log[j].statement.Shared? && (log[j].statement.statement.ReplayOne? || log[j].statement.statement.ReplayRows?)
    && MySqlHits(StateAfter(log[..j]), log[j].statement, id, MySqlTable(log[..j])[id], log[j].now)
  }

  /** Between positions i and k the row's last retry was used up at j, and no replay gave it new ones. */
  ghost predicate UsedUpAt(log: seq<MySqlEntry>, i: nat, k: nat, id: EventId, j: nat)
    requires k <= |log|
  {
    i < j < k && UsesLastRetry(log, j, id) && forall r: nat :: j < r < k ==> !Replays(log, r, id)
  }

  ghost predicate UsedUpBetween(log: seq<MySqlEntry>, i: nat, k: nat, id: EventId)
    requires k <= |log|
  {
    exists j: nat :: UsedUpAt(log, i, k, id, j)
  }

  lemma {:induction false} SelectionIsHeld(log: seq<MySqlEntry>, i: nat, k: nat, recovery: RecoveryId)
    requires i < k <= |log| && log[i].statement.SelectStale? && log[i].statement.recovery == recovery
    requires recovery !in StateAfter(log[..i]).selections
    requires forall j :: i < j < k ==> log[j].statement != RecoverSelected(recovery)
    ensures recovery in StateAfter(log[..k]).selections
    ensures StateAfter(log[..k]).selections[recovery]
      == StaleIds(MySqlTable(log[..i]), log[i].now, log[i].statement.thresholdMs)
    decreases k
  {
    assert log[..k][..k - 1] == log[..k - 1];
    if k > i + 1 {
      SelectionIsHeld(log, i, k - 1, recovery);
    }
  }

  /** Every UPDATE that names a row belongs to a recovery whose SELECT found the row stale. */
  lemma {:induction false} SelectionHasASelect(log: seq<MySqlEntry>, k: nat, recovery: RecoveryId) returns (i: nat)
    requires k <= |log| && recovery in StateAfter(log[..k]).selections
    ensures i < k && log[i].statement.SelectStale? && log[i].statement.recovery == recovery
    ensures recovery !in StateAfter(log[..i]).selections
    ensures forall j :: i < j < k ==> log[j].statement != RecoverSelected(recovery)
    decreases k
  {
    assert log[..k][..k - 1] == log[..k - 1];
    if recovery in StateAfter(log[..k - 1]).selections {
      i := SelectionHasASelect(log, k - 1, recovery);
    } else {
      i := k - 1;
    }
  }

  lemma UsedUpInOneMore(log: seq<MySqlEntry>, i: nat, k: nat, id: EventId)
    requires i < k < |log|
    ensures UsedUpBetween(log, i, k + 1, id) <==>
      UsesLastRetry(log, k, id) || (UsedUpBetween(log, i, k, id) && !Replays(log, k, id))
  {
    if UsesLastRetry(log, k, id) {
      assert UsedUpAt(log, i, k + 1, id, k);
    } else if UsedUpBetween(log, i, k, id) && !Replays(log, k, id) {
      var j: nat :| UsedUpAt(log, i, k, id, j);
      assert UsedUpAt(log, i, k + 1, id, j);
    }
    if UsedUpBetween(log, i, k + 1, id) && !UsesLastRetry(log, k, id) {
      var j: nat :| UsedUpAt(log, i, k + 1, id, j);
      assert UsedUpAt(log, i, k, id, j);
    }
  }

  /** What one entry does to the retry count of one row. */
  lemma RetryCountInEntry(log: seq<MySqlEntry>, k: nat, id: EventId)
    requires k < |log| && id in MySqlTable(log[..k])
    ensures id in MySqlTable(log[..k + 1])
    ensures var before, after := MySqlTable(log[..k])[id], MySqlTable(log[..k + 1])[id];
      && after.maxRetries == before.maxRetries
      && after.retryCount ==
           if CountsRetry(log, k, id) then before.retryCount + 1
           else if Replays(log, k, id) then 0
           else before.retryCount
  {
    RowInEntry(log, k, id);
  }

  ghost predicate OutOfRetriesIfUsedUp(log: seq<MySqlEntry>, i: nat, k: nat, id: EventId)
    requires k <= |log|
  {
    && id in MySqlTable(log[..k]) && MySqlTable(log[..k])[id].maxRetries > 0
    && (MySqlTable(log[..k])[id].retryCount >= MySqlTable(log[..k])[id].maxRetries <==> UsedUpBetween(log, i, k, id))
  }

  lemma OneMoreEntry(log: seq<MySqlEntry>, i: nat, k: nat, id: EventId)
    requires i < k < |log| && OutOfRetriesIfUsedUp(log, i, k, id)
    ensures OutOfRetriesIfUsedUp(log, i, k + 1, id)
  {
    RetryCountInEntry(log, k, id);
    UsedUpInOneMore(log, i, k, id);
    assert UsesLastRetry(log, k, id) ==> !Replays(log, k, id);
  }

  /** A selected row has no retry left at position k exactly if its last one was used up since. */
  lemma {:induction false} NoRetryLeftExactlyIfUsedUp(log: seq<MySqlEntry>, i: nat, k: nat, id: EventId)
    requires i < k <= |log| && log[i].statement.SelectStale? && Selected(log, i, id)
    ensures OutOfRetriesIfUsedUp(log, i, k, id)
    decreases k
  {
    if k == i + 1 {
      RetryCountInEntry(log, i, id);
    } else {
      NoRetryLeftExactlyIfUsedUp(log, i, k - 1, id);
      OneMoreEntry(log, i, k - 1, id);
    }
  }

  /** A recovery takes a selected row beyond its retries exactly if another statement used up the
      row's last retry between the recovery's SELECT and its UPDATE. */
  lemma RecoveryExceedsExactlyIfInterrupted(log: seq<MySqlEntry>, i: nat, k: nat, id: EventId)
    requires IsRecovery(log, i, k) && Selected(log, i, id)
    ensures id in MySqlTable(log[..k + 1])
    ensures !WithinRetries(MySqlTable(log[..k + 1])[id]) <==> UsedUpBetween(log, i, k, id)
  {
    NoRetryLeftExactlyIfUsedUp(log, i, k, id);
    SelectionIsHeld(log, i, k, log[i].statement.recovery);
    RowInEntry(log, k, id);
  }

  ghost predicate Exceeds(log: seq<MySqlEntry>, p: nat, id: EventId)
    requires p <= |log|
  {
    id in MySqlTable(log[..p]) && !WithinRetries(MySqlTable(log[..p])[id])
  }

  /** The recovery with SELECT i and UPDATE k was interrupted by the use of the row's last retry. */
  ghost predicate Interrupted(log: seq<MySqlEntry>, i: nat, k: nat, id: EventId) {
    IsRecovery(log, i, k) && Selected(log, i, id) && UsedUpBetween(log, i, k, id)
  }

  /** Only a recovery that names a row without retries takes it beyond them. */
  lemma OnlyRecoveryExceeds(log: seq<MySqlEntry>, k: nat, id: EventId)
    requires k < |log| && !Exceeds(log, k, id) && Exceeds(log, k + 1, id)
    ensures id in MySqlTable(log[..k]) && log[k].statement.RecoverSelected?
    ensures log[k].statement.recovery in StateAfter(log[..k]).selections
    ensures id in SelectedBy(StateAfter(log[..k]), log[k].statement.recovery)
    ensures MySqlTable(log[..k])[id].retryCount >= MySqlTable(log[..k])[id].maxRetries
  {
    assert log[..k + 1][..k] == log[..k];
  }

  lemma {:induction false} ExcessHasACause(log: seq<MySqlEntry>, p: nat, id: EventId) returns (i: nat, k: nat)
    requires p <= |log| && Exceeds(log, p, id)
    ensures Interrupted(log, i, k, id)
    decreases p
  {
    assert log[..0] == [];
    if Exceeds(log, p - 1, id) {
      i, k := ExcessHasACause(log, p - 1, id);
    } else {
      k := p - 1;
      OnlyRecoveryExceeds(log, k, id);
      i := SelectionHasASelect(log, k, log[k].statement.recovery);
      SelectionIsHeld(log, i, k, log[k].statement.recovery);
      NoRetryLeftExactlyIfUsedUp(log, i, k, id);
    }
  }

  /** Some row is ever beyond its retries exactly if some recovery was interrupted so. */
  lemma RetriesExceededExactlyByInterruption(log: seq<MySqlEntry>)
    ensures (exists p: nat, id :: p <= |log| && Exceeds(log, p, id)) <==>
      (exists i: nat, k: nat, id :: Interrupted(log, i, k, id))
  {
    if p: nat, id :| p <= |log| && Exceeds(log, p, id) {
      var i, k := ExcessHasACause(log, p, id);
    }
    if i: nat, k: nat, id :| Interrupted(log, i, k, id) {
      RecoveryExceedsExactlyIfInterrupted(log, i, k, id);
      assert Exceeds(log, k + 1, id);
    }
  }

  /** No statement counts a retry on a selected row between the two statements of its recovery. */
  ghost predicate RecoveriesUninterrupted(log: seq<MySqlEntry>) {
    forall i: nat, j: nat, k: nat, id ::
      IsRecovery(log, i, k) && Selected(log, i, id) && i < j < k ==> !CountsRetry(log, j, id)
  }

  lemma RetriesAreBoundedIfUninterrupted(log: seq<MySqlEntry>, id: EventId)
    requires RecoveriesUninterrupted(log) && id in MySqlTable(log)
    ensures WithinRetries(MySqlTable(log)[id])
  {
    assert log[..|log|] == log;
    if Exceeds(log, |log|, id) {
      var i, k := ExcessHasACause(log, |log|, id);
      assert false;
    }
  }

  ghost predicate Chronological(log: seq<MySqlEntry>) {
    forall i, j :: 0 <= i < j < |log| ==> log[i].now <= log[j].now
  }

  lemma FirstRow(log: seq<MySqlEntry>, maxRetries: int)
    requires log != [] && log[0].statement == Shared(Insert(0, EventData("", "", "", ""), None, maxRetries))
    ensures 0 in MySqlTable(log[..1])
    ensures MySqlTable(log[..1])[0] == FreshRow(EventData("", "", "", ""), None, maxRetries, log[0].now)
    ensures StateAfter(log[..1]).selections == map[]
  {
    assert log[..1][..0] == [] && MySqlTable([]) == map[];
  }

  lemma ClaimedRow(log: seq<MySqlEntry>)
    requires |log| > 1 && log[0] == MySqlEntry(Shared(Insert(0, EventData("", "", "", ""), None, 1)), 0.0)
    requires log[1] == MySqlEntry(MySqlClaim({0}), 0.0)
    ensures StateAfter(log[..1]).selections == map[] && 0 in MySqlTable(log[..2])
    ensures MySqlTable(log[..2])[0] ==
      FreshRow(EventData("", "", "", ""), None, 1, 0.0).(status := Processing, processingStartedAt := Some(0.0))
  {
    FirstRow(log, 1);
    RowInEntry(log, 1, 0);
  }

  lemma SelectsRow0(log: seq<MySqlEntry>)
    requires |log| > 2 && 0 in MySqlTable(log[..2]) && StateAfter(log[..1]).selections == map[]
    requires log[1].statement.MySqlClaim? && log[2] == MySqlEntry(SelectStale(0, 300000.0), 301000.0)
    requires var row := MySqlTable(log[..2])[0];
      row.status == Processing && row.processingStartedAt == Some(0.0) && row.retryCount < row.maxRetries
    ensures Selected(log, 2, 0) && 0 !in StateAfter(log[..2]).selections
    ensures 0 in MySqlTable(log[..3]) && MySqlTable(log[..3])[0] == MySqlTable(log[..2])[0]
  {
    assert log[..2][..1] == log[..1];
    assert CeilSeconds(300000.0) == 300;
    RowInEntry(log, 2, 0);
  }

  /** A worker's own late retry write slips in between the SELECT and the UPDATE of a recovery:
      one retry allowed, two counted. */
  lemma InterruptedRecoveryExceedsRetries() returns (log: seq<MySqlEntry>)
    ensures Chronological(log) && |log| == 5
    ensures log[1].statement == MySqlClaim({0}) && log[3].statement.MySqlScheduleRetry?
    ensures log[3].statement.retried == {0}
    ensures IsRecovery(log, 2, 4) && Selected(log, 2, 0) && CountsRetry(log, 3, 0)
    ensures 0 in MySqlTable(log) && MySqlTable(log)[0].maxRetries == 1 && MySqlTable(log)[0].retryCount == 2
  {
    var insert := MySqlEntry(Shared(Insert(0, EventData("", "", "", ""), None, 1)), 0.0);
    var claim := MySqlEntry(MySqlClaim({0}), 0.0);
    var selecting := MySqlEntry(SelectStale(0, 300000.0), 301000.0);
    var retry := MySqlEntry(MySqlScheduleRetry({0}, map[], Backoff(1000.0, 2.0)), 301000.0);
    var recover := MySqlEntry(RecoverSelected(0), 301000.0);
    log := [insert, claim, selecting, retry, recover];
    ClaimedRow(log);
    SelectsRow0(log);
    RetriedThenRecovered(log);
    assert log[..5] == log;
  }

  lemma RetriedThenRecovered(log: seq<MySqlEntry>)
    requires |log| == 5 && log[2].statement == SelectStale(0, 300000.0) && log[4].statement == RecoverSelected(0)
    requires log[3].statement == MySqlScheduleRetry({0}, map[], Backoff(1000.0, 2.0))
    requires Selected(log, 2, 0) && 0 !in StateAfter(log[..2]).selections && 0 in MySqlTable(log[..3])
    requires MySqlTable(log[..3])[0].retryCount == 0 && MySqlTable(log[..3])[0].maxRetries == 1
    ensures CountsRetry(log, 3, 0)
    ensures 0 in MySqlTable(log[..5]) && MySqlTable(log[..5])[0].maxRetries == 1
    ensures MySqlTable(log[..5])[0].retryCount == 2
  {
    RetryCountInEntry(log, 3, 0);
    SelectionIsHeld(log, 2, 4, 0);
    RetryCountInEntry(log, 4, 0);
  }
}
