# Outboxy, modelled and verified in Dafny

Outboxy is a transactional outbox and inbox. Producers insert events into `outbox_events` in
their own database transaction; workers claim rows, publish them, and write the results back in
up to three batch updates; maintenance takes stale rows back; admins replay failed ones. A
consumer records each event it receives in `inbox_events` and skips those it has seen.

The project models both tables as maps, each SQL statement as one atomic guarded step, and the
TypeScript around them in the source's own shape: classes for the repositories, the worker, the
publishers, the clients and the migration runner, with their loops, and functions where the
source only computes. Over the statements stands a state machine (`Protocol`) in which any
number of workers, producers, maintenance timers and admins interleave at statement
granularity, crash, and write late. The main theorems are about all its runs.

`dafny verify dfyconfig.toml` checks everything.

## Reading guide

| files | what they hold |
|---|---|
| `OutboxTable`, `Protocol`, `Retry` | rows, statements, the retry decision, and the state machine of workers, producers, maintenance and admins |
| `EndToEnd`, `Retention`, `Inbox`, `InboxBatches` | the inbox under concurrent transactions, batches in it, and its composition with the outbox: exactly-once, and the retention it needs |
| `Ownership`, `LateWrites`, `AttemptBound`, `AttemptRuns`, `Termination`, `Rest`, `StuckSet`, `RetryLimits`, `BackoffRuns`, `BackoffTiming`, `IdempotencyKeys` | what holds of every run, and what fails exactly when |
| `PgEventRepository`, `PgService`, `MySql`, `Worker` | the repositories and the worker as imperative code, proved against the statements |
| `SdkClient`, `InboxTable`, `InboxClient`, `PgInboxRepository`, `MySqlInboxRepository`, `InboxMaintenance` | the SDK's clients and the inbox repositories, with their chunking, over a table that compares keys as the database does |
| `Placeholders`, `Numerals` | the printed `VALUES` lists, read back |
| `Grouping`, `HttpPublisher`, `KafkaPublisher` | the publishers |
| `FindCycles`, `Migrations` | the dependency-cycle search and the migration runner |
| `Common` | options, distinct sequences, sums over finite sets |

A run is a sequence of steps from the empty system; a step that is not possible where it stands
does nothing, so every sequence is a run and the theorems quantify over all of them.

## Assumptions, and what they rest on

- A statement is atomic, and the rows it touches are locked against other statements while it
  runs. All instants come from one clock that only moves forward: the database's `NOW()`.
- Column defaults and the unique indexes are those of `packages/migrations/sql/postgres/001_create_tables.sql`,
  `002_create_indexes.sql` and `004_create_inbox_indexes.sql`. Nothing constrains `max_retries`, so it is
  an arbitrary integer, and the bounds read `Max(0, max_retries)`.
- "Well-timed" (`Ownership.WellTimed`) means that no batch write lands later than the stale threshold
  after its claim, and that nothing comes between the two statements of a range replay. Only theorems
  that say so need it. The backoff needs it only for a row that was recovered or range-replayed while a
  batch had still to write it (`BackoffRuns.RetryIsNotTooEarly` has no such assumption).
- MySQL compares idempotency keys by their collation, which takes "a" and "A" for the same
  (`packages/migrations/sql/mysql/003_create_inbox_tables.sql:60`, `001_create_tables.sql:83`); JavaScript does
  not. So the tables of `InboxTable` and of `SdkClient`'s MySQL dialect are indexed by `canon(key)` for an
  arbitrary function `canon`, and PostgreSQL's is exact. `Inbox`, `InboxBatches` and `EndToEnd` compare keys
  exactly; the keys of `EndToEnd` are event ids, which differ in either database.
- Keys fit into their column, as the SDK checks: an `INSERT IGNORE` would cut a longer one.
- The network, the clock, generated ids, and what other transactions do between two statements of one
  method are parameters, universally quantified.
- In `EndToEnd` a publisher reports success for an event only if the consumer acknowledged it, and the
  consumer acknowledges only after its transaction has committed (`EndToEnd.Enabled`). So the half of
  `EndToEnd.ExactlyOnce` that concludes from 'succeeded' covers publishers whose success is the consumer's
  own answer, as over HTTP (where a 2xx answer that leaves an event out acknowledges it). The Kafka publisher
  reports success once the broker has the message; for it only the other half says something.
- The SDK's bulk insert relies on `RETURNING` listing ids in insertion order.

## Where the code and its promises differ

Each of these is a theorem, with the exact condition where there is one.

- An event is not "never processed twice" (README.md:48): its effect is committed once more for each cleanup
  of its inbox row. It is committed at most once if every cleanup keeps rows for a retention and every request is
  handled within it, counted from the first receipt (`Retention`); for every retention and every longer delay some
  run processes a request twice (`EndToEnd`).
- `succeeded` is final only in well-timed runs; in any state it is lost exactly when a late failure
  write or a range replay overwrites the row, and runs show both for every configuration (`LateWrites`).
- The events of a crashed worker are not always recovered (`docs/event-lifecycle.md:143`): with all limits in
  agreement, a crash during an event's last attempt strands it for ever (`RetryLimits`, `StuckSet`).
- The documentation calls the worker's `maxRetries` a global cap and says that an event at its own
  `max_retries` goes to the dead letter queue (`docs/event-lifecycle.md:116` and `:123`). In the code, a
  worker limit above the row's limit strands the row in `processing` for ever, and no row is ever stranded
  exactly when the worker's limit is at most every row's own (`RetryLimits`).
- On MySQL a row exceeds its retries exactly when another statement uses up its last one between the SELECT
  and the UPDATE of a recovery that selected it (`MySql`).
- On MySQL a duplicate publish returns the id of no row (`SdkClient.OutboxyClient.Publish`), and so does a
  duplicate single receive (`InboxClient.InboxyClient.Receive`).
- A refused batch publish is not atomic without an enclosing transaction: with nobody interfering, it leaves
  rows inserted exactly if its first chunk fits under the index (`SdkClient.OutboxyClient.PublishBatch`), and in
  every dialect some batch does (`SdkClient.RefusedBatchLeavesRows`).
- On MySQL the inbox repository throws for a batch exactly if a key of it is not in the table but another
  spelling of it is, in the table or in the batch, as for the new keys "a" and "A"; for the same events the SDK
  reports the second spelling as a duplicate, with an id that is no row's (`MySqlInboxRepository`, `InboxClient`).
- A late failure write can cut the backoff short: once a row has been recovered under its batch and replayed, some
  run claims it at retry count 2 when only the second delay has passed since its first failure (`BackoffTiming`).
- The PostgreSQL inbox repository reports a key that occurs twice in one batch as new both times; the
  MySQL one does not (`PgInboxRepository`, `MySqlInboxRepository`).
- The cycle search finds cycles correctly, but on a graph whose cycles are all longer than two, no edge
  it reports is an edge of the graph (`FindCycles`).
- The documentation describes an admin action that sets `cancelled` (`docs/event-lifecycle.md:33`); no
  statement does, so no row ever is (`AttemptBound.NothingIsCancelledOrDeleted`).

## Model

| member | source | states |
|---|---|---|
| EndToEnd.ExactlyOnce | README.md:47-48 | In every run of workers (crashing, late, recovered, replayed) against a consumer that receives under the event's id and acknowledges after commit, an event's effect has been committed exactly as often as its inbox row was cleaned up, plus one if the row is there, and at least once if its outbox row has succeeded; so exactly once for a succeeded event never cleaned up |
| EndToEnd.LateRequestIsProcessedAgain | packages/db-adapter-postgres/src/repositories/pg-inbox.repository.ts:182-202 | For every configuration, every retention and every longer delay, some run whose cleanups keep that retention delivers a request again that long after the event was received, and commits the effect twice |
| EndToEnd.AtMostOnceIfNoneHandledAfterCleanup | docs/inbox-pattern.md:118-120 | If no request about an event is handled after its inbox row was cleaned up, its effect is committed at most once in the whole run, and exactly once if the event has succeeded |
| Retention.AtMostOnceWithinRetention | packages/db-adapter-postgres/src/repositories/pg-inbox.repository.ts:182-202 | If every cleanup's retention is at least R and every request about an event is handled within R of its first committed receipt, the event's effect is committed at most once in the whole run, and exactly once if the event has succeeded |
| Retention.CleanupComesLate | packages/db-adapter-postgres/src/repositories/pg-inbox.repository.ts:192-198 | The first cleanup that deletes an event's row comes more than the retention after the event's first committed receipt |
| EndToEnd.EffectsAreProcessedAnswers | docs/inbox-pattern.md:118-120 | The committed effects of an event are as many as the committed 'processed' answers for its key |
| EndToEnd.AlwaysConsistent | packages/worker/src/core/worker.ts:232-328 | In every reachable state each acknowledged delivery, each success a batch is about to write and each succeeded row belongs to an event whose receipt has been committed |
| Inbox.Conservation | packages/db-adapter-postgres/src/repositories/pg-inbox.repository.ts:27-61 | Over every run of receives, failures, cleanups, commits and rollbacks, the committed 'processed' answers for a key equal its cleanup deletions plus one if it is present |
| Inbox.FailedForEver | packages/db-adapter-postgres/src/repositories/pg-inbox.repository.ts:153-202 | A key committed as failed is never deleted and stays failed |
| Inbox.FailedStaysDeduplicated | packages/sdk/src/inbox-client.ts:413-444 | From then on no transaction is ever told that the key is new, and its count of 'processed' answers is frozen |
| Inbox.CleanupDeletesExactlyOldProcessed | packages/db-adapter-postgres/src/repositories/pg-inbox.repository.ts:190-198 | After any run, a cleanup that need not wait deletes a committed key exactly if its row is processed and the clock is beyond processed_at plus the retention, and changes no other row |
| Inbox.CleanupWaitsExactlyForMarks | packages/db-adapter-postgres/src/repositories/pg-inbox.repository.ts:190-198 | It waits exactly while an open transaction has marked one of those rows as failed |
| Inbox.WaitsExactlyForOthers | packages/migrations/sql/postgres/004_create_inbox_indexes.sql:10-13 | A receive waits exactly while another open transaction has inserted the key, and a failure mark while another has marked a row with that id |
| Inbox.MarkedRowsFail | packages/db-adapter-postgres/src/repositories/pg-inbox.repository.ts:153-176 | After any run, marking an id as failed and committing fails exactly the rows with that id, at that instant, and commits every other row as the transaction saw it |
| Inbox.AlwaysIsolated | packages/migrations/sql/postgres/004_create_inbox_indexes.sql:10-13 | Open transactions never hold the same uncommitted key, nor one that is committed, and never mark the same committed row |
| InboxBatches.BatchIsItsReceives | packages/sdk/src/inbox-client.ts:303-330 | The receives of a batch, one after the other in one open transaction with no key locked by another, make of the rows it sees what one INSERT makes of them, are told what the simple form tells, and touch nothing else |
| InboxBatches.BatchCommitsWhatIsNew | packages/db-adapter-postgres/src/repositories/pg-inbox.repository.ts:70-145 | After any run, the keys that a transaction of one batch commits as processed are exactly those it was told are new, so the counts of `Inbox.Conservation` cover batches |
| Protocol.NobodyWaits | packages/db-adapter-postgres/src/repositories/pg-maintenance.ts:35-52 | In every state of a run producers, recovery, replays, key cleanup, crashes and landing writes are possible, so the theorems about runs are about all their interleavings |
| Ownership.OwnershipIsExclusive | packages/db-adapter-postgres/src/repositories/pg-event.repository.ts:32-47 | In every reachable state of a well-timed run, batches that can still write own disjoint events, each still 'processing' with the start time and retry count it was claimed with |
| Ownership.OwnedRowIsLeftAlone | packages/db-adapter-postgres/src/repositories/pg-maintenance.ts:37-52 | Under that invariant nobody's step, recovery included, changes a row that a timely batch has still to write |
| Ownership.SucceededIsFinal | packages/db-adapter-postgres/src/repositories/pg-event.repository.ts:107-117 | In well-timed runs a row that has succeeded stays so |
| Ownership.DecisionPartitions | packages/worker/src/batch.ts:30-57 | A decided batch puts every claimed event into exactly one of its three writes |
| LateWrites.SuccessIsUndoneExactlyByOverwriting | packages/db-adapter-postgres/src/repositories/pg-event.repository.ts:158-170 | In any state, a succeeded row loses that status exactly when the step is an accepted failure write that names it (with retries left) or an accepted range replay that selected it |
| LateWrites.LateFailureUndoesSuccess | packages/db-adapter-postgres/src/repositories/pg-event.repository.ts:205-216 | For every configuration there is a run in which a late failure write turns a succeeded row into a failed one, or a dead-lettered one where the workers never retry |
| LateWrites.InterruptedReplayUndoesSuccess | packages/db-adapter-postgres/src/repositories/pg-event.service.ts:211-237 | For every configuration there is a run in which a row succeeds between the two statements of a range replay, and the second resets it to pending |
| AttemptBound.AttemptsAreBounded | packages/db-adapter-postgres/src/repositories/pg-event.repository.ts:158-170 | After any sequence of statements with any timing, a row counts no more retries than its maximum and was claimed at most max_retries + 1 times since its last replay |
| AttemptBound.RowInvariantHolds | packages/db-adapter-postgres/src/repositories/pg-maintenance.ts:39-48 | The invariant behind it: claims never exceed retry_count + 1, nor retry_count while the row is claimable; pending rows have no retry time and failed rows have one |
| AttemptBound.NothingIsCancelledOrDeleted | docs/event-lifecycle.md:33 | After any sequence of statements no row is cancelled or softly deleted |
| AttemptRuns.AttemptsInRunsAreBounded | packages/db-adapter-postgres/src/repositories/pg-maintenance.ts:39-48 | The same bounds in every run of the system, well-timed or not, with claims counted as batches handed the row |
| AttemptRuns.BoundIsReached | packages/db-adapter-postgres/src/repositories/pg-event.repository.ts:26-58 | For every row limit and every configuration some run hands a row to max_retries + 1 batches, so the bound is exact |
| AttemptRuns.BoundIsReachedWithoutCrashes | packages/db-adapter-postgres/src/repositories/pg-event.repository.ts:158-170 | If the limit is within the workers' own, some run without crashes and lost writes does |
| AttemptRuns.LogIsChronological | packages/db-adapter-postgres/src/repositories/pg-event.repository.ts:32-35 | The statements of a run carry instants that only move forward |
| Termination.WorkIsBounded | packages/db-adapter-postgres/src/repositories/pg-event.repository.ts:26-220 | From any state, with no timing assumption, a run without insertions and replays holds at most Measure non-empty claims, landed writes and effective recoveries |
| Termination.MeasureFalls | packages/db-adapter-postgres/src/repositories/pg-event.repository.ts:158-170 | Every step other than an insertion or replay keeps that measure or lowers it, and each claim, write or recovery lowers it |
| Termination.ChangesAreBounded | packages/db-adapter-postgres/src/repositories/pg-maintenance.ts:37-52 | In well-timed runs, after the last insertion or replay at most the sum over rows of 3 * (retries left) + rank row-changing steps follow (rank 2 claimable, 1 processing, 0 final) |
| Rest.RestLeavesNothingToDo | docs/event-lifecycle.md:141-145 | Once no claim, write or recovery is possible any more, even after waiting and whatever the batches decide, every row is final, soft-deleted, or 'processing' without retries; and then stuck, unless a range replay selected it or the unique index refuses its write |
| Rest.CanComeToRest | packages/db-adapter-postgres/src/repositories/pg-event.repository.ts:26-220 | From every state some run without insertions and replays ends there |
| StuckSet.StuckForEver | packages/db-adapter-postgres/src/repositories/pg-maintenance.ts:46-48 | A 'processing' row without retries left that no batch or replay holds is never changed by anybody again |
| StuckSet.FrozenExactlyWithoutRetries | packages/db-adapter-postgres/src/repositories/pg-maintenance.ts:46-48 | An abandoned row stays as it is in all runs exactly when its retry count has reached its maximum |
| StuckSet.RecoverySaves | packages/db-adapter-postgres/src/repositories/pg-maintenance.ts:35-52 | Any other abandoned row is taken back to 'failed' by waiting out the threshold and running recovery |
| StuckSet.NothingIsAbandoned | packages/worker/src/core/worker.ts:273-328 | With no crash, no lost write and the worker's limit within every row's own, every reachable 'processing' row is held by a batch that knows its retry count, whatever the timing |
| StuckSet.ReachableIsSane | packages/migrations/sql/postgres/002_create_indexes.sql:28-32 | In every reachable state the partial unique index holds and every 'processing' row has a start time that is not in the future |
| RetryLimits.NoneStrandedExactlyWithinLimit | packages/worker/src/core/worker.ts:273-277 | Without crashes and lost writes no event is ever stranded exactly when the worker's limit is at most the limit every event allows |
| RetryLimits.LargerLimitStrands | docs/event-lifecycle.md:116 | For every larger worker limit there is a run that strands an event |
| RetryLimits.CrashOnTheLastAttempt | docs/event-lifecycle.md:141-145 | For every configuration, with the row's limit equal to the workers' and no other fault, there is a run in which one crash strands an event |
| BackoffRuns.RetryIsNotTooEarly | packages/db-adapter-postgres/src/repositories/pg-event.repository.ts:158-170 | With no assumption on time: a row whose k failures all went through scheduleRetry, and that was never recovered or range-replayed while a batch had still to write it, is claimed for retry k no earlier than the sum of its first k delays after its first failure |
| BackoffRuns.AlwaysSole | packages/db-adapter-postgres/src/repositories/pg-event.repository.ts:32-47 | In every run, however late its writes, such a row has at most one batch to write it, and is 'processing' with the retry count that batch was handed |
| BackoffRuns.RetryIsNotTooEarlyIfWellTimed | packages/db-adapter-postgres/src/repositories/pg-event.repository.ts:158-170 | In a well-timed run the same holds of any row, however often it was recovered or replayed before |
| BackoffTiming.LateFailureCutsTheBackoff | packages/db-adapter-postgres/src/repositories/pg-event.repository.ts:163-168 | For every configuration with positive delays there is a run, without range replays, in which a row left to the workers since its first failure is claimed at retry count 2 when only its second delay has passed |
| BackoffRuns.TotalDelayClosedForm | packages/db-adapter-postgres/src/repositories/pg-event.repository.ts:165-165 | (m - 1) times that sum is base * (m^k - 1), for every real m |
| BackoffRuns.DoublingDelays | docs/event-lifecycle.md:106-114 | With the default multiplier the sum is base * (2^k - 1) |
| IdempotencyKeys.NothingIsRejected | packages/migrations/sql/postgres/002_create_indexes.sql:28-32 | In well-timed runs no claim, batch write, recovery, replay or cleanup is ever rejected by the partial unique index |
| IdempotencyKeys.KeyIsHeldUntilSuccess | packages/dialect-postgres/src/postgres-dialect.ts:24-39 | In well-timed runs a row published under a key holds the key at every later point until it has succeeded |
| IdempotencyKeys.RepublishingIsIdempotentUntilSuccess | packages/sdk/src/client.ts:230-250 | Publishing the key again at any later point returns the first id and changes nothing until that event has succeeded; afterwards it never returns that id, and with no other holder inserts a fresh row that alone holds the key |
| IdempotencyKeys.InsertRejectedExactlyByHolder | packages/db-adapter-postgres/src/repositories/pg-event.service.ts:44-68 | A plain insert breaks the index exactly when its key is held by a row that has not succeeded |
| MySql.EligibilityIsTheSame | packages/db-adapter-mysql/src/repositories/mysql-event.repository.ts:83-88 | On every table either database can reach, the two claim predicates select the same rows at every instant |
| MySql.MySqlCountPredictsClaim | packages/db-adapter-mysql/src/repositories/mysql-event.repository.ts:140-150 | On every reachable table MySQL's count is PostgreSQL's; no claim returns more events, and an unlocked claim with a batch size of at least the count returns exactly the counted rows |
| MySql.RoundingAddsUnderASecond | packages/db-adapter-mysql/src/repositories/mysql-event.repository.ts:216-227 | MySQL's delay is at least the one it computes and less than a second longer, and the one it computes is PostgreSQL's for the next retry, a multiplier longer |
| MySql.ScheduleRetryByColumns | packages/db-adapter-mysql/src/repositories/mysql-event.repository.ts:212-238 | A retry waits the whole seconds of base * multiplier ^ (retries so far + 1), clears the start time, and keeps the first 1000 characters of a non-empty message, or 'Unknown error' |
| MySql.MoveToDlqByColumns | packages/db-adapter-mysql/src/repositories/mysql-event.repository.ts:254-278 | A dead-lettered row keeps its message in the same way, or 'Moved to DLQ' |
| MySql.RecoveryByColumns | packages/db-adapter-mysql/src/repositories/mysql-maintenance.ts:60-97 | The recovery's SELECT names exactly the rows 'processing' longer than the threshold in whole seconds with a retry left; its UPDATE fails every named row once more, whatever it has become |
| MySql.ClaimByColumns | packages/db-adapter-mysql/src/repositories/mysql-event.repository.ts:83-88 | A claim takes exactly the named rows that are pending, or failed and due, and not deleted |
| MySql.RetriesExceededExactlyByInterruption | packages/db-adapter-mysql/src/repositories/mysql-maintenance.ts:60-97 | Over any sequence of statements, some row is ever beyond its retries exactly if some recovery's SELECT found a row stale with a retry left, another statement used up its last retry and no replay renewed them, and then the recovery's UPDATE ran |
| MySql.RecoveryExceedsExactlyIfInterrupted | packages/db-adapter-mysql/src/repositories/mysql-maintenance.ts:65-95 | The same for one recovery and one row it selected |
| MySql.SelectionHasASelect | packages/db-adapter-mysql/src/repositories/mysql-maintenance.ts:79-95 | An UPDATE names only what an earlier SELECT of the same recovery returned |
| MySql.RetriesAreBoundedIfUninterrupted | packages/db-adapter-mysql/src/repositories/mysql-maintenance.ts:60-97 | If no statement counts a retry on a selected row between a recovery's SELECT and its UPDATE, no row ever exceeds its retries |
| MySql.InterruptedRecoveryExceedsRetries | packages/db-adapter-mysql/src/repositories/mysql-maintenance.ts:65-95 | A chronological sequence of insert, claim, SELECT, the claiming worker's late retry and UPDATE, after which a row allowed one retry counts two |
| OutboxTable.RowsPersist | packages/db-adapter-postgres/src/repositories/pg-event.repository.ts:26-220 | No statement removes a row or rewrites its data, limit or deletion mark |
| PgEventRepository.PgEventRepository.ClaimPendingEvents | packages/db-adapter-postgres/src/repositories/pg-event.repository.ts:26-58 | Claims distinct events, no more than the batch size: pending or failed rows that are due, not deleted and not locked; whatever such row it leaves, the batch is full and no claimed row is younger; the rows are 'processing' since this instant and no other row changes; returns them with their stored data and retry counts |
| PgEventRepository.PgEventRepository.GetPendingEventCount | packages/db-adapter-postgres/src/repositories/pg-event.repository.ts:63-82 | The count of pending or failed, due, undeleted rows; it bounds every claim at that instant: none returns more events, an unlocked one returns the smaller of count and batch size, and with a batch size of at least the count exactly the counted rows |
| PgEventRepository.CountPredictsClaim | packages/db-adapter-postgres/src/repositories/pg-event.repository.ts:36-45 | The relation between the two statements' predicates behind it, for any claim outcome |
| PgEventRepository.PgEventRepository.MarkSucceeded | packages/db-adapter-postgres/src/repositories/pg-event.repository.ts:87-122 | Each listed event, and no other, becomes succeeded at this instant, credited through the numbered CASE to the worker listed first for it |
| PgEventRepository.PgEventRepository.ScheduleRetry | packages/db-adapter-postgres/src/repositories/pg-event.repository.ts:127-175 | Each listed event with a retry left fails once more, waits base * multiplier ^ (retries so far), and keeps the first 1000 characters of its own message, or 'Unknown error' without one; no other row changes; refused exactly if that would break the unique index |
| PgEventRepository.PgEventRepository.MoveToDLQ | packages/db-adapter-postgres/src/repositories/pg-event.repository.ts:180-220 | Each listed event is dead-lettered with its own message kept in the same way, and no other row changes; refused exactly if that would break the unique index |
| PgEventRepository.CaseFindsText | packages/db-adapter-postgres/src/repositories/pg-event.repository.ts:139-151 | Evaluating the CASE over the numbered parameters gives an id the text pushed for it |
| PgEventRepository.CaseGivesStoredErrors | packages/db-adapter-postgres/src/repositories/pg-event.repository.ts:143-151 | So each event of a failure write gets the first 1000 characters of its own message, or 'Unknown error' |
| PgService.PgMaintenance.RecoverStaleEvents | packages/db-adapter-postgres/src/repositories/pg-maintenance.ts:35-70 | Fails once more, due in a second, exactly the rows 'processing' for longer than the threshold with retries left, leaves all others, and returns how many |
| PgService.PgMaintenance.CleanupStaleIdempotencyKeys | packages/db-adapter-postgres/src/repositories/pg-maintenance.ts:83-109 | Clears exactly the keys of rows that succeeded longer ago than that many days, and returns how many |
| PgService.PgEventService.CreateEvent | packages/db-adapter-postgres/src/repositories/pg-event.service.ts:40-72 | Adds a pending row with the event's data, key and limit (5 where none is given) exactly if its key has no holder, and otherwise changes nothing |
| PgService.PgEventService.FindByIdempotencyKey | packages/db-adapter-postgres/src/repositories/pg-event.service.ts:98-123 | Returns the one holder of the key; none only if every holder is soft-deleted |
| PgService.PgEventService.ReplayEvent | packages/db-adapter-postgres/src/repositories/pg-event.service.ts:128-180 | Whatever happens between its two statements, it replays exactly if both find the event failed or dead-lettered and not deleted, and reports so; the row is pending again with nothing counted, and no other changes |
| PgService.PgEventService.ReplayEventsInRange | packages/db-adapter-postgres/src/repositories/pg-event.service.ts:185-244 | Selects rows of the status asked for ('dlq' where none is), in the dates and of the aggregate type asked for, as many as the limit (100 where none is given) and all of them if they are fewer; then starts exactly those over in whatever table the second statement finds, unless the unique index refuses |
| Worker.OutboxWorker.ExecuteBatchProcessing | packages/worker/src/core/worker.ts:232-339 | For any publisher outcome, any order of the three writes and any that are lost, the table ends as if the events whose write landed had been updated one by one: a success succeeds, a retryable failure below the worker's limit waits and counts where the row has a retry left, every other failure is dead-lettered, each with the first 1000 characters of its own error; all other rows are as they were; while the batch owns its rows every write not lost lands |
| Worker.OutboxWorker.PollOnce | packages/worker/src/core/worker.ts:71-99 | One turn of the loop claims what it can and writes every claimed row back in that way, leaves 'processing' those whose write was lost or whose own limit forbids the retry, and changes nothing else |
| Worker.OutboxWorker.SortBatch | packages/worker/src/core/worker.ts:273-277 | From any outcome (missing ids, extra ids, a throw) each event ends in the group of its own decision and no other, in the order of the batch, the groups together are the batch, and the message kept for each event is that of its own result |
| Worker.OutboxWorker.WriteBatch | packages/worker/src/core/worker.ts:315-328 | In any order, with any writes lost, each row is as its own group's write leaves it |
| Worker.OutboxWorker.SendsTheProtocolsWrites | packages/worker/src/core/worker.ts:310-328 | The statements the worker sends are those the state machine attributes to its batch, and its messages are those the state machine allows |
| Worker.OutboxWorker.WriteActsOnEventAlone | packages/worker/src/core/worker.ts:315-328 | On one event the batch statement does what a statement for that event alone would do |
| Worker.GroupBatchResults | packages/worker/src/batch.ts:30-57 | The three lists hold the ids of each decision in the order of the results |
| Worker.GroupsPartition | packages/worker/src/batch.ts:30-57 | The three lists split the results: every id in exactly one, as often as it came |
| Worker.SelectContains | packages/worker/src/retry.ts:22-37 | An id is in a list exactly if some result of it has that decision |
| InboxClient.InboxyClient.ReceiveBatch | packages/sdk/src/inbox-client.ts:258-296 | Rejects exactly batches with a malformed key, a version below 1 or a repeated key, changing nothing; otherwise statuses in input order and the final table are those of receiving one by one while other transactions do the same before each INSERT and SELECT, across any number of chunks, in both id forms and for any collation; new rows stay under their own ids; without interference each result carries the id of its key's row if that is in the key's own spelling, which it is exactly if it was before or the key is new, and always where spellings are compared exactly; no statement exceeds the parameter limit, and a batch that fits into one binds 10 or 11 for each event |
| InboxClient.InboxyClient.BulkInsert | packages/sdk/src/inbox-client.ts:303-411 | The chunk loop gives the statuses and table of receiving one by one from what each chunk's INSERT finds |
| InboxClient.QuietIsOneByOne | packages/sdk/src/inbox-client.ts:321-330 | Without interference that is receiving one by one from the table at the start, whatever the chunk size |
| InboxClient.InboxyClient.Receive | packages/sdk/src/inbox-client.ts:157-243 | One receive: rejected exactly if its key is malformed or its version below 1; otherwise a key that the table the INSERT finds has in some spelling is a duplicate and changes nothing, and any other is new and added under the new id; a duplicate has no id on PostgreSQL and the unused generated one on MySQL |
| InboxTable.OneByOneStatuses | packages/sdk/src/inbox-client.ts:204-233 | Received one by one, an occurrence is new exactly if its key was neither in the table at the start nor earlier in the list, in any spelling |
| InboxTable.InsertAllSplits | packages/sdk/src/inbox-client.ts:321-330 | Inserting chunk after chunk gives the table of inserting all at once |
| InboxTable.ReturnedExactlyIfFirst | packages/sdk/src/inbox-client.ts:371-374 | RETURNING lists an occurrence's id exactly if it is the first of its key and the table did not have the key |
| InboxTable.OwnIdExactlyIfFirst | packages/db-adapter-mysql/src/repositories/mysql-inbox.repository.ts:137-152 | The row under a key carries an occurrence's generated id exactly if that occurrence was the first |
| PgInboxRepository.Repository.ReceiveBatch | packages/db-adapter-postgres/src/repositories/pg-inbox.repository.ts:70-145 | Every occurrence of a key that the INSERT does not find is reported as new, with the id found under its key; it throws exactly if the SELECT misses some key, which then was old and has been deleted |
| PgInboxRepository.BatchAgreesExactlyWithoutRepeats | packages/db-adapter-postgres/src/repositories/pg-inbox.repository.ts:114-143 | These statuses are those of receiving one by one exactly if no new key occurs twice |
| MySqlInboxRepository.Repository.ReceiveBatch | packages/db-adapter-mysql/src/repositories/mysql-inbox.repository.ts:81-155 | For any keys and collation, if it does not throw, the statuses are those of receiving one by one from the table the INSERT finds, with the ids found under the keys; it throws exactly if the SELECT misses some key's own spelling, and without interference exactly if the batch has a respelled key |
| MySqlInboxRepository.NotFoundExactlyIfRespelled | packages/db-adapter-mysql/src/repositories/mysql-inbox.repository.ts:125-143 | Some key of a batch is not there in its own spelling after the INSERT exactly if a key that is not in the table has another spelling in the table or the batch |
| MySqlInboxRepository.TwoSpellings | packages/migrations/sql/mysql/003_create_inbox_tables.sql:60 | Two spellings of one new key: received one by one the second is a duplicate, and the batch of both is one the repository throws for |
| InboxMaintenance.InboxRepository.CleanupProcessedEvents | packages/db-adapter-postgres/src/repositories/pg-inbox.repository.ts:182-202 | Rejects exactly a retention below one day; otherwise deletes exactly the rows processed longer ago than that many days, counts them, and leaves what the state machine's cleanup leaves |
| InboxMaintenance.InboxRepository.MarkFailed | packages/db-adapter-postgres/src/repositories/pg-inbox.repository.ts:153-176 | Fails exactly the rows with that id, at that instant |
| SdkClient.OutboxyClient.Publish | packages/sdk/src/client.ts:152-260 | Rejected exactly if the event has no URL of its own or by default, an unknown type, a version below 1 or a malformed key, with the first of these as the problem; otherwise a row that holds the key leaves the table as it is, and PostgreSQL returns its id, MySQL the id of no row; with no such row the event has a pending row to its own URL, or else the default, with its own data, key and limit, or the default limit, and no other row changes |
| SdkClient.OutboxyClient.PublishBatch | packages/sdk/src/client.ts:275-329 | Rejects exactly batches with such an event or a repeated key; otherwise inserts chunk after chunk from the table each INSERT finds until one is refused, and if none is, result i is the id of event i's row, with event i's own URL, data, key and limit or the defaults, still as inserted; without interference it succeeds exactly if the whole batch fits under the index, else whole leading chunks are inserted and nothing else, at least one exactly if the first chunk fits; no statement binds more than the limit |
| SdkClient.OutboxyClient.BulkInsert | packages/sdk/src/client.ts:336-437 | The chunk loop inserts, from what each chunk's INSERT finds, until one is refused; accepted events have their rows under their own ids at the end |
| SdkClient.RefusedBatchLeavesRows | packages/sdk/src/client.ts:352-365 | For both dialects, any collation and any chunk size: a valid batch of one chunk without keys and one event under a held key is refused and leaves rows inserted |
| SdkClient.QuietChunks | packages/sdk/src/client.ts:352-365 | Without interference the chunks are accepted exactly if a single statement would be, and then do what it would do |
| SdkClient.InsertedRows | packages/sdk/src/client.ts:390-427 | Row i is event i's under id i, and no other row is touched |
| SdkClient.PartsAreAllowed | packages/sdk/src/client.ts:356-365 | If the whole batch fits under the index, so does every leading part |
| Placeholders.BuildBulkInsert | packages/dialect-postgres/src/postgres-dialect.ts:41-66 | Reading the printed VALUES list back and looking its numbers up in the parameters gives exactly the rows |
| Placeholders.BuildMarkedInsert | packages/dialect-mysql/src/mysql-inbox-dialect.ts:46-72 | The same for question marks and flattened rows, numbered by position |
| Placeholders.BuildWithRunningIndex | packages/db-adapter-postgres/src/repositories/pg-inbox.repository.ts:79-101 | The running index that advances by ten prints the same text as the dialect, and it decodes to the events' rows |
| Placeholders.PrintedRowsDecode | packages/dialect-postgres/src/postgres-inbox-dialect.ts:42-69 | For any number of rows of equal width, in both notations, printing then decoding is the identity |
| Placeholders.StartIsByRowAndWidth | packages/dialect-postgres/src/postgres-dialect.ts:50-50 | The running start of row r is 1 + r * width |
| Numerals.DecimalRoundTrip | packages/dialect-postgres/src/postgres-dialect.ts:20-22 | A printed number reads back as itself |
| Grouping.GroupsAreLossless | packages/publisher-http/src/http.publisher.ts:102-114 | An event occurs in its own group as often as in the batch, and in no other group |
| Grouping.OrderIsKept | packages/publisher-kafka/src/kafka.publisher.ts:142-153 | Grouping twice keeps the batch's order within both keys |
| Grouping.SizesAddUp | packages/publisher-http/src/http.publisher.ts:135-146 | Group sizes add up to the batch |
| HttpPublisher.HttpPublisher.Publish | packages/publisher-http/src/http.publisher.ts:72-100 | In every completion order there is exactly one result per event, what the answer from the event's own URL means for it: delivered on 200 to 299 unless the body fails the event, to be retried on 408, 429, 500 upwards and a broken connection, final otherwise; each URL is sent one envelope with its events in order |
| HttpPublisher.HttpPublisher.PublishToDestination | packages/publisher-http/src/http.publisher.ts:127-219 | One request with the group's count; each of its ids gets what the answer means for it, with the error text of the status, the network or the body |
| HttpPublisher.HttpPublisher.ParseIndividualResults | packages/publisher-http/src/http.publisher.ts:239-287 | A usable body gives each id its own answer, and success to an id it does not mention; an unusable one gives nothing |
| HttpPublisher.HttpPublisher.GroupByDestination | packages/publisher-http/src/http.publisher.ts:102-114 | Non-empty groups, one for each destination, each holding exactly its events in order |
| HttpPublisher.EnvelopesCoverTheBatch | packages/publisher-http/src/http.publisher.ts:135-146 | The counts in the envelopes add up to the batch |
| HttpPublisher.DestinationsAreIsolated | packages/publisher-http/src/http.publisher.ts:85-98 | Changing what the network does with every other destination changes no result of this one |
| HttpPublisher.WorkerFollowsTheDestination | packages/publisher-http/src/http.publisher.ts:168-218 | With this publisher the worker marks an event succeeded exactly if its own URL answered 200 to 299 without failing the event, retries it while retries are left exactly on 408, 429, 500 upwards, a broken connection or a failure that does not say it is final, and gives up everything else |
| KafkaPublisher.KafkaPublisher.Publish | packages/publisher-kafka/src/kafka.publisher.ts:77-140 | Throws exactly without a producer; otherwise one send per topic, each event to the topic its own URL names and under its aggregate's key, and one result per event, what became of its topic's send, in every completion order |
| KafkaPublisher.AggregateOrderIsKept | packages/publisher-kafka/src/kafka.publisher.ts:91-109 | One partition key of one topic carries exactly that aggregate's events for the topic, in claim order |
| KafkaPublisher.MessagesCoverTheBatch | packages/publisher-kafka/src/kafka.publisher.ts:86-94 | The messages sent are as many as the events |
| KafkaPublisher.TopicsAreIsolated | packages/publisher-kafka/src/kafka.publisher.ts:119-134 | A failure on one topic changes no result of another |
| KafkaPublisher.WorkerFollowsTheTopic | packages/publisher-kafka/src/kafka.publisher.ts:113-134 | With this publisher the worker marks an event succeeded exactly if its topic's send succeeded, retries it exactly if the failure is one to retry and retries are left, and otherwise gives up |
| FindCycles.CycleFinder.FindCycles | scripts/generate-package-graph.ts:115-162 | Terminates on every finite graph and reports something exactly when the graph has a cycle; every reported pair is a loop or a reversed edge between packages on cycles; some reported pair is an edge of the graph exactly when there is a cycle of length one or two |
| FindCycles.CycleFinder.Dfs | scripts/generate-package-graph.ts:121-153 | A call returns false with the stack as it was, its node finished, and every edge out of a finished node leading to one that finished earlier or reported |
| FindCycles.CycleFinder.ReportCycle | scripts/generate-package-graph.ts:132-147 | With the parent erased, the walk back adds just the edge from the neighbour and the node's loop |
| FindCycles.SilenceMeansAcyclic | scripts/generate-package-graph.ts:155-161 | If every edge leads to an earlier finished node there is no cycle |
| FindCycles.RealEdgesExactlyOnShortCycles | scripts/generate-package-graph.ts:111-114 | The reported pairs contain a real edge exactly on graphs with a cycle of length one or two |
| Migrations.Client.RunPostgresMigrations | packages/migrations/src/runner.ts:223-291 | However its statements fail or die, COMMIT with a lost answer included, a run leaves the first j missing migrations committed, SQL and name together, with j all of them if it finished; a run that finished has its tracking table, and it was killed exactly if its last statement was the last thing it did |
| Migrations.Client.Apply | packages/migrations/src/runner.ts:266-281 | One migration's SQL and its record are committed together or not at all, and a failed one is rolled back |
| Migrations.EachMigrationCommitsOnce | packages/migrations/src/runner.ts:239-253 | Over any sequence of runs, each migration's SQL is committed at most once and exactly if its name is recorded |
| Migrations.RecordedIsAPrefix | packages/migrations/src/runner.ts:211-218 | While releases only append migrations, what is recorded is a prefix of the sorted list |
| Migrations.FinishedRunDidEverything | packages/migrations/src/runner.ts:248-282 | After a run that finished, all its migrations are and stay committed |
| Migrations.AllMigrationNames | packages/migrations/src/runner.ts:209-218 | Filtering, sorting and stripping any directory listing gives exactly the names of its migration files (three digits, an underscore, lower-case letters and underscores), in ascending order of their characters, each once |
| Migrations.DirectoryOrderDoesNotMatter | packages/migrations/src/runner.ts:211-218 | The list does not depend on the order in which the directory is read |

## Left out

- Logging, OpenTelemetry and Prometheus metrics: the worker is modelled with metrics absent.
- The REST API, NestJS module, CLI, configuration schemas, connection pools and error-code mapping: plumbing.
- Real network and driver calls: a publisher's requests are answered by an arbitrary function.
- Which Kafka errors are worth a retry: the outcome of a failed send says so itself.
- JSON serialisation, payloads, headers and metadata: opaque; which of a batch's headers are forwarded is not modelled.
- SQL text other than placeholder numbering: statements are their guard and effect on the table.
- `updated_at`, `error_details`, `event_version` and the destination type are not columns of the model; no statement's guard reads them.
- Sleeping and adaptive polling intervals, graceful stop, worker clusters and maintenance timers: scheduling is any interleaving of steps, and one turn of the poll loop is `Worker.OutboxWorker.PollOnce`.
- Soft deletion and cancellation: no code sets `deleted_at` or 'cancelled'; the guards that read them are modelled.
- MySQL: its timestamps' truncation to seconds, its unordered claim as imperative code, and the rejection of statements by its full unique index outside the SDK's inserts. Its statements are modelled on values in `MySql`.
- Publishing inside a larger business transaction: an insert becomes visible as one step, when the transaction commits.
- Two migration runners at the same time, and the MySQL runner.
- In the inbox state machine a receiveBatch is the sequence of its single receives (`InboxBatches.BatchIsItsReceives` says that this is the INSERT), for keys that no other open transaction has inserted; and markFailed is the repository's, which also moves `processed_at` (the SDK's does not, and no theorem depends on it).
- The cycle search's reported edges are pairs of names, not the text `a->b`.
- A `maxParameters` below one row's column count: the chunk loops would not advance; every dialect sets 65535.
- Fractional `eventVersion` values, which the SDK rejects, cannot be expressed.
