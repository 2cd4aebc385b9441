/** What goes wrong without the timing assumption, and exactly when: no batch write checks
    the status it overwrites. */
module LateWrites {
  import opened Common
  import opened OutboxTable
  import opened Retry
  import opened Protocol

  /** The step overwrites the row whatever its status: a batch's failure write that names it,
      or the second statement of a range replay that selected it. */
  ghost predicate Overwrites(s: State, step: Step, id: EventId)
    requires id in s.rows
  {
    match step
    case Land(f, RetryWrite) =>
      InFlight(s, f, RetryWrite) && id in s.flights[f].phase.retried && s.rows[id].retryCount < s.rows[id].maxRetries
    case Land(f, DlqWrite) => InFlight(s, f, DlqWrite) && id in s.flights[f].phase.dead
    case ReplayRange(r) => r in s.ranges && id in s.ranges[r]
    case _ => false
  }

  /** In any state, a 'succeeded' row loses that status exactly when an accepted step overwrites it. */
  lemma SuccessIsUndoneExactlyByOverwriting(cfg: Config, s: State, step: Step, id: EventId)
    requires id in s.rows && s.rows[id].status == Succeeded
    ensures id in Next(cfg, s, step).rows
    ensures Next(cfg, s, step).rows[id].status != Succeeded <==> Enabled(cfg, s, step) && Overwrites(s, step, id)
  {
    if Enabled(cfg, s, step) {
      RowsInStep(cfg, s, step, id);
    }
  }

  const DELIVERED := PublishResult(true, None, false)
  const FAILED := PublishResult(false, None, true)

  /** One row, numbered 0, with the given status and retry count, five retries, and no key. */
  ghost predicate Row0(s: State, status: Status, retries: nat) {
    && s.rows.Keys == {0}
    && s.rows[0].status == status && s.rows[0].retryCount == retries && s.rows[0].maxRetries == 5
    && s.rows[0].idempotencyKey.None? && s.rows[0].deletedAt.None?
  }

  ghost predicate AtPublisher(s: State, f: FlightId, retries: nat) {
    f in s.flights && s.flights[f].phase.Publishing? && s.flights[f].attempts == map[0 := retries]
  }

  lemma ClaimRow0(cfg: Config, s: State, f: FlightId, status: Status, retries: nat)
    requires cfg.batchSize > 0 && Row0(s, status, retries) && Eligible(s.rows[0], s.now) && f !in s.flights
    ensures var t := Next(cfg, s, ClaimBatch(f, map[0 := retries]));
      && Row0(t, Processing, retries) && AtPublisher(t, f, retries)
      && t.rows[0].processingStartedAt == Some(s.now) && t.now == s.now && t.ranges == s.ranges
      && forall g :: g in s.flights ==> g in t.flights && t.flights[g] == s.flights[g]
  {
    assert map[0 := retries].Keys == {0};
    assert Enabled(cfg, s, ClaimBatch(f, map[0 := retries]));
    RowsInStep(cfg, s, ClaimBatch(f, map[0 := retries]), 0);
  }

  lemma RecoverRow0(cfg: Config, s: State, retries: nat)
    requires Row0(s, Processing, retries) && Stale(s.rows[0], s.now, cfg.staleThresholdMs)
    ensures var t := Next(cfg, s, Issue(RecoverStale(cfg.staleThresholdMs)));
      Row0(t, Failed, retries + 1) && t.flights == s.flights && t.now == s.now && t.ranges == s.ranges
        && t.rows[0].nextRetryAt == Some(s.now + 1000.0)
  {
  }

  lemma DecideRow0(cfg: Config, s: State, f: FlightId, retries: nat, result: PublishResult)
    requires AtPublisher(s, f, retries) && result.error.None?
    ensures var t := Next(cfg, s, DecideBatch(f, "worker", map[0 := result], map[]));
      && t.rows == s.rows && t.now == s.now && t.ranges == s.ranges
      && (forall g :: g in s.flights && g != f ==> g in t.flights && t.flights[g] == s.flights[g])
      && f in t.flights && t.flights[f].phase.Writing?
      && (result.success ==> t.flights[f].phase.succeeded == {0})
      && (!result.success && result.retryable && retries < cfg.maxRetries ==> t.flights[f].phase.retried == {0})
      && (!result.success && retries >= cfg.maxRetries ==> t.flights[f].phase.dead == {0})
  {
  }

  lemma LandRow0(cfg: Config, s: State, f: FlightId, kind: WriteKind, status: Status, retries: nat)
    requires Row0(s, status, retries) && InFlight(s, f, kind) && WriteIds(s.flights[f], kind) == {0}
    requires kind == RetryWrite ==> retries < 5
    ensures var t := Next(cfg, s, Land(f, kind));
      && (kind == SuccessWrite ==> Row0(t, Succeeded, retries))
      && (kind == RetryWrite ==> Row0(t, Failed, retries + 1))
      && (kind == DlqWrite ==> Row0(t, Dlq, retries))
      && t.ranges == s.ranges
      && forall g :: g in s.flights && g != f ==> g in t.flights && t.flights[g] == s.flights[g]
  {
    assert 0 in WriteIds(s.flights[f], kind);
    assert Enabled(cfg, s, Land(f, kind));
    RowsInStep(cfg, s, Land(f, kind), 0);
  }

  const INSERT_ROW_0 := Issue(Insert(0, EventData("", "", "", ""), None, 5))

  lemma InsertRow0(cfg: Config)
    ensures var t := Next(cfg, INITIAL, INSERT_ROW_0);
      Row0(t, Pending, 0) && Eligible(t.rows[0], t.now) && t.flights == map[] && t.ranges == map[] && t.now == 0.0
  {
    assert Enabled(cfg, INITIAL, INSERT_ROW_0);
  }

  lemma TickMovesTheClock(cfg: Config, s: State, delta: Millis)
    requires delta > 0.0
    ensures Next(cfg, s, Tick(delta)) == s.(now := s.now + delta)
  {
  }

  ghost predicate NoRangeReplay(steps: seq<Step>) {
    forall step :: step in steps ==> !step.ReplayRange?
  }

  lemma RunFour(cfg: Config, s: State, a: Step, b: Step, c: Step, d: Step) returns (steps: seq<Step>)
    ensures Run(cfg, s, steps) == Next(cfg, Next(cfg, Next(cfg, Next(cfg, s, a), b), c), d)
    ensures !a.ReplayRange? && !b.ReplayRange? && !c.ReplayRange? && !d.ReplayRange? ==> NoRangeReplay(steps)
  {
    RunThen(cfg, s, [], a);
    RunThen(cfg, s, [] + [a], b);
    RunThen(cfg, s, [] + [a] + [b], c);
    RunThen(cfg, s, [] + [a] + [b] + [c], d);
    steps := [] + [a] + [b] + [c] + [d];
  }

  const CLAIM_0 := ClaimBatch(0, map[0 := 0])

  /** A batch claims the row and is still at the publisher when the row has gone stale. */
  lemma ClaimedAndStale(cfg: Config, s: State, wait: Millis)
    requires cfg.batchSize > 0 && wait > 0.0 && wait > cfg.staleThresholdMs
    requires Row0(s, Pending, 0) && Eligible(s.rows[0], s.now) && s.flights == map[] && s.ranges == map[]
    ensures var t := Next(cfg, Next(cfg, s, CLAIM_0), Tick(wait));
      && Row0(t, Processing, 0) && Stale(t.rows[0], t.now, cfg.staleThresholdMs)
      && AtPublisher(t, 0, 0) && t.flights.Keys == {0} && t.ranges == map[]
  {
    ClaimRow0(cfg, s, 0, Pending, 0);
    TickMovesTheClock(cfg, Next(cfg, s, CLAIM_0), wait);
  }

  /** Insert, claim, wait for the row to go stale, and recover it: the batch is still at the publisher. */
  lemma ClaimedThenRecovered(cfg: Config) returns (steps: seq<Step>)
    requires cfg.batchSize > 0
    ensures var s := Run(cfg, INITIAL, steps);
      && Row0(s, Failed, 1) && AtPublisher(s, 0, 0) && s.flights.Keys == {0} && s.ranges == map[]
      && s.rows[0].nextRetryAt == Some(s.now + 1000.0)
    ensures NoRangeReplay(steps)
  {
    var wait := if cfg.staleThresholdMs > 0.0 then cfg.staleThresholdMs + 1.0 else 1.0;
    var recover := Issue(RecoverStale(cfg.staleThresholdMs));
    var s0 := Next(cfg, INITIAL, INSERT_ROW_0);
    InsertRow0(cfg);
    ClaimedAndStale(cfg, s0, wait);
    RecoverRow0(cfg, Next(cfg, Next(cfg, s0, CLAIM_0), Tick(wait)), 0);
    steps := RunFour(cfg, INITIAL, INSERT_ROW_0, CLAIM_0, Tick(wait), recover);
  }

  /** Then wait and claim it again: two batches have the same row at their publishers. */
  lemma ClaimedTwice(cfg: Config) returns (steps: seq<Step>)
    requires cfg.batchSize > 0
    ensures var s := Run(cfg, INITIAL, steps);
      Row0(s, Processing, 1) && AtPublisher(s, 0, 0) && AtPublisher(s, 1, 1)
  {
    var recovered := ClaimedThenRecovered(cfg);
    var claim := ClaimBatch(1, map[0 := 1]);
    TickMovesTheClock(cfg, Run(cfg, INITIAL, recovered), 1000.0);
    ClaimRow0(cfg, Next(cfg, Run(cfg, INITIAL, recovered), Tick(1000.0)), 1, Failed, 1);
    RunThen(cfg, INITIAL, recovered, Tick(1000.0));
    RunThen(cfg, INITIAL, recovered + [Tick(1000.0)], claim);
    steps := recovered + [Tick(1000.0)] + [claim];
  }

  /** The second batch succeeds and lands; the first is still at the publisher. */
  lemma SucceededMeanwhile(cfg: Config) returns (steps: seq<Step>)
    requires cfg.batchSize > 0
    ensures Row0(Run(cfg, INITIAL, steps), Succeeded, 1) && AtPublisher(Run(cfg, INITIAL, steps), 0, 0)
  {
    var twice := ClaimedTwice(cfg);
    var s := Run(cfg, INITIAL, twice);
    var ok := DecideBatch(1, "worker", map[0 := DELIVERED], map[]);
    DecideRow0(cfg, s, 1, 1, DELIVERED);
    LandRow0(cfg, Next(cfg, s, ok), 1, SuccessWrite, Processing, 1);
    RunThen(cfg, INITIAL, twice, ok);
    RunThen(cfg, INITIAL, twice + [ok], Land(1, SuccessWrite));
    steps := twice + [ok] + [Land(1, SuccessWrite)];
  }

  /** For every configuration: a worker whose failure write arrives after stale recovery and a
      second worker's success turns 'succeeded' back into 'failed', or into 'dlq' where the
      workers never retry. */
  lemma {:induction false} LateFailureUndoesSuccess(cfg: Config) returns (before: seq<Step>, late: Step)
    requires cfg.batchSize > 0
    ensures Row0(Run(cfg, INITIAL, before), Succeeded, 1)
    ensures var after := Run(cfg, INITIAL, before + [late]);
      if cfg.maxRetries > 0 then Row0(after, Failed, 2) else Row0(after, Dlq, 1)
  {
    var meanwhile := SucceededMeanwhile(cfg);
    var s := Run(cfg, INITIAL, meanwhile);
    var bad := DecideBatch(0, "worker", map[0 := FAILED], map[]);
    var kind := if cfg.maxRetries > 0 then RetryWrite else DlqWrite;
    DecideRow0(cfg, s, 0, 0, FAILED);
    LandRow0(cfg, Next(cfg, s, bad), 0, kind, Succeeded, 1);
    before := meanwhile + [bad];
    late := Land(0, kind);
    RunThen(cfg, INITIAL, meanwhile, bad);
    RunThen(cfg, INITIAL, before, late);
  }

  // The second way: a range replay that is interrupted.

  lemma SelectRow0(cfg: Config, s: State, retries: nat)
    requires Row0(s, Failed, retries) && 0 !in s.ranges
    ensures Next(cfg, s, SelectRange(0, {0})) == s.(ranges := s.ranges[0 := {0}])
  {
  }

  lemma ReplayRow0(cfg: Config, s: State, status: Status, retries: nat)
    requires Row0(s, status, retries) && 0 in s.ranges && s.ranges[0] == {0}
    ensures Row0(Next(cfg, s, ReplayRange(0)), Pending, 0)
  {
    assert Enabled(cfg, s, ReplayRange(0));
    RowsInStep(cfg, s, ReplayRange(0), 0);
  }

  /** A failed row is selected for replay, then claimed, delivered and marked as succeeded. */
  lemma SucceededAfterSelection(cfg: Config) returns (steps: seq<Step>)
    requires cfg.batchSize > 0
    ensures var s := Run(cfg, INITIAL, steps);
      Row0(s, Succeeded, 1) && 0 in s.ranges && s.ranges[0] == {0}
  {
    var recovered := ClaimedThenRecovered(cfg);
    var s0 := Run(cfg, INITIAL, recovered);
    var select := SelectRange(0, {0});
    SelectRow0(cfg, s0, 1);
    var s1 := Next(cfg, s0, select);
    TickMovesTheClock(cfg, s1, 1000.0);
    var s2 := Next(cfg, s1, Tick(1000.0));
    var claim := ClaimBatch(1, map[0 := 1]);
    ClaimRow0(cfg, s2, 1, Failed, 1);
    var s3 := Next(cfg, s2, claim);
    var ok := DecideBatch(1, "worker", map[0 := DELIVERED], map[]);
    DecideRow0(cfg, s3, 1, 1, DELIVERED);
    LandRow0(cfg, Next(cfg, s3, ok), 1, SuccessWrite, Processing, 1);
    var claimed := RunFour(cfg, s0, select, Tick(1000.0), claim, ok);
    RunConcat(cfg, INITIAL, recovered, claimed);
    RunThen(cfg, INITIAL, recovered + claimed, Land(1, SuccessWrite));
    steps := recovered + claimed + [Land(1, SuccessWrite)];
  }

  /** For every configuration: a range replay whose row succeeds between its SELECT and its UPDATE
      resets the succeeded row to 'pending'. */
  lemma {:induction false} InterruptedReplayUndoesSuccess(cfg: Config) returns (before: seq<Step>)
    requires cfg.batchSize > 0
    ensures Row0(Run(cfg, INITIAL, before), Succeeded, 1)
    ensures Row0(Run(cfg, INITIAL, before + [ReplayRange(0)]), Pending, 0)
  {
    before := SucceededAfterSelection(cfg);
    RunThen(cfg, INITIAL, before, ReplayRange(0));
    ReplayRow0(cfg, Run(cfg, INITIAL, before), Succeeded, 1);
  }
}
