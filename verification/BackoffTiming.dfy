/** Why the backoff needs an assumption once a row has been recovered under its batch: a write that
    comes too late counts a second failure without a second wait. */
module BackoffTiming {
  import opened Common
  import opened OutboxTable
  import opened Protocol
  import opened Ownership
  import opened BackoffRuns
  import opened LateWrites

  /** Batch f is about to write that its attempt on row 0 failed. */
  ghost predicate AboutToRetry(s: State, f: FlightId) {
    f in s.flights && s.flights[f].phase.Writing? && s.flights[f].phase.retried == {0}
  }

  lemma ReplayRow0Alone(cfg: Config, s: State)
    requires Row0(s, Failed, 1)
    ensures var t := Next(cfg, s, Issue(ReplayOne(0)));
      Row0(t, Pending, 0) && Eligible(t.rows[0], t.now) && t.flights == s.flights && t.now == s.now
  {
    assert Enabled(cfg, s, Issue(ReplayOne(0)));
    RowsInStep(cfg, s, Issue(ReplayOne(0)), 0);
  }

  /** The retry write of a batch, landing on row 0. */
  lemma RetryRow0(cfg: Config, s: State, f: FlightId, status: Status, retries: nat)
    requires Row0(s, status, retries) && AboutToRetry(s, f) && retries < 5
    ensures var land, t := Land(f, RetryWrite), Next(cfg, s, Land(f, RetryWrite));
      && Enabled(cfg, s, land) && Row0(t, Failed, retries + 1) && t.now == s.now
      && t.rows[0].nextRetryAt == Some(s.now + Delay(cfg.backoff, retries))
      && (forall g :: g in s.flights && g != f ==> g in t.flights && t.flights[g] == s.flights[g])
      && t.flights.Keys == s.flights.Keys
  {
    assert 0 in WriteIds(s.flights[f], RetryWrite);
    assert Enabled(cfg, s, Land(f, RetryWrite));
    RowsInStep(cfg, s, Land(f, RetryWrite), 0);
  }

  const REPLAY_ROW_0 := Issue(ReplayOne(0))
  const CLAIM_1 := ClaimBatch(1, map[0 := 0])

  /** An admin replays the recovered row, and batch 1 claims it. */
  lemma ClaimedAfterReplay(cfg: Config, s: State)
    requires cfg.batchSize > 0 && Row0(s, Failed, 1) && AtPublisher(s, 0, 0) && s.flights.Keys == {0}
    ensures var t := Next(cfg, Next(cfg, s, REPLAY_ROW_0), CLAIM_1);
      Row0(t, Processing, 0) && AtPublisher(t, 0, 0) && AtPublisher(t, 1, 0) && t.flights.Keys == {0, 1}
  {
    ReplayRow0Alone(cfg, s);
    ClaimRow0(cfg, Next(cfg, s, REPLAY_ROW_0), 1, Pending, 0);
  }

  function Fails(f: FlightId): Step {
    DecideBatch(f, "worker", map[0 := FAILED], map[])
  }

  /** Both batches fail and decide to retry. */
  lemma BothFail(cfg: Config, s: State)
    requires cfg.maxRetries > 0
    requires Row0(s, Processing, 0) && AtPublisher(s, 0, 0) && AtPublisher(s, 1, 0) && s.flights.Keys == {0, 1}
    ensures var t := Next(cfg, Next(cfg, s, Fails(0)), Fails(1));
      Row0(t, Processing, 0) && AboutToRetry(t, 0) && AboutToRetry(t, 1) && t.flights.Keys == {0, 1}
  {
    DecideRow0(cfg, s, 0, 0, FAILED);
    DecideRow0(cfg, Next(cfg, s, Fails(0)), 1, 0, FAILED);
  }

  /** Claimed by batch 0, recovered, replayed by an admin and claimed by batch 1, with both batches failing. */
  lemma BothAboutToRetry(cfg: Config) returns (steps: seq<Step>)
    requires cfg.batchSize > 0 && cfg.maxRetries > 0
    ensures var s := Run(cfg, INITIAL, steps);
      Row0(s, Processing, 0) && AboutToRetry(s, 0) && AboutToRetry(s, 1) && s.flights.Keys == {0, 1}
    ensures NoRangeReplay(steps)
  {
    var recovered := ClaimedThenRecovered(cfg);
    var s := Run(cfg, INITIAL, recovered);
    ClaimedAfterReplay(cfg, s);
    BothFail(cfg, Next(cfg, Next(cfg, s, REPLAY_ROW_0), CLAIM_1));
    var more := RunFour(cfg, s, REPLAY_ROW_0, CLAIM_1, Fails(0), Fails(1));
    RunConcat(cfg, INITIAL, recovered, more);
    steps := recovered + more;
  }

  /** Batch 1 counts the first failure, batch 0 the second, and the row waits out the second delay alone. */
  lemma BothLand(cfg: Config, s: State)
    requires Row0(s, Processing, 0) && AboutToRetry(s, 0) && AboutToRetry(s, 1) && s.flights.Keys == {0, 1}
    requires cfg.batchSize > 0 && Delay(cfg.backoff, 1) > 0.0
    ensures Enabled(cfg, s, Land(1, RetryWrite)) && FailsBefore(s, Land(1, RetryWrite), 0)
    ensures var t := Next(cfg, Next(cfg, Next(cfg, s, Land(1, RetryWrite)), Land(0, RetryWrite)),
                          Tick(Delay(cfg.backoff, 1)));
      Enabled(cfg, t, CLAIM_2) && t.now == s.now + Delay(cfg.backoff, 1)
  {
    RetryRow0(cfg, s, 1, Processing, 0);
    var s1 := Next(cfg, s, Land(1, RetryWrite));
    RetryRow0(cfg, s1, 0, Failed, 1);
    var s2 := Next(cfg, s1, Land(0, RetryWrite));
    TickMovesTheClock(cfg, s2, Delay(cfg.backoff, 1));
    ClaimRow0IsEnabled(cfg, Next(cfg, s2, Tick(Delay(cfg.backoff, 1))));
  }

  const CLAIM_2 := ClaimBatch(2, map[0 := 2])

  lemma ClaimRow0IsEnabled(cfg: Config, s: State)
    requires cfg.batchSize > 0 && Row0(s, Failed, 2) && Eligible(s.rows[0], s.now) && 2 !in s.flights
    ensures Enabled(cfg, s, CLAIM_2)
  {
    assert map[0 := 2].Keys == {0};
  }

  /** Batch writes and the clock are the workers' doing. */
  lemma WorkersAlone(cfg: Config, steps: seq<Step>, first: nat, id: EventId)
    requires forall j :: first < j < |steps| ==> steps[j].Land? || steps[j].Tick?
    ensures LeftToWorkers(cfg, steps, first, id)
  {
  }

  lemma ThenThree(cfg: Config, before: seq<Step>, a: Step, b: Step, c: Step) returns (steps: seq<Step>)
    requires NoRangeReplay(before) && !a.ReplayRange? && !b.ReplayRange? && !c.ReplayRange?
    ensures |steps| == |before| + 3 && steps[..|before|] == before && steps[|before|..] == [a, b, c]
    ensures Run(cfg, INITIAL, steps) == Next(cfg, Next(cfg, Next(cfg, Run(cfg, INITIAL, before), a), b), c)
    ensures RangesUninterrupted(cfg, steps)
  {
    RunThen(cfg, INITIAL, before, a);
    RunThen(cfg, INITIAL, before + [a], b);
    RunThen(cfg, INITIAL, before + [a] + [b], c);
    steps := before + [a] + [b] + [c];
    NothingToInterrupt(cfg, steps);
  }

  lemma NothingToInterrupt(cfg: Config, steps: seq<Step>)
    requires NoRangeReplay(steps)
    ensures RangesUninterrupted(cfg, steps)
  {
    assert forall j :: 0 <= j < |steps| ==> steps[j] in steps;
  }

  /** For every configuration whose delays are positive: after both failures have been counted, the event is
      claimed at retry count 2 when only its second delay has passed since the first of them, although it was
      left to the workers throughout and no range was replayed. */
  lemma {:induction false} LateFailureCutsTheBackoff(cfg: Config)
    returns (steps: seq<Step>, first: nat, claim: Step)
    requires cfg.batchSize > 0 && cfg.maxRetries > 0 && cfg.backoff.baseMs > 0.0 && cfg.backoff.multiplier > 0.0
    ensures RangesUninterrupted(cfg, steps)
    ensures first < |steps| && FailsFirst(cfg, steps, first, 0) && LeftToWorkers(cfg, steps, first, 0)
    ensures claim == ClaimBatch(2, map[0 := 2]) && Enabled(cfg, Run(cfg, INITIAL, steps), claim)
    ensures Run(cfg, INITIAL, steps).now - Run(cfg, INITIAL, steps[..first]).now
      == Delay(cfg.backoff, 1) < TotalDelay(cfg.backoff, 2)
  {
    var before := BothAboutToRetry(cfg);
    var s := Run(cfg, INITIAL, before);
    var land1, land0, wait := Land(1, RetryWrite), Land(0, RetryWrite), Tick(Delay(cfg.backoff, 1));
    DelaysArePositive(cfg.backoff);
    BothLand(cfg, s);
    first, claim := |before|, CLAIM_2;
    steps := ThenThree(cfg, before, land1, land0, wait);
    assert forall j :: first <= j < |steps| ==> steps[j] == steps[first..][j - first];
    WorkersAlone(cfg, steps, first, 0);
  }

  lemma DelaysArePositive(backoff: Backoff)
    requires backoff.baseMs > 0.0 && backoff.multiplier > 0.0
    ensures 0.0 < Delay(backoff, 0) && 0.0 < Delay(backoff, 1)
    ensures Delay(backoff, 1) < TotalDelay(backoff, 2)
  {
    assert Pow(backoff.multiplier, 1) == backoff.multiplier * Pow(backoff.multiplier, 0);
    assert TotalDelay(backoff, 1) == TotalDelay(backoff, 0) + Delay(backoff, 0);
  }
}
