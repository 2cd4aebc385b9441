/** Exponential backoff over whole runs: how long after its first failure an event can be
    claimed for the k-th retry. */
module BackoffRuns {
  import opened Common
  import opened OutboxTable
  import opened Protocol
  import opened Ownership

  /** The sum of the first k delays. */
  function TotalDelay(backoff: Backoff, k: nat): Millis {
    if k == 0 then 0.0 else TotalDelay(backoff, k - 1) + Delay(backoff, k - 1)
  }

  lemma Distribute(m: real, t: real, x: real)
    ensures (m - 1.0) * (t + x) == (m - 1.0) * t + (m * x - x)
  {
  }

  lemma Reorder(m: real, b: real, p: real)
    ensures m * (b * p) == b * (m * p)
  {
  }

  /** base * (m^k - 1) / (m - 1), written without the division. */
  lemma {:induction false} TotalDelayClosedForm(backoff: Backoff, k: nat)
    ensures (backoff.multiplier - 1.0) * TotalDelay(backoff, k) == backoff.baseMs * (Pow(backoff.multiplier, k) - 1.0)
  {
    if k > 0 {
      TotalDelayClosedForm(backoff, k - 1);
      Distribute(backoff.multiplier, TotalDelay(backoff, k - 1), Delay(backoff, k - 1));
      Reorder(backoff.multiplier, backoff.baseMs, Pow(backoff.multiplier, k - 1));
    }
  }

  /** With the default multiplier of 2 the waits are 1, 2, 4, ... times the base, in all base * (2^k - 1). */
  lemma {:induction false} DoublingDelays(baseMs: real, k: nat)
    ensures TotalDelay(Backoff(baseMs, 2.0), k) == baseMs * (Pow(2.0, k) - 1.0)
  {
    TotalDelayClosedForm(Backoff(baseMs, 2.0), k);
  }

  /** The step recovers or replays the row, so its failure count is no longer the workers' doing. */
  ghost predicate Interferes(cfg: Config, s: State, step: Step, id: EventId) {
    && Enabled(cfg, s, step) && id in s.rows
    && match StatementOf(cfg, s, step)
       case Some(statement) =>
         && (statement.RecoverStale? || statement.ReplayOne? || statement.ReplayRows?)
         && Hits(statement, id, s.rows[id], s.now)
       case None => false
  }

  ghost predicate FailsBefore(s: State, step: Step, id: EventId) {
    && step.Land? && step.kind == RetryWrite && InFlight(s, step.flight, RetryWrite)
    && id in s.rows && id in s.flights[step.flight].phase.retried
    && s.rows[id].retryCount == 0 && s.rows[id].retryCount < s.rows[id].maxRetries
  }

  /** What the backoff guarantees in between: an event with k failures is not claimed again
      before the sum of its first k delays has passed since start. */
  ghost predicate HeldBack(cfg: Config, s: State, id: EventId, start: Millis) {
    && id in s.rows
    && var row := s.rows[id];
       var earliest := start + TotalDelay(cfg.backoff, row.retryCount);
       && row.status != Pending
       && (row.status == Failed ==> row.nextRetryAt.Some? && row.nextRetryAt.value >= earliest)
       && (row.status == Processing ==> s.now >= earliest)
  }

  /** A batch write that is about to land names the row. */
  ghost predicate Writes(s: State, step: Step, id: EventId) {
    && step.Land? && InFlight(s, step.flight, step.kind)
    && id in WriteIds(s.flights[step.flight], step.kind)
  }

  /** The row is left to the workers, and their writes find it as claimed: 'processing'. */
  ghost predicate Regular(cfg: Config, s: State, step: Step, id: EventId) {
    && !Interferes(cfg, s, step, id)
    && (Writes(s, step, id) ==> id in s.rows && s.rows[id].status == Processing)
  }

  lemma HeldBackInStep(cfg: Config, s: State, step: Step, id: EventId, start: Millis)
    requires HeldBack(cfg, s, id, start) && Regular(cfg, s, step, id)
    ensures HeldBack(cfg, Next(cfg, s, step), id, start)
  {
    if Enabled(cfg, s, step) {
      RowsInStep(cfg, s, step, id);
    }
  }

  /** The step that fails the event for the first time. */
  ghost predicate FailsFirst(cfg: Config, steps: seq<Step>, first: nat, id: EventId)
    requires first < |steps|
  {
    var s := Run(cfg, INITIAL, steps[..first]);
    Enabled(cfg, s, steps[first]) && FailsBefore(s, steps[first], id)
  }

  /** It starts the backoff. */
  lemma FirstFailureHoldsBack(cfg: Config, s: State, step: Step, id: EventId)
    requires Enabled(cfg, s, step) && FailsBefore(s, step, id)
    ensures HeldBack(cfg, Next(cfg, s, step), id, s.now)
  {
  }

  ghost predicate RegularSince(cfg: Config, steps: seq<Step>, first: nat, id: EventId) {
    forall j :: first < j < |steps| ==> Regular(cfg, Run(cfg, INITIAL, steps[..j]), steps[j], id)
  }

  lemma {:induction false} RegularBefore(cfg: Config, steps: seq<Step>, first: nat, id: EventId, n: nat)
    requires n <= |steps| && RegularSince(cfg, steps, first, id)
    ensures RegularSince(cfg, steps[..n], first, id)
  {
    var before := steps[..n];
    forall j | first < j < |before|
      ensures Regular(cfg, Run(cfg, INITIAL, before[..j]), before[j], id)
    {
      assert before[..j] == steps[..j];
    }
  }

  lemma {:induction false} HeldBackSince(cfg: Config, steps: seq<Step>, first: nat, id: EventId)
    requires first < |steps| && FailsFirst(cfg, steps, first, id) && RegularSince(cfg, steps, first, id)
    ensures HeldBack(cfg, Run(cfg, INITIAL, steps), id, Run(cfg, INITIAL, steps[..first]).now)
    decreases |steps|
  {
    var n := |steps| - 1;
    if first == n {
      FirstFailureHoldsBack(cfg, Run(cfg, INITIAL, steps[..n]), steps[n], id);
    } else {
      assert steps[..n][..first] == steps[..first];
      RegularBefore(cfg, steps, first, id, n);
      HeldBackSince(cfg, steps[..n], first, id);
      HeldBackInStep(cfg, Run(cfg, INITIAL, steps[..n]), steps[n], id, Run(cfg, INITIAL, steps[..first]).now);
    }
  }

  /** From the first failure on nobody recovers or replays the row: its failures all go through scheduleRetry. */
  ghost predicate LeftToWorkers(cfg: Config, steps: seq<Step>, first: nat, id: EventId) {
    forall j :: first < j < |steps| ==> !Interferes(cfg, Run(cfg, INITIAL, steps[..j]), steps[j], id)
  }

  // A row that was never taken from a batch, with no assumption on time.

  ghost predicate Owns(s: State, f: FlightId, id: EventId) {
    f in s.flights && id in s.flights[f].Owned()
  }

  /** The row is as the batch claimed it. */
  ghost predicate AsClaimed(s: State, f: FlightId, id: EventId)
    requires f in s.flights
  {
    && id in s.rows && s.rows[id].status == Processing
    && id in s.flights[f].attempts && s.flights[f].attempts[id] == s.rows[id].retryCount
  }

  /** At most one batch has still to write the row, and the row is as that batch claimed it. */
  ghost predicate Sole(s: State, id: EventId) {
    && (forall f :: f in s.flights ==> Split(s.flights[f]))
    && (forall f, g :: Owns(s, f, id) && Owns(s, g, id) ==> f == g)
    && (forall f :: Owns(s, f, id) ==> AsClaimed(s, f, id))
  }

  /** Recovery or a range replay resets the row while a batch has still to write it. */
  ghost predicate TakenFromBatch(cfg: Config, s: State, step: Step, id: EventId) {
    && Enabled(cfg, s, step) && id in s.rows
    && (exists f :: Owns(s, f, id))
    && match StatementOf(cfg, s, step)
       case Some(statement) =>
         (statement.RecoverStale? || statement.ReplayRows?) && Hits(statement, id, s.rows[id], s.now)
       case None => false
  }

  /** Until that happens, only the owner's own write changes the row. */
  lemma SoleOwnersRow(cfg: Config, s: State, step: Step, id: EventId, f: FlightId)
    requires Enabled(cfg, s, step) && Sole(s, id) && !TakenFromBatch(cfg, s, step, id) && Owns(s, f, id)
    ensures id in After(cfg, s, step).rows
    ensures After(cfg, s, step).rows[id] == s.rows[id] || (Writes(s, step, id) && step.flight == f)
  {
    assert AsClaimed(s, f, id);
    RowsInStep(cfg, s, step, id);
    if Writes(s, step, id) {
      assert Owns(s, step.flight, id);
    }
  }

  /** An owner after a step was one before, or has just claimed a row that nobody owned. */
  lemma OwnerBefore(cfg: Config, s: State, step: Step, id: EventId, f: FlightId)
    requires Enabled(cfg, s, step) && Sole(s, id) && Owns(After(cfg, s, step), f, id)
    ensures if f in s.flights then Owns(s, f, id)
            else step.ClaimBatch? && step.flight == f && id in step.returned && forall g :: !Owns(s, g, id)
  {
    if f in s.flights {
      OwnedShrinks(cfg, s, step, f);
    } else {
      forall g
        ensures !Owns(s, g, id)
      {
        assert Owns(s, g, id) ==> AsClaimed(s, g, id);
      }
    }
  }

  lemma SoleInStep(cfg: Config, s: State, step: Step, id: EventId)
    requires Sole(s, id) && !TakenFromBatch(cfg, s, step, id)
    ensures Sole(Next(cfg, s, step), id)
  {
    if Enabled(cfg, s, step) {
      var t := After(cfg, s, step);
      forall f | f in t.flights
        ensures Split(t.flights[f])
      {
        if f in s.flights {
          OwnedShrinks(cfg, s, step, f);
        }
      }
      forall f | Owns(t, f, id)
        ensures AsClaimed(t, f, id)
        ensures forall g :: Owns(t, g, id) ==> f == g
      {
        OwnerStaysSole(cfg, s, step, id, f);
      }
    }
  }

  lemma OwnerStaysSole(cfg: Config, s: State, step: Step, id: EventId, f: FlightId)
    requires Sole(s, id) && Enabled(cfg, s, step) && !TakenFromBatch(cfg, s, step, id)
    requires Owns(After(cfg, s, step), f, id)
    ensures AsClaimed(After(cfg, s, step), f, id)
    ensures forall g :: Owns(After(cfg, s, step), g, id) ==> f == g
  {
    OwnerBefore(cfg, s, step, id, f);
    if f in s.flights {
      OwnedShrinks(cfg, s, step, f);
      SoleOwnersRow(cfg, s, step, id, f);
      assert AsClaimed(s, f, id);
    } else {
      RowsInStep(cfg, s, step, id);
    }
    forall g | Owns(After(cfg, s, step), g, id)
      ensures f == g
    {
      OwnerBefore(cfg, s, step, id, g);
    }
  }

  ghost predicate NeverTaken(cfg: Config, steps: seq<Step>, id: EventId) {
    forall j :: 0 <= j < |steps| ==> !TakenFromBatch(cfg, Run(cfg, INITIAL, steps[..j]), steps[j], id)
  }

  lemma {:induction false} NeverTakenBefore(cfg: Config, steps: seq<Step>, id: EventId, n: nat)
    requires n <= |steps| && NeverTaken(cfg, steps, id)
    ensures NeverTaken(cfg, steps[..n], id)
  {
    var before := steps[..n];
    forall j | 0 <= j < |before|
      ensures !TakenFromBatch(cfg, Run(cfg, INITIAL, before[..j]), before[j], id)
    {
      assert before[..j] == steps[..j];
    }
  }

  /** In every run, however late its writes, a row never taken from a batch has at most one batch to write it,
      and is as that batch claimed it. */
  lemma {:induction false} AlwaysSole(cfg: Config, steps: seq<Step>, id: EventId)
    requires NeverTaken(cfg, steps, id)
    ensures Sole(Run(cfg, INITIAL, steps), id)
  {
    if steps != [] {
      var n := |steps| - 1;
      NeverTakenBefore(cfg, steps, id, n);
      AlwaysSole(cfg, steps[..n], id);
      SoleInStep(cfg, Run(cfg, INITIAL, steps[..n]), steps[n], id);
    }
  }

  /** With no assumption on time: a claim at retry count k comes no earlier than its first k delays, added up,
      after the first failure, if the k failures went through scheduleRetry and the row was never recovered or
      range-replayed under a batch that had still to write it. */
  lemma {:induction false} RetryIsNotTooEarly(cfg: Config, steps: seq<Step>, first: nat, id: EventId, claim: Step)
    requires NeverTaken(cfg, steps, id)
    requires first < |steps| && FailsFirst(cfg, steps, first, id) && LeftToWorkers(cfg, steps, first, id)
    requires claim.ClaimBatch? && id in claim.returned && Enabled(cfg, Run(cfg, INITIAL, steps), claim)
    ensures Run(cfg, INITIAL, steps).now - Run(cfg, INITIAL, steps[..first]).now
      >= TotalDelay(cfg.backoff, claim.returned[id])
  {
    forall j | first < j < |steps|
      ensures Regular(cfg, Run(cfg, INITIAL, steps[..j]), steps[j], id)
    {
      var s := Run(cfg, INITIAL, steps[..j]);
      NeverTakenBefore(cfg, steps, id, j);
      AlwaysSole(cfg, steps[..j], id);
      assert Writes(s, steps[j], id) ==> Owns(s, steps[j].flight, id);
    }
    HeldBackSince(cfg, steps, first, id);
  }

  // Any row, if the run is well-timed.

  lemma OrderlyWriteFindsItProcessing(cfg: Config, s: State, step: Step, id: EventId)
    requires Exclusive(cfg, s) && Orderly(cfg, s, step) && Writes(s, step, id)
    ensures id in s.rows && s.rows[id].status == Processing
  {
    assert FlightOk(cfg, s, step.flight) && Holds(s.flights[step.flight], s.rows, id);
  }

  /** The same for any row, however often it was recovered or replayed before, if the run is well-timed. */
  lemma {:induction false} RetryIsNotTooEarlyIfWellTimed(cfg: Config, steps: seq<Step>, first: nat, id: EventId,
                                                         claim: Step)
    requires WellTimed(cfg, steps)
    requires first < |steps| && FailsFirst(cfg, steps, first, id) && LeftToWorkers(cfg, steps, first, id)
    requires claim.ClaimBatch? && id in claim.returned && Enabled(cfg, Run(cfg, INITIAL, steps), claim)
    ensures Run(cfg, INITIAL, steps).now - Run(cfg, INITIAL, steps[..first]).now
      >= TotalDelay(cfg.backoff, claim.returned[id])
  {
    forall j | first < j < |steps|
      ensures Regular(cfg, Run(cfg, INITIAL, steps[..j]), steps[j], id)
    {
      var s := Run(cfg, INITIAL, steps[..j]);
      PrefixIsWellTimed(cfg, steps, j);
      OwnershipIsExclusive(cfg, steps[..j]);
      WellTimedIsOrderly(cfg, steps, j);
      if Writes(s, steps[j], id) {
        OrderlyWriteFindsItProcessing(cfg, s, steps[j], id);
      }
    }
    HeldBackSince(cfg, steps, first, id);
  }
}
