/** Rows that stay 'processing' for ever: exactly which they are, and when there are none. */
module StuckSet {
  import opened Common
  import opened OutboxTable
  import opened Protocol

  /** 'processing', but no batch will write the row and no range replay has selected it. */
  ghost predicate Abandoned(s: State, id: EventId) {
    && id in s.rows && s.rows[id].status == Processing
    && (forall f :: f in s.flights ==> id !in s.flights[f].Owned())
    && (forall r :: r in s.ranges ==> id !in s.ranges[r])
  }

  ghost predicate Stuck(s: State, id: EventId) {
    Abandoned(s, id) && s.rows[id].retryCount >= s.rows[id].maxRetries
  }

  lemma StuckInStep(cfg: Config, s: State, step: Step, id: EventId)
    requires Stuck(s, id)
    ensures Stuck(Next(cfg, s, step), id) && Next(cfg, s, step).rows[id] == s.rows[id]
  {
    if Enabled(cfg, s, step) {
      RowsInStep(cfg, s, step, id);
      var t := After(cfg, s, step);
      forall f | f in t.flights
        ensures id !in t.flights[f].Owned()
      {
        if f in s.flights {
          assert id !in s.flights[f].Owned();
        }
      }
    }
  }

  /** No step of anybody, timely or not, ever changes a stuck row again. */
  lemma {:induction false} StuckForEver(cfg: Config, s: State, steps: seq<Step>, id: EventId)
    requires Stuck(s, id)
    ensures Stuck(Run(cfg, s, steps), id) && Run(cfg, s, steps).rows[id] == s.rows[id]
  {
    if steps != [] {
      var n := |steps| - 1;
      StuckForEver(cfg, s, steps[..n], id);
      StuckInStep(cfg, Run(cfg, s, steps[..n]), steps[n], id);
    }
  }

  /** Every reachable 'processing' row has a start time, not in the future, and the unique index holds. */
  ghost predicate Sane(s: State) {
    && UniqueKeys(s.rows)
    && forall id :: id in s.rows && s.rows[id].status == Processing ==>
         s.rows[id].processingStartedAt.Some? && s.rows[id].processingStartedAt.value <= s.now
  }

  lemma {:induction false} ReachableIsSane(cfg: Config, steps: seq<Step>)
    ensures Sane(Run(cfg, INITIAL, steps))
  {
    if steps != [] {
      var n := |steps| - 1;
      var s := Run(cfg, INITIAL, steps[..n]);
      ReachableIsSane(cfg, steps[..n]);
      if Enabled(cfg, s, steps[n]) {
        forall id | id in s.rows
          ensures id in After(cfg, s, steps[n]).rows
          ensures After(cfg, s, steps[n]).rows[id].status == Processing ==>
            && After(cfg, s, steps[n]).rows[id].processingStartedAt.Some?
            && After(cfg, s, steps[n]).rows[id].processingStartedAt.value <= s.now
        {
          RowsInStep(cfg, s, steps[n], id);
        }
      }
    }
  }

  /** Waiting out the threshold and running recovery takes an abandoned row with retries left back to 'failed'. */
  lemma RecoverySaves(cfg: Config, s: State, id: EventId) returns (steps: seq<Step>)
    requires Sane(s) && Abandoned(s, id) && s.rows[id].retryCount < s.rows[id].maxRetries
    ensures var t := Run(cfg, s, steps);
      id in t.rows && t.rows[id].status == Failed && t.rows[id].retryCount == s.rows[id].retryCount + 1
  {
    var wait := if cfg.staleThresholdMs > 0.0 then cfg.staleThresholdMs + 1.0 else 1.0;
    var recover := Issue(RecoverStale(cfg.staleThresholdMs));
    steps := [Tick(wait), recover];
    var later := s.(now := s.now + wait);
    assert Next(cfg, s, Tick(wait)) == later;
    KeysSurviveRecovery(later, cfg.staleThresholdMs);
    assert Enabled(cfg, later, recover);
    RowsInStep(cfg, later, recover, id);
    assert steps[..1] == [Tick(wait)] && steps[..1][..0] == [];
    assert Run(cfg, s, steps[..1]) == later;
    assert Run(cfg, s, steps) == After(cfg, later, recover);
  }

  lemma KeysSurviveRecovery(s: State, thresholdMs: Millis)
    requires UniqueKeys(s.rows)
    ensures UniqueKeys(Apply(s.rows, RecoverStale(thresholdMs), s.now))
  {
  }

  /** An abandoned row is frozen for ever exactly when it has no retries left. */
  lemma FrozenExactlyWithoutRetries(cfg: Config, s: State, id: EventId)
    requires Sane(s) && Abandoned(s, id)
    ensures (forall steps :: id in Run(cfg, s, steps).rows && Run(cfg, s, steps).rows[id] == s.rows[id])
      <==> s.rows[id].retryCount >= s.rows[id].maxRetries
  {
    if s.rows[id].retryCount >= s.rows[id].maxRetries {
      forall steps: seq<Step>
        ensures id in Run(cfg, s, steps).rows && Run(cfg, s, steps).rows[id] == s.rows[id]
      {
        StuckForEver(cfg, s, steps, id);
      }
    } else {
      var steps := RecoverySaves(cfg, s, id);
      assert Run(cfg, s, steps).rows[id] != s.rows[id];
    }
  }

  // When no row is ever abandoned.

  /** No crash and no failed write, and every event allows the retries the workers are configured for. */
  ghost predicate Reliable(cfg: Config, step: Step) {
    && !step.Crash? && !step.Lose?
    && (step.Issue? && step.statement.Insert? ==> cfg.maxRetries <= Max(0, step.statement.maxRetries))
  }

  /** Some batch still has to write the row, and knows its current retry count. */
  ghost predicate Attended(s: State, id: EventId) {
    exists f :: f in s.flights && id in s.flights[f].Owned()
      && id in s.flights[f].attempts && id in s.rows && s.flights[f].attempts[id] == s.rows[id].retryCount
  }

  /** A batch reschedules only events whose claimed retry count is below the configured limit. */
  ghost predicate RetriesBelowLimit(cfg: Config, f: Flight) {
    f.phase.Writing? ==>
      forall id :: id in f.phase.retried ==> id in f.attempts && f.attempts[id] < cfg.maxRetries
  }

  ghost predicate AllAttended(cfg: Config, s: State) {
    && (forall f :: f in s.flights ==> RetriesBelowLimit(cfg, s.flights[f]))
    && (forall id :: id in s.rows ==> cfg.maxRetries <= Max(0, s.rows[id].maxRetries))
    && (forall id :: id in s.rows && s.rows[id].status == Processing ==> Attended(s, id))
  }

  /** A batch that attends a row goes on doing so in every step that leaves the row 'processing'. */
  lemma AttendantStays(cfg: Config, s: State, step: Step, id: EventId, f: FlightId)
    requires AllAttended(cfg, s) && Reliable(cfg, step) && Enabled(cfg, s, step) && id in s.rows
    requires f in s.flights && id in s.flights[f].Owned() && id in s.flights[f].attempts
    requires s.flights[f].attempts[id] == s.rows[id].retryCount
    requires id in After(cfg, s, step).rows && After(cfg, s, step).rows[id].status == Processing
    ensures var t := After(cfg, s, step);
      f in t.flights && t.flights[f].attempts == s.flights[f].attempts && id in t.flights[f].Owned()
  {
    RowsInStep(cfg, s, step, id);
    assert RetriesBelowLimit(cfg, s.flights[f]);
    if step.DecideBatch? && step.flight == f {
      var d := Decided(cfg, s.flights[f], step.workerId, step.results, step.messages).phase;
      assert id in d.succeeded || id in d.retried || id in d.dead;
    }
  }

  lemma AttendedInStep(cfg: Config, s: State, step: Step, id: EventId)
    requires AllAttended(cfg, s) && Reliable(cfg, step) && Enabled(cfg, s, step)
    requires id in After(cfg, s, step).rows && After(cfg, s, step).rows[id].status == Processing
    ensures Attended(After(cfg, s, step), id)
  {
    var t := After(cfg, s, step);
    if id in s.rows {
      RowsInStep(cfg, s, step, id);
      if step.ClaimBatch? && id in step.returned {
        assert id in t.flights[step.flight].Owned();
      } else {
        assert t.rows[id].retryCount == s.rows[id].retryCount;
        var f :| f in s.flights && id in s.flights[f].Owned()
          && id in s.flights[f].attempts && s.flights[f].attempts[id] == s.rows[id].retryCount;
        AttendantStays(cfg, s, step, id, f);
      }
    }
  }

  /** Without crashes and lost writes, whatever the timing, no row is abandoned. */
  lemma {:induction false} NothingIsAbandoned(cfg: Config, steps: seq<Step>)
    requires forall step :: step in steps ==> Reliable(cfg, step)
    ensures AllAttended(cfg, Run(cfg, INITIAL, steps))
    ensures forall id :: !Stuck(Run(cfg, INITIAL, steps), id)
  {
    if steps != [] {
      var n := |steps| - 1;
      var s := Run(cfg, INITIAL, steps[..n]);
      NothingIsAbandoned(cfg, steps[..n]);
      if Enabled(cfg, s, steps[n]) {
        var t := After(cfg, s, steps[n]);
        forall id | id in t.rows
          ensures cfg.maxRetries <= Max(0, t.rows[id].maxRetries)
        {
          if id in s.rows {
            RowsInStep(cfg, s, steps[n], id);
          } else {
            assert steps[n] in steps && Reliable(cfg, steps[n]);
          }
        }
        forall id | id in t.rows && t.rows[id].status == Processing
          ensures Attended(t, id)
        {
          AttendedInStep(cfg, s, steps[n], id);
        }
      }
    }
  }
}
