/** The attempt bound on runs of the whole system: a run is a log of statements whose clock
    moves forward, so the bound holds of it, and some run reaches it. */
module AttemptRuns {
  import opened Common
  import opened OutboxTable
  import opened Protocol
  import opened RetryLimits
  import opened StuckSet
  import AttemptBound

  /** What a step adds to the log of statements. */
  ghost function EntryOf(cfg: Config, s: State, step: Step): seq<AttemptBound.Entry> {
    if Enabled(cfg, s, step) && StatementOf(cfg, s, step).Some? then
      [AttemptBound.Entry(StatementOf(cfg, s, step).value, s.now)]
    else []
  }

  /** The statements a run has sent and the database has accepted, with their instants. */
  ghost function LogOf(cfg: Config, steps: seq<Step>): seq<AttemptBound.Entry> {
    if steps == [] then [] else
      var n := |steps| - 1;
      LogOf(cfg, steps[..n]) + EntryOf(cfg, Run(cfg, INITIAL, steps[..n]), steps[n])
  }

  lemma {:induction false} LogGivesTheTable(cfg: Config, steps: seq<Step>)
    ensures AttemptBound.Table(LogOf(cfg, steps)) == Run(cfg, INITIAL, steps).rows
  {
    if steps != [] {
      var n := |steps| - 1;
      var log := LogOf(cfg, steps[..n]);
      var more := EntryOf(cfg, Run(cfg, INITIAL, steps[..n]), steps[n]);
      LogGivesTheTable(cfg, steps[..n]);
      if more == [] {
        assert log + more == log;
      } else {
        assert (log + more)[..|log|] == log;
      }
    }
  }

  ghost predicate Chronological(log: seq<AttemptBound.Entry>, now: Millis) {
    && (forall i, j :: 0 <= i < j < |log| ==> log[i].now <= log[j].now)
    && (forall i :: 0 <= i < |log| ==> log[i].now <= now)
  }

  lemma LaterEntry(log: seq<AttemptBound.Entry>, cfg: Config, s: State, step: Step)
    requires Chronological(log, s.now)
    ensures Chronological(log + EntryOf(cfg, s, step), Next(cfg, s, step).now)
  {
    var all := log + EntryOf(cfg, s, step);
    assert forall i :: 0 <= i < |log| ==> all[i] == log[i];
    assert forall i :: |log| <= i < |all| ==> all[i].now == s.now;
  }

  /** The clock of a run's log only moves forward, and is never ahead of the run's. */
  lemma {:induction false} LogIsChronological(cfg: Config, steps: seq<Step>)
    ensures Chronological(LogOf(cfg, steps), Run(cfg, INITIAL, steps).now)
  {
    if steps != [] {
      var n := |steps| - 1;
      LogIsChronological(cfg, steps[..n]);
      LaterEntry(LogOf(cfg, steps[..n]), cfg, Run(cfg, INITIAL, steps[..n]), steps[n]);
    }
  }

  /** A row's claims since its last replay, after one more step. */
  ghost function ClaimsAfterStep(cfg: Config, s: State, step: Step, id: EventId, claims: nat): nat {
    if !Enabled(cfg, s, step) || id !in s.rows then claims
    else match step
      case ClaimBatch(_, returned) => if id in returned then claims + 1 else claims
      case Issue(ReplayOne(target)) => if id == target && Replayable(s.rows[id]) then 0 else claims
      case ReplayRange(r) => if id in s.ranges[r] then 0 else claims
      case _ => claims
  }

  /** How many batches have been handed the row since it was last replayed (or inserted). */
  ghost function ClaimsInRun(cfg: Config, steps: seq<Step>, id: EventId): nat {
    if steps == [] then 0 else
      var n := |steps| - 1;
      ClaimsAfterStep(cfg, Run(cfg, INITIAL, steps[..n]), steps[n], id, ClaimsInRun(cfg, steps[..n], id))
  }

  lemma {:induction false} ClaimsAgree(cfg: Config, steps: seq<Step>, id: EventId)
    ensures ClaimsInRun(cfg, steps, id) == AttemptBound.ClaimsSinceReplay(LogOf(cfg, steps), id)
  {
    if steps != [] {
      var n := |steps| - 1;
      var log := LogOf(cfg, steps[..n]);
      ClaimsAgree(cfg, steps[..n], id);
      LogGivesTheTable(cfg, steps[..n]);
      EntryCounts(cfg, Run(cfg, INITIAL, steps[..n]), steps[n], log, id);
    }
  }

  /** A step counts claims as its statement does. */
  lemma StatementCounts(cfg: Config, s: State, step: Step, id: EventId, claims: nat)
    requires Enabled(cfg, s, step) && StatementOf(cfg, s, step).Some? && id in s.rows
    ensures var statement := StatementOf(cfg, s, step).value;
      ClaimsAfterStep(cfg, s, step, id, claims)
        == if Hits(statement, id, s.rows[id], s.now) then AttemptBound.ClaimsAfter(statement, claims) else claims
  {
  }

  lemma EntryCounts(cfg: Config, s: State, step: Step, log: seq<AttemptBound.Entry>, id: EventId)
    requires AttemptBound.Table(log) == s.rows
    ensures AttemptBound.ClaimsSinceReplay(log + EntryOf(cfg, s, step), id)
      == ClaimsAfterStep(cfg, s, step, id, AttemptBound.ClaimsSinceReplay(log, id))
  {
    var more := EntryOf(cfg, s, step);
    if more == [] {
      assert log + more == log;
    } else {
      assert (log + more)[..|log|] == log;
      if id in s.rows {
        StatementCounts(cfg, s, step, id, AttemptBound.ClaimsSinceReplay(log, id));
      }
    }
  }

  /** In every run of the system, well-timed or not, a row counts no more retries than it was
      given and is handed to at most max_retries + 1 batches between two replays. */
  lemma {:induction false} AttemptsInRunsAreBounded(cfg: Config, steps: seq<Step>, id: EventId)
    requires id in Run(cfg, INITIAL, steps).rows
    ensures var row := Run(cfg, INITIAL, steps).rows[id];
      && row.retryCount <= Max(0, row.maxRetries)
      && ClaimsInRun(cfg, steps, id) <= Max(0, row.maxRetries) + 1
  {
    LogGivesTheTable(cfg, steps);
    ClaimsAgree(cfg, steps, id);
    AttemptBound.AttemptsAreBounded(LogOf(cfg, steps), id);
  }

  // The bound is reached.

  lemma OneMoreStep(cfg: Config, steps: seq<Step>, step: Step, id: EventId)
    ensures Run(cfg, INITIAL, steps + [step]) == Next(cfg, Run(cfg, INITIAL, steps), step)
    ensures ClaimsInRun(cfg, steps + [step], id)
      == ClaimsAfterStep(cfg, Run(cfg, INITIAL, steps), step, id, ClaimsInRun(cfg, steps, id))
  {
    assert (steps + [step])[..|steps|] == steps;
  }

  /** Waits until the event is due and claims it. */
  lemma ClaimOnceMore(cfg: Config, before: seq<Step>, m: int, k: nat) returns (steps: seq<Step>)
    requires cfg.batchSize > 0 && Waiting(Run(cfg, INITIAL, before), m, k)
    ensures Attempting(Run(cfg, INITIAL, steps), m, k)
    ensures ClaimsInRun(cfg, steps, 0) == ClaimsInRun(cfg, before, 0) + 1
    ensures Careful(m, before) ==> Careful(m, steps)
  {
    var tick := Wait(cfg, Run(cfg, INITIAL, before), m, k);
    var due, claim := before + [tick], ClaimBatch(k, map[0 := k]);
    OneMoreStep(cfg, before, tick, 0);
    OneMoreStep(cfg, due, claim, 0);
    ClaimIt(cfg, Run(cfg, INITIAL, due), m, k);
    ClaimIsEnabled(cfg, Run(cfg, INITIAL, due), m, k);
    steps := due + [claim];
  }

  lemma ClaimIsEnabled(cfg: Config, s: State, m: int, k: nat)
    requires cfg.batchSize > 0 && Waiting(s, m, k) && Eligible(s.rows[0], s.now)
    ensures Enabled(cfg, s, ClaimBatch(k, map[0 := k]))
  {
    assert map[0 := k].Keys == {0};
  }

  /** The attempt fails and is rescheduled. */
  lemma FailOnceMore(cfg: Config, before: seq<Step>, m: int, k: nat) returns (steps: seq<Step>)
    requires k < m && k < cfg.maxRetries && Attempting(Run(cfg, INITIAL, before), m, k)
    ensures Waiting(Run(cfg, INITIAL, steps), m, k + 1)
    ensures ClaimsInRun(cfg, steps, 0) == ClaimsInRun(cfg, before, 0)
    ensures Careful(m, before) ==> Careful(m, steps)
  {
    var decide := DecideBatch(k, "worker", map[0 := FAILURE], map[]);
    var decided := before + [decide];
    OneMoreStep(cfg, before, decide, 0);
    FailIt(cfg, Run(cfg, INITIAL, before), m, k);
    OneMoreStep(cfg, decided, Land(k, RetryWrite), 0);
    RetryLandsOrStrands(cfg, Run(cfg, INITIAL, decided), m, k);
    steps := decided + [Land(k, RetryWrite)];
  }

  /** The batch crashes, and its event is recovered once it is stale. */
  lemma RecoverOnceMore(cfg: Config, before: seq<Step>, m: int, k: nat) returns (steps: seq<Step>)
    requires k < m && Attempting(Run(cfg, INITIAL, before), m, k)
    ensures Waiting(Run(cfg, INITIAL, steps), m, k + 1)
    ensures ClaimsInRun(cfg, steps, 0) == ClaimsInRun(cfg, before, 0)
  {
    var crash, recover := Crash(k), Issue(RecoverStale(cfg.staleThresholdMs));
    var wait := Tick(if cfg.staleThresholdMs > 0.0 then cfg.staleThresholdMs + 1.0 else 1.0);
    var crashed, stale := before + [crash], before + [crash] + [wait];
    ReachableIsSane(cfg, before);
    OneMoreStep(cfg, before, crash, 0);
    OneMoreStep(cfg, crashed, wait, 0);
    OneMoreStep(cfg, stale, recover, 0);
    CrashedIsRecovered(cfg, Run(cfg, INITIAL, before), m, k, wait.delta);
    steps := stale + [recover];
  }

  lemma CrashedIsRecovered(cfg: Config, s: State, m: int, k: nat, delta: Millis)
    requires k < m && Attempting(s, m, k) && Sane(s) && delta > 0.0 && delta > cfg.staleThresholdMs
    ensures var stale := Next(cfg, Next(cfg, s, Crash(k)), Tick(delta));
      Waiting(Next(cfg, stale, Issue(RecoverStale(cfg.staleThresholdMs))), m, k + 1)
  {
    var crashed := s.(flights := s.flights - {k});
    assert Next(cfg, s, Crash(k)) == crashed;
    assert Next(cfg, crashed, Tick(delta)) == crashed.(now := s.now + delta);
    RecoveredWaits(cfg, crashed.(now := s.now + delta), m, k);
  }

  lemma RecoveredWaits(cfg: Config, s: State, m: int, k: nat)
    requires s.ranges == map[] && s.rows.Keys == {0} && s.rows[0].deletedAt.None?
    requires s.rows[0].retryCount == k < m == s.rows[0].maxRetries && Stale(s.rows[0], s.now, cfg.staleThresholdMs)
    requires forall f :: f in s.flights ==> f < k && s.flights[f].Owned() == {}
    ensures Waiting(Next(cfg, s, Issue(RecoverStale(cfg.staleThresholdMs))), m, k + 1)
  {
  }

  /** A row that has failed k times, each time after a claim of its own: rescheduled by the batch, or
      recovered after the batch has crashed. */
  lemma {:induction false} ClaimedAndFailed(cfg: Config, m: int, k: nat, crashing: bool) returns (steps: seq<Step>)
    requires cfg.batchSize > 0 && k <= Max(0, m) && (crashing || k <= cfg.maxRetries)
    ensures Waiting(Run(cfg, INITIAL, steps), m, k) && ClaimsInRun(cfg, steps, 0) == k
    ensures !crashing ==> Careful(m, steps)
  {
    if k == 0 {
      var insert := Issue(Insert(0, EventData("", "", "", ""), None, m));
      OneMoreStep(cfg, [], insert, 0);
      assert Enabled(cfg, INITIAL, insert);
      steps := [] + [insert];
    } else {
      var before := ClaimedAndFailed(cfg, m, k - 1, crashing);
      var claimed := ClaimOnceMore(cfg, before, m, k - 1);
      if crashing {
        steps := RecoverOnceMore(cfg, claimed, m, k - 1);
      } else {
        steps := FailOnceMore(cfg, claimed, m, k - 1);
      }
    }
  }

  /** For every row limit some run hands a row to max_retries + 1 batches, so the bound cannot be lowered. */
  lemma {:induction false} BoundIsReached(cfg: Config, m: int) returns (steps: seq<Step>)
    requires cfg.batchSize > 0
    ensures 0 in Run(cfg, INITIAL, steps).rows && Run(cfg, INITIAL, steps).rows[0].maxRetries == m
    ensures ClaimsInRun(cfg, steps, 0) == Max(0, m) + 1
  {
    var before := ClaimedAndFailed(cfg, m, Max(0, m), true);
    steps := ClaimOnceMore(cfg, before, m, Max(0, m));
  }

  /** If the limit is within the workers' own, one without crashes or lost writes does. */
  lemma {:induction false} BoundIsReachedWithoutCrashes(cfg: Config, m: int) returns (steps: seq<Step>)
    requires cfg.batchSize > 0 && m <= cfg.maxRetries
    ensures Careful(m, steps)
    ensures 0 in Run(cfg, INITIAL, steps).rows && Run(cfg, INITIAL, steps).rows[0].maxRetries == m
    ensures ClaimsInRun(cfg, steps, 0) == Max(0, m) + 1
  {
    var before := ClaimedAndFailed(cfg, m, Max(0, m), false);
    steps := ClaimOnceMore(cfg, before, m, Max(0, m));
  }
}
