/** Where the work ends: which rows are left once nobody can claim, write or recover anything
    any more, and that every state can be brought there. */
module Rest {
  import opened Common
  import opened OutboxTable
  import opened Retry
  import opened Protocol
  import opened StuckSet
  import opened Termination

  /** However long one waits and whatever the batches decide, no claim of some event, no landed
      write and no effective recovery can happen any more, unless something is inserted or replayed. */
  ghost predicate AtRest(cfg: Config, s: State) {
    forall steps: seq<Step> :: AllOngoing(steps) ==> WorkDone(cfg, s, steps) == 0
  }

  ghost predicate AllOngoing(steps: seq<Step>) {
    forall step :: step in steps ==> Ongoing(step)
  }

  predicate Final(row: Row) {
    row.status == Succeeded || row.status == Dlq || row.status == Cancelled
  }

  /** Some batch's write still names the row, but the unique index refuses it. */
  ghost predicate WriteRefused(cfg: Config, s: State, id: EventId) {
    exists f, kind :: InFlight(s, f, kind) && id in WriteIds(s.flights[f], kind) && !Accepted(cfg, s, Land(f, kind))
  }

  ghost predicate SelectedForReplay(s: State, id: EventId) {
    exists r :: r in s.ranges && id in s.ranges[r]
  }

  lemma WorkIsPossible(cfg: Config, s: State, before: seq<Step>, step: Step)
    requires AllOngoing(before + [step]) && Works(cfg, Run(cfg, s, before), step)
    ensures !AtRest(cfg, s)
  {
    var steps := before + [step];
    assert steps[..|steps| - 1] == before;
    assert WorkDone(cfg, s, steps) >= 1;
  }

  lemma ClaimIsAccepted(cfg: Config, s: State, f: FlightId, id: EventId)
    requires cfg.batchSize > 0 && UniqueKeys(s.rows) && f !in s.flights
    requires id in s.rows && Eligible(s.rows[id], s.now)
    ensures Works(cfg, s, ClaimBatch(f, map[id := s.rows[id].retryCount]))
  {
    var returned := map[id := s.rows[id].retryCount];
    assert returned.Keys == {id};
  }

  /** An event that may still be claimed, at once or after waiting, is work. */
  lemma ClaimableIsWork(cfg: Config, s: State, id: EventId)
    requires Sane(s) && cfg.batchSize > 0 && id in s.rows
    requires (s.rows[id].status == Pending || s.rows[id].status == Failed) && s.rows[id].deletedAt.None?
    ensures !AtRest(cfg, s)
  {
    var due := if s.rows[id].nextRetryAt.Some? then s.rows[id].nextRetryAt.value else s.now;
    var tick := Tick(if due > s.now then due - s.now else 1.0);
    var later := s.(now := s.now + tick.delta);
    var f := FreshNumber(s.flights.Keys);
    RunThen(cfg, s, [], tick);
    assert Next(cfg, s, tick) == later;
    ClaimIsAccepted(cfg, later, f, id);
    WorkIsPossible(cfg, s, [] + [tick], ClaimBatch(f, map[id := s.rows[id].retryCount]));
  }

  /** So is a 'processing' event with a retry left: recovery takes it back. */
  lemma RecoverableIsWork(cfg: Config, s: State, id: EventId)
    requires Sane(s) && id in s.rows
    requires s.rows[id].status == Processing && s.rows[id].retryCount < s.rows[id].maxRetries
    ensures !AtRest(cfg, s)
  {
    var tick := Tick(if cfg.staleThresholdMs > 0.0 then cfg.staleThresholdMs + 1.0 else 1.0);
    var later := s.(now := s.now + tick.delta);
    RunThen(cfg, s, [], tick);
    assert Next(cfg, s, tick) == later;
    KeysSurviveRecovery(later, cfg.staleThresholdMs);
    assert Stale(later.rows[id], later.now, cfg.staleThresholdMs);
    WorkIsPossible(cfg, s, [] + [tick], Issue(RecoverStale(cfg.staleThresholdMs)));
  }

  const DELIVERED := PublishResult(true, None, false)

  lemma AllDelivered(cfg: Config, s: State, f: FlightId) returns (decide: Step)
    requires f in s.flights && s.flights[f].phase.Publishing?
    ensures decide.DecideBatch? && Enabled(cfg, s, decide)
    ensures var t := Next(cfg, s, decide);
      && t.rows == s.rows && f in t.flights && t.flights[f].phase.Writing?
      && t.flights[f].phase.succeeded == s.flights[f].attempts.Keys
  {
    var attempts := s.flights[f].attempts;
    var results := map id | id in attempts.Keys :: DELIVERED;
    decide := DecideBatch(f, "worker", results, map[]);
    assert Chosen(cfg, attempts, results, Succeed) == attempts.Keys;
  }

  lemma SuccessLands(cfg: Config, s: State, f: FlightId)
    requires UniqueKeys(s.rows) && InFlight(s, f, SuccessWrite)
    ensures Works(cfg, s, Land(f, SuccessWrite))
  {
    BatchWriteKeepsKeysUnique(s.rows, WriteOf(cfg, s.flights[f], SuccessWrite), s.now);
  }

  /** So is an event that a batch still has to publish or write, unless the index refuses the write. */
  lemma OwnedIsWork(cfg: Config, s: State, f: FlightId, id: EventId)
    requires Sane(s) && f in s.flights && id in s.flights[f].Owned() && !WriteRefused(cfg, s, id)
    ensures !AtRest(cfg, s)
  {
    if s.flights[f].phase.Publishing? {
      var decide := AllDelivered(cfg, s, f);
      RunThen(cfg, s, [], decide);
      SuccessLands(cfg, Next(cfg, s, decide), f);
      WorkIsPossible(cfg, s, [] + [decide], Land(f, SuccessWrite));
    } else {
      var kind :| id in WriteIds(s.flights[f], kind);
      assert InFlight(s, f, kind) && Accepted(cfg, s, Land(f, kind));
      WorkIsPossible(cfg, s, [], Land(f, kind));
    }
  }

  /** At rest every row is final, soft-deleted, or 'processing' with no retry left; and in the last
      case it is stuck, unless a range replay has selected it or a write of it is refused. */
  lemma {:induction false} RestLeavesNothingToDo(cfg: Config, s: State, id: EventId)
    requires Sane(s) && cfg.batchSize > 0 && AtRest(cfg, s) && id in s.rows
    ensures var row := s.rows[id];
      || Final(row)
      || ((row.status == Pending || row.status == Failed) && row.deletedAt.Some?)
      || (row.status == Processing && row.retryCount >= row.maxRetries &&
          (Stuck(s, id) || SelectedForReplay(s, id) || WriteRefused(cfg, s, id)))
  {
    var row := s.rows[id];
    if row.status == Pending || row.status == Failed {
      if row.deletedAt.None? {
        ClaimableIsWork(cfg, s, id);
      }
    } else if row.status == Processing {
      if row.retryCount < row.maxRetries {
        RecoverableIsWork(cfg, s, id);
      } else if f :| f in s.flights && id in s.flights[f].Owned() {
        if !WriteRefused(cfg, s, id) {
          OwnedIsWork(cfg, s, f, id);
        }
      }
    }
  }

  /** From every state, without insertions and replays, the system can be brought to rest. */
  lemma {:induction false} CanComeToRest(cfg: Config, s: State) returns (steps: seq<Step>)
    ensures AllOngoing(steps) && AtRest(cfg, Run(cfg, s, steps))
    decreases Measure(s)
  {
    MeasureIsNonNegative(s);
    if AtRest(cfg, s) {
      steps := [];
    } else {
      var work: seq<Step> :| AllOngoing(work) && WorkDone(cfg, s, work) != 0;
      WorkIsPaidFor(cfg, s, work);
      var rest := CanComeToRest(cfg, Run(cfg, s, work));
      RunConcat(cfg, s, work, rest);
      steps := work + rest;
    }
  }
}
