/** When every batch write lands within the stale threshold of its claim, and no step comes
    between the two statements of a range replay, a claimed event belongs to one worker. */
module Ownership {
  import opened Common
  import opened OutboxTable
  import opened Retry
  import opened Protocol

  /** The batch can still write in time. */
  ghost predicate Live(cfg: Config, s: State, f: FlightId) {
    f in s.flights && s.now <= s.flights[f].claimedAt + cfg.staleThresholdMs
  }

  /** The timing assumption: no batch write lands later than the stale threshold after its claim. */
  ghost predicate Timely(cfg: Config, steps: seq<Step>) {
    forall i :: 0 <= i < |steps| && steps[i].Land? ==>
      Live(cfg, Run(cfg, INITIAL, steps[..i]), steps[i].flight)
  }

  /** Nothing happens between the SELECT and the UPDATE of a range replay. */
  ghost predicate RangesUninterrupted(cfg: Config, steps: seq<Step>) {
    forall i :: 0 <= i < |steps| && steps[i].ReplayRange? ==>
      && 0 < i && steps[i - 1].SelectRange? && steps[i - 1].replay == steps[i].replay
      && Enabled(cfg, Run(cfg, INITIAL, steps[..i - 1]), steps[i - 1])
  }

  ghost predicate WellTimed(cfg: Config, steps: seq<Step>) {
    Timely(cfg, steps) && RangesUninterrupted(cfg, steps)
  }

  /** The same two assumptions, on one step. */
  ghost predicate Orderly(cfg: Config, s: State, step: Step) {
    && (step.Land? ==> Live(cfg, s, step.flight))
    && (step.ReplayRange? && step.replay in s.ranges ==>
          forall id :: id in s.ranges[step.replay] && id in s.rows ==> Replayable(s.rows[id]))
  }

  /** The row is the one the batch claimed, untouched since. */
  ghost predicate Holds(flight: Flight, rows: Rows, id: EventId) {
    && id in rows && id in flight.attempts
    && rows[id].status == Processing
    && rows[id].processingStartedAt == Some(flight.claimedAt)
    && rows[id].retryCount == flight.attempts[id]
  }

  /** Each event of a decided batch is in one write only, and was claimed by it. */
  ghost predicate Split(f: Flight) {
    && f.Owned() <= f.attempts.Keys
    && (f.phase.Writing? ==>
          && f.phase.succeeded !! f.phase.retried
          && f.phase.succeeded !! f.phase.dead
          && f.phase.retried !! f.phase.dead)
  }

  ghost predicate FlightOk(cfg: Config, s: State, f: FlightId)
    requires f in s.flights
  {
    && s.flights[f].claimedAt <= s.now
    && Split(s.flights[f])
    && (Live(cfg, s, f) ==> forall id :: id in s.flights[f].Owned() ==> Holds(s.flights[f], s.rows, id))
  }

  ghost predicate Disjoint(cfg: Config, s: State) {
    forall f, g :: Live(cfg, s, f) && Live(cfg, s, g) && f != g ==> s.flights[f].Owned() !! s.flights[g].Owned()
  }

  /** Live batches own disjoint sets of events, and exactly as they claimed them. */
  ghost predicate Exclusive(cfg: Config, s: State) {
    && (forall f :: f in s.flights ==> FlightOk(cfg, s, f))
    && Disjoint(cfg, s)
  }

  /** A live batch's event changes only by the batch's own write. */
  lemma OwnedRowIsLeftAlone(cfg: Config, s: State, step: Step, f: FlightId, id: EventId)
    requires Exclusive(cfg, s) && Orderly(cfg, s, step) && Enabled(cfg, s, step)
    requires Live(cfg, s, f) && id in s.flights[f].Owned()
    requires step.Land? ==> step.flight != f || id !in WriteIds(s.flights[f], step.kind)
    ensures id in s.rows && id in After(cfg, s, step).rows && After(cfg, s, step).rows[id] == s.rows[id]
  {
    assert FlightOk(cfg, s, f) && Holds(s.flights[f], s.rows, id);
    RowsInStep(cfg, s, step, id);
    if step.Land? && step.flight != f {
      assert s.flights[step.flight].Owned() !! s.flights[f].Owned();
      assert WriteIds(s.flights[step.flight], step.kind) <= s.flights[step.flight].Owned();
    }
  }

  /** Deciding a batch puts every claimed event into exactly one of the three writes. */
  lemma DecisionPartitions(cfg: Config, f: Flight, workerId: string, results: map<EventId, PublishResult>,
                           messages: map<EventId, string>)
    requires results.Keys == f.attempts.Keys
    ensures Split(Decided(cfg, f, workerId, results, messages))
    ensures Decided(cfg, f, workerId, results, messages).Owned() == f.attempts.Keys
  {
  }

  lemma WriteLeaves(f: Flight, kind: WriteKind)
    requires f.phase.Writing? && Split(f)
    ensures Split(Without(f, kind))
    ensures Without(f, kind).Owned() == f.Owned() - WriteIds(f, kind)
  {
  }

  /** A batch's claim time and claimed events are fixed; what it owns only shrinks, by its own writes. */
  lemma OwnedShrinks(cfg: Config, s: State, step: Step, f: FlightId)
    requires Enabled(cfg, s, step) && f in s.flights && f in After(cfg, s, step).flights
    requires Split(s.flights[f])
    ensures var flight := After(cfg, s, step).flights[f];
      && flight.claimedAt == s.flights[f].claimedAt
      && flight.attempts == s.flights[f].attempts
      && Split(flight)
      && flight.Owned() <= s.flights[f].Owned()
      && (step.Land? && step.flight == f ==> flight.Owned() !! WriteIds(s.flights[f], step.kind))
  {
    match step
    case DecideBatch(g, workerId, results, messages) =>
      if g == f {
        DecisionPartitions(cfg, s.flights[f], workerId, results, messages);
      }
    case Land(g, kind) =>
      if g == f {
        WriteLeaves(s.flights[f], kind);
      }
    case Lose(g, kind) =>
      if g == f {
        WriteLeaves(s.flights[f], kind);
      }
    case _ =>
  }

  lemma {:induction false} StepKeepsFlight(cfg: Config, s: State, step: Step, f: FlightId)
    requires Exclusive(cfg, s) && Orderly(cfg, s, step) && Enabled(cfg, s, step)
    requires f in After(cfg, s, step).flights
    ensures FlightOk(cfg, After(cfg, s, step), f)
  {
    var t := After(cfg, s, step);
    if f in s.flights {
      assert FlightOk(cfg, s, f);
      OwnedShrinks(cfg, s, step, f);
      if Live(cfg, t, f) {
        assert Live(cfg, s, f);
        forall id | id in t.flights[f].Owned()
          ensures Holds(t.flights[f], t.rows, id)
        {
          OwnedRowIsLeftAlone(cfg, s, step, f, id);
          assert Holds(s.flights[f], s.rows, id);
        }
      }
    } else {
      forall id | id in t.flights[f].Owned()
        ensures Holds(t.flights[f], t.rows, id)
      {
        RowsInStep(cfg, s, step, id);
      }
    }
  }

  lemma {:induction false} StepKeepsDisjoint(cfg: Config, s: State, step: Step)
    requires Exclusive(cfg, s) && Orderly(cfg, s, step) && Enabled(cfg, s, step)
    ensures Disjoint(cfg, After(cfg, s, step))
  {
    var t := After(cfg, s, step);
    forall f, g | Live(cfg, t, f) && Live(cfg, t, g) && f != g
      ensures t.flights[f].Owned() !! t.flights[g].Owned()
    {
      ShrinksOrIsNew(cfg, s, step, f);
      ShrinksOrIsNew(cfg, s, step, g);
    }
  }

  /** After a step, a live batch is an old one that owns no more than before, or owns events no live batch owned. */
  lemma ShrinksOrIsNew(cfg: Config, s: State, step: Step, f: FlightId)
    requires Exclusive(cfg, s) && Enabled(cfg, s, step)
    requires Live(cfg, After(cfg, s, step), f)
    ensures var t := After(cfg, s, step);
      || (Live(cfg, s, f) && t.flights[f].Owned() <= s.flights[f].Owned())
      || (step.ClaimBatch? && step.flight == f &&
          forall g :: Live(cfg, s, g) ==> t.flights[f].Owned() !! s.flights[g].Owned())
  {
    if f in s.flights {
      assert FlightOk(cfg, s, f);
      OwnedShrinks(cfg, s, step, f);
    } else {
      forall g | Live(cfg, s, g)
        ensures step.returned.Keys !! s.flights[g].Owned()
      {
        assert FlightOk(cfg, s, g);
        forall id | id in step.returned
          ensures id !in s.flights[g].Owned()
        {
          assert id in s.flights[g].Owned() ==> Holds(s.flights[g], s.rows, id);
        }
      }
    }
  }

  lemma {:induction false} StepKeepsExclusive(cfg: Config, s: State, step: Step)
    requires Exclusive(cfg, s) && Orderly(cfg, s, step)
    ensures Exclusive(cfg, Next(cfg, s, step))
  {
    if Enabled(cfg, s, step) {
      forall f | f in After(cfg, s, step).flights
        ensures FlightOk(cfg, After(cfg, s, step), f)
      {
        StepKeepsFlight(cfg, s, step, f);
      }
      StepKeepsDisjoint(cfg, s, step);
    }
  }

  /** The run's assumptions give the step's: the rows a range replay resets are still failed or dead-lettered. */
  lemma WellTimedIsOrderly(cfg: Config, steps: seq<Step>, i: nat)
    requires WellTimed(cfg, steps) && i < |steps|
    ensures Orderly(cfg, Run(cfg, INITIAL, steps[..i]), steps[i])
  {
    if steps[i].ReplayRange? {
      var before := Run(cfg, INITIAL, steps[..i - 1]);
      assert steps[..i][..|steps[..i]| - 1] == steps[..i - 1];
      assert Run(cfg, INITIAL, steps[..i]) == Next(cfg, before, steps[i - 1]);
    }
  }

  lemma {:induction false} PrefixIsWellTimed(cfg: Config, steps: seq<Step>, n: nat)
    requires WellTimed(cfg, steps) && n <= |steps|
    ensures WellTimed(cfg, steps[..n])
  {
    var prefix := steps[..n];
    forall i | 0 <= i < |prefix| && prefix[i].Land?
      ensures Live(cfg, Run(cfg, INITIAL, prefix[..i]), prefix[i].flight)
    {
      assert prefix[..i] == steps[..i];
    }
    forall i | 0 <= i < |prefix| && prefix[i].ReplayRange?
      ensures 0 < i && prefix[i - 1].SelectRange? && prefix[i - 1].replay == prefix[i].replay
      ensures Enabled(cfg, Run(cfg, INITIAL, prefix[..i - 1]), prefix[i - 1])
    {
      assert prefix[..i - 1] == steps[..i - 1];
    }
  }

  /** In every reachable state of a well-timed run, live batches own disjoint sets of events,
      each still 'processing' as claimed. */
  lemma {:induction false} OwnershipIsExclusive(cfg: Config, steps: seq<Step>)
    requires WellTimed(cfg, steps)
    ensures Exclusive(cfg, Run(cfg, INITIAL, steps))
  {
    if steps != [] {
      var n := |steps| - 1;
      PrefixIsWellTimed(cfg, steps, n);
      OwnershipIsExclusive(cfg, steps[..n]);
      WellTimedIsOrderly(cfg, steps, n);
      StepKeepsExclusive(cfg, Run(cfg, INITIAL, steps[..n]), steps[n]);
    }
  }

  lemma SucceededStaysInStep(cfg: Config, s: State, step: Step, id: EventId)
    requires Exclusive(cfg, s) && Orderly(cfg, s, step)
    requires id in s.rows && s.rows[id].status == Succeeded
    ensures id in Next(cfg, s, step).rows && Next(cfg, s, step).rows[id].status == Succeeded
  {
    if Enabled(cfg, s, step) {
      RowsInStep(cfg, s, step, id);
      if step.Land? {
        var flight := s.flights[step.flight];
        assert FlightOk(cfg, s, step.flight);
        assert id in WriteIds(flight, step.kind) ==> Holds(flight, s.rows, id);
      }
    }
  }

  /** 'succeeded' is final in every well-timed run. */
  lemma {:induction false} SucceededIsFinal(cfg: Config, steps: seq<Step>, i: nat, id: EventId)
    requires WellTimed(cfg, steps) && i <= |steps|
    requires id in Run(cfg, INITIAL, steps[..i]).rows
    requires Run(cfg, INITIAL, steps[..i]).rows[id].status == Succeeded
    ensures id in Run(cfg, INITIAL, steps).rows && Run(cfg, INITIAL, steps).rows[id].status == Succeeded
  {
    if i == |steps| {
      assert steps[..i] == steps;
    } else {
      var n := |steps| - 1;
      PrefixIsWellTimed(cfg, steps, n);
      assert steps[..n][..i] == steps[..i];
      SucceededIsFinal(cfg, steps[..n], i, id);
      OwnershipIsExclusive(cfg, steps[..n]);
      WellTimedIsOrderly(cfg, steps, n);
      SucceededStaysInStep(cfg, Run(cfg, INITIAL, steps[..n]), steps[n], id);
    }
  }
}
