/** Once nothing is inserted or replayed any more, the system can only work for so long. */
module Termination {
  import opened Common
  import opened OutboxTable
  import opened Retry
  import opened Protocol
  import opened Ownership

  /** Retries the row still has. */
  function Room(row: Row): nat {
    Max(0, row.maxRetries - row.retryCount)
  }

  /** With late writers: three per retry left, plus three while claimable, one while processing. */
  function Weight(row: Row): nat {
    3 * Room(row) + match row.status
                    case Pending => 3
                    case Failed => 3
                    case Processing => 1
                    case _ => 0
  }

  function One(ids: set<EventId>): nat {
    if ids == {} then 0 else 1
  }

  /** Writes the batch may still issue. */
  function Outstanding(f: Flight): nat {
    match f.phase
    case Publishing => |f.attempts.Keys|
    case Writing(_, _, succeeded, retried, dead) => One(succeeded) + One(retried) + One(dead)
  }

  ghost function RowWeights(rows: Rows): nat -> int {
    id => if id in rows then Weight(rows[id]) else 0
  }

  ghost function FlightWeights(flights: map<FlightId, Flight>): nat -> int {
    f => if f in flights then Outstanding(flights[f]) else 0
  }

  ghost function Measure(s: State): int {
    RowTotal(s.rows) + FlightTotal(s.flights)
  }

  /** Neither an insertion nor a replay. */
  predicate Ongoing(step: Step) {
    !(step.Issue? && (step.statement.Insert? || step.statement.ReplayOne?)) && !step.ReplayRange?
  }

  /** A claim of some events, a batch write reaching the database, or a recovery of some row. */
  ghost predicate Works(cfg: Config, s: State, step: Step) {
    && Enabled(cfg, s, step)
    && match step
       case ClaimBatch(_, returned) => returned.Keys != {}
       case Land(_, _) => true
       case Issue(RecoverStale(t)) => exists id :: id in s.rows && Stale(s.rows[id], s.now, t)
       case _ => false
  }

  lemma {:induction false} MeasureIsNonNegative(s: State)
    ensures Measure(s) >= 0
  {
    SumNonNegative(s.rows.Keys, RowWeights(s.rows));
    SumNonNegative(s.flights.Keys, FlightWeights(s.flights));
  }

  /** What one statement does to the weight of one row. */
  lemma StatementLowersWeight(st: Statement, id: EventId, row: Row, now: Millis)
    requires !st.Insert? && !st.ReplayOne? && !st.ReplayRows?
    ensures Weight(RowAfter(st, id, row, now)) <= Weight(row)
    ensures st.Claim? && Hits(st, id, row, now) ==> Weight(RowAfter(st, id, row, now)) + 2 == Weight(row)
    ensures st.RecoverStale? && Hits(st, id, row, now) ==> Weight(RowAfter(st, id, row, now)) < Weight(row)
  {
  }

  lemma RowsWeighNoMore(cfg: Config, s: State, step: Step, id: EventId)
    requires Enabled(cfg, s, step) && Ongoing(step) && id in s.rows
    ensures id in After(cfg, s, step).rows
    ensures Weight(After(cfg, s, step).rows[id]) + (if step.ClaimBatch? && id in step.returned then 2 else 0)
      <= Weight(s.rows[id])
  {
    RowsInStep(cfg, s, step, id);
    match StatementOf(cfg, s, step)
    case Some(st) =>
      if !st.Insert? {
        StatementLowersWeight(st, id, s.rows[id], s.now);
      }
    case None =>
  }

  lemma OngoingKeepsKeys(cfg: Config, s: State, step: Step)
    requires Enabled(cfg, s, step) && Ongoing(step)
    ensures After(cfg, s, step).rows.Keys == s.rows.Keys
  {
  }

  ghost function RowTotal(rows: Rows): int {
    Sum(rows.Keys, RowWeights(rows))
  }

  lemma RowTotalFalls(cfg: Config, s: State, step: Step)
    requires Enabled(cfg, s, step) && Ongoing(step)
    ensures RowTotal(After(cfg, s, step).rows) + (if step.ClaimBatch? then 2 * |step.returned.Keys| else 0)
      <= RowTotal(s.rows)
  {
    var t := After(cfg, s, step).rows;
    OngoingKeepsKeys(cfg, s, step);
    var claimed := if step.ClaimBatch? then step.returned.Keys else {};
    forall id | id in s.rows
      ensures RowWeights(t)(id) + (if id in claimed then 2 else 0) <= RowWeights(s.rows)(id)
    {
      RowsWeighNoMore(cfg, s, step, id);
    }
    SumDrop(s.rows.Keys, claimed, RowWeights(t), RowWeights(s.rows));
  }

  lemma RecoveryLowersRowTotal(cfg: Config, s: State, step: Step)
    requires Enabled(cfg, s, step) && step.Issue? && Works(cfg, s, step)
    ensures RowTotal(After(cfg, s, step).rows) < RowTotal(s.rows)
  {
    var t := After(cfg, s, step).rows;
    OngoingKeepsKeys(cfg, s, step);
    var id :| id in s.rows && Stale(s.rows[id], s.now, step.statement.thresholdMs);
    forall i | i in s.rows
      ensures RowWeights(t)(i) <= RowWeights(s.rows)(i)
      ensures i == id ==> RowWeights(t)(i) < RowWeights(s.rows)(i)
    {
      RowsInStep(cfg, s, step, i);
      StatementLowersWeight(step.statement, i, s.rows[i], s.now);
    }
    SumBelow(s.rows.Keys, RowWeights(t), RowWeights(s.rows), id);
  }

  /** A decided batch has no more writes than it had events. */
  lemma WritesFitAttempts(cfg: Config, f: Flight, workerId: string, results: map<EventId, PublishResult>,
                          messages: map<EventId, string>)
    requires results.Keys == f.attempts.Keys
    ensures Outstanding(Decided(cfg, f, workerId, results, messages)) <= |f.attempts.Keys|
  {
    var d := Decided(cfg, f, workerId, results, messages).phase;
    DecisionPartitions(cfg, f, workerId, results, messages);
    assert |f.attempts.Keys| == |d.succeeded| + |d.retried| + |d.dead|;
  }

  lemma WriteCounts(f: Flight, kind: WriteKind)
    requires f.phase.Writing? && WriteIds(f, kind) != {}
    ensures Outstanding(Without(f, kind)) == Outstanding(f) - 1
  {
  }

  ghost function FlightTotal(flights: map<FlightId, Flight>): int {
    Sum(flights.Keys, FlightWeights(flights))
  }

  lemma OneFlightChanges(flights: map<FlightId, Flight>, f: FlightId, flight: Flight)
    ensures FlightTotal(flights[f := flight]) ==
      FlightTotal(flights) + Outstanding(flight) - (if f in flights then Outstanding(flights[f]) else 0)
  {
    var after := flights[f := flight];
    var others := flights.Keys - {f};
    assert after.Keys - {f} == others;
    SumSplit(after.Keys, FlightWeights(after), f);
    SumAtMost(others, FlightWeights(after), FlightWeights(flights));
    SumAtMost(others, FlightWeights(flights), FlightWeights(after));
    if f in flights {
      SumSplit(flights.Keys, FlightWeights(flights), f);
    } else {
      assert others == flights.Keys;
    }
  }

  lemma OneFlightEnds(flights: map<FlightId, Flight>, f: FlightId)
    requires f in flights
    ensures FlightTotal(flights - {f}) <= FlightTotal(flights)
  {
    SumSplit(flights.Keys, FlightWeights(flights), f);
    assert (flights - {f}).Keys == flights.Keys - {f};
    SumAtMost(flights.Keys - {f}, FlightWeights(flights - {f}), FlightWeights(flights));
  }

  lemma FlightTotalFalls(cfg: Config, s: State, step: Step)
    requires Enabled(cfg, s, step)
    ensures FlightTotal(After(cfg, s, step).flights) <= FlightTotal(s.flights)
        + match step
          case ClaimBatch(_, returned) => |returned.Keys|
          case Land(_, _) => -1
          case _ => 0
  {
    match step
    case ClaimBatch(f, returned) =>
      OneFlightChanges(s.flights, f, After(cfg, s, step).flights[f]);
    case DecideBatch(f, workerId, results, messages) =>
      WritesFitAttempts(cfg, s.flights[f], workerId, results, messages);
      OneFlightChanges(s.flights, f, After(cfg, s, step).flights[f]);
    case Land(f, kind) =>
      WriteCounts(s.flights[f], kind);
      OneFlightChanges(s.flights, f, After(cfg, s, step).flights[f]);
    case Lose(f, kind) =>
      WriteCounts(s.flights[f], kind);
      OneFlightChanges(s.flights, f, After(cfg, s, step).flights[f]);
    case Crash(f) =>
      OneFlightEnds(s.flights, f);
    case _ =>
  }

  /** Every step that is not an insertion or replay keeps the measure or lowers it, and a step that works lowers it. */
  lemma MeasureFalls(cfg: Config, s: State, step: Step)
    requires Ongoing(step)
    ensures Measure(Next(cfg, s, step)) + (if Works(cfg, s, step) then 1 else 0) <= Measure(s)
  {
    if Enabled(cfg, s, step) {
      RowTotalFalls(cfg, s, step);
      FlightTotalFalls(cfg, s, step);
      if step.Issue? && Works(cfg, s, step) {
        RecoveryLowersRowTotal(cfg, s, step);
      }
    }
  }

  /** How many steps of the run work. */
  ghost function WorkDone(cfg: Config, s: State, steps: seq<Step>): nat {
    if steps == [] then 0 else
      var n := |steps| - 1;
      WorkDone(cfg, s, steps[..n]) + (if Works(cfg, Run(cfg, s, steps[..n]), steps[n]) then 1 else 0)
  }

  lemma {:induction false} WorkIsPaidFor(cfg: Config, s: State, steps: seq<Step>)
    requires forall step :: step in steps ==> Ongoing(step)
    ensures WorkDone(cfg, s, steps) + Measure(Run(cfg, s, steps)) <= Measure(s)
  {
    if steps != [] {
      var n := |steps| - 1;
      WorkIsPaidFor(cfg, s, steps[..n]);
      MeasureFalls(cfg, Run(cfg, s, steps[..n]), steps[n]);
    }
  }

  /** From any state, with any late writers and crashes, a run without insertions and replays
      contains at most Measure claims, writes and recoveries. */
  lemma WorkIsBounded(cfg: Config, s: State, steps: seq<Step>)
    requires forall step :: step in steps ==> Ongoing(step)
    ensures WorkDone(cfg, s, steps) <= Measure(s)
  {
    WorkIsPaidFor(cfg, s, steps);
    MeasureIsNonNegative(Run(cfg, s, steps));
  }

  // The tighter bound of well-timed runs, where every write finds its row 'processing'.

  function TimelyWeight(row: Row): nat {
    3 * Room(row) + match row.status
                    case Pending => 2
                    case Failed => 2
                    case Processing => 1
                    case _ => 0
  }

  ghost function TimelyWeights(rows: Rows): nat -> int {
    id => if id in rows then TimelyWeight(rows[id]) else 0
  }

  ghost function TimelyMeasure(rows: Rows): int {
    Sum(rows.Keys, TimelyWeights(rows))
  }

  predicate ClaimWriteOrRecovery(step: Step) {
    step.ClaimBatch? || step.Land? || (step.Issue? && step.statement.RecoverStale?)
  }

  ghost predicate ChangesRows(cfg: Config, s: State, step: Step) {
    ClaimWriteOrRecovery(step) && Next(cfg, s, step).rows != s.rows
  }

  lemma TimelyWeightFalls(cfg: Config, s: State, step: Step, id: EventId)
    requires Exclusive(cfg, s) && Orderly(cfg, s, step) && Enabled(cfg, s, step) && Ongoing(step) && id in s.rows
    ensures id in After(cfg, s, step).rows
    ensures TimelyWeight(After(cfg, s, step).rows[id]) <= TimelyWeight(s.rows[id])
    ensures ClaimWriteOrRecovery(step) && After(cfg, s, step).rows[id] != s.rows[id] ==>
      TimelyWeight(After(cfg, s, step).rows[id]) < TimelyWeight(s.rows[id])
  {
    RowsInStep(cfg, s, step, id);
    if step.Land? && id in WriteIds(s.flights[step.flight], step.kind) {
      assert FlightOk(cfg, s, step.flight) && Holds(s.flights[step.flight], s.rows, id);
    }
  }

  lemma TimelyMeasureFalls(cfg: Config, s: State, step: Step)
    requires Exclusive(cfg, s) && Orderly(cfg, s, step) && Ongoing(step)
    ensures TimelyMeasure(Next(cfg, s, step).rows) + (if ChangesRows(cfg, s, step) then 1 else 0)
      <= TimelyMeasure(s.rows)
  {
    if Enabled(cfg, s, step) {
      var t := After(cfg, s, step).rows;
      OngoingKeepsKeys(cfg, s, step);
      forall id | id in s.rows
        ensures TimelyWeights(t)(id) <= TimelyWeights(s.rows)(id)
      {
        TimelyWeightFalls(cfg, s, step, id);
      }
      SumAtMost(s.rows.Keys, TimelyWeights(t), TimelyWeights(s.rows));
      if ChangesRows(cfg, s, step) {
        var id :| id in s.rows && t[id] != s.rows[id];
        TimelyWeightFalls(cfg, s, step, id);
        SumBelow(s.rows.Keys, TimelyWeights(t), TimelyWeights(s.rows), id);
      }
    }
  }

  /** Row-changing steps from position n on. */
  ghost function ChangesSince(cfg: Config, steps: seq<Step>, n: nat): nat
    requires n <= |steps|
    decreases |steps|
  {
    if n == |steps| then 0 else
      var last := |steps| - 1;
      ChangesSince(cfg, steps[..last], n)
        + (if ChangesRows(cfg, Run(cfg, INITIAL, steps[..last]), steps[last]) then 1 else 0)
  }

  lemma LastChangeIsPaidFor(cfg: Config, steps: seq<Step>, last: nat)
    requires WellTimed(cfg, steps) && |steps| == last + 1 && Ongoing(steps[last])
    ensures WellTimed(cfg, steps[..last])
    ensures TimelyMeasure(Run(cfg, INITIAL, steps).rows)
      + (if ChangesRows(cfg, Run(cfg, INITIAL, steps[..last]), steps[last]) then 1 else 0)
      <= TimelyMeasure(Run(cfg, INITIAL, steps[..last]).rows)
  {
    PrefixIsWellTimed(cfg, steps, last);
    OwnershipIsExclusive(cfg, steps[..last]);
    WellTimedIsOrderly(cfg, steps, last);
    TimelyMeasureFalls(cfg, Run(cfg, INITIAL, steps[..last]), steps[last]);
  }

  lemma {:induction false} ChangesArePaidFor(cfg: Config, steps: seq<Step>, n: nat)
    requires WellTimed(cfg, steps) && n <= |steps|
    requires forall i :: n <= i < |steps| ==> Ongoing(steps[i])
    ensures ChangesSince(cfg, steps, n) + TimelyMeasure(Run(cfg, INITIAL, steps).rows)
      <= TimelyMeasure(Run(cfg, INITIAL, steps[..n]).rows)
    decreases |steps|
  {
    if n == |steps| {
      assert steps[..n] == steps;
    } else {
      var last := |steps| - 1;
      LastChangeIsPaidFor(cfg, steps, last);
      assert steps[..last][..n] == steps[..n];
      ChangesArePaidFor(cfg, steps[..last], n);
    }
  }

  /** Well-timed: after the last insertion or replay, at most sum(3 * retries left + rank) more
      row changes, with rank 2 when claimable, 1 when processing, 0 when final. */
  lemma {:induction false} ChangesAreBounded(cfg: Config, steps: seq<Step>, n: nat)
    requires WellTimed(cfg, steps) && n <= |steps|
    requires forall i :: n <= i < |steps| ==> Ongoing(steps[i])
    ensures ChangesSince(cfg, steps, n) <= TimelyMeasure(Run(cfg, INITIAL, steps[..n]).rows)
  {
    ChangesArePaidFor(cfg, steps, n);
    SumNonNegative(Run(cfg, INITIAL, steps).rows.Keys, TimelyWeights(Run(cfg, INITIAL, steps).rows));
  }
}
