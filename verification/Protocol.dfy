/** The outbox as a distributed system: producers, any number of workers, stale recovery and
    admin replays acting on one table. Each SQL statement is one atomic step; everything
    between two statements may interleave with everything else. */
module Protocol {
  import opened Common
  import opened OutboxTable
  import opened Retry

  datatype Config = Config(maxRetries: nat, staleThresholdMs: Millis, backoff: Backoff, batchSize: nat)

  type FlightId = nat
  type ReplayId = nat

  /** How far a claimed batch has come: still at the publisher, or with up to three batch
      writes that have not reached the database yet (an empty set is no write). */
  datatype Phase =
    | Publishing
    | Writing(workerId: string, messages: map<EventId, string>,
              succeeded: set<EventId>, retried: set<EventId>, dead: set<EventId>)

  /** A batch between its claim and its last write; attempts are the retry counts it was handed. */
  datatype Flight = Flight(claimedAt: Millis, attempts: map<EventId, nat>, phase: Phase) {
    /** The events the batch has still to write. */
    function Owned(): set<EventId> {
      match phase
      case Publishing => attempts.Keys
      case Writing(_, _, succeeded, retried, dead) => succeeded + retried + dead
    }
  }

  datatype State = State(
    now: Millis,
    rows: Rows,
    flights: map<FlightId, Flight>,
    ranges: map<ReplayId, set<EventId>>)

  datatype WriteKind = SuccessWrite | RetryWrite | DlqWrite

  datatype Step =
    | Tick(delta: Millis)
    | Issue(statement: Statement)
    | ClaimBatch(flight: FlightId, returned: map<EventId, nat>)
    | DecideBatch(flight: FlightId, workerId: string,
                  results: map<EventId, PublishResult>, messages: map<EventId, string>)
    | Land(flight: FlightId, kind: WriteKind)
    | Lose(flight: FlightId, kind: WriteKind)
    | Crash(flight: FlightId)
    | SelectRange(replay: ReplayId, ids: set<EventId>)
    | ReplayRange(replay: ReplayId)

  const INITIAL := State(0.0, map[], map[], map[])

  /** Statements that producers, the maintenance timers and the admin API issue on their own. */
  predicate IssuedAlone(cfg: Config, s: Statement) {
    match s
    case Insert(_, _, _, _) => true
    case RecoverStale(thresholdMs) => thresholdMs == cfg.staleThresholdMs
    case ReplayOne(_) => true
    case ClearKeys(_) => true
    case _ => false
  }

  function WriteOf(cfg: Config, f: Flight, kind: WriteKind): Statement
    requires f.phase.Writing?
  {
    match kind
    case SuccessWrite => MarkSucceeded(f.phase.succeeded, f.phase.workerId)
    case RetryWrite => ScheduleRetry(f.phase.retried, f.phase.messages, cfg.backoff)
    case DlqWrite => MoveToDlq(f.phase.dead, f.phase.messages)
  }

  function WriteIds(f: Flight, kind: WriteKind): set<EventId>
    requires f.phase.Writing?
  {
    match kind
    case SuccessWrite => f.phase.succeeded
    case RetryWrite => f.phase.retried
    case DlqWrite => f.phase.dead
  }

  /** The batch once that write has reached the database, or has been given up. */
  function Without(f: Flight, kind: WriteKind): Flight
    requires f.phase.Writing?
  {
    match kind
    case SuccessWrite => f.(phase := f.phase.(succeeded := {}))
    case RetryWrite => f.(phase := f.phase.(retried := {}))
    case DlqWrite => f.(phase := f.phase.(dead := {}))
  }

  /** The ids whose result leads to the given decision. */
  function Chosen(cfg: Config, attempts: map<EventId, nat>, results: map<EventId, PublishResult>,
                  d: Decision): set<EventId> {
    set id | id in attempts && id in results && DecideRetry(results[id], attempts[id], cfg.maxRetries) == d
  }

  function Decided(cfg: Config, f: Flight, workerId: string, results: map<EventId, PublishResult>,
                   messages: map<EventId, string>): Flight {
    f.(phase := Writing(workerId, messages,
      Chosen(cfg, f.attempts, results, Succeed),
      Chosen(cfg, f.attempts, results, Reschedule),
      Chosen(cfg, f.attempts, results, GiveUp)))
  }

  /** The messages are those of the results that carry an error. */
  predicate MessagesOf(results: map<EventId, PublishResult>, messages: map<EventId, string>) {
    && (forall id | id in messages :: id in results)
    && forall id | id in results ::
         if id in messages then results[id].error == Some(messages[id]) else results[id].error.None?
  }

  predicate InFlight(s: State, f: FlightId, kind: WriteKind) {
    && f in s.flights
    && s.flights[f].phase.Writing?
    && WriteIds(s.flights[f], kind) != {}
  }

  /** The statement the step sends to the database, if any. */
  function StatementOf(cfg: Config, s: State, step: Step): Option<Statement> {
    match step
    case Issue(statement) => Some(statement)
    case ClaimBatch(_, returned) => Some(Claim(returned.Keys))
    case Land(f, kind) => if InFlight(s, f, kind) then Some(WriteOf(cfg, s.flights[f], kind)) else None
    case ReplayRange(r) => if r in s.ranges then Some(ReplayRows(s.ranges[r])) else None
    case _ => None
  }

  /** The database does not reject the step's statement. */
  predicate Accepted(cfg: Config, s: State, step: Step) {
    StatementOf(cfg, s, step).Some? ==>
      UniqueKeys(Apply(s.rows, StatementOf(cfg, s, step).value, s.now))
  }

  /** The step is possible, unless the database rejects its statement. */
  predicate Ready(cfg: Config, s: State, step: Step) {
    match step
    case Tick(delta) => delta > 0.0
    case Issue(statement) =>
      IssuedAlone(cfg, statement) && (statement.Insert? ==> statement.id !in s.rows)
    case ClaimBatch(f, returned) =>
      && f !in s.flights && |returned.Keys| <= cfg.batchSize
      && forall id | id in returned ::
           id in s.rows && Eligible(s.rows[id], s.now) && returned[id] == s.rows[id].retryCount
    case DecideBatch(f, _, results, messages) =>
      && f in s.flights && s.flights[f].phase.Publishing?
      && results.Keys == s.flights[f].attempts.Keys && MessagesOf(results, messages)
    case Land(f, kind) => InFlight(s, f, kind)
    case Lose(f, kind) => InFlight(s, f, kind)
    case Crash(f) => f in s.flights
    case SelectRange(r, ids) =>
      r !in s.ranges && forall id | id in ids :: id in s.rows && Replayable(s.rows[id])
    case ReplayRange(r) => r in s.ranges
  }

  predicate Enabled(cfg: Config, s: State, step: Step) {
    Ready(cfg, s, step) && Accepted(cfg, s, step)
  }

  function FlightsAfter(cfg: Config, s: State, step: Step): map<FlightId, Flight>
    requires Enabled(cfg, s, step)
  {
    match step
    case ClaimBatch(f, returned) => s.flights[f := Flight(s.now, returned, Publishing)]
    case DecideBatch(f, workerId, results, messages) =>
      s.flights[f := Decided(cfg, s.flights[f], workerId, results, messages)]
    case Land(f, kind) => s.flights[f := Without(s.flights[f], kind)]
    case Lose(f, kind) => s.flights[f := Without(s.flights[f], kind)]
    case Crash(f) => s.flights - {f}
    case _ => s.flights
  }

  function RowsAfter(cfg: Config, s: State, step: Step): Rows {
    if StatementOf(cfg, s, step).Some? then Apply(s.rows, StatementOf(cfg, s, step).value, s.now) else s.rows
  }

  function After(cfg: Config, s: State, step: Step): State
    requires Enabled(cfg, s, step)
  {
    State(
      if step.Tick? then s.now + step.delta else s.now,
      RowsAfter(cfg, s, step),
      FlightsAfter(cfg, s, step),
      match step
      case SelectRange(r, ids) => s.ranges[r := ids]
      case ReplayRange(r) => s.ranges - {r}
      case _ => s.ranges)
  }

  /** A step that is not enabled does nothing, so every sequence of steps is a run. */
  function Next(cfg: Config, s: State, step: Step): State {
    if Enabled(cfg, s, step) then After(cfg, s, step) else s
  }

  function Run(cfg: Config, s: State, steps: seq<Step>): State {
    if steps == [] then s else Next(cfg, Run(cfg, s, steps[..|steps| - 1]), steps[|steps| - 1])
  }

  lemma {:induction false} RunConcat(cfg: Config, s: State, a: seq<Step>, b: seq<Step>)
    ensures Run(cfg, s, a + b) == Run(cfg, Run(cfg, s, a), b)
    decreases |b|
  {
    if b == [] {
      assert a + b == a;
    } else {
      var n := |b| - 1;
      assert (a + b)[..|a + b| - 1] == a + b[..n];
      RunConcat(cfg, s, a, b[..n]);
    }
  }

  lemma RunThen(cfg: Config, s: State, a: seq<Step>, step: Step)
    ensures Run(cfg, s, a + [step]) == Next(cfg, Run(cfg, s, a), step)
  {
  }

  /** Rows are never lost, and a step changes a row exactly as its statement does. */
  lemma RowsInStep(cfg: Config, s: State, step: Step, id: EventId)
    requires Enabled(cfg, s, step) && id in s.rows
    ensures id in After(cfg, s, step).rows
    ensures After(cfg, s, step).rows[id] ==
      match StatementOf(cfg, s, step)
      case Some(statement) => RowAfter(statement, id, s.rows[id], s.now)
      case None => s.rows[id]
    ensures After(cfg, s, step).rows[id].maxRetries == s.rows[id].maxRetries
  {
  }

  /** Producers, maintenance, admins and the clock need wait for nobody, and a worker for nothing but its batch. */
  lemma NobodyWaits(cfg: Config, s: State, id: EventId, data: EventData, key: Option<string>, maxRetries: int,
                    retentionMs: Millis, delta: Millis, f: FlightId, kind: WriteKind)
    ensures id !in s.rows ==> Ready(cfg, s, Issue(Insert(id, data, key, maxRetries)))
    ensures Ready(cfg, s, Issue(RecoverStale(cfg.staleThresholdMs)))
    ensures Ready(cfg, s, Issue(ReplayOne(id))) && Ready(cfg, s, Issue(ClearKeys(retentionMs)))
    ensures delta > 0.0 ==> Ready(cfg, s, Tick(delta))
    ensures f in s.flights ==> Ready(cfg, s, Crash(f))
    ensures InFlight(s, f, kind) ==> Ready(cfg, s, Land(f, kind)) && Ready(cfg, s, Lose(f, kind))
  {
  }
}
