/** The workers decide with their configured limit, the database with the row's own: when
    the two limits disagree, a batch write is skipped in silence and the row is stranded. */
module RetryLimits {
  import opened Common
  import opened OutboxTable
  import opened Retry
  import opened Protocol
  import opened StuckSet

  /** A run without crashes and lost writes, whose events all allow at least m retries. */
  ghost predicate Careful(m: int, steps: seq<Step>) {
    forall step :: step in steps ==>
      && !step.Crash? && !step.Lose?
      && (step.Issue? && step.statement.Insert? ==> m <= step.statement.maxRetries)
  }

  /** No such run ever strands an event. */
  ghost predicate NoneStranded(cfg: Config, m: int) {
    forall steps: seq<Step>, id: EventId :: Careful(m, steps) ==> !Stuck(Run(cfg, INITIAL, steps), id)
  }

  const FAILURE := PublishResult(false, None, true)

  /** One event, after k failed attempts, that no batch holds. */
  ghost predicate Waiting(s: State, m: int, k: nat) {
    && s.ranges == map[]
    && s.rows.Keys == {0}
    && (s.rows[0].status == Pending || s.rows[0].status == Failed)
    && s.rows[0].retryCount == k && s.rows[0].maxRetries == m
    && s.rows[0].deletedAt.None?
    && (forall f :: f in s.flights ==> f < k && s.flights[f].Owned() == {})
  }

  /** The same event, with batch k about to write that its attempt failed. */
  ghost predicate Rescheduling(s: State, m: int, k: nat) {
    && s.ranges == map[]
    && s.rows.Keys == {0}
    && s.rows[0].status == Processing
    && s.rows[0].retryCount == k && s.rows[0].maxRetries == m
    && s.rows[0].deletedAt.None?
    && k in s.flights && s.flights[k].phase.Writing? && s.flights[k].phase.retried == {0}
    && s.flights[k].phase.succeeded == {} && s.flights[k].phase.dead == {}
    && (forall f :: f in s.flights && f != k ==> f < k && s.flights[f].Owned() == {})
  }

  /** The same event, claimed by batch k and still at the publisher. */
  ghost predicate Attempting(s: State, m: int, k: nat) {
    && s.ranges == map[]
    && s.rows.Keys == {0}
    && s.rows[0].status == Processing
    && s.rows[0].retryCount == k && s.rows[0].maxRetries == m
    && s.rows[0].deletedAt.None?
    && k in s.flights && s.flights[k].phase.Publishing? && s.flights[k].attempts == map[0 := k]
    && (forall f :: f in s.flights && f != k ==> f < k && s.flights[f].Owned() == {})
  }

  lemma Wait(cfg: Config, s: State, m: int, k: nat) returns (tick: Step)
    requires Waiting(s, m, k)
    ensures tick.Tick? && Waiting(Next(cfg, s, tick), m, k)
    ensures Eligible(Next(cfg, s, tick).rows[0], Next(cfg, s, tick).now)
  {
    var due := if s.rows[0].nextRetryAt.Some? then s.rows[0].nextRetryAt.value else s.now;
    tick := Tick(if due > s.now then due - s.now else 1.0);
    assert Next(cfg, s, tick) == s.(now := s.now + tick.delta);
  }

  lemma ClaimIt(cfg: Config, s: State, m: int, k: nat)
    requires cfg.batchSize > 0 && Waiting(s, m, k) && Eligible(s.rows[0], s.now)
    ensures Attempting(Next(cfg, s, ClaimBatch(k, map[0 := k])), m, k)
  {
    var claim := ClaimBatch(k, map[0 := k]);
    assert map[0 := k].Keys == {0};
    assert Enabled(cfg, s, claim);
  }

  lemma FailIt(cfg: Config, s: State, m: int, k: nat)
    requires k < cfg.maxRetries && Attempting(s, m, k)
    ensures Rescheduling(Next(cfg, s, DecideBatch(k, "worker", map[0 := FAILURE], map[])), m, k)
  {
  }

  lemma Fail(cfg: Config, s: State, m: int, k: nat) returns (steps: seq<Step>)
    requires cfg.batchSize > 0 && k < cfg.maxRetries && Waiting(s, m, k)
    ensures Careful(m, steps) && Rescheduling(Run(cfg, s, steps), m, k)
  {
    var tick := Wait(cfg, s, m, k);
    var claim, decide := ClaimBatch(k, map[0 := k]), DecideBatch(k, "worker", map[0 := FAILURE], map[]);
    steps := [] + [tick] + [claim] + [decide];
    RunThen(cfg, s, [] + [tick] + [claim], decide);
    RunThen(cfg, s, [] + [tick], claim);
    RunThen(cfg, s, [], tick);
    ClaimIt(cfg, Next(cfg, s, tick), m, k);
    FailIt(cfg, Next(cfg, Next(cfg, s, tick), claim), m, k);
  }

  /** Landing the retry write reschedules the event exactly while the row itself has retries left. */
  lemma RetryLandsOrStrands(cfg: Config, s: State, m: int, k: nat)
    requires Rescheduling(s, m, k)
    ensures if k < m then Waiting(Next(cfg, s, Land(k, RetryWrite)), m, k + 1)
            else Stuck(Next(cfg, s, Land(k, RetryWrite)), 0)
  {
    var land := Land(k, RetryWrite);
    assert 0 in WriteIds(s.flights[k], RetryWrite);
    assert Enabled(cfg, s, land);
    var t := After(cfg, s, land);
    assert t.flights[k].Owned() == {};
  }

  lemma {:induction false} FailTimes(cfg: Config, m: int, k: nat) returns (steps: seq<Step>)
    requires cfg.batchSize > 0 && k <= Max(0, m) && k <= cfg.maxRetries
    ensures Careful(m, steps) && Waiting(Run(cfg, INITIAL, steps), m, k)
  {
    if k == 0 {
      var insert := Issue(Insert(0, EventData("", "", "", ""), None, m));
      steps := [] + [insert];
      RunThen(cfg, INITIAL, [], insert);
      assert Enabled(cfg, INITIAL, insert);
    } else {
      var before := FailTimes(cfg, m, k - 1);
      var s := Run(cfg, INITIAL, before);
      var failure := Fail(cfg, s, m, k - 1);
      steps := before + failure + [Land(k - 1, RetryWrite)];
      RunConcat(cfg, INITIAL, before, failure);
      RunThen(cfg, INITIAL, before + failure, Land(k - 1, RetryWrite));
      RetryLandsOrStrands(cfg, Run(cfg, s, failure), m, k - 1);
    }
  }

  /** A larger configured limit strands an event that fails often enough. */
  lemma LargerLimitStrands(cfg: Config, m: int) returns (steps: seq<Step>)
    requires cfg.batchSize > 0 && Max(0, m) < cfg.maxRetries
    ensures Careful(m, steps) && Stuck(Run(cfg, INITIAL, steps), 0)
  {
    var k := Max(0, m);
    var before := FailTimes(cfg, m, k);
    var s := Run(cfg, INITIAL, before);
    var failure := Fail(cfg, s, m, k);
    steps := before + failure + [Land(k, RetryWrite)];
    RunConcat(cfg, INITIAL, before, failure);
    RunThen(cfg, INITIAL, before + failure, Land(k, RetryWrite));
    RetryLandsOrStrands(cfg, Run(cfg, s, failure), m, k);
  }

  lemma CrashStrandsLastAttempt(cfg: Config, s: State, m: int, k: nat)
    requires Attempting(s, m, k) && k >= m
    ensures !Stuck(s, 0) && Stuck(Next(cfg, s, Crash(k)), 0)
  {
    assert 0 in s.flights[k].Owned();
    assert Next(cfg, s, Crash(k)).flights == s.flights - {k};
  }

  /** With all limits in agreement and nothing else going wrong, a worker that crashes during an
      event's last attempt strands it: recovery does not take it back. */
  lemma {:induction false} CrashOnTheLastAttempt(cfg: Config) returns (before: seq<Step>, crash: Step)
    requires cfg.batchSize > 0
    ensures Careful(cfg.maxRetries, before) && crash.Crash?
    ensures 0 in Run(cfg, INITIAL, before).rows && Run(cfg, INITIAL, before).rows[0].maxRetries == cfg.maxRetries
    ensures !Stuck(Run(cfg, INITIAL, before), 0) && Stuck(Run(cfg, INITIAL, before + [crash]), 0)
  {
    var m := cfg.maxRetries;
    var failed := FailTimes(cfg, m, m);
    var s := Run(cfg, INITIAL, failed);
    var tick := Wait(cfg, s, m, m);
    var claim := ClaimBatch(m, map[0 := m]);
    RunThen(cfg, INITIAL, failed, tick);
    RunThen(cfg, INITIAL, failed + [tick], claim);
    ClaimIt(cfg, Next(cfg, s, tick), m, m);
    before := failed + [tick] + [claim];
    crash := Crash(m);
    RunThen(cfg, INITIAL, before, crash);
    CrashStrandsLastAttempt(cfg, Run(cfg, INITIAL, before), m, m);
  }

  /** Without crashes and lost writes, no event is ever stranded exactly when the workers'
      limit does not exceed what every event allows. */
  lemma NoneStrandedExactlyWithinLimit(cfg: Config, m: int)
    requires cfg.batchSize > 0
    ensures NoneStranded(cfg, m) <==> cfg.maxRetries <= Max(0, m)
  {
    if cfg.maxRetries <= Max(0, m) {
      forall steps: seq<Step>, id: EventId | Careful(m, steps)
        ensures !Stuck(Run(cfg, INITIAL, steps), id)
      {
        NothingIsAbandoned(cfg, steps);
      }
    } else {
      var steps := LargerLimitStrands(cfg, m);
      var id: EventId := 0;
      assert Careful(m, steps) && Stuck(Run(cfg, INITIAL, steps), id);
    }
  }
}
