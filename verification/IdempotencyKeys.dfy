/** The idempotency key through an event's life: when the partial unique index can bite, and
    what publishing the same key again does. */
module IdempotencyKeys {
  import opened Common
  import opened OutboxTable
  import opened Protocol
  import opened Ownership
  import opened StuckSet

  /** The rows the unique index holds under the key: what ON CONFLICT finds. */
  ghost function Holders(rows: Rows, key: string): set<EventId> {
    set id | id in rows && Indexed(rows[id], key)
  }

  lemma HoldersAreUnique(rows: Rows, key: string, i: EventId, j: EventId)
    requires UniqueKeys(rows) && i in Holders(rows, key) && j in Holders(rows, key)
    ensures i == j
  {
  }

  /** INSERT ... ON CONFLICT (idempotency_key) WHERE ... DO UPDATE SET idempotency_key = itself
      RETURNING id: an existing holder is returned and nothing changes, otherwise the row is new. */
  ghost predicate Publishes(rows: Rows, insert: Statement, now: Millis, result: Rows, returned: EventId)
    requires insert.Insert?
  {
    if insert.key.Some? && Holders(rows, insert.key.value) != {} then
      result == rows && returned in Holders(rows, insert.key.value)
    else
      result == Apply(rows, insert, now) && returned == insert.id
  }

  /** A plain INSERT is rejected exactly when its key has a holder. */
  lemma InsertRejectedExactlyByHolder(rows: Rows, insert: Statement, now: Millis)
    requires UniqueKeys(rows) && insert.Insert? && insert.id !in rows
    ensures UniqueKeys(Apply(rows, insert, now)) <==> insert.key.None? || Holders(rows, insert.key.value) == {}
  {
    var next := Apply(rows, insert, now);
    if insert.key.Some? && Holders(rows, insert.key.value) != {} {
      var j :| j in Holders(rows, insert.key.value);
      assert next[j].idempotencyKey == next[insert.id].idempotencyKey && j != insert.id;
    } else if insert.key.Some? {
      forall j | j in rows && rows[j].status != Succeeded
        ensures rows[j].idempotencyKey != insert.key
      {
        assert j !in Holders(rows, insert.key.value);
      }
    }
  }

  /** A row that is not 'succeeded' after a statement was not before, unless the statement overwrote it; keys only
      vanish. */
  lemma IndexOnlyShrinks(cfg: Config, s: State, step: Step, statement: Statement, id: EventId)
    requires Exclusive(cfg, s) && Orderly(cfg, s, step) && Ready(cfg, s, step) && id in s.rows
    requires StatementOf(cfg, s, step) == Some(statement) && !statement.Insert?
    ensures var row := RowAfter(statement, id, s.rows[id], s.now);
      && (row.status != Succeeded ==> s.rows[id].status != Succeeded)
      && (row.idempotencyKey == s.rows[id].idempotencyKey || (row.idempotencyKey.None? && row.status == Succeeded))
  {
  }

  /** In a well-timed system the unique index never rejects a claim, a batch write, a recovery,
      a replay or a cleanup. */
  lemma {:induction false} OnlyInsertsAreRejected(cfg: Config, s: State, step: Step)
    requires Exclusive(cfg, s) && Orderly(cfg, s, step) && UniqueKeys(s.rows)
    requires Ready(cfg, s, step) && !(step.Issue? && step.statement.Insert?)
    ensures Accepted(cfg, s, step)
  {
    if StatementOf(cfg, s, step).Some? {
      var statement := StatementOf(cfg, s, step).value;
      var next := Apply(s.rows, statement, s.now);
      forall i, j | i in next && j in next && i != j
        && next[i].idempotencyKey.Some? && next[i].status != Succeeded && next[j].status != Succeeded
        ensures next[i].idempotencyKey != next[j].idempotencyKey
      {
        IndexOnlyShrinks(cfg, s, step, statement, i);
        IndexOnlyShrinks(cfg, s, step, statement, j);
      }
    }
  }

  lemma NothingIsRejected(cfg: Config, steps: seq<Step>, step: Step)
    requires WellTimed(cfg, steps + [step]) && Ready(cfg, Run(cfg, INITIAL, steps), step)
    requires !(step.Issue? && step.statement.Insert?)
    ensures Enabled(cfg, Run(cfg, INITIAL, steps), step)
  {
    var all := steps + [step];
    assert all[..|steps|] == steps;
    PrefixIsWellTimed(cfg, all, |steps|);
    OwnershipIsExclusive(cfg, steps);
    ReachableIsSane(cfg, steps);
    WellTimedIsOrderly(cfg, all, |steps|);
    OnlyInsertsAreRejected(cfg, Run(cfg, INITIAL, steps), step);
  }

  lemma KeyKeptInStep(cfg: Config, s: State, step: Step, id: EventId, key: string)
    requires Exclusive(cfg, s) && Orderly(cfg, s, step)
    requires id in s.rows && (Indexed(s.rows[id], key) || s.rows[id].status == Succeeded)
    ensures id in Next(cfg, s, step).rows
    ensures Indexed(Next(cfg, s, step).rows[id], key) || Next(cfg, s, step).rows[id].status == Succeeded
  {
    if s.rows[id].status == Succeeded {
      SucceededStaysInStep(cfg, s, step, id);
    } else if Enabled(cfg, s, step) {
      RowsInStep(cfg, s, step, id);
    }
  }

  /** A row published under a key holds it until the row has succeeded. */
  lemma {:induction false} KeyIsHeldUntilSuccess(cfg: Config, steps: seq<Step>, i: nat, id: EventId, key: string)
    requires WellTimed(cfg, steps) && i <= |steps|
    requires id in Run(cfg, INITIAL, steps[..i]).rows && Indexed(Run(cfg, INITIAL, steps[..i]).rows[id], key)
    ensures id in Run(cfg, INITIAL, steps).rows
    ensures Indexed(Run(cfg, INITIAL, steps).rows[id], key) || Run(cfg, INITIAL, steps).rows[id].status == Succeeded
  {
    if i == |steps| {
      assert steps[..i] == steps;
    } else {
      var n := |steps| - 1;
      PrefixIsWellTimed(cfg, steps, n);
      assert steps[..n][..i] == steps[..i];
      KeyIsHeldUntilSuccess(cfg, steps[..n], i, id, key);
      OwnershipIsExclusive(cfg, steps[..n]);
      WellTimedIsOrderly(cfg, steps, n);
      KeyKeptInStep(cfg, Run(cfg, INITIAL, steps[..n]), steps[n], id, key);
    }
  }

  /** The new row is added, and alone holds the key. */
  ghost predicate InsertsHolder(rows: Rows, insert: Statement, key: string, result: Rows, returned: EventId)
    requires insert.Insert?
  {
    && returned == insert.id
    && result.Keys == rows.Keys + {insert.id}
    && Holders(result, key) == {insert.id}
    && UniqueKeys(result)
  }

  /** Publishing a key again, at any later point of a well-timed run, returns the first event's
      id and adds nothing until that event has succeeded; from then on it never returns that id. */
  lemma {:induction false} RepublishingIsIdempotentUntilSuccess(cfg: Config, steps: seq<Step>, i: nat, id: EventId,
                                                                key: string,
                                             insert: Statement, result: Rows, returned: EventId)
    requires WellTimed(cfg, steps) && i <= |steps|
    requires id in Run(cfg, INITIAL, steps[..i]).rows && Indexed(Run(cfg, INITIAL, steps[..i]).rows[id], key)
    requires insert.Insert? && insert.key == Some(key) && insert.id !in Run(cfg, INITIAL, steps).rows
    requires var s := Run(cfg, INITIAL, steps); Publishes(s.rows, insert, s.now, result, returned)
    ensures id in Run(cfg, INITIAL, steps).rows
    ensures var s := Run(cfg, INITIAL, steps);
      && (s.rows[id].status != Succeeded ==> result == s.rows && returned == id)
      && (s.rows[id].status == Succeeded ==> returned != id)
      && (s.rows[id].status == Succeeded && Holders(s.rows, key) == {} ==>
            InsertsHolder(s.rows, insert, key, result, returned))
  {
    var s := Run(cfg, INITIAL, steps);
    KeyIsHeldUntilSuccess(cfg, steps, i, id, key);
    ReachableIsSane(cfg, steps);
    if s.rows[id].status != Succeeded {
      assert id in Holders(s.rows, key);
      HoldersAreUnique(s.rows, key, id, returned);
    } else if Holders(s.rows, key) == {} {
      InsertRejectedExactlyByHolder(s.rows, insert, s.now);
      forall j | j in result && j != insert.id
        ensures j !in Holders(result, key)
      {
        assert j !in Holders(s.rows, key);
      }
      assert insert.id in Holders(result, key);
    }
  }
}
