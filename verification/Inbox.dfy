/** The inbox_events table under concurrent consumer transactions: deduplication by a unique
    key, explicit failures, and retention cleanup. */
module Inbox {
  /** An idempotency key. */
  type Key = string
  type RowId = nat
  type TxId = nat
  type Millis = real

  datatype InboxStatus = Processed | Failed

  datatype InboxRow = InboxRow(id: RowId, status: InboxStatus, processedAt: Millis)

  type InboxRows = map<Key, InboxRow>

  /** What an open transaction has done and nobody else sees yet: rows it inserted, and
      committed rows it marked as failed (it holds their locks). */
  datatype Tx = Tx(inserted: InboxRows, marked: map<Key, Millis>)

  datatype State = State(now: Millis, committed: InboxRows, txs: map<TxId, Tx>)

  const INITIAL := State(0.0, map[], map[])

  datatype Step =
    | Tick(delta: Millis)
    | Begin(tx: TxId)
    | Receive(tx: TxId, key: Key, newId: RowId)
    | MarkFailed(tx: TxId, target: RowId)
    | Commit(tx: TxId)
    | Rollback(tx: TxId)
    | Cleanup(retentionMs: Millis)

  /** receive() finds the key new: neither committed nor inserted earlier in the same transaction. */
  predicate IsNew(s: State, tx: TxId, key: Key)
    requires tx in s.txs
  {
    key !in s.committed && key !in s.txs[tx].inserted
  }

  /** Another open transaction has inserted the key: the unique index makes this one wait for its end. */
  predicate KeyLocked(s: State, tx: TxId, key: Key) {
    exists other | other in s.txs :: other != tx && key in s.txs[other].inserted
  }

  predicate RowLocked(s: State, tx: TxId, key: Key) {
    exists other | other in s.txs :: other != tx && key in s.txs[other].marked
  }

  predicate Expired(row: InboxRow, now: Millis, retentionMs: Millis) {
    row.status == Processed && row.processedAt < now - retentionMs
  }

  function ExpiredKeys(s: State, retentionMs: Millis): set<Key> {
    set k | k in s.committed && Expired(s.committed[k], s.now, retentionMs)
  }

  predicate Enabled(s: State, step: Step) {
    match step
    case Tick(delta) => delta > 0.0
    case Begin(tx) => tx !in s.txs
    case Receive(tx, key, _) => tx in s.txs && !KeyLocked(s, tx, key)
    case MarkFailed(tx, target) =>
      tx in s.txs && forall k | k in s.committed && s.committed[k].id == target :: !RowLocked(s, tx, k)
    case Commit(tx) => tx in s.txs
    case Rollback(tx) => tx in s.txs
    case Cleanup(retentionMs) =>
      forall k, tx | k in ExpiredKeys(s, retentionMs) && tx in s.txs :: k !in s.txs[tx].marked
  }

  function Fail(row: InboxRow, at: Millis): InboxRow {
    row.(status := Failed, processedAt := at)
  }

  /** INSERT ... ON CONFLICT (idempotency_key) DO NOTHING, with status 'processed'. */
  function Received(s: State, tx: TxId, key: Key, newId: RowId): Tx
    requires tx in s.txs
  {
    if IsNew(s, tx, key) then s.txs[tx].(inserted := s.txs[tx].inserted[key := InboxRow(newId, Processed, s.now)])
    else s.txs[tx]
  }

  function MarkInserted(rows: InboxRows, target: RowId, at: Millis): InboxRows {
    map k | k in rows :: if rows[k].id == target then Fail(rows[k], at) else rows[k]
  }

  /** UPDATE ... SET status = 'failed' WHERE id = target, on the rows the transaction sees. */
  function Marked(s: State, tx: TxId, target: RowId): Tx
    requires tx in s.txs
  {
    Tx(MarkInserted(s.txs[tx].inserted, target, s.now),
       s.txs[tx].marked + map k | k in s.committed && s.committed[k].id == target :: s.now)
  }

  /** The table once the transaction is committed. */
  function Merged(committed: InboxRows, tx: Tx): InboxRows {
    map k | k in committed.Keys + tx.inserted.Keys ::
      if k in tx.inserted then tx.inserted[k]
      else if k in tx.marked then Fail(committed[k], tx.marked[k])
      else committed[k]
  }

  function After(s: State, step: Step): State
    requires Enabled(s, step)
  {
    match step
    case Tick(delta) => s.(now := s.now + delta)
    case Begin(tx) => s.(txs := s.txs[tx := Tx(map[], map[])])
    case Receive(tx, key, newId) => s.(txs := s.txs[tx := Received(s, tx, key, newId)])
    case MarkFailed(tx, target) => s.(txs := s.txs[tx := Marked(s, tx, target)])
    case Commit(tx) => s.(committed := Merged(s.committed, s.txs[tx]), txs := s.txs - {tx})
    case Rollback(tx) => s.(txs := s.txs - {tx})
    case Cleanup(retentionMs) => s.(committed := s.committed - ExpiredKeys(s, retentionMs))
  }

  /** A step that is not enabled waits, and does nothing. */
  function Next(s: State, step: Step): State {
    if Enabled(s, step) then After(s, step) else s
  }

  function Run(steps: seq<Step>): State {
    if steps == [] then INITIAL else Next(Run(steps[..|steps| - 1]), steps[|steps| - 1])
  }

  /** The step commits a transaction in which receive(key) answered 'processed'. */
  ghost predicate CommitsProcessed(s: State, step: Step, key: Key) {
    step.Commit? && step.tx in s.txs && key in s.txs[step.tx].inserted
  }

  ghost predicate Deletes(s: State, step: Step, key: Key) {
    step.Cleanup? && Enabled(s, step) && key in ExpiredKeys(s, step.retentionMs)
  }

  /** How often 'processed' was answered for the key and committed. */
  ghost function ProcessedCount(steps: seq<Step>, key: Key): nat {
    if steps == [] then 0 else
      var n := |steps| - 1;
      ProcessedCount(steps[..n], key) + (if CommitsProcessed(Run(steps[..n]), steps[n], key) then 1 else 0)
  }

  ghost function DeletionCount(steps: seq<Step>, key: Key): nat {
    if steps == [] then 0 else
      var n := |steps| - 1;
      DeletionCount(steps[..n], key) + (if Deletes(Run(steps[..n]), steps[n], key) then 1 else 0)
  }

  /** Open transactions insert disjoint new keys, and lock disjoint committed rows. */
  ghost predicate Isolated(s: State) {
    && (forall tx :: tx in s.txs ==>
          s.txs[tx].inserted.Keys !! s.committed.Keys && s.txs[tx].marked.Keys <= s.committed.Keys)
    && (forall a, b :: a in s.txs && b in s.txs && a != b ==>
          s.txs[a].inserted.Keys !! s.txs[b].inserted.Keys && s.txs[a].marked.Keys !! s.txs[b].marked.Keys)
  }

  lemma IsolatedInStep(s: State, step: Step)
    requires Isolated(s)
    ensures Isolated(Next(s, step))
  {
    if Enabled(s, step) {
      var t := After(s, step);
      forall tx | tx in t.txs
        ensures t.txs[tx].inserted.Keys !! t.committed.Keys && t.txs[tx].marked.Keys <= t.committed.Keys
      {
        if tx in s.txs {
          TxInStep(s, step, tx);
        }
      }
      forall a, b | a in t.txs && b in t.txs && a != b
        ensures t.txs[a].inserted.Keys !! t.txs[b].inserted.Keys && t.txs[a].marked.Keys !! t.txs[b].marked.Keys
      {
        if a in s.txs && b in s.txs {
          TxInStep(s, step, a);
          TxInStep(s, step, b);
          assert step.Receive? && step.tx == a ==> step.key !in s.txs[b].inserted;
          assert step.Receive? && step.tx == b ==> step.key !in s.txs[a].inserted;
          if step.MarkFailed? {
            MarksApart(s, step, a, b);
          }
        }
      }
    }
  }

  lemma MarksApart(s: State, step: Step, a: TxId, b: TxId)
    requires step.MarkFailed? && Enabled(s, step) && a in s.txs && b in s.txs && a != b
    requires s.txs[a].marked.Keys !! s.txs[b].marked.Keys
    ensures After(s, step).txs[a].marked.Keys !! After(s, step).txs[b].marked.Keys
  {
    forall k | k in s.committed && s.committed[k].id == step.target
      ensures step.tx == a ==> k !in s.txs[b].marked
      ensures step.tx == b ==> k !in s.txs[a].marked
    {
      assert !RowLocked(s, step.tx, k);
    }
  }

  /** What a step does to a transaction that stays open. */
  lemma TxInStep(s: State, step: Step, tx: TxId)
    requires Isolated(s) && Enabled(s, step) && tx in s.txs && tx in After(s, step).txs
    ensures var t := After(s, step);
      && s.txs[tx].inserted.Keys <= t.txs[tx].inserted.Keys
      && t.txs[tx].inserted.Keys <= s.txs[tx].inserted.Keys +
           (if step.Receive? && step.tx == tx && IsNew(s, tx, step.key) then {step.key} else {})
      && t.txs[tx].inserted.Keys !! t.committed.Keys
      && t.txs[tx].marked.Keys <= t.committed.Keys
  {
  }

  lemma {:induction false} AlwaysIsolated(steps: seq<Step>)
    ensures Isolated(Run(steps))
  {
    if steps != [] {
      AlwaysIsolated(steps[..|steps| - 1]);
      IsolatedInStep(Run(steps[..|steps| - 1]), steps[|steps| - 1]);
    }
  }

  /** Every committed 'processed' answer for a key is either the row still there or a row since cleaned up. */
  lemma {:induction false} Conservation(steps: seq<Step>, key: Key)
    ensures ProcessedCount(steps, key) == DeletionCount(steps, key) + (if key in Run(steps).committed then 1 else 0)
  {
    if steps != [] {
      var n := |steps| - 1;
      Conservation(steps[..n], key);
      AlwaysIsolated(steps[..n]);
    }
  }

  ghost predicate FailedRow(s: State, key: Key) {
    key in s.committed && s.committed[key].status == Failed
  }

  /** A key committed as failed is never deleted, and stays failed. */
  lemma {:induction false} FailedForEver(steps: seq<Step>, i: nat, key: Key)
    requires i <= |steps| && FailedRow(Run(steps[..i]), key)
    ensures FailedRow(Run(steps), key)
  {
    if i == |steps| {
      assert steps[..i] == steps;
    } else {
      var n := |steps| - 1;
      assert steps[..n][..i] == steps[..i];
      FailedForEver(steps[..n], i, key);
      AlwaysIsolated(steps[..n]);
    }
  }

  /** From then on no transaction is ever told that the key is new. */
  lemma FailedStaysDeduplicated(steps: seq<Step>, i: nat, key: Key, tx: TxId)
    requires i <= |steps| && FailedRow(Run(steps[..i]), key) && tx in Run(steps).txs
    ensures !IsNew(Run(steps), tx, key)
    ensures ProcessedCount(steps, key) == DeletionCount(steps[..i], key) + 1
  {
    FailedForEver(steps, i, key);
    Conservation(steps, key);
    NotDeletedSince(steps, i, key);
  }

  lemma {:induction false} NotDeletedSince(steps: seq<Step>, i: nat, key: Key)
    requires i <= |steps| && FailedRow(Run(steps[..i]), key)
    ensures DeletionCount(steps, key) == DeletionCount(steps[..i], key)
  {
    if i == |steps| {
      assert steps[..i] == steps;
    } else {
      var n := |steps| - 1;
      assert steps[..n][..i] == steps[..i];
      NotDeletedSince(steps[..n], i, key);
      FailedForEver(steps[..n], i, key);
    }
  }

  lemma RunOneMore(h: seq<Step>, step: Step)
    ensures Run(h + [step]) == Next(Run(h), step)
  {
    assert (h + [step])[..|h|] == h;
  }

  ghost predicate OldProcessed(s: State, key: Key, retentionMs: Millis) {
    && key in s.committed && s.committed[key].status == Processed
    && s.now > s.committed[key].processedAt + retentionMs
  }

  /** A cleanup waits exactly while an open transaction has marked one of the rows it would delete. */
  lemma CleanupWaitsExactlyForMarks(s: State, retentionMs: Millis)
    ensures Enabled(s, Cleanup(retentionMs))
      <==> forall k, tx :: OldProcessed(s, k, retentionMs) && tx in s.txs ==> k !in s.txs[tx].marked
  {
    assert forall k :: k in ExpiredKeys(s, retentionMs) <==> OldProcessed(s, k, retentionMs);
  }

  /** After any run, a cleanup that need not wait deletes a key exactly if its row was processed longer ago than the
      retention, and changes no other row. */
  lemma {:induction false} CleanupDeletesExactlyOldProcessed(steps: seq<Step>, retentionMs: Millis, key: Key)
    requires Enabled(Run(steps), Cleanup(retentionMs)) && key in Run(steps).committed
    ensures var s, after := Run(steps), Run(steps + [Cleanup(retentionMs)]).committed;
      && (key !in after <==>
            s.committed[key].status == Processed && s.now > s.committed[key].processedAt + retentionMs)
      && (key in after ==> after[key] == s.committed[key])
  {
    RunOneMore(steps, Cleanup(retentionMs));
  }

  /** A receive waits exactly while another open transaction has inserted the key, and a failure mark while another has
      marked a committed row with that id. */
  lemma WaitsExactlyForOthers(s: State, tx: TxId, key: Key, id: RowId)
    requires tx in s.txs
    ensures Enabled(s, Receive(tx, key, id)) <==>
      forall other :: other in s.txs && other != tx ==> key !in s.txs[other].inserted
    ensures Enabled(s, MarkFailed(tx, id)) <==>
      forall k, other :: k in s.committed && s.committed[k].id == id && other in s.txs && other != tx ==>
        k !in s.txs[other].marked
  {
    if Enabled(s, MarkFailed(tx, id)) {
      forall k, other | k in s.committed && s.committed[k].id == id && other in s.txs && other != tx
        ensures k !in s.txs[other].marked
      {
        assert !RowLocked(s, tx, k);
      }
    }
  }

  /** The row a transaction sees under the key, if any. */
  ghost predicate Sees(s: State, tx: TxId, key: Key, row: InboxRow)
    requires tx in s.txs
  {
    if key in s.txs[tx].inserted then row == s.txs[tx].inserted[key]
    else key in s.committed && row.id == s.committed[key].id &&
         if key in s.txs[tx].marked then row.status == Failed && row.processedAt == s.txs[tx].marked[key]
         else row == s.committed[key]
  }

  /** After any run, marking a row as failed and committing fails exactly the rows with that id, at that instant; every
      other row is committed as the transaction saw it. */
  lemma {:induction false} MarkedRowsFail(steps: seq<Step>, tx: TxId, target: RowId, key: Key, row: InboxRow)
    requires tx in Run(steps).txs && Enabled(Run(steps), MarkFailed(tx, target)) && Sees(Run(steps), tx, key, row)
    ensures var after := Run(steps + [MarkFailed(tx, target)] + [Commit(tx)]).committed;
      key in after && after[key] == if row.id == target then InboxRow(target, Failed, Run(steps).now) else row
  {
    RunOneMore(steps, MarkFailed(tx, target));
    RunOneMore(steps + [MarkFailed(tx, target)], Commit(tx));
  }
}
