/** A batch receive in the inbox state machine: the receives of one INSERT, taken one after the other in one
    open transaction, do to the table and answer what `InboxTable` says of the INSERT. */
module InboxBatches {
  import opened Inbox
  import opened InboxTable

  /** The rows a transaction sees. */
  ghost function Visible(s: State, tx: TxId): Table
    requires tx in s.txs
  {
    map k | k in s.committed.Keys + s.txs[tx].inserted.Keys ::
      if k in s.txs[tx].inserted then s.txs[tx].inserted[k].id else s.committed[k].id
  }

  ghost function Receives(tx: TxId, keys: seq<Key>, ids: seq<RowId>): seq<Step>
    requires |keys| == |ids|
    decreases |keys|
  {
    if keys == [] then [] else [Receive(tx, keys[0], ids[0])] + Receives(tx, keys[1..], ids[1..])
  }

  /** The state after them. */
  ghost function AfterReceives(s: State, tx: TxId, keys: seq<Key>, ids: seq<RowId>): State
    requires |keys| == |ids|
    decreases |keys|
  {
    if keys == [] then s else AfterReceives(Next(s, Receive(tx, keys[0], ids[0])), tx, keys[1..], ids[1..])
  }

  lemma {:induction false} RunReceives(h: seq<Step>, tx: TxId, keys: seq<Key>, ids: seq<RowId>)
    requires |keys| == |ids|
    ensures Run(h + Receives(tx, keys, ids)) == AfterReceives(Run(h), tx, keys, ids)
    decreases |keys|
  {
    if keys == [] {
      assert h + Receives(tx, keys, ids) == h;
    } else {
      var first, rest := Receive(tx, keys[0], ids[0]), Receives(tx, keys[1..], ids[1..]);
      RunOneMore(h, first);
      RunReceives(h + [first], tx, keys[1..], ids[1..]);
      assert h + ([first] + rest) == h + [first] + rest;
    }
  }

  /** What the transaction is told, receive by receive. */
  ghost function Told(s: State, tx: TxId, keys: seq<Key>, ids: seq<RowId>): seq<ReceiveStatus>
    requires |keys| == |ids|
    decreases |keys|
  {
    if keys == [] || tx !in s.txs then [] else
      [if IsNew(s, tx, keys[0]) then New else Duplicate]
        + Told(Next(s, Receive(tx, keys[0], ids[0])), tx, keys[1..], ids[1..])
  }

  /** No other open transaction has inserted one of the keys, so that the INSERT need not wait. */
  ghost predicate NoneLocked(s: State, tx: TxId, keys: seq<Key>) {
    forall key :: key in keys ==> !KeyLocked(s, tx, key)
  }

  /** Nothing but the transaction's inserts is touched. */
  ghost predicate OnlyInserts(s: State, tx: TxId, t: State)
    requires tx in s.txs
  {
    && tx in t.txs && t.txs[tx].marked == s.txs[tx].marked
    && t.committed == s.committed && t.now == s.now && t.txs.Keys == s.txs.Keys
    && forall other :: other in s.txs && other != tx ==> t.txs[other] == s.txs[other]
  }

  lemma NewExactlyIfNotTaken(canon: Canon, s: State, tx: TxId, key: Key)
    requires Exact(canon) && tx in s.txs
    ensures IsNew(s, tx, key) <==> key !in Visible(s, tx)
    ensures Taken(canon, Visible(s, tx), key) <==> key in Visible(s, tx)
  {
  }

  lemma ReceiveOnlyInserts(s: State, tx: TxId, key: Key, id: RowId)
    requires tx in s.txs && !KeyLocked(s, tx, key)
    ensures var t := Next(s, Receive(tx, key, id));
      && OnlyInserts(s, tx, t)
      && t.txs[tx].inserted
        == if IsNew(s, tx, key) then s.txs[tx].inserted[key := InboxRow(id, Processed, s.now)] else s.txs[tx].inserted
  {
    assert Enabled(s, Receive(tx, key, id));
  }

  lemma ReceiveIsInsertOne(canon: Canon, s: State, tx: TxId, key: Key, id: RowId)
    requires Exact(canon) && tx in s.txs && !KeyLocked(s, tx, key)
    ensures var t := Next(s, Receive(tx, key, id));
      && OnlyInserts(s, tx, t)
      && Visible(t, tx) == InsertOne(canon, Visible(s, tx), key, id)
      && (IsNew(s, tx, key) <==> !Taken(canon, Visible(s, tx), key))
  {
    ReceiveOnlyInserts(s, tx, key, id);
    NewExactlyIfNotTaken(canon, s, tx, key);
  }

  /** Where spellings are compared exactly: receiving the keys one after the other adds the rows that one INSERT
      adds, gives the answers of the simple form, and touches nothing else. */
  lemma {:induction false} BatchIsItsReceives(canon: Canon, s: State, tx: TxId, keys: seq<Key>, ids: seq<RowId>)
    requires |keys| == |ids| && Exact(canon) && tx in s.txs && NoneLocked(s, tx, keys)
    ensures var t := AfterReceives(s, tx, keys, ids);
      && OnlyInserts(s, tx, t)
      && Visible(t, tx) == InsertAll(canon, Visible(s, tx), keys, ids)
      && Told(s, tx, keys, ids) == OneByOne(canon, Visible(s, tx), keys, ids)
    decreases |keys|
  {
    if keys != [] {
      var next := Next(s, Receive(tx, keys[0], ids[0]));
      ReceiveIsInsertOne(canon, s, tx, keys[0], ids[0]);
      StillNoneLocked(s, tx, keys, next);
      BatchIsItsReceives(canon, next, tx, keys[1..], ids[1..]);
    }
  }

  lemma StillNoneLocked(s: State, tx: TxId, keys: seq<Key>, t: State)
    requires keys != [] && NoneLocked(s, tx, keys) && tx in s.txs && OnlyInserts(s, tx, t)
    ensures NoneLocked(t, tx, keys[1..])
  {
    forall key | key in keys[1..]
      ensures !KeyLocked(t, tx, key)
    {
      assert key in keys && !KeyLocked(s, tx, key);
    }
  }

  /** So after any run, the keys that a transaction of one batch commits as processed are those it was told are
      new. */
  lemma {:induction false} BatchCommitsWhatIsNew(h: seq<Step>, tx: TxId, keys: seq<Key>, ids: seq<RowId>, key: Key)
    requires |keys| == |ids| && tx in Run(h).txs && Run(h).txs[tx].inserted == map[] && NoneLocked(Run(h), tx, keys)
    ensures |Told(Run(h), tx, keys, ids)| == |keys|
    ensures CommitsProcessed(Run(h + Receives(tx, keys, ids)), Commit(tx), key)
      <==> exists i :: 0 <= i < |keys| && keys[i] == key && Told(Run(h), tx, keys, ids)[i] == New
  {
    var canon: Canon := k => k;
    var before := Visible(Run(h), tx);
    var t := AfterReceives(Run(h), tx, keys, ids);
    RunReceives(h, tx, keys, ids);
    BatchIsItsReceives(canon, Run(h), tx, keys, ids);
    OneByOneStatuses(canon, before, keys, ids);
    Inbox.AlwaysIsolated(h + Receives(tx, keys, ids));
    if key in t.txs[tx].inserted {
      NewExactlyIfNotTaken(canon, Run(h), tx, key);
      var i := InsertedBy(canon, before, keys, ids, key);
    }
    if i :| 0 <= i < |keys| && keys[i] == key && Told(Run(h), tx, keys, ids)[i] == New {
      ExactKeysAreThere(canon, before, keys, ids);
      assert key in Visible(t, tx);
    }
  }
}
