/** The inbox table behind the clients and repositories: keys as the unique index compares them,
    multi-row inserts that skip the keys it holds, and receiving one event at a time. */
module InboxTable {
  import opened Common
  import opened Inbox

  datatype ReceiveStatus = New | Duplicate

  datatype ReceiveResult = ReceiveResult(eventId: Option<RowId>, status: ReceiveStatus)

  /** The ids, under the keys as they were spelled when they were inserted. */
  type Table = map<Key, RowId>

  /** The form of a key that the unique index and IN (...) compare: on PostgreSQL the key itself,
      on MySQL one form for all the spellings that its collation takes for the same. */
  type Canon = Key -> Key

  /** Different spellings are different keys, as on PostgreSQL. */
  ghost predicate Exact(canon: Canon) {
    forall a, b :: canon(a) == canon(b) ==> a == b
  }

  /** The unique index holds the key, in this or another spelling. */
  predicate Taken(canon: Canon, table: Table, key: Key) {
    exists k | k in table :: canon(k) == canon(key)
  }

  function InsertOne(canon: Canon, table: Table, key: Key, id: RowId): Table {
    if Taken(canon, table, key) then table else table[key := id]
  }

  /** INSERT with ON CONFLICT DO NOTHING (or INSERT IGNORE), row after row. */
  function InsertAll(canon: Canon, table: Table, keys: seq<Key>, ids: seq<RowId>): Table
    requires |keys| == |ids|
    decreases |keys|
  {
    if keys == [] then table else InsertAll(canon, InsertOne(canon, table, keys[0], ids[0]), keys[1..], ids[1..])
  }

  /** The ids of the rows really inserted, as RETURNING lists them. */
  function InsertedIds(canon: Canon, table: Table, keys: seq<Key>, ids: seq<RowId>): seq<RowId>
    requires |keys| == |ids|
    decreases |keys|
  {
    if keys == [] then [] else
      var rest := InsertedIds(canon, InsertOne(canon, table, keys[0], ids[0]), keys[1..], ids[1..]);
      if Taken(canon, table, keys[0]) then rest else [ids[0]] + rest
  }

  /** The simple form: receive() called for one key after the other. */
  ghost function OneByOne(canon: Canon, table: Table, keys: seq<Key>, ids: seq<RowId>): seq<ReceiveStatus>
    requires |keys| == |ids|
    decreases |keys|
  {
    if keys == [] then [] else
      [if Taken(canon, table, keys[0]) then Duplicate else New]
        + OneByOne(canon, InsertOne(canon, table, keys[0], ids[0]), keys[1..], ids[1..])
  }

  /** The ids are distinct and not in use, as freshly generated uuids are. */
  ghost predicate Fresh(table: Table, ids: seq<RowId>) {
    Distinct(ids) && forall k, i :: k in table && 0 <= i < |ids| ==> table[k] != ids[i]
  }

  /** The key is in the table or earlier in the list, in some spelling. */
  ghost predicate SeenBefore(canon: Canon, table: Table, keys: seq<Key>, i: nat)
    requires i < |keys|
  {
    Taken(canon, table, keys[i]) || exists j :: 0 <= j < i && canon(keys[j]) == canon(keys[i])
  }

  lemma SlicesOfTail<T>(s: seq<T>, n: nat)
    requires 0 < n <= |s|
    ensures s[..n][0] == s[0] && s[..n][1..] == s[1..][..n - 1] && s[n..] == s[1..][n - 1..]
  {
  }

  /** The first receive, then the rest of the first n. */
  lemma {:induction false} FirstOfPrefix(canon: Canon, table: Table, keys: seq<Key>, ids: seq<RowId>, n: nat)
    requires |keys| == |ids| && 0 < n <= |keys|
    ensures var next := InsertOne(canon, table, keys[0], ids[0]);
      var head := if Taken(canon, table, keys[0]) then Duplicate else New;
      && InsertAll(canon, table, keys[..n], ids[..n]) == InsertAll(canon, next, keys[1..][..n - 1], ids[1..][..n - 1])
      && OneByOne(canon, table, keys[..n], ids[..n])
        == [head] + OneByOne(canon, next, keys[1..][..n - 1], ids[1..][..n - 1])
  {
    SlicesOfTail(keys, n);
    SlicesOfTail(ids, n);
  }

  /** The first n, then the others. */
  lemma {:induction false} InsertAllSplits(canon: Canon, table: Table, keys: seq<Key>, ids: seq<RowId>, n: nat)
    requires |keys| == |ids| && n <= |keys|
    ensures InsertAll(canon, table, keys, ids)
      == InsertAll(canon, InsertAll(canon, table, keys[..n], ids[..n]), keys[n..], ids[n..])
    decreases |keys|
  {
    if n > 0 {
      FirstOfPrefix(canon, table, keys, ids, n);
      InsertAllSplits(canon, InsertOne(canon, table, keys[0], ids[0]), keys[1..], ids[1..], n - 1);
      SlicesOfTail(keys, n);
      SlicesOfTail(ids, n);
    } else {
      assert keys[0..] == keys && ids[0..] == ids;
    }
  }

  lemma {:induction false} OneByOneSplits(canon: Canon, table: Table, keys: seq<Key>, ids: seq<RowId>, n: nat)
    requires |keys| == |ids| && n <= |keys|
    ensures OneByOne(canon, table, keys, ids)
      == OneByOne(canon, table, keys[..n], ids[..n])
        + OneByOne(canon, InsertAll(canon, table, keys[..n], ids[..n]), keys[n..], ids[n..])
    decreases |keys|
  {
    if n > 0 {
      FirstOfPrefix(canon, table, keys, ids, n);
      OneByOneSplits(canon, InsertOne(canon, table, keys[0], ids[0]), keys[1..], ids[1..], n - 1);
      SlicesOfTail(keys, n);
      SlicesOfTail(ids, n);
    } else {
      assert keys[0..] == keys && ids[0..] == ids;
    }
  }

  /** After one insert the index holds its key as well, and otherwise what it held. */
  lemma TakenAfterOne(canon: Canon, table: Table, key: Key, id: RowId, k: Key)
    ensures Taken(canon, InsertOne(canon, table, key, id), k) <==> Taken(canon, table, k) || canon(key) == canon(k)
  {
    var next := InsertOne(canon, table, key, id);
    if Taken(canon, table, k) {
      var a :| a in table && canon(a) == canon(k);
      assert a in next;
    } else if canon(key) == canon(k) {
      assert key in next;
    }
  }

  /** Whether an occurrence was seen before does not depend on where the first key is counted. */
  lemma NotSeenLater(canon: Canon, table: Table, keys: seq<Key>, i: nat, id: RowId)
    requires 0 < i < |keys|
    ensures SeenBefore(canon, InsertOne(canon, table, keys[0], id), keys[1..], i - 1)
      <==> SeenBefore(canon, table, keys, i)
  {
    TakenAfterOne(canon, table, keys[0], id, keys[i]);
    assert forall j :: 0 < j < |keys| ==> keys[j] == keys[1..][j - 1];
  }

  /** Received one by one, an occurrence is new if its key is neither in the table nor earlier in the list. */
  lemma {:induction false} OneByOneAt(canon: Canon, table: Table, keys: seq<Key>, ids: seq<RowId>, i: nat)
    requires |keys| == |ids| && i < |keys|
    ensures |OneByOne(canon, table, keys, ids)| == |keys|
    ensures OneByOne(canon, table, keys, ids)[i] == if SeenBefore(canon, table, keys, i) then Duplicate else New
    decreases |keys|
  {
    if |keys| > 1 {
      OneByOneAt(canon, InsertOne(canon, table, keys[0], ids[0]), keys[1..], ids[1..], if i > 0 then i - 1 else 0);
    }
    if i > 0 {
      NotSeenLater(canon, table, keys, i, ids[0]);
    }
  }

  lemma OneByOneStatuses(canon: Canon, table: Table, keys: seq<Key>, ids: seq<RowId>)
    requires |keys| == |ids|
    ensures |OneByOne(canon, table, keys, ids)| == |keys|
    ensures forall i :: 0 <= i < |keys| ==>
      OneByOne(canon, table, keys, ids)[i] == if SeenBefore(canon, table, keys, i) then Duplicate else New
  {
    if keys != [] {
      OneByOneAt(canon, table, keys, ids, 0);
    }
    forall i | 0 <= i < |keys|
      ensures OneByOne(canon, table, keys, ids)[i] == if SeenBefore(canon, table, keys, i) then Duplicate else New
    {
      OneByOneAt(canon, table, keys, ids, i);
    }
  }

  /** The old rows stay, nothing but keys of the batch is added, and the index then holds all of those. */
  lemma {:induction false} InsertAllKeeps(canon: Canon, table: Table, keys: seq<Key>, ids: seq<RowId>)
    requires |keys| == |ids|
    ensures var after := InsertAll(canon, table, keys, ids);
      && (forall k :: k in table ==> k in after && after[k] == table[k])
      && (forall k :: k in after ==> k in table || k in keys)
      && (forall k :: k in keys ==> Taken(canon, after, k))
    decreases |keys|
  {
    if keys != [] {
      var next := InsertOne(canon, table, keys[0], ids[0]);
      var after := InsertAll(canon, table, keys, ids);
      InsertAllKeeps(canon, next, keys[1..], ids[1..]);
      assert keys == [keys[0]] + keys[1..];
      TakenAfterOne(canon, table, keys[0], ids[0], keys[0]);
      var k :| k in next && canon(k) == canon(keys[0]);
      assert k in after;
    }
  }

  /** A row that the insert added carries the id of the first occurrence of its key. */
  lemma {:induction false} InsertedBy(canon: Canon, table: Table, keys: seq<Key>, ids: seq<RowId>, k: Key)
    returns (j: nat)
    requires |keys| == |ids| && k in InsertAll(canon, table, keys, ids) && k !in table
    ensures j < |keys| && keys[j] == k && InsertAll(canon, table, keys, ids)[k] == ids[j]
    ensures !SeenBefore(canon, table, keys, j)
    decreases |keys|
  {
    var next := InsertOne(canon, table, keys[0], ids[0]);
    if k in next {
      InsertAllKeeps(canon, next, keys[1..], ids[1..]);
      j := 0;
    } else {
      var i := InsertedBy(canon, next, keys[1..], ids[1..], k);
      NotSeenLater(canon, table, keys, i + 1, ids[0]);
      j := i + 1;
    }
  }

  /** The row under a key carries the id generated for occurrence i exactly if that occurrence was the first. */
  lemma {:induction false} OwnIdExactlyIfFirst(canon: Canon, table: Table, keys: seq<Key>, ids: seq<RowId>, i: nat)
    requires |keys| == |ids| && i < |keys| && Fresh(table, ids)
    ensures var after := InsertAll(canon, table, keys, ids);
      keys[i] in after && after[keys[i]] == ids[i] <==> !SeenBefore(canon, table, keys, i)
    decreases |keys|
  {
    var next := InsertOne(canon, table, keys[0], ids[0]);
    if i == 0 {
      OwnIdOfTheFirst(canon, table, keys, ids);
    } else {
      assert forall j :: 0 < j < |ids| ==> ids[j] == ids[1..][j - 1];
      NotSeenLater(canon, table, keys, i, ids[0]);
      OwnIdExactlyIfFirst(canon, next, keys[1..], ids[1..], i - 1);
    }
  }

  lemma OwnIdOfTheFirst(canon: Canon, table: Table, keys: seq<Key>, ids: seq<RowId>)
    requires |keys| == |ids| > 0 && Fresh(table, ids)
    ensures var after := InsertAll(canon, table, keys, ids);
      keys[0] in after && after[keys[0]] == ids[0] <==> !Taken(canon, table, keys[0])
  {
    var after := InsertAll(canon, table, keys, ids);
    if Taken(canon, table, keys[0]) {
      InsertAllKeeps(canon, table, keys, ids);
      if keys[0] in after && after[keys[0]] == ids[0] {
        assert keys[0] !in table;
        var j := InsertedBy(canon, table, keys, ids, keys[0]);
        assert false;
      }
    } else {
      var next := InsertOne(canon, table, keys[0], ids[0]);
      assert keys[0] in next && next[keys[0]] == ids[0];
      InsertAllKeeps(canon, next, keys[1..], ids[1..]);
      assert after == InsertAll(canon, next, keys[1..], ids[1..]);
    }
  }

  /** Of distinct keys, those are there afterwards in their own spelling that were there before or are new. */
  lemma SpelledExactlyIfThereOrNew(canon: Canon, table: Table, keys: seq<Key>, ids: seq<RowId>, i: nat)
    requires |keys| == |ids| && i < |keys| && Distinct(keys) && Fresh(table, ids)
    ensures keys[i] in InsertAll(canon, table, keys, ids)
      <==> keys[i] in table || !SeenBefore(canon, table, keys, i)
  {
    OwnIdExactlyIfFirst(canon, table, keys, ids, i);
    if keys[i] in table {
      InsertAllKeeps(canon, table, keys, ids);
    } else if keys[i] in InsertAll(canon, table, keys, ids) {
      var j := InsertedBy(canon, table, keys, ids, keys[i]);
      assert i == j;
    }
  }

  /** Where spellings are compared exactly, every key of the batch is there afterwards. */
  lemma ExactKeysAreThere(canon: Canon, table: Table, keys: seq<Key>, ids: seq<RowId>)
    requires |keys| == |ids| && Exact(canon)
    ensures AllThere(keys, InsertAll(canon, table, keys, ids))
  {
    InsertAllKeeps(canon, table, keys, ids);
    forall key | key in keys
      ensures key in InsertAll(canon, table, keys, ids)
    {
      assert Taken(canon, InsertAll(canon, table, keys, ids), key);
    }
  }

  /** RETURNING lists an occurrence's id exactly if the occurrence was the first of its key, and lists only new ids. */
  lemma {:induction false} ReturnedExactlyIfFirst(canon: Canon, table: Table, keys: seq<Key>, ids: seq<RowId>, i: nat)
    requires |keys| == |ids| && Distinct(ids) && i < |keys|
    ensures ids[i] in InsertedIds(canon, table, keys, ids) <==> !SeenBefore(canon, table, keys, i)
    ensures forall id :: id in InsertedIds(canon, table, keys, ids) ==> id in ids
    decreases |keys|
  {
    var next := InsertOne(canon, table, keys[0], ids[0]);
    assert forall j :: 0 < j < |ids| ==> ids[j] == ids[1..][j - 1];
    if i > 0 {
      ReturnedExactlyIfFirst(canon, next, keys[1..], ids[1..], i - 1);
      NotSeenLater(canon, table, keys, i, ids[0]);
    } else if |keys| > 1 {
      ReturnedExactlyIfFirst(canon, next, keys[1..], ids[1..], 0);
    }
    assert ids == [ids[0]] + ids[1..];
  }

  /** What other transactions may make of the table between two statements: they may commit and
      delete, but rows inserted here are still there, and nobody else uses their ids. */
  ghost predicate Drifted(table: Table, ids: seq<RowId>, after: Table) {
    && (forall k :: k in table && table[k] in ids ==> k in after && after[k] == table[k])
    && (forall k :: k in after && after[k] in ids ==> k in table && table[k] == after[k])
  }

  lemma DriftKeepsFresh(table: Table, ids: seq<RowId>, after: Table)
    requires Fresh(table, ids) && Drifted(table, ids, after)
    ensures Fresh(after, ids)
  {
  }

  /** Other transactions: what they make of the table just before the n-th statement. */
  type Others = (nat, Table) -> Table

  ghost predicate Harmless(others: Others, ids: seq<RowId>) {
    forall n, t :: Drifted(t, ids, others(n, t))
  }

  ghost predicate Quiet(others: Others) {
    forall n, t :: others(n, t) == t
  }

  ghost function Statuses(results: seq<ReceiveResult>): seq<ReceiveStatus> {
    seq(|results|, i requires 0 <= i < |results| => results[i].status)
  }

  /** A repository's batch: the id found for each key, or the error for a key that its SELECT does not find. */
  datatype BatchResult = Answered(results: seq<ReceiveResult>) | NotFound(key: Key)

  /** Every key was found, and its result carries the id found under it. */
  ghost predicate AllFound(keys: seq<Key>, table: Table, results: seq<ReceiveResult>) {
    && |results| == |keys|
    && forall i :: 0 <= i < |keys| ==> keys[i] in table && results[i].eventId == Some(table[keys[i]])
  }

  ghost predicate AllThere(keys: seq<Key>, table: Table) {
    forall key :: key in keys ==> key in table
  }

  /** The map has the keys that the table has, with their ids. */
  ghost predicate SeenAs(keys: seq<Key>, keyToId: Table, table: Table) {
    forall key :: key in keys ==>
      (key in keyToId <==> key in table) && (key in table ==> keyToId[key] == table[key])
  }

  /** The caller's transaction, through the adapter. */
  class Executor {
    const canon: Canon
    const others: Others
    var table: Table
    /** Parameters bound by each statement so far. */
    var bound: seq<nat>

    constructor (canon: Canon, table: Table, others: Others)
      ensures this.canon == canon && this.table == table && this.others == others && bound == []
    {
      this.canon, this.table, this.others, bound := canon, table, others, [];
    }

    method Insert(keys: seq<Key>, ids: seq<RowId>, columns: nat) returns (returned: seq<RowId>)
      requires |keys| == |ids|
      modifies this
      ensures var found := others(|old(bound)|, old(table));
        table == InsertAll(canon, found, keys, ids) && returned == InsertedIds(canon, found, keys, ids)
      ensures bound == old(bound) + [|keys| * columns]
    {
      var found := others(|bound|, table);
      returned := InsertedIds(canon, found, keys, ids);
      table := InsertAll(canon, found, keys, ids);
      bound := bound + [|keys| * columns];
    }

    /** SELECT id, idempotency_key ... WHERE idempotency_key IN (...), as a map from the spellings found to their ids:
        the index may find a key in another spelling. */
    method FindByKeys(keys: seq<Key>) returns (keyToId: Table)
      modifies this
      ensures table == others(|old(bound)|, old(table))
      ensures forall k :: k in keyToId <==> k in table && Asked(keys, k)
      ensures forall k :: k in keyToId ==> keyToId[k] == table[k]
      ensures SeenAs(keys, keyToId, table)
      ensures bound == old(bound) + [|keys|]
    {
      table := others(|bound|, table);
      keyToId := map k | k in table && Asked(keys, k) :: table[k];
      bound := bound + [|keys|];
    }

    predicate Asked(keys: seq<Key>, k: Key) {
      exists key | key in keys :: canon(key) == canon(k)
    }
  }

  /** The table the next statement finds. */
  ghost function Found(executor: Executor): Table
    reads executor
  {
    executor.others(|executor.bound|, executor.table)
  }
}
