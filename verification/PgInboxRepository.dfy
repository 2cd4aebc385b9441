/** The PostgreSQL inbox repository's batch receive. Unlike the SDK's client it does not check
    that the keys of a batch are distinct. */
module PgInboxRepository {
  import opened Common
  import opened Inbox
  import opened InboxTable

  /** What the repository answers: new for every occurrence of a key that was not there before the batch. */
  ghost function BatchStatuses(table: Table, keys: seq<Key>): seq<ReceiveStatus> {
    seq(|keys|, i requires 0 <= i < |keys| => if keys[i] in table then Duplicate else New)
  }

  /** No key that is new to the table occurs twice. */
  ghost predicate NewKeysOnce(table: Table, keys: seq<Key>) {
    forall i, j :: 0 <= i < j < |keys| && keys[i] == keys[j] ==> keys[i] in table
  }

  /** The repository's batch agrees with receiving one by one exactly if no new key occurs
      twice: a repeated new key is reported as new each time. */
  lemma BatchAgreesExactlyWithoutRepeats(canon: Canon, table: Table, keys: seq<Key>, ids: seq<RowId>)
    requires |keys| == |ids| && Exact(canon)
    ensures BatchStatuses(table, keys) == OneByOne(canon, table, keys, ids) <==> NewKeysOnce(table, keys)
  {
    OneByOneStatuses(canon, table, keys, ids);
    forall i | 0 <= i < |keys|
      ensures Taken(canon, table, keys[i]) <==> keys[i] in table
    {
    }
    if i, j :| 0 <= i < j < |keys| && keys[i] == keys[j] && keys[i] !in table {
      assert SeenBefore(canon, table, keys, j);
      assert BatchStatuses(table, keys)[j] != OneByOne(canon, table, keys, ids)[j];
    }
  }

  /** A key of the batch is found under a returned id exactly if it was new. */
  lemma ReturnedExactlyIfNew(canon: Canon, before: Table, keys: seq<Key>, ids: seq<RowId>, seen: Table, key: Key)
    requires |keys| == |ids| && Fresh(before, ids) && key in keys && Exact(canon)
    requires Drifted(InsertAll(canon, before, keys, ids), ids, seen)
    ensures key !in before ==> key in seen && seen[key] in InsertedIds(canon, before, keys, ids)
    ensures key in before && key in seen ==> seen[key] !in InsertedIds(canon, before, keys, ids)
  {
    var after := InsertAll(canon, before, keys, ids);
    InsertAllKeeps(canon, before, keys, ids);
    ReturnedExactlyIfFirst(canon, before, keys, ids, 0);
    if key !in before {
      assert Taken(canon, after, key);
      var j := InsertedBy(canon, before, keys, ids, key);
      ReturnedExactlyIfFirst(canon, before, keys, ids, j);
    }
  }

  /** One event's answer, or none if its key was not found. */
  function Answer(key: Key, keyToId: Table, returned: seq<RowId>): Option<ReceiveResult> {
    if key !in keyToId then None
    else
      var wasInserted := keyToId[key] in returned;
      Some(ReceiveResult(Some(keyToId[key]), if wasInserted then New else Duplicate))
  }

  /** A key that is seen is answered with its id, as new exactly if it was not there before. */
  ghost predicate NewIfNotFound(keys: seq<Key>, keyToId: Table, returned: seq<RowId>, found: Table, seen: Table) {
    forall key :: key in keys ==>
      Answer(key, keyToId, returned)
        == if key !in seen then None
           else Some(ReceiveResult(Some(seen[key]), if key in found then Duplicate else New))
  }

  lemma AnswersByOldKeys(canon: Canon, found: Table, keys: seq<Key>, ids: seq<RowId>, seen: Table, keyToId: Table)
    requires |keys| == |ids| && Fresh(found, ids) && Exact(canon)
    requires Drifted(InsertAll(canon, found, keys, ids), ids, seen) && SeenAs(keys, keyToId, seen)
    ensures NewIfNotFound(keys, keyToId, InsertedIds(canon, found, keys, ids), found, seen)
    ensures forall key :: key in keys && key !in seen ==> key in found
  {
    forall key | key in keys
      ensures key !in found ==> key in seen && seen[key] in InsertedIds(canon, found, keys, ids)
      ensures key in found && key in seen ==> seen[key] !in InsertedIds(canon, found, keys, ids)
    {
      ReturnedExactlyIfNew(canon, found, keys, ids, seen, key);
    }
  }

  class Repository {
    constructor () {
    }

    /** One INSERT and one SELECT for any number of events, with other transactions before each.
        It throws exactly if the SELECT does not find some key. */
    method ReceiveBatch(keys: seq<Key>, executor: Executor, ids: seq<RowId>) returns (r: BatchResult)
      requires |keys| == |ids| && Fresh(executor.table, ids) && Harmless(executor.others, ids) && Exact(executor.canon)
      modifies executor
      ensures keys == [] ==> r == Answered([]) && executor.table == old(executor.table)
      ensures keys != [] ==>
        executor.table
          == executor.others(|old(executor.bound)| + 1, InsertAll(executor.canon, old(Found(executor)), keys, ids))
      ensures keys != [] ==> executor.bound == old(executor.bound) + [|keys| * 10, |keys|]
      ensures r.NotFound? <==> !AllThere(keys, executor.table)
      ensures r.NotFound? ==> r.key in keys && r.key in old(Found(executor)) && r.key !in executor.table
      ensures r.Answered? ==>
        Statuses(r.results) == BatchStatuses(old(Found(executor)), keys) && AllFound(keys, executor.table, r.results)
    {
      if keys == [] {
        return Answered([]);
      }
      ghost var found := Found(executor);
      DriftKeepsFresh(executor.table, ids, found);
      var returned := executor.Insert(keys, ids, 10);
      var keyToId := executor.FindByKeys(keys);
      ghost var seen := executor.table;
      AnswersByOldKeys(executor.canon, found, keys, ids, seen, keyToId);
      r := Collect(keys, keyToId, returned, found, seen);
    }

    /** The answers in input order, up to the first key that was not found. */
    method Collect(keys: seq<Key>, keyToId: Table, returned: seq<RowId>, ghost found: Table, ghost seen: Table)
      returns (r: BatchResult)
      requires NewIfNotFound(keys, keyToId, returned, found, seen)
      ensures r.NotFound? <==> !AllThere(keys, seen)
      ensures r.NotFound? ==> r.key in keys && r.key !in seen
      ensures r.Answered? ==> Statuses(r.results) == BatchStatuses(found, keys) && AllFound(keys, seen, r.results)
    {
      var results: seq<ReceiveResult> := [];
      for i := 0 to |keys|
        invariant |results| == i
        invariant forall j :: 0 <= j < i ==> results[j].status == if keys[j] in found then Duplicate else New
        invariant AllFound(keys[..i], seen, results)
      {
        var answer := Answer(keys[i], keyToId, returned);
        if answer.None? {
          return NotFound(keys[i]);
        }
        results := results + [answer.value];
      }
      assert keys[..|keys|] == keys;
      r := Answered(results);
    }
  }
}
