/** The MySQL inbox repository's batch receive: it recognises its own inserts by the ids it
    generated, so repeated keys do no harm; a key that the index knows in another spelling does. */
module MySqlInboxRepository {
  import opened Common
  import opened Inbox
  import opened InboxTable

  /** The key and one in the table or the batch are different spellings of the same. */
  ghost predicate Respelled(canon: Canon, table: Table, keys: seq<Key>, key: Key) {
    exists k :: (k in table || k in keys) && k != key && canon(k) == canon(key)
  }

  /** A batch that names a key which is not in the table, but another spelling of one that is, or that is
      also in the batch. */
  ghost predicate HasRespelledKey(canon: Canon, table: Table, keys: seq<Key>) {
    exists key :: key in keys && key !in table && Respelled(canon, table, keys, key)
  }

  /** The insert adds at most one spelling of a key that the index did not hold. */
  lemma {:induction false} OneSpelling(canon: Canon, table: Table, keys: seq<Key>, ids: seq<RowId>, a: Key, b: Key)
    requires |keys| == |ids| && !Taken(canon, table, a) && canon(a) == canon(b)
    requires a in InsertAll(canon, table, keys, ids) && b in InsertAll(canon, table, keys, ids)
    ensures a == b
  {
    var i := InsertedBy(canon, table, keys, ids, a);
    var j := InsertedBy(canon, table, keys, ids, b);
    assert !(i < j) && !(j < i);
  }

  /** Some key is not there after the insert, in its own spelling, exactly if the batch has a respelled key. */
  lemma {:induction false} NotFoundExactlyIfRespelled(canon: Canon, table: Table, keys: seq<Key>, ids: seq<RowId>)
    requires |keys| == |ids|
    ensures HasRespelledKey(canon, table, keys) <==> !AllThere(keys, InsertAll(canon, table, keys, ids))
  {
    var after := InsertAll(canon, table, keys, ids);
    InsertAllKeeps(canon, table, keys, ids);
    if key :| key in keys && key !in after {
      MissingIsRespelled(canon, table, keys, ids, key);
      assert key in keys && key !in table && Respelled(canon, table, keys, key);
    }
    if key :| key in keys && key !in table && Respelled(canon, table, keys, key) {
      var k :| (k in table || k in keys) && k != key && canon(k) == canon(key);
      if key in after {
        var i := InsertedBy(canon, table, keys, ids, key);
        assert !Taken(canon, table, key);
        if k in after {
          OneSpelling(canon, table, keys, ids, key, k);
        }
      }
    }
  }

  lemma MissingIsRespelled(canon: Canon, table: Table, keys: seq<Key>, ids: seq<RowId>, key: Key)
    requires |keys| == |ids| && key in keys && key !in InsertAll(canon, table, keys, ids)
    ensures key !in table && Respelled(canon, table, keys, key)
  {
    InsertAllKeeps(canon, table, keys, ids);
    var k :| k in InsertAll(canon, table, keys, ids) && canon(k) == canon(key);
  }

  /** Two spellings of one new key: received one by one, the second is a duplicate, as the SDK reports it;
      the repository throws. */
  lemma TwoSpellings(canon: Canon, table: Table, a: Key, b: Key, ids: seq<RowId>)
    requires |ids| == 2 && a != b && canon(a) == canon(b) && !Taken(canon, table, a)
    ensures OneByOne(canon, table, [a, b], ids) == [New, Duplicate]
    ensures HasRespelledKey(canon, table, [a, b])
  {
    OneByOneStatuses(canon, table, [a, b], ids);
    var keys := [a, b];
    assert keys[0] == a && keys[1] == b;
    assert !SeenBefore(canon, table, keys, 0) && SeenBefore(canon, table, keys, 1);
    assert b in keys && a in keys && b !in table && Respelled(canon, table, keys, b);
  }

  /** What the SELECT sees of occurrence i. */
  lemma FoundUnderOwnIdExactlyIfFirst(canon: Canon, found: Table, keys: seq<Key>, ids: seq<RowId>, i: nat, seen: Table)
    requires |keys| == |ids| && Fresh(found, ids) && i < |keys|
    requires Drifted(InsertAll(canon, found, keys, ids), ids, seen)
    ensures keys[i] in seen && seen[keys[i]] == ids[i] <==> !SeenBefore(canon, found, keys, i)
  {
    OwnIdExactlyIfFirst(canon, found, keys, ids, i);
    assert ids[i] in ids;
  }

  /** A key that it does not see was there before, and has been deleted, or is there in another spelling. */
  lemma WhyNotFound(canon: Canon, found: Table, keys: seq<Key>, ids: seq<RowId>, seen: Table, key: Key)
    requires |keys| == |ids| && key in keys && key !in seen
    requires Drifted(InsertAll(canon, found, keys, ids), ids, seen)
    ensures key in found || Respelled(canon, found, keys, key)
  {
    if key !in found && key in InsertAll(canon, found, keys, ids) {
      var j := InsertedBy(canon, found, keys, ids, key);
    } else if key !in found {
      MissingIsRespelled(canon, found, keys, ids, key);
    }
  }

  /** One event's answer, or none if its key was not found: a row under the generated id was inserted. */
  function Answer(key: Key, generatedId: RowId, keyToId: Table): Option<ReceiveResult> {
    if key !in keyToId then None
    else
      var wasInserted := keyToId[key] == generatedId;
      Some(ReceiveResult(Some(keyToId[key]), if wasInserted then New else Duplicate))
  }

  /** A key that is seen is answered with its id and the status of its occurrence. */
  ghost predicate AnswersAre(keys: seq<Key>, ids: seq<RowId>, keyToId: Table, statuses: seq<ReceiveStatus>, seen: Table)
    requires |keys| == |ids|
  {
    && |statuses| == |keys|
    && forall i :: 0 <= i < |keys| ==>
         Answer(keys[i], ids[i], keyToId)
           == if keys[i] !in seen then None else Some(ReceiveResult(Some(seen[keys[i]]), statuses[i]))
  }

  lemma AnswersAreOneByOne(canon: Canon, found: Table, keys: seq<Key>, ids: seq<RowId>, seen: Table, keyToId: Table)
    requires |keys| == |ids| && Fresh(found, ids)
    requires Drifted(InsertAll(canon, found, keys, ids), ids, seen) && SeenAs(keys, keyToId, seen)
    ensures AnswersAre(keys, ids, keyToId, OneByOne(canon, found, keys, ids), seen)
  {
    OneByOneStatuses(canon, found, keys, ids);
    forall i | 0 <= i < |keys|
      ensures Answer(keys[i], ids[i], keyToId)
        == if keys[i] !in seen then None
           else Some(ReceiveResult(Some(seen[keys[i]]), OneByOne(canon, found, keys, ids)[i]))
    {
      FoundUnderOwnIdExactlyIfFirst(canon, found, keys, ids, i, seen);
    }
  }

  class Repository {
    constructor () {
    }

    /** For any keys, repeated or not, the statuses are those of receiving one by one, from the
        table that the INSERT finds. It throws exactly if the SELECT does not find some key under its own
        spelling; without interference, exactly if the batch has a respelled key. */
    method ReceiveBatch(keys: seq<Key>, executor: Executor, generatedIds: seq<RowId>) returns (r: BatchResult)
      requires |keys| == |generatedIds| && Fresh(executor.table, generatedIds)
      requires Harmless(executor.others, generatedIds)
      modifies executor
      ensures keys == [] ==> r == Answered([]) && executor.table == old(executor.table)
      ensures var n, found := |old(executor.bound)|, old(Found(executor));
        keys != [] ==> executor.table == executor.others(n + 1, InsertAll(executor.canon, found, keys, generatedIds))
      ensures keys != [] ==> executor.bound == old(executor.bound) + [|keys| * 11, |keys|]
      ensures r.NotFound? <==> !AllThere(keys, executor.table)
      ensures r.NotFound? ==> var found := old(Found(executor));
        && r.key in keys && r.key !in executor.table
        && (r.key in found || Respelled(executor.canon, found, keys, r.key))
      ensures Quiet(executor.others) ==>
        (r.NotFound? <==> HasRespelledKey(executor.canon, old(executor.table), keys))
      ensures r.Answered? ==>
        && Statuses(r.results) == OneByOne(executor.canon, old(Found(executor)), keys, generatedIds)
        && AllFound(keys, executor.table, r.results)
    {
      if keys == [] {
        return Answered([]);
      }
      ghost var found := Found(executor);
      DriftKeepsFresh(executor.table, generatedIds, found);
      var _ := executor.Insert(keys, generatedIds, 11);
      var keyToId := executor.FindByKeys(keys);
      ghost var seen := executor.table;
      ghost var statuses := OneByOne(executor.canon, found, keys, generatedIds);
      AnswersAreOneByOne(executor.canon, found, keys, generatedIds, seen, keyToId);
      r := Collect(keys, generatedIds, keyToId, statuses, seen);
      if Quiet(executor.others) {
        NotFoundExactlyIfRespelled(executor.canon, found, keys, generatedIds);
        assert found == old(executor.table) && seen == InsertAll(executor.canon, found, keys, generatedIds);
      }
      if r.NotFound? {
        WhyNotFound(executor.canon, found, keys, generatedIds, seen, r.key);
      }
    }

    /** The answers in input order, up to the first key that was not found. */
    method Collect(keys: seq<Key>, generatedIds: seq<RowId>, keyToId: Table, ghost statuses: seq<ReceiveStatus>,
                   ghost seen: Table) returns (r: BatchResult)
      requires |keys| == |generatedIds| && AnswersAre(keys, generatedIds, keyToId, statuses, seen)
      ensures r.NotFound? <==> !AllThere(keys, seen)
      ensures r.NotFound? ==> r.key in keys && r.key !in seen
      ensures r.Answered? ==> Statuses(r.results) == statuses && AllFound(keys, seen, r.results)
    {
      var results: seq<ReceiveResult> := [];
      for i := 0 to |keys|
        invariant |results| == i
        invariant forall j :: 0 <= j < i ==> results[j].status == statuses[j]
        invariant AllFound(keys[..i], seen, results)
      {
        var answer := Answer(keys[i], generatedIds[i], keyToId);
        if answer.None? {
          return NotFound(keys[i]);
        }
        results := results + [answer.value];
      }
      assert keys[..|keys|] == keys;
      r := Answered(results);
    }
  }
}
