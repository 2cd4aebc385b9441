/** The SDK's inbox client: validation, single receive, and the chunked bulk receive, in both
    dialects, against receiving one event at a time. */
module InboxClient {
  import opened Common
  import opened Inbox
  import opened InboxTable

  datatype Dialect = Dialect(supportsReturning: bool, maxParameters: nat) {
    /** The base columns, plus the id where the database cannot return it. */
    function Columns(): nat {
      if supportsReturning then 10 else 11
    }
  }

  datatype ValidationError = KeyRequired | KeyInvalid | VersionInvalid | DuplicateKeys

  datatype Validated<T> = Valid(value: T) | Invalid(error: ValidationError)

  datatype Input = Input(key: string, eventVersion: Option<int>)

  predicate KeyChar(c: char) {
    'a' <= c <= 'z' || 'A' <= c <= 'Z' || '0' <= c <= '9' || c == '_' || c == '-' || c == '.' || c == ':' || c == '/'
  }

  predicate ValidKey(key: string) {
    0 < |key| <= 255 && forall i | 0 <= i < |key| :: KeyChar(key[i])
  }

  /** What a key may look like, by character codes: '-' to ':', 'A' to 'Z', '_', 'a' to 'z'. */
  ghost predicate WellFormed(key: string) {
    && key != "" && |key| <= 255
    && forall c :: c in key ==>
         var code := c as int;
         45 <= code <= 58 || 65 <= code <= 90 || code == 95 || 97 <= code <= 122
  }

  lemma ValidKeyIsWellFormed(key: string)
    ensures ValidKey(key) <==> WellFormed(key)
  {
    assert forall i :: 0 <= i < |key| ==> key[i] in key;
  }

  function Check(input: Input): Option<ValidationError> {
    if input.key == "" then Some(KeyRequired)
    else if !ValidKey(input.key) then Some(KeyInvalid)
    else if input.eventVersion.Some? && input.eventVersion.value < 1 then Some(VersionInvalid)
    else None
  }

  /** What is wrong with an input, on its fields. */
  ghost predicate FailsWith(input: Input, error: ValidationError) {
    match error
    case KeyRequired => input.key == ""
    case KeyInvalid => input.key != "" && !WellFormed(input.key)
    case VersionInvalid => WellFormed(input.key) && input.eventVersion != None && input.eventVersion.value <= 0
    case DuplicateKeys => false
  }

  /** A well-formed key, and a positive version if one is given. */
  ghost predicate Acceptable(input: Input) {
    WellFormed(input.key) && (input.eventVersion == None || input.eventVersion.value > 0)
  }

  /** Two events of the batch have the same key. */
  ghost predicate RepeatsKey(events: seq<Input>) {
    exists i, j :: 0 <= i < j < |events| && events[i].key == events[j].key
  }

  lemma CheckedExactlyIfAcceptable(input: Input)
    ensures Check(input).None? <==> Acceptable(input)
    ensures Check(input).Some? ==> FailsWith(input, Check(input).value)
  {
    ValidKeyIsWellFormed(input.key);
  }

  /** The simple form under interference: the events are received one after the other, and the
      other transactions act only where a chunk's INSERT or SELECT begins. It gives the statuses
      and the table at the end. */
  ghost function Interfered(canon: Canon, others: Others, n: nat, table: Table, keys: seq<Key>, ids: seq<RowId>,
                            chunk: nat): (seq<ReceiveStatus>, Table)
    requires |keys| == |ids| && chunk > 0
    decreases |keys|
  {
    if keys == [] then ([], table) else
      var c := if chunk < |keys| then chunk else |keys|;
      var found := others(n, table);
      var after := others(n + 1, InsertAll(canon, found, keys[..c], ids[..c]));
      var rest := Interfered(canon, others, n + 2, after, keys[c..], ids[c..], chunk);
      (OneByOne(canon, found, keys[..c], ids[..c]) + rest.0, rest.1)
  }

  /** Without interference this is receiving one by one, whatever the chunk size. */
  lemma {:induction false} QuietIsOneByOne(canon: Canon, others: Others, n: nat, table: Table, keys: seq<Key>,
                                           ids: seq<RowId>, chunk: nat)
    requires |keys| == |ids| && chunk > 0 && Quiet(others)
    ensures Interfered(canon, others, n, table, keys, ids, chunk)
      == (OneByOne(canon, table, keys, ids), InsertAll(canon, table, keys, ids))
    decreases |keys|
  {
    if keys != [] {
      var c := if chunk < |keys| then chunk else |keys|;
      QuietIsOneByOne(canon, others, n + 2, InsertAll(canon, table, keys[..c], ids[..c]), keys[c..], ids[c..], chunk);
      OneByOneSplits(canon, table, keys, ids, c);
      InsertAllSplits(canon, table, keys, ids, c);
    }
  }

  /** A list of no more than one chunk: one INSERT and one SELECT. */
  lemma InterferedOnce(canon: Canon, others: Others, n: nat, table: Table, keys: seq<Key>, ids: seq<RowId>, chunk: nat)
    requires |keys| == |ids| && 0 < |keys| <= chunk
    ensures var found := others(n, table);
      Interfered(canon, others, n, table, keys, ids, chunk)
        == (OneByOne(canon, found, keys, ids), others(n + 1, InsertAll(canon, found, keys, ids)))
  {
    assert keys[..|keys|] == keys && ids[..|keys|] == ids;
    var found := others(n, table);
    assert OneByOne(canon, found, keys, ids) + [] == OneByOne(canon, found, keys, ids);
  }

  /** The first chunk, then the others. */
  lemma InterferedInChunks(canon: Canon, others: Others, n: nat, table: Table, keys: seq<Key>, ids: seq<RowId>,
                           chunk: nat, c: nat)
    requires |keys| == |ids| && chunk > 0 && keys != [] && c == if chunk < |keys| then chunk else |keys|
    ensures var first := Interfered(canon, others, n, table, keys[..c], ids[..c], chunk);
      var rest := Interfered(canon, others, n + 2, first.1, keys[c..], ids[c..], chunk);
      Interfered(canon, others, n, table, keys, ids, chunk) == (first.0 + rest.0, rest.1)
  {
    InterferedOnce(canon, others, n, table, keys[..c], ids[..c], chunk);
  }

  /** A new row's result carries its own id, and the row is in the table under its key. */
  ghost predicate NewRowsKept(table: Table, keys: seq<Key>, ids: seq<RowId>, results: seq<ReceiveResult>) {
    && |results| == |keys| == |ids|
    && forall i :: 0 <= i < |keys| && results[i].status == New ==>
         results[i].eventId == Some(ids[i]) && keys[i] in table && table[keys[i]] == ids[i]
  }

  /** A result carries the id of its key's row, if there is one in the key's own spelling; otherwise none
      where the database returns ids, and else the generated one, which is then no row's. */
  ghost predicate Identifies(table: Table, key: Key, id: RowId, returning: bool, r: ReceiveResult) {
    r.eventId == if key in table then Some(table[key]) else if returning then None else Some(id)
  }

  ghost predicate Identified(table: Table, keys: seq<Key>, ids: seq<RowId>, returning: bool,
                             results: seq<ReceiveResult>) {
    && |results| == |keys| == |ids|
    && forall i :: 0 <= i < |keys| ==> Identifies(table, keys[i], ids[i], returning, results[i])
  }

  /** The table afterwards has a key in its own spelling exactly if it had it before or the key was new. */
  ghost predicate SpelledIfThereOrNew(before: Table, keys: seq<Key>, results: seq<ReceiveResult>, after: Table)
    requires |results| == |keys|
  {
    forall i :: 0 <= i < |keys| ==> (keys[i] in after <==> keys[i] in before || results[i].status == New)
  }

  lemma SpellingsAreThere(canon: Canon, before: Table, keys: seq<Key>, ids: seq<RowId>, results: seq<ReceiveResult>)
    requires |keys| == |ids| && Distinct(keys) && Fresh(before, ids)
    requires |results| == |keys| && Statuses(results) == OneByOne(canon, before, keys, ids)
    ensures SpelledIfThereOrNew(before, keys, results, InsertAll(canon, before, keys, ids))
    ensures Exact(canon) ==> AllThere(keys, InsertAll(canon, before, keys, ids))
  {
    OneByOneStatuses(canon, before, keys, ids);
    forall i | 0 <= i < |keys|
      ensures keys[i] in InsertAll(canon, before, keys, ids) <==> keys[i] in before || results[i].status == New
    {
      SpelledExactlyIfThereOrNew(canon, before, keys, ids, i);
      assert Statuses(results)[i] == results[i].status;
    }
    if Exact(canon) {
      ExactKeysAreThere(canon, before, keys, ids);
    }
  }

  ghost predicate WithinLimit(bound: seq<nat>, from: nat, limit: nat) {
    forall i :: from <= i < |bound| ==> bound[i] <= limit
  }

  class InboxyClient {
    const dialect: Dialect

    constructor (dialect: Dialect)
      ensures this.dialect == dialect
    {
      this.dialect := dialect;
    }

    /** Receives one event; newId is the uuid the database, or the client, generates for it. */
    method Receive(event: Input, executor: Executor, newId: RowId) returns (r: Validated<ReceiveResult>)
      modifies executor
      ensures r.Invalid? <==> !Acceptable(event)
      ensures r.Invalid? ==> FailsWith(event, r.error) && executor.table == old(executor.table)
      ensures r.Valid? ==> var found := executor.others(|old(executor.bound)|, old(executor.table));
        if exists k :: k in found && executor.canon(k) == executor.canon(event.key) then
          r.value.status == Duplicate && executor.table == found
        else r.value.status == New && executor.table == found[event.key := newId]
      ensures r.Valid? ==> executor.bound == old(executor.bound) + [if dialect.supportsReturning then 10 else 11]
      ensures r.Valid? ==> var found := executor.others(|old(executor.bound)|, old(executor.table));
        && executor.table == InsertAll(executor.canon, found, [event.key], [newId])
        && [r.value.status] == OneByOne(executor.canon, found, [event.key], [newId])
      ensures r.Valid? ==>
        r.value.eventId == if r.value.status == Duplicate && dialect.supportsReturning then None else Some(newId)
    {
      CheckedExactlyIfAcceptable(event);
      var problem := Check(event);
      if problem.Some? {
        return Invalid(problem.value);
      }
      var rows := executor.Insert([event.key], [newId], dialect.Columns());
      assert [event.key][1..] == [] && [newId][1..] == [];
      if dialect.supportsReturning {
        r := Valid(if rows == [] then ReceiveResult(None, Duplicate) else ReceiveResult(Some(rows[0]), New));
      } else {
        r := Valid(ReceiveResult(Some(newId), if rows == [] then Duplicate else New));
      }
    }

    function ChunkSize(): nat {
      dialect.maxParameters / dialect.Columns()
    }

    /** One INSERT and one SELECT, or one of each per chunk, with other transactions before each. */
    method BulkInsert(keys: seq<Key>, executor: Executor, ids: seq<RowId>) returns (results: seq<ReceiveResult>)
      requires |keys| == |ids| && keys != [] && Distinct(keys) && Fresh(executor.table, ids)
      requires Harmless(executor.others, ids)
      requires dialect.maxParameters >= dialect.Columns()
      modifies executor
      ensures (Statuses(results), executor.table)
        == Interfered(executor.canon, executor.others, |old(executor.bound)|, old(executor.table), keys, ids,
                      ChunkSize())
      ensures Kept(executor, keys, ids, results)
      ensures old(executor.bound) <= executor.bound
      ensures |keys| <= ChunkSize() ==>
        executor.bound == old(executor.bound) + [|keys| * dialect.Columns(), |keys|]
      ensures WithinLimit(executor.bound, |old(executor.bound)|, dialect.maxParameters)
      decreases |keys|, 2
    {
      if |keys| > ChunkSize() {
        results := InsertChunks(keys, executor, ids);
      } else {
        InterferedOnce(executor.canon, executor.others, |executor.bound|, executor.table, keys, ids, ChunkSize());
        results := InsertChunk(keys, executor, ids);
      }
    }

    method InsertChunks(keys: seq<Key>, executor: Executor, ids: seq<RowId>) returns (results: seq<ReceiveResult>)
      requires |keys| == |ids| && Distinct(keys) && Fresh(executor.table, ids)
      requires Harmless(executor.others, ids)
      requires dialect.maxParameters >= dialect.Columns() && |keys| > ChunkSize()
      modifies executor
      ensures (Statuses(results), executor.table)
        == Interfered(executor.canon, executor.others, |old(executor.bound)|, old(executor.table), keys, ids,
                      ChunkSize())
      ensures Kept(executor, keys, ids, results)
      ensures old(executor.bound) <= executor.bound
      ensures WithinLimit(executor.bound, |old(executor.bound)|, dialect.maxParameters)
      decreases |keys|, 1
    {
      var maxEventsPerBatch := ChunkSize();
      results := [];
      var i := 0;
      ghost var whole := Interfered(executor.canon, executor.others, |executor.bound|, executor.table, keys, ids,
                                    maxEventsPerBatch);
      assert keys[0..] == keys && ids[0..] == ids;
      assert Statuses(results) + whole.0 == whole.0;
      while i < |keys|
        invariant 0 <= i <= |keys| && |results| == i
        invariant RemainingIn(executor, keys, ids, i, results, whole)
        invariant Fresh(executor.table, ids[i..])
        invariant Kept(executor, keys[..i], ids[..i], results)
        invariant old(executor.bound) <= executor.bound
        invariant WithinLimit(executor.bound, |old(executor.bound)|, dialect.maxParameters)
      {
        var end := if i + maxEventsPerBatch < |keys| then i + maxEventsPerBatch else |keys|;
        results := InsertNext(keys, executor, ids, i, end, results, whole);
        i := end;
      }
      assert keys[..i] == keys && ids[..i] == ids;
      assert Statuses(results) + [] == Statuses(results);
    }

    /** One chunk of a large batch. */
    method InsertNext(keys: seq<Key>, executor: Executor, ids: seq<RowId>, i: nat, end: nat, before: seq<ReceiveResult>,
                      ghost whole: (seq<ReceiveStatus>, Table)) returns (results: seq<ReceiveResult>)
      requires |keys| == |ids| && Distinct(keys) && i < |keys| && Harmless(executor.others, ids)
      requires 0 < ChunkSize() < |keys| && dialect.maxParameters >= dialect.Columns()
      requires end == if i + ChunkSize() < |keys| then i + ChunkSize() else |keys|
      requires |before| == i && Fresh(executor.table, ids[i..])
      requires RemainingIn(executor, keys, ids, i, before, whole)
      requires Kept(executor, keys[..i], ids[..i], before)
      modifies executor
      ensures |results| == end && Fresh(executor.table, ids[end..])
      ensures RemainingIn(executor, keys, ids, end, results, whole)
      ensures Kept(executor, keys[..end], ids[..end], results)
      ensures old(executor.bound) <= executor.bound
      ensures WithinLimit(executor.bound, |old(executor.bound)|, dialect.maxParameters)
      decreases |keys|, 0
    {
      ghost var table, n := executor.table, |executor.bound|;
      PartIsHarmless(executor.others, ids, i, end);
      ChunkIsFresh(table, ids, i, end);
      var chunkResults := BulkInsert(keys[i..end], executor, ids[i..end]);
      results := before + chunkResults;
      OneChunkLater(executor.canon, executor.others, n, table, keys, ids, i, end, before, chunkResults, whole,
                    executor.table);
    }

    /** What the chunk from i to end means for the whole batch. */
    lemma OneChunkLater(canon: Canon, others: Others, n: nat, table: Table, keys: seq<Key>, ids: seq<RowId>, i: nat,
                        end: nat, before: seq<ReceiveResult>, more: seq<ReceiveResult>,
                        whole: (seq<ReceiveStatus>, Table), after: Table)
      requires |keys| == |ids| && Distinct(keys) && i < |keys| && Harmless(others, ids)
      requires 0 < ChunkSize() && end == if i + ChunkSize() < |keys| then i + ChunkSize() else |keys|
      requires |before| == i && |more| == end - i && Fresh(table, ids[i..])
      requires Remaining(canon, others, n, table, keys, ids, i, before, whole)
      requires (Statuses(more), after) == Interfered(canon, others, n, table, keys[i..end], ids[i..end], ChunkSize())
      requires KeptIn(table, others, keys[..i], ids[..i], before)
      requires KeptIn(after, others, keys[i..end], ids[i..end], more)
      ensures Remaining(canon, others, n + 2, after, keys, ids, end, before + more, whole)
      ensures KeptIn(after, others, keys[..end], ids[..end], before + more) && Fresh(after, ids[end..])
    {
      InterferedOnce(canon, others, n, table, keys[i..end], ids[i..end], ChunkSize());
      RemainingShrinks(canon, others, n, table, keys, ids, ChunkSize(), i, end, before, more, whole);
      RowsStay(canon, others, n, table, keys, ids, i, end, dialect.supportsReturning, before, more, after);
    }

    /** The rows of the first i events are kept, and their results identify them if nobody interferes. */
    ghost predicate Kept(executor: Executor, keys: seq<Key>, ids: seq<RowId>, results: seq<ReceiveResult>)
      reads executor
    {
      KeptIn(executor.table, executor.others, keys, ids, results)
    }

    ghost predicate KeptIn(table: Table, others: Others, keys: seq<Key>, ids: seq<RowId>, results: seq<ReceiveResult>) {
      && NewRowsKept(table, keys, ids, results)
      && (Quiet(others) ==> Identified(table, keys, ids, dialect.supportsReturning, results))
    }

    ghost predicate RemainingIn(executor: Executor, keys: seq<Key>, ids: seq<RowId>, i: nat,
                                results: seq<ReceiveResult>, whole: (seq<ReceiveStatus>, Table))
      requires |keys| == |ids| && i <= |keys| && ChunkSize() > 0
      reads executor
    {
      Remaining(executor.canon, executor.others, |executor.bound|, executor.table, keys, ids, i, results, whole)
    }

    /** What is still to come, appended to what there is, is the whole. */
    ghost predicate Remaining(canon: Canon, others: Others, n: nat, table: Table, keys: seq<Key>, ids: seq<RowId>,
                              i: nat, results: seq<ReceiveResult>, whole: (seq<ReceiveStatus>, Table))
      requires |keys| == |ids| && i <= |keys| && ChunkSize() > 0
    {
      var rest := Interfered(canon, others, n, table, keys[i..], ids[i..], ChunkSize());
      whole == (Statuses(results) + rest.0, rest.1)
    }

    lemma RemainingShrinks(canon: Canon, others: Others, n: nat, table: Table, keys: seq<Key>, ids: seq<RowId>,
                           chunk: nat, i: nat, end: nat, before: seq<ReceiveResult>, more: seq<ReceiveResult>,
                           whole: (seq<ReceiveStatus>, Table))
      requires |keys| == |ids| && i < |keys| && chunk == ChunkSize() > 0
      requires end == if i + chunk < |keys| then i + chunk else |keys|
      requires Remaining(canon, others, n, table, keys, ids, i, before, whole)
      requires Statuses(more) == Interfered(canon, others, n, table, keys[i..end], ids[i..end], chunk).0
      ensures var after := Interfered(canon, others, n, table, keys[i..end], ids[i..end], chunk).1;
        Remaining(canon, others, n + 2, after, keys, ids, end, before + more, whole)
    {
      InterferedInChunks(canon, others, n, table, keys[i..], ids[i..], chunk, end - i);
      SliceOfRest(keys, i, end);
      SliceOfRest(ids, i, end);
      var first := Interfered(canon, others, n, table, keys[i..end], ids[i..end], chunk);
      AppendStatuses(before, more, Interfered(canon, others, n + 2, first.1, keys[end..], ids[end..], chunk).0);
    }

    method InsertChunk(keys: seq<Key>, executor: Executor, ids: seq<RowId>) returns (results: seq<ReceiveResult>)
      requires |keys| == |ids| && Distinct(keys) && Fresh(executor.table, ids) && Harmless(executor.others, ids)
      requires |keys| * dialect.Columns() <= dialect.maxParameters
      modifies executor
      ensures var found := executor.others(|old(executor.bound)|, old(executor.table));
        && executor.table == executor.others(|old(executor.bound)| + 1, InsertAll(executor.canon, found, keys, ids))
        && Statuses(results) == OneByOne(executor.canon, found, keys, ids)
      ensures Kept(executor, keys, ids, results)
      ensures executor.bound == old(executor.bound) + [|keys| * dialect.Columns(), |keys|]
    {
      ghost var found := executor.others(|executor.bound|, executor.table);
      var returned := executor.Insert(keys, ids, dialect.Columns());
      var keyToId := executor.FindByKeys(keys);
      DriftKeepsFresh(old(executor.table), ids, found);
      results := [];
      for i := 0 to |keys|
        invariant |results| == i
        invariant executor.table
          == executor.others(|old(executor.bound)| + 1, InsertAll(executor.canon, found, keys, ids))
        invariant executor.bound == old(executor.bound) + [|keys| * dialect.Columns(), |keys|]
        invariant forall j :: 0 <= j < i ==>
          Answers(!SeenBefore(executor.canon, found, keys, j), executor.table, keys[j], ids[j],
                  dialect.supportsReturning, results[j])
      {
        ItemAnswers(executor.canon, found, keys, ids, i, executor.table, keyToId);
        results := results + [ResultOf(keys[i], ids[i], keyToId, returned)];
      }
      OneByOneStatuses(executor.canon, found, keys, ids);
      assert Statuses(results) == OneByOne(executor.canon, found, keys, ids);
    }

    /** The result for one event of a chunk. */
    function ResultOf(key: Key, id: RowId, keyToId: Table, returned: seq<RowId>): ReceiveResult {
      if dialect.supportsReturning then
        if key !in keyToId then ReceiveResult(None, Duplicate)
        else ReceiveResult(Some(keyToId[key]), if keyToId[key] in returned then New else Duplicate)
      else
        var wasInserted := key in keyToId && keyToId[key] == id;
        ReceiveResult(Some(if key in keyToId then keyToId[key] else id), if wasInserted then New else Duplicate)
    }

    lemma {:induction false} ItemAnswers(canon: Canon, found: Table, keys: seq<Key>, ids: seq<RowId>, i: nat,
                                         seen: Table, keyToId: Table)
      requires |keys| == |ids| && Distinct(keys) && Fresh(found, ids) && i < |keys|
      requires Drifted(InsertAll(canon, found, keys, ids), ids, seen)
      requires keys[i] in keyToId <==> keys[i] in seen
      requires keys[i] in keyToId ==> keyToId[keys[i]] == seen[keys[i]]
      ensures Answers(!SeenBefore(canon, found, keys, i), seen, keys[i], ids[i], dialect.supportsReturning,
                      ResultOf(keys[i], ids[i], keyToId, InsertedIds(canon, found, keys, ids)))
    {
      OwnIdExactlyIfFirst(canon, found, keys, ids, i);
      ReturnedExactlyIfFirst(canon, found, keys, ids, i);
      if SeenBefore(canon, found, keys, i) && keys[i] in seen {
        LaterOccurrenceHasAnotherId(canon, found, keys, ids, i, seen);
      }
    }

    lemma LaterOccurrenceHasAnotherId(canon: Canon, found: Table, keys: seq<Key>, ids: seq<RowId>, i: nat, seen: Table)
      requires |keys| == |ids| && Distinct(keys) && Fresh(found, ids) && i < |keys|
      requires Drifted(InsertAll(canon, found, keys, ids), ids, seen)
      requires SeenBefore(canon, found, keys, i) && keys[i] in seen
      ensures seen[keys[i]] !in ids
    {
      InsertAllKeeps(canon, found, keys, ids);
      if seen[keys[i]] in ids && keys[i] !in found {
        var j := InsertedBy(canon, found, keys, ids, keys[i]);
      }
    }

    /** Every event by itself, then the keys of the batch against each other. */
    method Validate(events: seq<Input>) returns (problem: Option<ValidationError>)
      ensures problem.None? <==> (forall i :: 0 <= i < |events| ==> Acceptable(events[i])) && !RepeatsKey(events)
      ensures problem.None? ==> Distinct(InputKeys(events))
      ensures problem.Some? && problem.value != DuplicateKeys ==>
        exists i :: 0 <= i < |events| && FailsWith(events[i], problem.value)
    {
      for i := 0 to |events|
        invariant forall j :: 0 <= j < i ==> Acceptable(events[j])
      {
        CheckedExactlyIfAcceptable(events[i]);
        if Check(events[i]).Some? {
          return Check(events[i]);
        }
      }
      var keys := InputKeys(events);
      var uniqueKeys := set k | k in keys;
      DistinctByCount(keys);
      DistinctExactlyIfNoKeyRepeats(events);
      problem := if |keys| != |uniqueKeys| then Some(DuplicateKeys) else None;
    }

    /** Validates every event and that no key occurs twice, then inserts in bulk. Whatever other
        transactions do before each statement, the statuses, in input order, and the resulting table
        are those of receiving the events one by one under the same interference. */
    method ReceiveBatch(events: seq<Input>, executor: Executor, ids: seq<RowId>)
      returns (r: Validated<seq<ReceiveResult>>)
      requires |events| == |ids| && Fresh(executor.table, ids) && Harmless(executor.others, ids)
      requires dialect.maxParameters >= dialect.Columns()
      modifies executor
      ensures r.Invalid? <==>
        || (exists i :: 0 <= i < |events| && !Acceptable(events[i]))
        || RepeatsKey(events)
      ensures r.Invalid? && r.error != DuplicateKeys ==>
        exists i :: 0 <= i < |events| && FailsWith(events[i], r.error)
      ensures r.Invalid? ==> executor.table == old(executor.table)
      ensures r.Valid? ==>
        var n, table := |old(executor.bound)|, old(executor.table);
        (Statuses(r.value), executor.table)
          == Interfered(executor.canon, executor.others, n, table, InputKeys(events), ids, ChunkSize())
      ensures r.Valid? ==> NewRowsKept(executor.table, InputKeys(events), ids, r.value)
      ensures r.Valid? && Quiet(executor.others) ==>
        && Statuses(r.value) == OneByOne(executor.canon, old(executor.table), InputKeys(events), ids)
        && executor.table == InsertAll(executor.canon, old(executor.table), InputKeys(events), ids)
        && Identified(executor.table, InputKeys(events), ids, dialect.supportsReturning, r.value)
        && SpelledIfThereOrNew(old(executor.table), InputKeys(events), r.value, executor.table)
        && (Exact(executor.canon) ==> AllThere(InputKeys(events), executor.table))
      ensures WithinLimit(executor.bound, |old(executor.bound)|, dialect.maxParameters)
      ensures var columns := if dialect.supportsReturning then 10 else 11;
        r.Valid? && 0 < |events| <= dialect.maxParameters / columns ==>
          executor.bound == old(executor.bound) + [|events| * columns, |events|]
    {
      if events == [] {
        assert Statuses([]) == [] && InputKeys(events) == [];
        return Valid([]);
      }
      var problem := Validate(events);
      if problem.Some? {
        return Invalid(problem.value);
      }
      var keys := InputKeys(events);
      if Quiet(executor.others) {
        QuietIsOneByOne(executor.canon, executor.others, |executor.bound|, executor.table, keys, ids, ChunkSize());
      }
      ghost var before := executor.table;
      var results := BulkInsert(keys, executor, ids);
      if Quiet(executor.others) {
        SpellingsAreThere(executor.canon, before, keys, ids, results);
      }
      r := Valid(results);
    }
  }

  function InputKeys(events: seq<Input>): (keys: seq<Key>)
    ensures |keys| == |events|
  {
    seq(|events|, i requires 0 <= i < |events| => events[i].key)
  }

  lemma DistinctExactlyIfNoKeyRepeats(events: seq<Input>)
    ensures Distinct(InputKeys(events)) <==> !RepeatsKey(events)
  {
    var keys := InputKeys(events);
    if i, j :| 0 <= i < j < |keys| && keys[i] == keys[j] {
      assert events[i].key == events[j].key;
    }
    if i, j :| 0 <= i < j < |events| && events[i].key == events[j].key {
      assert keys[i] == keys[j];
    }
  }

  /** One key's result, given whether its INSERT met the key for the first time and what its SELECT saw. */
  ghost predicate Answers(first: bool, seen: Table, key: Key, id: RowId, returning: bool, r: ReceiveResult) {
    && (r.status == if first then New else Duplicate)
    && (first ==> key in seen && seen[key] == id)
    && Identifies(seen, key, id, returning, r)
  }

  lemma PartIsHarmless(others: Others, ids: seq<RowId>, i: nat, end: nat)
    requires i <= end <= |ids| && Harmless(others, ids)
    ensures Harmless(others, ids[i..end])
  {
    forall n, t
      ensures Drifted(t, ids[i..end], others(n, t))
    {
      assert Drifted(t, ids, others(n, t));
    }
  }

  lemma ChunkIsFresh(table: Table, ids: seq<RowId>, i: nat, end: nat)
    requires i <= end <= |ids| && Fresh(table, ids[i..])
    ensures Fresh(table, ids[i..end])
  {
    assert forall j :: 0 <= j < end - i ==> ids[i..end][j] == ids[i..][j];
  }

  lemma SliceOfRest<T>(s: seq<T>, i: nat, end: nat)
    requires i <= end <= |s|
    ensures s[i..][..end - i] == s[i..end] && s[i..][end - i..] == s[end..]
  {
  }

  lemma AppendStatuses(before: seq<ReceiveResult>, more: seq<ReceiveResult>, rest: seq<ReceiveStatus>)
    ensures Statuses(before) + (Statuses(more) + rest) == Statuses(before + more) + rest
  {
    assert Statuses(before + more) == Statuses(before) + Statuses(more);
  }

  /** What a chunk and the drift around it do to the table. */
  ghost predicate ChunkInserted(canon: Canon, others: Others, n: nat, table: Table, keys: seq<Key>, ids: seq<RowId>,
                                after: Table)
    requires |keys| == |ids|
  {
    after == others(n + 1, InsertAll(canon, others(n, table), keys, ids))
  }

  /** A row inserted before, or by anybody if nothing drifts, is still there. */
  lemma RowStays(canon: Canon, others: Others, n: nat, table: Table, keys: seq<Key>, ids: seq<RowId>,
                 allIds: seq<RowId>, after: Table, key: Key)
    requires |keys| == |ids| && Harmless(others, allIds)
    requires ChunkInserted(canon, others, n, table, keys, ids, after)
    ensures key in table && (table[key] in allIds || Quiet(others)) ==> key in after && after[key] == table[key]
    ensures Quiet(others) && key !in keys ==> (key in after <==> key in table)
  {
    var found := others(n, table);
    assert Drifted(table, allIds, found);
    InsertAllKeeps(canon, found, keys, ids);
    assert Drifted(InsertAll(canon, found, keys, ids), allIds, after);
  }

  lemma LaterIdStaysFresh(canon: Canon, others: Others, n: nat, table: Table, keys: seq<Key>, ids: seq<RowId>,
                          allIds: seq<RowId>, after: Table, key: Key, id: RowId)
    requires |keys| == |ids| && Harmless(others, allIds)
    requires ChunkInserted(canon, others, n, table, keys, ids, after)
    requires id in allIds && id !in ids && forall k :: k in table ==> table[k] != id
    ensures key in after ==> after[key] != id
  {
    var found := others(n, table);
    assert Drifted(table, allIds, found);
    if key in after && after[key] == id {
      var inserted := InsertAll(canon, found, keys, ids);
      assert Drifted(inserted, allIds, after);
      InsertAllKeeps(canon, found, keys, ids);
      if key !in found {
        var j := InsertedBy(canon, found, keys, ids, key);
      }
    }
  }

  /** A chunk and the drift around it keep the rows inserted before, and the later ids stay fresh. */
  lemma RowsStay(canon: Canon, others: Others, n: nat, table: Table, keys: seq<Key>, ids: seq<RowId>, i: nat,
                 end: nat, returning: bool, before: seq<ReceiveResult>, more: seq<ReceiveResult>, after: Table)
    requires |keys| == |ids| && Distinct(keys) && i <= end <= |keys| && Harmless(others, ids) && Fresh(table, ids[i..])
    requires ChunkInserted(canon, others, n, table, keys[i..end], ids[i..end], after)
    requires NewRowsKept(table, keys[..i], ids[..i], before) && NewRowsKept(after, keys[i..end], ids[i..end], more)
    requires Quiet(others) ==>
      && Identified(table, keys[..i], ids[..i], returning, before)
      && Identified(after, keys[i..end], ids[i..end], returning, more)
    ensures NewRowsKept(after, keys[..end], ids[..end], before + more)
    ensures Quiet(others) ==> Identified(after, keys[..end], ids[..end], returning, before + more)
    ensures Fresh(after, ids[end..])
  {
    forall j | 0 <= j < end
      ensures (before + more)[j].status == New ==>
        (before + more)[j].eventId == Some(ids[j]) && keys[j] in after && after[keys[j]] == ids[j]
      ensures Quiet(others) ==> Identifies(after, keys[j], ids[j], returning, (before + more)[j])
    {
      if j < i {
        assert keys[..i][j] == keys[j] && ids[..i][j] == ids[j] && (before + more)[j] == before[j];
        RowStays(canon, others, n, table, keys[i..end], ids[i..end], ids, after, keys[j]);
      } else {
        assert keys[i..end][j - i] == keys[j] && ids[i..end][j - i] == ids[j] && (before + more)[j] == more[j - i];
      }
    }
    LaterIdsStayFresh(canon, others, n, table, keys, ids, i, end, after);
  }

  lemma LaterIdsStayFresh(canon: Canon, others: Others, n: nat, table: Table, keys: seq<Key>, ids: seq<RowId>, i: nat,
                          end: nat, after: Table)
    requires |keys| == |ids| && i <= end <= |keys| && Harmless(others, ids) && Fresh(table, ids[i..])
    requires ChunkInserted(canon, others, n, table, keys[i..end], ids[i..end], after)
    ensures Fresh(after, ids[end..])
  {
    forall k, j | k in after && 0 <= j < |ids| - end
      ensures after[k] != ids[end..][j]
    {
      assert ids[end..][j] == ids[end + j] == ids[i..][end - i + j];
      assert forall m :: 0 <= m < end - i ==> ids[i..end][m] == ids[i..][m];
      LaterIdStaysFresh(canon, others, n, table, keys[i..end], ids[i..end], ids, after, k, ids[end + j]);
    }
    assert forall j :: 0 <= j < |ids| - end ==> ids[end..][j] == ids[i..][end - i + j];
  }
}
