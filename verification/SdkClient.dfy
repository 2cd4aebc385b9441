/** The SDK's outbox client: validation, publish with an idempotency key, and the chunked bulk
    insert, on both databases. */
module SdkClient {
  import opened Common
  import opened OutboxTable
  import opened IdempotencyKeys
  import InboxClient

  /** On MySQL, canon is the form of a key that the collation compares: one for all spellings it takes for the same. */
  datatype Dialect = PostgreSql(maxParameters: nat) | MySql(maxParameters: nat, canon: string -> string) {
    /** The base columns, plus the id where the database cannot return it. */
    function Columns(): nat {
      if PostgreSql? then 12 else 13
    }

    /** The index on idempotency_key: partial on PostgreSQL, over every row on MySQL. */
    ghost predicate Allows(rows: Rows) {
      if PostgreSql? then UniqueKeys(rows) else AllKeysUnique(canon, rows)
    }

    /** The rows an insert under the key conflicts with. */
    ghost function Conflicts(rows: Rows, key: string): set<EventId> {
      if PostgreSql? then Holders(rows, key)
      else set id | id in rows && SameKey(canon, rows[id].idempotencyKey, Some(key))
    }
  }

  predicate SameKey(canon: string -> string, a: Option<string>, b: Option<string>) {
    a.Some? && b.Some? && canon(a.value) == canon(b.value)
  }

  predicate AllKeysUnique(canon: string -> string, rows: Rows) {
    forall i, j | i in rows && j in rows && i != j ::
      !SameKey(canon, rows[i].idempotencyKey, rows[j].idempotencyKey)
  }

  datatype Input = Input(
    aggregateType: string,
    aggregateId: string,
    eventType: string,
    eventVersion: Option<int>,
    destinationUrl: Option<string>,
    destinationType: Option<string>,
    idempotencyKey: Option<string>,
    maxRetries: Option<int>)

  /** What is left of an input once the client's defaults are filled in. */
  datatype NewEvent = NewEvent(data: EventData, key: Option<string>, maxRetries: int)

  datatype Problem = UrlRequired | TypeInvalid | VersionInvalid | KeyInvalid | DuplicateKeys

  datatype Outcome<T> = Done(value: T) | Invalid(problem: Problem) | Rejected

  const DESTINATION_TYPES := {"http", "kafka", "sqs", "rabbitmq", "pubsub"}

  datatype Defaults = Defaults(destinationUrl: Option<string>, destinationType: string, maxRetries: int)

  predicate Given(text: Option<string>) {
    text.Some? && text.value != ""
  }

  function Resolve(defaults: Defaults, e: Input): Outcome<NewEvent> {
    var url := if Given(e.destinationUrl) then e.destinationUrl else defaults.destinationUrl;
    var destinationType := if e.destinationType.Some? then e.destinationType.value else defaults.destinationType;
    if !Given(url) then Invalid(UrlRequired)
    else if destinationType !in DESTINATION_TYPES then Invalid(TypeInvalid)
    else if e.eventVersion.Some? && e.eventVersion.value < 1 then Invalid(VersionInvalid)
    else if e.idempotencyKey.Some? && !InboxClient.ValidKey(e.idempotencyKey.value) then Invalid(KeyInvalid)
    else
      Done(NewEvent(EventData(url.value, e.aggregateType, e.aggregateId, e.eventType), e.idempotencyKey,
                    if e.maxRetries.Some? then e.maxRetries.value else defaults.maxRetries))
  }

  /** The table once the events have been inserted under the ids, in order. */
  function Inserted(rows: Rows, events: seq<NewEvent>, ids: seq<EventId>, now: Millis): Rows
    requires |events| == |ids|
  {
    if events == [] then rows else
      var n := |events| - 1;
      var e := events[n];
      Inserted(rows, events[..n], ids[..n], now)[ids[n] := FreshRow(e.data, e.key, e.maxRetries, now)]
  }

  lemma {:induction false} InsertedSplits(rows: Rows, events: seq<NewEvent>, ids: seq<EventId>, now: Millis, n: nat)
    requires |events| == |ids| && n <= |events|
    ensures Inserted(rows, events, ids, now)
      == Inserted(Inserted(rows, events[..n], ids[..n], now), events[n..], ids[n..], now)
    decreases |events|
  {
    var last := |events| - 1;
    if n == |events| {
      assert events[..n] == events && ids[..n] == ids;
    } else {
      InsertedSplits(rows, events[..last], ids[..last], now, n);
      assert events[..last][..n] == events[..n] && ids[..last][..n] == ids[..n];
      assert events[..last][n..] == events[n..][..last - n] && ids[..last][n..] == ids[n..][..last - n];
    }
  }

  ghost predicate Unused(rows: Rows, ids: seq<EventId>) {
    Distinct(ids) && forall i :: 0 <= i < |ids| ==> ids[i] !in rows
  }

  /** Row i of the insert is event i's, and no other row is touched. */
  lemma {:induction false} InsertedRows(rows: Rows, events: seq<NewEvent>, ids: seq<EventId>, now: Millis)
    requires |events| == |ids| && Unused(rows, ids)
    ensures var after := Inserted(rows, events, ids, now);
      && after.Keys == rows.Keys + Elements(ids)
      && (forall id :: id in rows ==> after[id] == rows[id])
      && (forall i :: 0 <= i < |ids| ==>
            after[ids[i]] == FreshRow(events[i].data, events[i].key, events[i].maxRetries, now))
  {
    if events != [] {
      var n := |events| - 1;
      InsertedRows(rows, events[..n], ids[..n], now);
      assert ids == ids[..n] + [ids[n]];
      assert Elements(ids) == Elements(ids[..n]) + {ids[n]};
      forall i | 0 <= i < n
        ensures Inserted(rows, events, ids, now)[ids[i]]
          == FreshRow(events[i].data, events[i].key, events[i].maxRetries, now)
      {
        assert ids[..n][i] == ids[i] && events[..n][i] == events[i];
      }
    }
  }

  /** If the whole batch fits under the index, so does every part of it. */
  lemma PartsAreAllowed(dialect: Dialect, rows: Rows, events: seq<NewEvent>, ids: seq<EventId>, now: Millis, n: nat)
    requires |events| == |ids| && Unused(rows, ids) && n <= |events|
    requires dialect.Allows(Inserted(rows, events, ids, now))
    ensures dialect.Allows(Inserted(rows, events[..n], ids[..n], now))
  {
    InsertedRows(rows, events, ids, now);
    InsertedRows(rows, events[..n], ids[..n], now);
    var whole, part := Inserted(rows, events, ids, now), Inserted(rows, events[..n], ids[..n], now);
    forall id | id in part
      ensures id in whole && whole[id] == part[id]
    {
      if id !in rows {
        var i :| 0 <= i < n && ids[..n][i] == id;
        assert ids[i] == id && events[..n][i] == events[i];
      }
    }
  }

  /** What other transactions may make of the table between two statements: the rows inserted here
      stay as they are, and nobody else uses their ids. */
  ghost predicate Drifted(rows: Rows, ids: seq<EventId>, after: Rows) {
    forall id :: id in ids ==> (id in rows <==> id in after) && (id in rows ==> after[id] == rows[id])
  }

  /** Other transactions: what they make of the table just before the n-th statement. */
  type Others = (nat, Rows) -> Rows

  ghost predicate Harmless(others: Others, ids: seq<EventId>) {
    forall n, rows :: Drifted(rows, ids, others(n, rows))
  }

  ghost predicate Quiet(others: Others) {
    forall n, rows :: others(n, rows) == rows
  }

  /** The caller's transaction, through the adapter. */
  class Executor {
    const dialect: Dialect
    const others: Others
    var rows: Rows
    /** Parameters bound by each statement so far. */
    var bound: seq<nat>

    constructor (dialect: Dialect, rows: Rows, others: Others)
      ensures this.dialect == dialect && this.rows == rows && this.others == others && bound == []
    {
      this.dialect, this.rows, this.others, bound := dialect, rows, others, [];
    }

    /** The table the next statement finds. */
    ghost function Found(): Rows
      reads this
    {
      others(|bound|, rows)
    }

    /** One multi-row INSERT: all rows or none; the ids come back in insertion order. */
    method BulkInsert(events: seq<NewEvent>, ids: seq<EventId>, now: Millis) returns (returned: Option<seq<EventId>>)
      requires |events| == |ids|
      modifies this
      ensures returned.Some? <==> dialect.Allows(Inserted(old(Found()), events, ids, now))
      ensures returned.Some? ==> returned.value == ids && rows == Inserted(old(Found()), events, ids, now)
      ensures returned.None? ==> rows == old(Found())
      ensures bound == old(bound) + [|events| * dialect.Columns()]
    {
      rows := others(|bound|, rows);
      bound := bound + [|events| * dialect.Columns()];
      var next := Inserted(rows, events, ids, now);
      var allowed := Check(next);
      if allowed {
        rows := next;
        returned := Some(ids);
      } else {
        returned := None;
      }
    }

    method Check(next: Rows) returns (allowed: bool)
      ensures allowed <==> dialect.Allows(next)
    {
      if dialect.PostgreSql? {
        allowed := UniqueKeys(next);
      } else {
        allowed := AllKeysUnique(dialect.canon, next);
      }
    }

    /** The single INSERT: ON CONFLICT ... DO UPDATE of the key to itself, or ON DUPLICATE KEY
        UPDATE of updated_at, leave a conflicting row as it is; PostgreSQL returns its id. */
    method Upsert(event: NewEvent, id: EventId, now: Millis) returns (returned: Option<EventId>)
      requires id !in Found() && dialect.Allows(Found())
      modifies this
      ensures var found := old(Found());
        var conflict := event.key.Some? && dialect.Conflicts(found, event.key.value) != {};
        && rows == (if conflict then found else found[id := FreshRow(event.data, event.key, event.maxRetries, now)])
        && (returned.Some? <==> dialect.PostgreSql?)
        && (returned.Some? ==>
              if conflict then returned.value in dialect.Conflicts(found, event.key.value) else returned.value == id)
      ensures bound == old(bound) + [dialect.Columns()]
    {
      var current := others(|bound|, rows);
      bound := bound + [dialect.Columns()];
      var conflicts := set i | i in current && event.key.Some? &&
                               if dialect.PostgreSql? then Indexed(current[i], event.key.value)
                               else SameKey(dialect.canon, current[i].idempotencyKey, event.key);
      assert event.key.Some? ==> conflicts == dialect.Conflicts(current, event.key.value);
      if conflicts != {} {
        var holder :| holder in conflicts;
        rows := current;
        returned := if dialect.PostgreSql? then Some(holder) else None;
      } else {
        rows := current[id := FreshRow(event.data, event.key, event.maxRetries, now)];
        returned := if dialect.PostgreSql? then Some(id) else None;
      }
    }
  }

  /** Chunk after chunk, each from the table it finds, until one is refused: whether all were
      accepted, and the table at the end. */
  ghost function InsertedUnder(dialect: Dialect, others: Others, n: nat, rows: Rows, events: seq<NewEvent>,
                               ids: seq<EventId>, now: Millis, chunk: nat): (bool, Rows)
    requires |events| == |ids| && chunk > 0
    decreases |events|
  {
    if events == [] then (true, rows) else
      var c := if chunk < |events| then chunk else |events|;
      var found := others(n, rows);
      var next := Inserted(found, events[..c], ids[..c], now);
      if !dialect.Allows(next) then (false, found)
      else InsertedUnder(dialect, others, n + 1, next, events[c..], ids[c..], now, chunk)
  }

  /** Without interference the chunks are accepted exactly if a single statement would be, and then
      do what it would do; otherwise whole leading chunks have been inserted. */
  lemma {:induction false} QuietChunks(dialect: Dialect, others: Others, n: nat, rows: Rows, events: seq<NewEvent>,
                                       ids: seq<EventId>, now: Millis, chunk: nat)
    requires |events| == |ids| && chunk > 0 && Quiet(others) && Unused(rows, ids) && dialect.Allows(rows)
    ensures var (ok, after) := InsertedUnder(dialect, others, n, rows, events, ids, now, chunk);
      && (ok <==> dialect.Allows(Inserted(rows, events, ids, now)))
      && (ok ==> after == Inserted(rows, events, ids, now))
      && (!ok ==> WholeChunksOnly(rows, events, ids, now, chunk, after))
    decreases |events|
  {
    if events != [] {
      var c := if chunk < |events| then chunk else |events|;
      var next := Inserted(rows, events[..c], ids[..c], now);
      if !dialect.Allows(next) {
        if dialect.Allows(Inserted(rows, events, ids, now)) {
          PartsAreAllowed(dialect, rows, events, ids, now, c);
        }
        assert events[..0] == [] && ids[..0] == [];
        assert rows == Inserted(rows, events[..Chunks(0, chunk)], ids[..Chunks(0, chunk)], now);
      } else {
        RestIsUnused(rows, events, ids, now, c);
        QuietChunks(dialect, others, n + 1, next, events[c..], ids[c..], now, chunk);
        InsertedSplits(rows, events, ids, now, c);
        var (ok, after) := InsertedUnder(dialect, others, n + 1, next, events[c..], ids[c..], now, chunk);
        if !ok {
          OneChunkMore(rows, events, ids, now, chunk, after);
        }
      }
    }
  }

  lemma RestIsUnused(rows: Rows, events: seq<NewEvent>, ids: seq<EventId>, now: Millis, c: nat)
    requires |events| == |ids| && Unused(rows, ids) && c <= |ids|
    ensures Unused(Inserted(rows, events[..c], ids[..c], now), ids[c..])
  {
    InsertedRows(rows, events[..c], ids[..c], now);
  }

  /** A refused batch leaves rows inserted exactly if its first chunk fits under the index. */
  lemma LeftOverExactlyIfFirstChunkFits(dialect: Dialect, others: Others, n: nat, rows: Rows, events: seq<NewEvent>,
                                        ids: seq<EventId>, now: Millis, chunk: nat)
    requires |events| == |ids| && chunk > 0 && Quiet(others) && Unused(rows, ids) && dialect.Allows(rows)
    ensures var (ok, after) := InsertedUnder(dialect, others, n, rows, events, ids, now, chunk);
      !ok ==> (after != rows <==> FirstChunkFits(dialect, rows, events, ids, now, chunk))
  {
    if events != [] && FirstChunkFits(dialect, rows, events, ids, now, chunk) {
      var c := if chunk < |events| then chunk else |events|;
      var next := Inserted(rows, events[..c], ids[..c], now);
      RestIsUnused(rows, events, ids, now, c);
      QuietChunks(dialect, others, n + 1, next, events[c..], ids[c..], now, chunk);
      var (ok, after) := InsertedUnder(dialect, others, n + 1, next, events[c..], ids[c..], now, chunk);
      if !ok {
        FirstChunkStays(rows, events, ids, now, c, chunk, after);
      }
    }
  }

  ghost predicate FirstChunkFits(dialect: Dialect, rows: Rows, events: seq<NewEvent>, ids: seq<EventId>, now: Millis,
                                 chunk: nat)
    requires |events| == |ids|
  {
    var c := if chunk < |events| then chunk else |events|;
    dialect.Allows(Inserted(rows, events[..c], ids[..c], now))
  }

  lemma FirstChunkStays(rows: Rows, events: seq<NewEvent>, ids: seq<EventId>, now: Millis, c: nat, chunk: nat,
                        after: Rows)
    requires |events| == |ids| && 0 < c <= |events| && Unused(rows, ids)
    requires WholeChunksOnly(Inserted(rows, events[..c], ids[..c], now), events[c..], ids[c..], now, chunk, after)
    ensures ids[0] in after && ids[0] !in rows
  {
    var first := Inserted(rows, events[..c], ids[..c], now);
    var k: nat :| Chunks(k, chunk) < |events| - c
      && after == Inserted(first, events[c..][..Chunks(k, chunk)], ids[c..][..Chunks(k, chunk)], now);
    InsertedRows(rows, events[..c], ids[..c], now);
    assert ids[..c][0] == ids[0] && ids[0] in first;
    RestIsUnused(rows, events, ids, now, c);
    InsertedRows(first, events[c..][..Chunks(k, chunk)], ids[c..][..Chunks(k, chunk)], now);
  }

  lemma OneChunkMore(rows: Rows, events: seq<NewEvent>, ids: seq<EventId>, now: Millis, chunk: nat, after: Rows)
    requires |events| == |ids| && 0 < chunk <= |events|
    requires WholeChunksOnly(Inserted(rows, events[..chunk], ids[..chunk], now), events[chunk..], ids[chunk..], now,
                             chunk, after)
    ensures WholeChunksOnly(rows, events, ids, now, chunk, after)
  {
    var first := Inserted(rows, events[..chunk], ids[..chunk], now);
    var k: nat :| Chunks(k, chunk) < |events| - chunk
      && after == Inserted(first, events[chunk..][..Chunks(k, chunk)], ids[chunk..][..Chunks(k, chunk)], now);
    SplitAt(rows, events, ids, now, chunk, Chunks(k, chunk));
    assert after == Inserted(rows, events[..Chunks(k + 1, chunk)], ids[..Chunks(k + 1, chunk)], now);
  }

  lemma SplitAt(rows: Rows, events: seq<NewEvent>, ids: seq<EventId>, now: Millis, c: nat, more: nat)
    requires |events| == |ids| && c + more <= |events|
    ensures Inserted(Inserted(rows, events[..c], ids[..c], now), events[c..][..more], ids[c..][..more], now)
      == Inserted(rows, events[..c + more], ids[..c + more], now)
  {
    SlicesOfSlice(events, c, c + more);
    SlicesOfSlice(ids, c, c + more);
    InsertedSplits(rows, events[..c + more], ids[..c + more], now, c);
  }

  lemma SlicesOfSlice<T>(s: seq<T>, i: nat, end: nat)
    requires i <= end <= |s|
    ensures s[..end][..i] == s[..i] && s[..end][i..] == s[i..][..end - i] == s[i..end]
    ensures s[i..][end - i..] == s[end..]
  {
  }

  /** The rows of the first i events are in the table as inserted, and the other ids are unused. */
  ghost predicate InsertedSoFar(rows: Rows, events: seq<NewEvent>, ids: seq<EventId>, now: Millis, i: nat)
    requires |events| == |ids| && i <= |ids|
  {
    && (forall j :: 0 <= j < i ==> IsEventRow(rows, ids[j], events[j], now))
    && (forall j :: i <= j < |ids| ==> ids[j] !in rows)
  }

  ghost predicate IsEventRow(rows: Rows, id: EventId, e: NewEvent, now: Millis) {
    id in rows && rows[id] == FreshRow(e.data, e.key, e.maxRetries, now)
  }

  lemma ChunkKeepsRows(dialect: Dialect, others: Others, n: nat, rows: Rows, events: seq<NewEvent>, ids: seq<EventId>,
                       now: Millis, i: nat, end: nat)
    requires |events| == |ids| && Distinct(ids) && i <= end <= |ids| && Harmless(others, ids)
    requires InsertedSoFar(rows, events, ids, now, i)
    ensures InsertedSoFar(Inserted(others(n, rows), events[i..end], ids[i..end], now), events, ids, now, end)
  {
    var found := others(n, rows);
    assert Drifted(rows, ids, found);
    assert Unused(found, ids[i..end]) by {
      assert forall j :: 0 <= j < end - i ==> ids[i..end][j] == ids[i + j];
    }
    InsertedRows(found, events[i..end], ids[i..end], now);
    forall j | i <= j < end
      ensures IsEventRow(Inserted(found, events[i..end], ids[i..end], now), ids[j], events[j], now)
    {
      assert ids[i..end][j - i] == ids[j] && events[i..end][j - i] == events[j];
    }
  }

  ghost predicate WithinLimit(bound: seq<nat>, from: nat, limit: nat) {
    forall i :: from <= i < |bound| ==> bound[i] <= limit
  }

  // What an input means, on its fields.

  ghost predicate HasOwnUrl(e: Input) {
    e.destinationUrl != None && e.destinationUrl != Some("")
  }

  ghost predicate HasUrl(defaults: Defaults, e: Input) {
    HasOwnUrl(e) || (defaults.destinationUrl != None && defaults.destinationUrl != Some(""))
  }

  ghost predicate HasKnownType(defaults: Defaults, e: Input) {
    var name := match e.destinationType case Some(own) => own case None => defaults.destinationType;
    name == "http" || name == "kafka" || name == "sqs" || name == "rabbitmq" || name == "pubsub"
  }

  ghost predicate HasGoodVersion(e: Input) {
    e.eventVersion == None || e.eventVersion.value > 0
  }

  ghost predicate HasGoodKey(e: Input) {
    e.idempotencyKey == None || InboxClient.WellFormed(e.idempotencyKey.value)
  }

  /** A URL from somewhere, a known type, and where they are given a positive version and a well-formed key. */
  ghost predicate Acceptable(defaults: Defaults, e: Input) {
    HasUrl(defaults, e) && HasKnownType(defaults, e) && HasGoodVersion(e) && HasGoodKey(e)
  }

  /** The first of the checks that the input fails. */
  ghost predicate FailsWith(defaults: Defaults, e: Input, problem: Problem) {
    match problem
    case UrlRequired => !HasUrl(defaults, e)
    case TypeInvalid => HasUrl(defaults, e) && !HasKnownType(defaults, e)
    case VersionInvalid => HasUrl(defaults, e) && HasKnownType(defaults, e) && !HasGoodVersion(e)
    case KeyInvalid => HasUrl(defaults, e) && HasKnownType(defaults, e) && HasGoodVersion(e) && !HasGoodKey(e)
    case DuplicateKeys => false
  }

  /** The row of an event: to its own URL, or else the default one, with its own data and key, its own limit, or else
      the default one, and pending. */
  ghost predicate IsRowOf(defaults: Defaults, e: Input, now: Millis, row: Row) {
    && (if HasOwnUrl(e) then e.destinationUrl == Some(row.data.destinationUrl)
        else defaults.destinationUrl == Some(row.data.destinationUrl))
    && row.data.aggregateType == e.aggregateType && row.data.aggregateId == e.aggregateId
    && row.data.eventType == e.eventType && row.idempotencyKey == e.idempotencyKey
    && (match e.maxRetries case Some(own) => row.maxRetries == own case None => row.maxRetries == defaults.maxRetries)
    && IsPendingSince(row, now)
  }

  lemma ResolvesIfAcceptable(defaults: Defaults, e: Input)
    ensures Resolve(defaults, e).Done? || Resolve(defaults, e).Invalid?
    ensures Resolve(defaults, e).Done? <==> Acceptable(defaults, e)
    ensures Resolve(defaults, e).Invalid? ==> FailsWith(defaults, e, Resolve(defaults, e).problem)
    ensures Resolve(defaults, e).Done? ==>
      var resolved := Resolve(defaults, e).value;
      forall now :: IsRowOf(defaults, e, now, FreshRow(resolved.data, resolved.key, resolved.maxRetries, now))
  {
    if e.idempotencyKey.Some? {
      InboxClient.ValidKeyIsWellFormed(e.idempotencyKey.value);
    }
  }

  /** The row holds the event's key against a new one: on PostgreSQL until it has succeeded, on MySQL for good and
      in any spelling. */
  ghost predicate HoldsKeyOf(dialect: Dialect, row: Row, e: Input) {
    && row.idempotencyKey.Some? && e.idempotencyKey.Some?
    && match dialect
       case PostgreSql(_) => row.idempotencyKey == e.idempotencyKey && row.status != Succeeded
       case MySql(_, canon) => canon(row.idempotencyKey.value) == canon(e.idempotencyKey.value)
  }

  lemma ConflictsHoldTheKey(dialect: Dialect, rows: Rows, e: Input)
    ensures (exists id :: id in rows && HoldsKeyOf(dialect, rows[id], e))
      <==> e.idempotencyKey.Some? && dialect.Conflicts(rows, e.idempotencyKey.value) != {}
    ensures e.idempotencyKey.Some? ==> forall id :: id in dialect.Conflicts(rows, e.idempotencyKey.value) ==>
      id in rows && HoldsKeyOf(dialect, rows[id], e)
  {
    if id :| id in rows && HoldsKeyOf(dialect, rows[id], e) {
      assert id in dialect.Conflicts(rows, e.idempotencyKey.value);
    }
  }

  /** Two events of the batch are given the same key. */
  ghost predicate RepeatsKey(events: seq<Input>) {
    exists i, j :: 0 <= i < j < |events|
      && events[i].idempotencyKey.Some? && events[i].idempotencyKey != Some("")
      && events[i].idempotencyKey == events[j].idempotencyKey
  }

  lemma {:induction false} KeysAreGivenByEvents(events: seq<Input>, key: string)
    ensures key in KeysGiven(events)
      <==> key != "" && exists i :: 0 <= i < |events| && events[i].idempotencyKey == Some(key)
  {
    if events != [] {
      var n := |events| - 1;
      KeysAreGivenByEvents(events[..n], key);
      if i :| 0 <= i < |events| && events[i].idempotencyKey == Some(key) {
        assert i < n ==> events[..n][i] == events[i];
      }
    }
  }

  lemma {:induction false} DistinctExactlyIfNoKeyRepeats(events: seq<Input>)
    ensures Distinct(KeysGiven(events)) <==> !RepeatsKey(events)
  {
    if events != [] {
      var n := |events| - 1;
      DistinctExactlyIfNoKeyRepeats(events[..n]);
      assert RepeatsKey(events[..n]) ==> RepeatsKey(events) by {
        assert forall i :: 0 <= i < n ==> events[..n][i] == events[i];
      }
      if Given(events[n].idempotencyKey) {
        LastKeyRepeats(events);
      } else {
        assert KeysGiven(events) == KeysGiven(events[..n]);
        assert RepeatsKey(events) ==> RepeatsKey(events[..n]) by {
          assert forall i :: 0 <= i < n ==> events[..n][i] == events[i];
        }
      }
    }
  }

  lemma LastKeyRepeats(events: seq<Input>)
    requires events != [] && Given(events[|events| - 1].idempotencyKey)
    requires Distinct(KeysGiven(events[..|events| - 1])) <==> !RepeatsKey(events[..|events| - 1])
    ensures Distinct(KeysGiven(events)) <==> !RepeatsKey(events)
  {
    var n := |events| - 1;
    var keys, key := KeysGiven(events[..n]), events[n].idempotencyKey.value;
    KeysAreGivenByEvents(events[..n], key);
    assert forall i :: 0 <= i < n ==> events[..n][i] == events[i];
    assert KeysGiven(events) == keys + [key];
    assert Distinct(keys + [key]) <==> Distinct(keys) && key !in keys by {
      assert forall i :: 0 <= i < |keys| ==> (keys + [key])[i] == keys[i];
      assert (keys + [key])[|keys|] == key;
    }
  }

  /** The batch is valid exactly if each event is acceptable and no key repeats. */
  lemma AcceptableBatch(defaults: Defaults, events: seq<Input>)
    ensures AllResolve(defaults, events) && Distinct(KeysGiven(events))
      <==> (forall i :: 0 <= i < |events| ==> Acceptable(defaults, events[i])) && !RepeatsKey(events)
  {
    DistinctExactlyIfNoKeyRepeats(events);
    forall i | 0 <= i < |events|
      ensures Resolve(defaults, events[i]).Done? <==> Acceptable(defaults, events[i])
    {
      ResolvesIfAcceptable(defaults, events[i]);
    }
    assert forall e :: e in events ==> exists i :: 0 <= i < |events| && events[i] == e;
  }

  lemma RowsOfInputs(defaults: Defaults, events: seq<Input>, rows: Rows, ids: seq<EventId>, now: Millis)
    requires AllResolve(defaults, events) && |ids| == |events|
    requires InsertedSoFar(rows, Resolved(defaults, events), ids, now, |ids|)
    ensures forall i :: 0 <= i < |events| ==> ids[i] in rows && IsRowOf(defaults, events[i], now, rows[ids[i]])
  {
    forall i | 0 <= i < |events|
      ensures ids[i] in rows && IsRowOf(defaults, events[i], now, rows[ids[i]])
    {
      ResolvesIfAcceptable(defaults, events[i]);
      assert events[i] in events;
      assert IsEventRow(rows, ids[i], Resolved(defaults, events)[i], now);
    }
  }

  class OutboxyClient {
    const dialect: Dialect
    const defaults: Defaults

    constructor (dialect: Dialect, defaults: Defaults)
      ensures this.dialect == dialect && this.defaults == defaults
    {
      this.dialect := dialect;
      this.defaults := defaults;
    }

    /** If a row holds the key the table stays as it is, and PostgreSQL returns that row's id, MySQL the id of no row;
        otherwise the event has its row under the new id, and no other row changes. */
    ghost predicate PublishedOrHeld(found: Rows, event: Input, newId: EventId, now: Millis, after: Rows, id: EventId) {
      if exists holder :: holder in found && HoldsKeyOf(dialect, found[holder], event) then
        && after == found
        && if dialect.PostgreSql? then id in found && HoldsKeyOf(dialect, found[id], event)
           else id == newId && newId !in found
      else
        && id == newId && after.Keys == found.Keys + {newId} && IsRowOf(defaults, event, now, after[newId])
        && forall other :: other in found ==> other != newId && after[other] == found[other]
    }

    /** On PostgreSQL a second publish under a held key returns the holder's id and changes
        nothing. On MySQL it also changes nothing, but the id returned is that of no row. */
    method Publish(event: Input, executor: Executor, newId: EventId, now: Millis) returns (r: Outcome<EventId>)
      requires executor.dialect == dialect && dialect.Allows(executor.Found())
      requires newId !in executor.rows && Harmless(executor.others, [newId])
      modifies executor
      ensures r.Invalid? <==> !Acceptable(defaults, event)
      ensures r.Invalid? <==> Resolve(defaults, event).Invalid?
      ensures r.Invalid? ==> FailsWith(defaults, event, r.problem) && executor.rows == old(executor.rows)
      ensures !r.Rejected?
      ensures r.Done? ==> PublishedOrHeld(old(executor.Found()), event, newId, now, executor.rows, r.value)
      ensures r.Done? ==> executor.bound == old(executor.bound) + [if dialect.PostgreSql? then 12 else 13]
      ensures r.Done? && dialect.PostgreSql? ==> var e := Resolve(defaults, event).value;
        Publishes(old(executor.Found()), Insert(newId, e.data, e.key, e.maxRetries), now, executor.rows, r.value)
      ensures r.Done? && dialect.MySql? ==> var e, found := Resolve(defaults, event).value, old(executor.Found());
        && r.value == newId
        && (newId !in executor.rows <==> e.key.Some? && dialect.Conflicts(found, e.key.value) != {})
        && executor.rows == (if newId in executor.rows
             then found[newId := FreshRow(e.data, e.key, e.maxRetries, now)]
             else found)
    {
      ResolvesIfAcceptable(defaults, event);
      var resolved := Resolve(defaults, event);
      if resolved.Invalid? {
        return Invalid(resolved.problem);
      }
      ConflictsHoldTheKey(dialect, executor.Found(), event);
      assert Drifted(executor.rows, [newId], executor.Found());
      assert newId in [newId];
      var returned := executor.Upsert(resolved.value, newId, now);
      r := Done(if dialect.PostgreSql? then returned.value else newId);
    }

    function ChunkSize(): nat {
      dialect.maxParameters / dialect.Columns()
    }

    /** Validates every event and that no key occurs twice, then inserts in bulk: chunk after chunk
        from the table that each INSERT finds, until one is refused. If none is, result i is the id
        of event i's row. Without interference it succeeds exactly if the whole batch fits under the
        index, and otherwise whole leading chunks have been inserted and nothing else: at least one, exactly if
        the first of them fits. */
    method PublishBatch(events: seq<Input>, executor: Executor, ids: seq<EventId>, now: Millis)
      returns (r: Outcome<seq<EventId>>)
      requires executor.dialect == dialect && |events| == |ids| && Unused(executor.rows, ids)
      requires Harmless(executor.others, ids)
      requires dialect.maxParameters >= dialect.Columns() && dialect.Allows(executor.rows)
      modifies executor
      ensures r.Invalid? <==> (exists i :: 0 <= i < |events| && !Acceptable(defaults, events[i])) || RepeatsKey(events)
      ensures r.Invalid? <==> !AllResolve(defaults, events) || !Distinct(KeysGiven(events))
      ensures r.Invalid? ==> executor.rows == old(executor.rows)
      ensures r.Invalid? && r.problem != DuplicateKeys ==>
        exists i :: 0 <= i < |events| && FailsWith(defaults, events[i], r.problem)
      ensures r.Done? ==> |r.value| == |events| && forall i :: 0 <= i < |events| ==>
        r.value[i] in executor.rows && IsRowOf(defaults, events[i], now, executor.rows[r.value[i]])
      ensures !r.Invalid? ==>
        var n, rows, resolved := |old(executor.bound)|, old(executor.rows), Resolved(defaults, events);
        (r.Done?, executor.rows) == InsertedUnder(dialect, executor.others, n, rows, resolved, ids, now, ChunkSize())
      ensures r.Done? ==> r.value == ids && InsertedSoFar(executor.rows, Resolved(defaults, events), ids, now, |ids|)
      ensures !r.Invalid? && Quiet(executor.others) ==>
        var rows, resolved := old(executor.rows), Resolved(defaults, events);
        && (r.Done? <==> dialect.Allows(Inserted(rows, resolved, ids, now)))
        && (r.Done? ==> executor.rows == Inserted(rows, resolved, ids, now))
        && (r.Rejected? ==> WholeChunksOnly(rows, resolved, ids, now, ChunkSize(), executor.rows))
        && (r.Rejected? ==>
              (executor.rows != rows <==> FirstChunkFits(dialect, rows, resolved, ids, now, ChunkSize())))
      ensures WithinLimit(executor.bound, |old(executor.bound)|, dialect.maxParameters)
      ensures var columns := if dialect.PostgreSql? then 12 else 13;
        !r.Invalid? && 0 < |events| <= dialect.maxParameters / columns ==>
          executor.bound == old(executor.bound) + [|events| * columns]
    {
      if events == [] {
        return Done([]);
      }
      var problem := Validate(events);
      AcceptableBatch(defaults, events);
      if problem.Some? {
        return Invalid(problem.value);
      }
      var resolved := Resolved(defaults, events);
      if Quiet(executor.others) {
        QuietChunks(dialect, executor.others, |executor.bound|, executor.rows, resolved, ids, now, ChunkSize());
        LeftOverExactlyIfFirstChunkFits(dialect, executor.others, |executor.bound|, executor.rows, resolved, ids, now,
                                        ChunkSize());
      }
      var returned := BulkInsert(resolved, executor, ids, now);
      r := if returned.Some? then Done(returned.value) else Rejected;
      if r.Done? {
        RowsOfInputs(defaults, events, executor.rows, ids, now);
      }
    }

    /** Every event by itself, then the keys of the batch against each other. */
    method Validate(events: seq<Input>) returns (problem: Option<Problem>)
      ensures problem.None? <==> AllResolve(defaults, events) && Distinct(KeysGiven(events))
      ensures problem.Some? && problem.value != DuplicateKeys ==>
        exists i :: 0 <= i < |events| && FailsWith(defaults, events[i], problem.value)
    {
      var keys: seq<string> := [];
      for i := 0 to |events|
        invariant AllResolve(defaults, events[..i]) && keys == KeysGiven(events[..i])
      {
        assert events[..i + 1] == events[..i] + [events[i]];
        var resolved := Resolve(defaults, events[i]);
        if resolved.Invalid? {
          assert events[i] in events;
          ResolvesIfAcceptable(defaults, events[i]);
          return Some(resolved.problem);
        }
        assert events[..i + 1][..i] == events[..i];
        if Given(events[i].idempotencyKey) {
          keys := keys + [events[i].idempotencyKey.value];
        }
      }
      assert events[..|events|] == events;
      var uniqueKeys := set k | k in keys;
      DistinctByCount(keys);
      problem := if |keys| != |uniqueKeys| then Some(DuplicateKeys) else None;
    }

    /** One INSERT, or one per chunk. */
    method BulkInsert(events: seq<NewEvent>, executor: Executor, ids: seq<EventId>, now: Millis)
      returns (r: Option<seq<EventId>>)
      requires executor.dialect == dialect && |events| == |ids| && events != [] && Unused(executor.rows, ids)
      requires Harmless(executor.others, ids) && dialect.maxParameters >= dialect.Columns()
      modifies executor
      ensures (r.Some?, executor.rows) == InsertedUnder(dialect, executor.others, |old(executor.bound)|,
                                                        old(executor.rows), events, ids, now, ChunkSize())
      ensures r.Some? ==> r.value == ids && InsertedSoFar(executor.rows, events, ids, now, |ids|)
      ensures old(executor.bound) <= executor.bound
      ensures |events| <= ChunkSize() ==>
        executor.bound == old(executor.bound) + [|events| * dialect.Columns()]
      ensures WithinLimit(executor.bound, |old(executor.bound)|, dialect.maxParameters)
      decreases |events|, 2
    {
      if |events| > ChunkSize() {
        r := InsertChunks(events, executor, ids, now);
      } else {
        InsertedAtOnce(dialect, executor.others, |executor.bound|, executor.rows, events, ids, now, ChunkSize());
        ChunkKeepsRows(dialect, executor.others, |executor.bound|, executor.rows, events, ids, now, 0, |ids|);
        assert events[0..|ids|] == events && ids[0..|ids|] == ids;
        r := executor.BulkInsert(events, ids, now);
      }
    }

    /** The chunks of a large batch, one after the other. */
    method InsertChunks(events: seq<NewEvent>, executor: Executor, ids: seq<EventId>, now: Millis)
      returns (r: Option<seq<EventId>>)
      requires executor.dialect == dialect && |events| == |ids| && Unused(executor.rows, ids)
      requires Harmless(executor.others, ids)
      requires dialect.maxParameters >= dialect.Columns() && |events| > ChunkSize()
      modifies executor
      ensures (r.Some?, executor.rows) == InsertedUnder(dialect, executor.others, |old(executor.bound)|,
                                                        old(executor.rows), events, ids, now, ChunkSize())
      ensures r.Some? ==> r.value == ids && InsertedSoFar(executor.rows, events, ids, now, |ids|)
      ensures old(executor.bound) <= executor.bound
      ensures WithinLimit(executor.bound, |old(executor.bound)|, dialect.maxParameters)
      decreases |events|, 1
    {
      var maxEventsPerBatch := ChunkSize();
      var results: seq<EventId> := [];
      var i := 0;
      ghost var whole := Remaining(executor.others, |executor.bound|, executor.rows, events, ids, now, i);
      assert events[0..] == events && ids[0..] == ids;
      while i < |events|
        invariant 0 <= i <= |events| && results == ids[..i]
        invariant whole == Remaining(executor.others, |executor.bound|, executor.rows, events, ids, now, i)
        invariant InsertedSoFar(executor.rows, events, ids, now, i)
        invariant old(executor.bound) <= executor.bound
        invariant WithinLimit(executor.bound, |old(executor.bound)|, dialect.maxParameters)
      {
        var end := if i + maxEventsPerBatch < |events| then i + maxEventsPerBatch else |events|;
        var chunkIds := InsertNext(events, executor, ids, now, i, end);
        if chunkIds.None? {
          return None;
        }
        results := results + chunkIds.value;
        i := end;
      }
      assert ids[..i] == ids;
      r := Some(results);
    }

    /** One chunk of a large batch. */
    method InsertNext(events: seq<NewEvent>, executor: Executor, ids: seq<EventId>, now: Millis, i: nat, end: nat)
      returns (r: Option<seq<EventId>>)
      requires executor.dialect == dialect && |events| == |ids| && Distinct(ids) && i < |events|
      requires Harmless(executor.others, ids) && dialect.maxParameters >= dialect.Columns()
      requires 0 < ChunkSize() < |events| && end == if i + ChunkSize() < |events| then i + ChunkSize() else |events|
      requires InsertedSoFar(executor.rows, events, ids, now, i)
      modifies executor
      ensures var whole := Remaining(executor.others, |old(executor.bound)|, old(executor.rows), events, ids, now, i);
        if r.Some? then whole == Remaining(executor.others, |executor.bound|, executor.rows, events, ids, now, end)
        else whole == (false, executor.rows)
      ensures r.Some? ==> r.value == ids[i..end] && InsertedSoFar(executor.rows, events, ids, now, end)
      ensures old(executor.bound) <= executor.bound
      ensures WithinLimit(executor.bound, |old(executor.bound)|, dialect.maxParameters)
      decreases |events|, 0
    {
      ghost var n, rows := |executor.bound|, executor.rows;
      PartIsReady(dialect, executor.others, rows, events, ids, now, i, end);
      r := BulkInsert(events[i..end], executor, ids[i..end], now);
      ChunkDone(dialect, executor.others, n, rows, events, ids, now, ChunkSize(), i, end, r.Some?, executor.rows);
    }

    /** What the chunks from event i on do. */
    ghost function Remaining(others: Others, n: nat, rows: Rows, events: seq<NewEvent>, ids: seq<EventId>,
                             now: Millis, i: nat)
      : (bool, Rows)
      requires |events| == |ids| && i <= |ids| && ChunkSize() > 0
    {
      InsertedUnder(dialect, others, n, rows, events[i..], ids[i..], now, ChunkSize())
    }
  }

  /** A list of no more than one chunk: one INSERT. */
  lemma InsertedAtOnce(dialect: Dialect, others: Others, n: nat, rows: Rows, events: seq<NewEvent>, ids: seq<EventId>,
                       now: Millis, chunk: nat)
    requires |events| == |ids| && 0 < |events| <= chunk
    ensures var found := others(n, rows);
      var next := Inserted(found, events, ids, now);
      InsertedUnder(dialect, others, n, rows, events, ids, now, chunk)
        == if dialect.Allows(next) then (true, next) else (false, found)
  {
    assert events[..|events|] == events && ids[..|ids|] == ids;
  }

  /** The chunk from i to end, then the others. */
  lemma NextChunk(dialect: Dialect, others: Others, n: nat, rows: Rows, events: seq<NewEvent>, ids: seq<EventId>,
                  now: Millis, chunk: nat, i: nat, end: nat)
    requires |events| == |ids| && i < |events| && chunk > 0
    requires end == if i + chunk < |events| then i + chunk else |events|
    ensures var found := others(n, rows);
      var next := Inserted(found, events[i..end], ids[i..end], now);
      InsertedUnder(dialect, others, n, rows, events[i..], ids[i..], now, chunk)
        == if dialect.Allows(next)
           then InsertedUnder(dialect, others, n + 1, next, events[end..], ids[end..], now, chunk)
           else (false, found)
  {
    SlicesOfSlice(events, i, end);
    SlicesOfSlice(ids, i, end);
  }

  /** What inserting the chunk from i to end means for the whole batch. */
  lemma ChunkDone(dialect: Dialect, others: Others, n: nat, rows: Rows, events: seq<NewEvent>, ids: seq<EventId>,
                  now: Millis, chunk: nat, i: nat, end: nat, ok: bool, after: Rows)
    requires |events| == |ids| && Distinct(ids) && i < |events| && chunk > 0 && Harmless(others, ids)
    requires end == if i + chunk < |events| then i + chunk else |events|
    requires InsertedSoFar(rows, events, ids, now, i)
    requires (ok, after) == InsertedUnder(dialect, others, n, rows, events[i..end], ids[i..end], now, chunk)
    ensures InsertedUnder(dialect, others, n, rows, events[i..], ids[i..], now, chunk)
      == if ok then InsertedUnder(dialect, others, n + 1, after, events[end..], ids[end..], now, chunk)
         else (false, after)
    ensures ok ==> InsertedSoFar(after, events, ids, now, end)
  {
    InsertedAtOnce(dialect, others, n, rows, events[i..end], ids[i..end], now, chunk);
    NextChunk(dialect, others, n, rows, events, ids, now, chunk, i, end);
    ChunkKeepsRows(dialect, others, n, rows, events, ids, now, i, end);
  }

  lemma PartIsReady(dialect: Dialect, others: Others, rows: Rows, events: seq<NewEvent>, ids: seq<EventId>, now: Millis,
                    i: nat, end: nat)
    requires |events| == |ids| && Distinct(ids) && i <= end <= |ids| && Harmless(others, ids)
    requires InsertedSoFar(rows, events, ids, now, i)
    ensures Unused(rows, ids[i..end]) && Harmless(others, ids[i..end])
  {
    assert forall j :: 0 <= j < end - i ==> ids[i..end][j] == ids[i + j];
    forall n, t
      ensures Drifted(t, ids[i..end], others(n, t))
    {
      assert Drifted(t, ids, others(n, t));
    }
  }

  /** The length of k whole chunks. */
  function Chunks(k: nat, chunk: nat): (length: nat)
    ensures k > 0 ==> length >= chunk
  {
    if k == 0 then 0 else Chunks(k - 1, chunk) + chunk
  }

  /** The first few chunks have been inserted, and not all of them. */
  ghost predicate WholeChunksOnly(before: Rows, events: seq<NewEvent>, ids: seq<EventId>, now: Millis, chunk: nat,
                                  after: Rows)
    requires |events| == |ids|
  {
    exists k: nat :: Chunks(k, chunk) < |events| && after
      == Inserted(before, events[..Chunks(k, chunk)], ids[..Chunks(k, chunk)], now)
  }

  predicate AllResolve(defaults: Defaults, events: seq<Input>) {
    forall e | e in events :: Resolve(defaults, e).Done?
  }

  function Resolved(defaults: Defaults, events: seq<Input>): (r: seq<NewEvent>)
    ensures AllResolve(defaults, events) ==> |r| == |events| && forall i :: 0 <= i < |r| ==>
      r[i] == Resolve(defaults, events[i]).value
  {
    if !AllResolve(defaults, events) then []
    else seq(|events|, i requires 0 <= i < |events| => Resolve(defaults, events[i]).value)
  }

  /** The keys of the batch, in order. */
  ghost function KeysGiven(events: seq<Input>): seq<string> {
    if events == [] then [] else
      var n := |events| - 1;
      KeysGiven(events[..n]) + (if Given(events[n].idempotencyKey) then [events[n].idempotencyKey.value] else [])
  }

  // A refused batch that leaves rows behind.

  const NO_KEY := Input("", "", "", None, None, None, None, None)
  const HELD_KEY := NO_KEY.(idempotencyKey := Some("k"))

  /** Event 0 holds the key "k" and is still pending. */
  function HeldTable(now: Millis): Rows {
    map[0 := FreshRow(EventData("", "", "", ""), Some("k"), 0, now)]
  }

  /** One chunk of events without keys, and an event under the held key. */
  function OneChunkAndHeldKey(chunk: nat): (events: seq<Input>)
    ensures |events| == chunk + 1 && events[chunk] == HELD_KEY
    ensures forall i :: 0 <= i < chunk ==> events[i] == NO_KEY
  {
    seq(chunk, _ => NO_KEY) + [HELD_KEY]
  }

  function IdsFromOne(count: nat): (ids: seq<EventId>)
    ensures |ids| == count && forall i :: 0 <= i < count ==> ids[i] == i + 1
  {
    seq(count, i => i + 1)
  }

  lemma {:induction false} NoKeysGiven(events: seq<Input>)
    requires forall i :: 0 <= i < |events| ==> events[i] == NO_KEY
    ensures KeysGiven(events) == []
  {
    if events != [] {
      NoKeysGiven(events[..|events| - 1]);
    }
  }

  /** The resolved batch: one key only, that of the last event. */
  ghost predicate KeyOnlyAt(events: seq<NewEvent>, last: nat) {
    && |events| == last + 1 && events[last].key == Some("k")
    && forall i :: 0 <= i < last ==> events[i].key == None
  }

  /** The batch passes validation. */
  lemma HeldKeyBatchIsValid(defaults: Defaults, chunk: nat)
    requires Given(defaults.destinationUrl) && defaults.destinationType in DESTINATION_TYPES
    ensures var events := OneChunkAndHeldKey(chunk);
      && AllResolve(defaults, events) && Distinct(KeysGiven(events))
      && KeyOnlyAt(Resolved(defaults, events), chunk)
  {
    var events := OneChunkAndHeldKey(chunk);
    NoKeysGiven(events[..chunk]);
    assert KeysGiven(events) == KeysGiven(events[..chunk]) + ["k"];
    assert Resolve(defaults, HELD_KEY).Done? && Resolve(defaults, NO_KEY).Done?;
    assert forall e :: e in events ==> e == NO_KEY || e == HELD_KEY;
  }

  /** Its parts fit under the index until they reach the last event. */
  lemma PartFitsExactlyIfShort(dialect: Dialect, events: seq<NewEvent>, now: Millis, last: nat, n: nat)
    requires KeyOnlyAt(events, last) && n <= |events|
    ensures dialect.Allows(Inserted(HeldTable(now), events[..n], IdsFromOne(|events|)[..n], now)) <==> n <= last
  {
    var part, ids := events[..n], IdsFromOne(|events|)[..n];
    var after := Inserted(HeldTable(now), part, ids, now);
    InsertedRows(HeldTable(now), part, ids, now);
    if n <= last {
      forall id | id in after && id != 0
        ensures after[id].idempotencyKey == None
      {
        var i :| 0 <= i < n && ids[i] == id;
        assert after[ids[i]].idempotencyKey == part[i].key;
      }
    } else {
      assert after[0].idempotencyKey == Some("k") && after[0].status == Pending;
      assert after[ids[last]].idempotencyKey == Some("k") && after[ids[last]].status == Pending;
      assert dialect.MySql? ==> SameKey(dialect.canon, after[0].idempotencyKey, after[ids[last]].idempotencyKey);
    }
  }

  /** In every dialect and every chunk size: a chunk of events without keys and an event whose key is held. The
      batch is refused, and the rows of its first chunk stay. */
  lemma {:induction false} RefusedBatchLeavesRows(dialect: Dialect, defaults: Defaults, others: Others, n: nat,
                                                  now: Millis, chunk: nat)
    requires chunk > 0 && Quiet(others)
    requires Given(defaults.destinationUrl) && defaults.destinationType in DESTINATION_TYPES
    ensures var rows, events, ids := HeldTable(now), OneChunkAndHeldKey(chunk), IdsFromOne(chunk + 1);
      && Unused(rows, ids) && dialect.Allows(rows)
      && AllResolve(defaults, events) && Distinct(KeysGiven(events))
      && var (ok, after) := InsertedUnder(dialect, others, n, rows, Resolved(defaults, events), ids, now, chunk);
         !ok && after != rows
  {
    var rows, ids := HeldTable(now), IdsFromOne(chunk + 1);
    HeldKeyBatchIsValid(defaults, chunk);
    var events := Resolved(defaults, OneChunkAndHeldKey(chunk));
    PartFitsExactlyIfShort(dialect, events, now, chunk, 0);
    PartFitsExactlyIfShort(dialect, events, now, chunk, chunk);
    PartFitsExactlyIfShort(dialect, events, now, chunk, chunk + 1);
    assert events[..chunk + 1] == events && ids[..chunk + 1] == ids;
    QuietChunks(dialect, others, n, rows, events, ids, now, chunk);
    LeftOverExactlyIfFirstChunkFits(dialect, others, n, rows, events, ids, now, chunk);
  }
}
