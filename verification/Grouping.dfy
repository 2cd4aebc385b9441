/** Grouping a batch of events by destination or topic: the lists that the publishers'
    loops build, and why nothing is lost, repeated or reordered. */
module Grouping {
  import opened Common
  import opened OutboxTable
  import opened PgEventRepository
  import opened Retry

  /** The events with the given group key, in their order. */
  ghost function Members<K>(events: seq<Event>, keyOf: Event -> K, key: K): seq<Event> {
    if events == [] then [] else
      var n := |events| - 1;
      Members(events[..n], keyOf, key) + (if keyOf(events[n]) == key then [events[n]] else [])
  }

  ghost predicate Grouped(events: seq<Event>, keyOf: Event -> string, groups: map<string, seq<Event>>) {
    && (forall e :: e in events ==> keyOf(e) in groups)
    && (forall key :: key in groups ==> groups[key] != [] && groups[key] == Members(events, keyOf, key))
  }

  lemma GroupOneMore(events: seq<Event>, keyOf: Event -> string, groups: map<string, seq<Event>>, i: nat)
    requires i < |events| && Grouped(events[..i], keyOf, groups)
    ensures var key := keyOf(events[i]);
      Grouped(events[..i + 1], keyOf, groups[key := (if key in groups then groups[key] else []) + [events[i]]])
  {
    assert events[..i + 1][..i] == events[..i];
    if keyOf(events[i]) !in groups {
      NoMembers(events[..i], keyOf, keyOf(events[i]));
    }
  }

  lemma {:induction false} NoMembers<K>(events: seq<Event>, keyOf: Event -> K, key: K)
    requires forall e :: e in events ==> keyOf(e) != key
    ensures Members(events, keyOf, key) == []
  {
    if events != [] {
      NoMembers(events[..|events| - 1], keyOf, key);
    }
  }

  /** An event occurs in its own group as often as in the batch, and in no other group. */
  lemma {:induction false} GroupsAreLossless<K>(events: seq<Event>, keyOf: Event -> K, key: K, e: Event)
    ensures multiset(Members(events, keyOf, key))[e] == if keyOf(e) == key then multiset(events)[e] else 0
  {
    if events != [] {
      var n := |events| - 1;
      GroupsAreLossless(events[..n], keyOf, key, e);
      assert events == events[..n] + [events[n]];
    }
  }

  lemma MembersBelong<K>(events: seq<Event>, keyOf: Event -> K, key: K, e: Event)
    ensures e in Members(events, keyOf, key) <==> e in events && keyOf(e) == key
  {
  }

  /** Grouping by one key and then by another keeps the batch's order within both. */
  lemma {:induction false} OrderIsKept<K, L>(events: seq<Event>, keyOf: Event -> K, key: K, innerOf: Event -> L,
                                             inner: L,
                                             both: Event -> (K, L))
    requires forall e :: both(e) == (keyOf(e), innerOf(e))
    ensures Members(Members(events, keyOf, key), innerOf, inner) == Members(events, both, (key, inner))
  {
    if events != [] {
      var n := |events| - 1;
      var group := Members(events[..n], keyOf, key);
      OrderIsKept(events[..n], keyOf, key, innerOf, inner, both);
      if keyOf(events[n]) == key {
        assert (group + [events[n]])[..|group|] == group;
      } else {
        assert Members(events, keyOf, key) == group;
      }
    }
  }

  ghost function TotalSize(events: seq<Event>, keyOf: Event -> string, keys: seq<string>): nat {
    if keys == [] then 0 else |Members(events, keyOf, keys[0])| + TotalSize(events, keyOf, keys[1..])
  }

  lemma {:induction false} OneMoreEvent(events: seq<Event>, keyOf: Event -> string, keys: seq<string>)
    requires events != [] && Distinct(keys)
    ensures TotalSize(events, keyOf, keys) ==
      TotalSize(events[..|events| - 1], keyOf, keys) + (if keyOf(events[|events| - 1]) in keys then 1 else 0)
    decreases |keys|
  {
    if keys != [] {
      assert forall i :: 0 < i < |keys| ==> keys[i] == keys[1..][i - 1];
      assert keys == [keys[0]] + keys[1..];
      OneMoreEvent(events, keyOf, keys[1..]);
    }
  }

  lemma {:induction false} NoEventNoSize(keyOf: Event -> string, keys: seq<string>)
    ensures TotalSize([], keyOf, keys) == 0
  {
    if keys != [] {
      NoEventNoSize(keyOf, keys[1..]);
    }
  }

  /** The sizes of the groups add up to the size of the batch. */
  lemma {:induction false} SizesAddUp(events: seq<Event>, keyOf: Event -> string, keys: seq<string>)
    requires Distinct(keys) && forall e :: e in events ==> keyOf(e) in keys
    ensures TotalSize(events, keyOf, keys) == |events|
    decreases |events|
  {
    if events == [] {
      NoEventNoSize(keyOf, keys);
    } else {
      OneMoreEvent(events, keyOf, keys);
      SizesAddUp(events[..|events| - 1], keyOf, keys);
    }
  }

  ghost function IdSet(events: seq<Event>): set<EventId> {
    set e | e in events :: e.id
  }

  /** Two events of a batch with the same id are the same event. */
  lemma SameIdSameEvent(events: seq<Event>, d: Event, e: Event)
    requires Distinct(EventIds(events)) && d in events && e in events && d.id == e.id
    ensures d == e
  {
    var i :| 0 <= i < |events| && events[i] == d;
    var j :| 0 <= j < |events| && events[j] == e;
    assert EventIds(events)[i] == EventIds(events)[j];
  }

  /** Every event of the batch has a result, the one expected for it, and no other id has one. */
  ghost predicate Reported(events: seq<Event>, expected: Event -> PublishResult, results: map<EventId, PublishResult>) {
    results.Keys == IdSet(events) && forall e :: e in events ==> results[e.id] == expected(e)
  }

  /** The results once the groups in `done` have completed. */
  ghost predicate Collected(events: seq<Event>, keyOf: Event -> string, expected: Event -> PublishResult,
                            done: set<string>, results: map<EventId, PublishResult>) {
    && (forall id :: id in results ==> exists e :: e in events && e.id == id && keyOf(e) in done)
    && (forall e :: e in events && keyOf(e) in done ==> e.id in results && results[e.id] == expected(e))
  }

  /** One more group completes: it sets the results of its own events and no others. */
  lemma {:induction false} CollectGroup(events: seq<Event>, keyOf: Event -> string, expected: Event -> PublishResult,
                     done: set<string>, before: map<EventId, PublishResult>, key: string, after: map<EventId,
                     PublishResult>)
    requires Distinct(EventIds(events)) && Collected(events, keyOf, expected, done, before)
    requires after.Keys == before.Keys + IdSet(Members(events, keyOf, key))
    requires forall e :: e in Members(events, keyOf, key) ==> after[e.id] == expected(e)
    requires forall id :: id in before && id !in IdSet(Members(events, keyOf, key)) ==> after[id] == before[id]
    ensures Collected(events, keyOf, expected, done + {key}, after)
  {
    var group := Members(events, keyOf, key);
    forall id | id in after
      ensures exists e :: e in events && e.id == id && keyOf(e) in done + {key}
    {
      if id in IdSet(group) {
        var e :| e in group && e.id == id;
        MembersBelong(events, keyOf, key, e);
      }
    }
    forall e | e in events && keyOf(e) in done + {key}
      ensures e.id in after && after[e.id] == expected(e)
    {
      MembersBelong(events, keyOf, key, e);
      if e !in group && e.id in IdSet(group) {
        var d :| d in group && d.id == e.id;
        MembersBelong(events, keyOf, key, d);
        SameIdSameEvent(events, d, e);
      }
    }
  }

  lemma AllCollected(events: seq<Event>, keyOf: Event -> string, expected: Event -> PublishResult,
                     groups: map<string, seq<Event>>, results: map<EventId, PublishResult>)
    requires Grouped(events, keyOf, groups) && Collected(events, keyOf, expected, groups.Keys, results)
    ensures Reported(events, expected, results)
  {
  }

  /** The keys of the batch, each once. */
  ghost predicate KeysOnce(events: seq<Event>, keyOf: Event -> string, keys: seq<string>) {
    Distinct(keys) && forall key :: key in keys <==> exists e :: e in events && keyOf(e) == key
  }

  lemma GroupKeysOnce(events: seq<Event>, keyOf: Event -> string, groups: map<string, seq<Event>>, keys: seq<string>)
    requires Grouped(events, keyOf, groups) && Distinct(keys) && Elements(keys) == groups.Keys
    ensures KeysOnce(events, keyOf, keys)
  {
    forall key
      ensures key in keys <==> exists e :: e in events && keyOf(e) == key
    {
      assert key in keys <==> key in groups.Keys;
      if key in groups {
        MembersBelong(events, keyOf, key, groups[key][0]);
      }
    }
  }

  /** The picked keys are the ones not remaining, each once. */
  ghost predicate Picked(keys: set<string>, remaining: set<string>, picked: seq<string>) {
    remaining <= keys && Distinct(picked) && Elements(picked) == keys - remaining
  }

  lemma PickNext(keys: set<string>, remaining: set<string>, picked: seq<string>, key: string)
    requires Picked(keys, remaining, picked) && key in remaining
    ensures Picked(keys, remaining - {key}, picked + [key])
    ensures keys - (remaining - {key}) == keys - remaining + {key}
  {
    assert key !in Elements(picked);
    assert Elements(picked + [key]) == Elements(picked) + {key};
  }
}
