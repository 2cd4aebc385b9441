/** The Kafka publisher: one send per topic, all in flight at once. */
module KafkaPublisher {
  import opened Common
  import opened OutboxTable
  import opened Retry
  import opened PgEventRepository
  import opened Grouping
  import Worker

  const SCHEME := "kafka://"

  function ExtractTopic(url: string): string {
    if SCHEME <= url then url[|SCHEME|..] else url
  }

  function TopicOf(e: Event): string {
    ExtractTopic(e.data.destinationUrl)
  }

  function AggregateOf(e: Event): string {
    e.data.aggregateId
  }

  /** Kafka sends messages with the same key to one partition, in order; null is spread around. */
  function PartitionKey(aggregateId: string): Option<string> {
    if aggregateId == "" then None else Some(aggregateId)
  }

  datatype Message = Message(key: Option<string>, event: Event)

  function ToMessages(events: seq<Event>): (messages: seq<Message>)
    ensures |messages| == |events|
    ensures forall i :: 0 <= i < |events| ==>
      messages[i] == Message(PartitionKey(events[i].data.aggregateId), events[i])
  {
    seq(|events|, i requires 0 <= i < |events| => Message(PartitionKey(AggregateOf(events[i])), events[i]))
  }

  datatype Batch = Batch(topic: string, messages: seq<Message>)

  datatype SendOutcome = Sent | SendFailed(message: string, retryable: bool)

  function ResultFor(outcome: SendOutcome): PublishResult {
    match outcome
    case Sent => PublishResult(true, None, false)
    case SendFailed(message, retryable) => PublishResult(false, Some(message), retryable)
  }

  ghost function BatchTo(events: seq<Event>, topic: string): Batch {
    Batch(topic, ToMessages(Members(events, TopicOf, topic)))
  }

  /** The events that a topic's messages with the given key carry, in order. */
  ghost function Keyed(messages: seq<Message>, key: Option<string>): seq<Event> {
    if messages == [] then [] else
      var n := |messages| - 1;
      Keyed(messages[..n], key) + (if messages[n].key == key then [messages[n].event] else [])
  }

  lemma {:induction false} KeyedIsByAggregate(events: seq<Event>, aggregateId: string)
    requires aggregateId != ""
    ensures Keyed(ToMessages(events), Some(aggregateId)) == Members(events, AggregateOf, aggregateId)
  {
    if events != [] {
      var n := |events| - 1;
      KeyedIsByAggregate(events[..n], aggregateId);
      assert ToMessages(events)[..n] == ToMessages(events[..n]);
    }
  }

  /** One partition key of one topic carries exactly that aggregate's events for that topic, in
      the order in which the worker claimed them. */
  lemma AggregateOrderIsKept(events: seq<Event>, topic: string, aggregateId: string)
    requires aggregateId != ""
    ensures Keyed(BatchTo(events, topic).messages, Some(aggregateId)) ==
      Members(events, (e: Event) => (TopicOf(e), AggregateOf(e)), (topic, aggregateId))
  {
    KeyedIsByAggregate(Members(events, TopicOf, topic), aggregateId);
    OrderIsKept(events, TopicOf, topic, AggregateOf, aggregateId, (e: Event) => (TopicOf(e), AggregateOf(e)));
  }

  class Producer {
    const answer: Batch -> SendOutcome
    var sent: seq<Batch>

    constructor (answer: Batch -> SendOutcome)
      ensures this.answer == answer && sent == []
    {
      this.answer := answer;
      sent := [];
    }

    method Send(batch: Batch) returns (outcome: SendOutcome)
      modifies this
      ensures outcome == answer(batch) && sent == old(sent) + [batch]
    {
      sent := sent + [batch];
      outcome := answer(batch);
    }
  }

  ghost function Topics(batches: seq<Batch>): seq<string> {
    seq(|batches|, i requires 0 <= i < |batches| => batches[i].topic)
  }

  /** Each topic of the batch gets one send, holding its events in order. */
  ghost predicate OnePerTopic(events: seq<Event>, batches: seq<Batch>) {
    && KeysOnce(events, TopicOf, Topics(batches))
    && forall i :: 0 <= i < |batches| ==> batches[i] == BatchTo(events, batches[i].topic)
  }

  ghost function TotalMessages(batches: seq<Batch>): nat {
    if batches == [] then 0 else |batches[0].messages| + TotalMessages(batches[1..])
  }

  lemma {:induction false} MessagesAreSizes(events: seq<Event>, batches: seq<Batch>)
    requires forall i :: 0 <= i < |batches| ==> batches[i] == BatchTo(events, batches[i].topic)
    ensures TotalMessages(batches) == TotalSize(events, TopicOf, Topics(batches))
  {
    if batches != [] {
      MessagesAreSizes(events, batches[1..]);
      assert Topics(batches)[1..] == Topics(batches[1..]);
    }
  }

  lemma MessagesCoverTheBatch(events: seq<Event>, batches: seq<Batch>)
    requires OnePerTopic(events, batches)
    ensures TotalMessages(batches) == |events|
  {
    MessagesAreSizes(events, batches);
    SizesAddUp(events, TopicOf, Topics(batches));
  }

  ghost function Expected(events: seq<Event>, answer: Batch -> SendOutcome): Event -> PublishResult {
    (e: Event) => ResultFor(answer(BatchTo(events, TopicOf(e))))
  }

  /** Every event has a result: what became of its own topic's send. */
  ghost predicate ResultsByTopic(events: seq<Event>, answer: Batch -> SendOutcome, results: map<EventId,
                                 PublishResult>) {
    Reported(events, Expected(events, answer), results)
  }

  /** A send that fails on one topic leaves every other topic's results as they were. */
  lemma TopicsAreIsolated(events: seq<Event>, before: Batch -> SendOutcome, after: Batch -> SendOutcome,
                          first: map<EventId, PublishResult>, second: map<EventId, PublishResult>, e: Event)
    requires ResultsByTopic(events, before, first) && ResultsByTopic(events, after, second)
    requires e in events
    requires forall b: Batch :: b.topic == TopicOf(e) ==> before(b) == after(b)
    ensures e.id in first && e.id in second && first[e.id] == second[e.id]
  {
    assert BatchTo(events, TopicOf(e)).topic == TopicOf(e);
    assert e.id in IdSet(events);
  }

  /** The URL names the topic: after the scheme, or all of it where there is no scheme. */
  ghost predicate NamesTopic(url: string, topic: string) {
    url == "kafka://" + topic || (url == topic && !("kafka://" <= url))
  }

  /** What became of a topic's send is the result of each of its events. */
  ghost predicate Means(outcome: SendOutcome, result: PublishResult) {
    match outcome
    case Sent => result.success && result.error == None && !result.retryable
    case SendFailed(message, retryable) =>
      !result.success && result.error == Some(message) && result.retryable == retryable
  }

  ghost predicate MeansByTopic(events: seq<Event>, answer: Batch -> SendOutcome, results: map<EventId, PublishResult>) {
    && results.Keys == IdSet(events)
    && forall e, topic :: e in events && NamesTopic(e.data.destinationUrl, topic) ==>
         Means(answer(BatchTo(events, topic)), results[e.id])
  }

  lemma ResultsMean(events: seq<Event>, answer: Batch -> SendOutcome, results: map<EventId, PublishResult>)
    requires ResultsByTopic(events, answer, results)
    ensures MeansByTopic(events, answer, results)
  {
    forall e, topic | e in events && NamesTopic(e.data.destinationUrl, topic)
      ensures Means(answer(BatchTo(events, topic)), results[e.id])
    {
      assert TopicOf(e) == topic;
      assert results[e.id] == ResultFor(answer(BatchTo(events, TopicOf(e))));
    }
  }

  /** With this publisher the worker takes an event as delivered exactly if its topic's send succeeded, retries it
      exactly if the send failed in a way to retry and retries are left, and otherwise gives it up. */
  lemma WorkerFollowsTheTopic(events: seq<Event>, answer: Batch -> SendOutcome, results: map<EventId, PublishResult>,
                              e: Event, topic: string, maxRetries: int)
    requires ResultsByTopic(events, answer, results) && e in events && NamesTopic(e.data.destinationUrl, topic)
    ensures var outcome := answer(BatchTo(events, topic));
      Worker.EventDecision(e, Worker.Returned(results), maxRetries)
        == if outcome.Sent? then Succeed
           else if outcome.retryable && e.retryCount < maxRetries then Reschedule
           else GiveUp
  {
    ResultsMean(events, answer, results);
    assert e.id in IdSet(events);
  }

  ghost predicate MessageOf(events: seq<Event>, topic: string, m: Message) {
    && m.event in events && NamesTopic(m.event.data.destinationUrl, topic)
    && m.key == if m.event.data.aggregateId == "" then None else Some(m.event.data.aggregateId)
  }

  /** Every event goes to the topic that its own URL names, under its aggregate's key. */
  ghost predicate SentToOwnTopic(events: seq<Event>, batches: seq<Batch>) {
    && (forall i, m :: 0 <= i < |batches| && m in batches[i].messages ==> MessageOf(events, batches[i].topic, m))
    && (forall e :: e in events ==>
          exists i, m :: 0 <= i < |batches| && m in batches[i].messages && m.event == e)
  }

  lemma OnePerTopicIsOwnTopic(events: seq<Event>, batches: seq<Batch>)
    requires OnePerTopic(events, batches)
    ensures SentToOwnTopic(events, batches)
  {
    forall i, m | 0 <= i < |batches| && m in batches[i].messages
      ensures MessageOf(events, batches[i].topic, m)
    {
      var group := Members(events, TopicOf, batches[i].topic);
      var j :| 0 <= j < |group| && ToMessages(group)[j] == m;
      MembersBelong(events, TopicOf, batches[i].topic, group[j]);
      UrlNamesTopic(m.event.data.destinationUrl);
    }
    forall e | e in events
      ensures exists i, m :: 0 <= i < |batches| && m in batches[i].messages && m.event == e
    {
      assert TopicOf(e) in Topics(batches);
      var i :| 0 <= i < |batches| && Topics(batches)[i] == TopicOf(e);
      var group := Members(events, TopicOf, batches[i].topic);
      MembersBelong(events, TopicOf, TopicOf(e), e);
      var j :| 0 <= j < |group| && group[j] == e;
      assert ToMessages(group)[j] in batches[i].messages && ToMessages(group)[j].event == e;
    }
  }

  lemma UrlNamesTopic(url: string)
    ensures NamesTopic(url, ExtractTopic(url))
  {
    if SCHEME <= url {
      assert url == SCHEME + url[|SCHEME|..];
    }
  }

  class KafkaPublisher {
    var producer: Producer?

    constructor ()
      ensures producer == null
    {
      producer := null;
    }

    method Initialize(answer: Batch -> SendOutcome)
      modifies this
      ensures producer != null && fresh(producer) && producer.answer == answer && producer.sent == []
    {
      producer := new Producer(answer);
    }

    method Shutdown()
      modifies this
      ensures producer == null
    {
      if producer != null {
        producer := null;
      }
    }

    method GroupByTopic(events: seq<Event>) returns (groups: map<string, seq<Event>>)
      ensures Grouped(events, TopicOf, groups)
    {
      groups := map[];
      for i := 0 to |events|
        invariant Grouped(events[..i], TopicOf, groups)
      {
        var event := events[i];
        var topic := TopicOf(event);
        var existing := if topic in groups then groups[topic] else [];
        GroupOneMore(events, TopicOf, groups, i);
        groups := groups[topic := existing + [event]];
      }
      assert events[..|events|] == events;
    }

    /** Writes one topic's result under the id of each of its events. */
    method SetAll(results: map<EventId, PublishResult>, events: seq<Event>, result: PublishResult)
      returns (more: map<EventId, PublishResult>)
      ensures more.Keys == results.Keys + IdSet(events)
      ensures forall id :: id in more ==> more[id] == if id in IdSet(events) then result else results[id]
    {
      more := results;
      for i := 0 to |events|
        invariant more.Keys == results.Keys + IdSet(events[..i])
        invariant forall id :: id in more ==> more[id] == if id in IdSet(events[..i]) then result else results[id]
      {
        assert events[..i + 1] == events[..i] + [events[i]];
        assert IdSet(events[..i + 1]) == IdSet(events[..i]) + {events[i].id};
        more := more[events[i].id := result];
      }
      assert events[..|events|] == events;
    }

    /** The concurrent task of one topic: it adds its results to the shared Map. */
    method CompleteTopic(topic: string, topicEvents: seq<Event>, producer: Producer, results: map<EventId,
                         PublishResult>,
                         ghost events: seq<Event>, ghost done: set<string>) returns (more: map<EventId, PublishResult>)
      requires Distinct(EventIds(events)) && topicEvents == Members(events, TopicOf, topic)
      requires Collected(events, TopicOf, Expected(events, producer.answer), done, results)
      modifies producer
      ensures producer.sent == old(producer.sent) + [BatchTo(events, topic)]
      ensures Collected(events, TopicOf, Expected(events, producer.answer), done + {topic}, more)
    {
      var sending := producer.Send(Batch(topic, ToMessages(topicEvents)));
      more := SetAll(results, topicEvents, ResultFor(sending));
      GroupReports(events, producer.answer, topic, more);
      CollectGroup(events, TopicOf, Expected(events, producer.answer), done, results, topic, more);
    }

    /** Completes every topic, in any order. */
    method CompleteAll(groups: map<string, seq<Event>>, producer: Producer, ghost events: seq<Event>)
      returns (results: map<EventId, PublishResult>, ghost topics: seq<string>)
      requires Distinct(EventIds(events)) && Grouped(events, TopicOf, groups)
      modifies producer
      ensures Distinct(topics) && Elements(topics) == groups.Keys
      ensures producer.sent == old(producer.sent) + BatchesTo(events, topics)
      ensures Collected(events, TopicOf, Expected(events, producer.answer), groups.Keys, results)
    {
      results, topics := map[], [];
      var remaining := groups.Keys;
      while remaining != {}
        invariant Picked(groups.Keys, remaining, topics)
        invariant producer.sent == old(producer.sent) + BatchesTo(events, topics)
        invariant Collected(events, TopicOf, Expected(events, producer.answer), groups.Keys - remaining, results)
      {
        var topic :| topic in remaining;
        results := CompleteTopic(topic, groups[topic], producer, results, events, groups.Keys - remaining);
        OneMoreBatch(events, topics, topic);
        PickNext(groups.Keys, remaining, topics, topic);
        topics := topics + [topic];
        remaining := remaining - {topic};
      }
      assert groups.Keys - remaining == groups.Keys;
    }

    /** Without a producer it throws; otherwise, whatever order the sends complete in, each event's
        result is that of its topic's send, and each topic is sent its events once, in order. */
    method Publish(events: seq<Event>) returns (outcome: Worker.PublishOutcome)
      requires Distinct(EventIds(events))
      modifies producer
      ensures outcome.Threw? <==> producer == null
      ensures outcome.Threw? ==> outcome.message == "Kafka producer not initialized. Call initialize() first."
      ensures outcome.Returned? ==> ResultsByTopic(events, producer.answer, outcome.results)
      ensures producer != null ==> old(producer.sent) <= producer.sent
      ensures producer != null ==> OnePerTopic(events, producer.sent[|old(producer.sent)|..])
      ensures outcome.Returned? ==> MeansByTopic(events, producer.answer, outcome.results)
      ensures producer != null ==> SentToOwnTopic(events, producer.sent[|old(producer.sent)|..])
    {
      if producer == null {
        return Worker.Threw("Kafka producer not initialized. Call initialize() first.");
      }
      var groups := GroupByTopic(events);
      var results: map<EventId, PublishResult>;
      ghost var topics;
      results, topics := CompleteAll(groups, producer, events);
      AllCollected(events, TopicOf, Expected(events, producer.answer), groups, results);
      AllSent(events, groups, topics);
      assert producer.sent[|old(producer.sent)|..] == BatchesTo(events, topics);
      OnePerTopicIsOwnTopic(events, producer.sent[|old(producer.sent)|..]);
      ResultsMean(events, producer.answer, results);
      outcome := Worker.Returned(results);
    }
  }

  ghost function BatchesTo(events: seq<Event>, topics: seq<string>): seq<Batch> {
    seq(|topics|, i requires 0 <= i < |topics| => BatchTo(events, topics[i]))
  }

  lemma OneMoreBatch(events: seq<Event>, topics: seq<string>, topic: string)
    ensures BatchesTo(events, topics + [topic]) == BatchesTo(events, topics) + [BatchTo(events, topic)]
  {
  }

  lemma AllSent(events: seq<Event>, groups: map<string, seq<Event>>, topics: seq<string>)
    requires Grouped(events, TopicOf, groups) && Distinct(topics) && Elements(topics) == groups.Keys
    ensures OnePerTopic(events, BatchesTo(events, topics))
  {
    GroupKeysOnce(events, TopicOf, groups, topics);
    assert Topics(BatchesTo(events, topics)) == topics;
  }

  lemma GroupReports(events: seq<Event>, answer: Batch -> SendOutcome, topic: string, results: map<EventId,
                     PublishResult>)
    requires IdSet(Members(events, TopicOf, topic)) <= results.Keys
    requires forall id :: id in IdSet(Members(events, TopicOf, topic)) ==>
      results[id] == ResultFor(answer(BatchTo(events, topic)))
    ensures forall e :: e in Members(events, TopicOf, topic) ==>
      e.id in results && results[e.id] == Expected(events, answer)(e)
  {
    forall e | e in Members(events, TopicOf, topic)
      ensures e.id in results && results[e.id] == Expected(events, answer)(e)
    {
      MembersBelong(events, TopicOf, topic, e);
      assert e.id in IdSet(Members(events, TopicOf, topic));
    }
  }
}
