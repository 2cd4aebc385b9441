/** The HTTP publisher: one request per destination, all in flight at once, and a result for
    every event. The network is a function from requests to outcomes. */
module HttpPublisher {
  import opened Common
  import opened OutboxTable
  import opened Retry
  import opened PgEventRepository
  import opened Grouping
  import Numerals
  import Worker

  /** The batch envelope of one destination. */
  datatype Request = Request(destinationUrl: string, count: nat, events: seq<Event>)

  datatype EventResult = EventResult(success: bool, retryable: Option<bool>, error: string)

  /** A response body without a usable `results` object, or its entries by event id. */
  datatype Body = Opaque | Results(results: map<EventId, EventResult>)

  datatype Outcome = NetworkError(message: string) | Response(statusCode: nat, body: Body)

  const DELIVERED := PublishResult(true, None, false)

  predicate Ok(statusCode: nat) {
    200 <= statusCode < 300
  }

  predicate RetryableStatus(statusCode: nat) {
    statusCode >= 500 || statusCode == 408 || statusCode == 429
  }

  function UniformResult(outcome: Outcome): PublishResult {
    match outcome
    case NetworkError(message) => PublishResult(false, Some(message), true)
    case Response(statusCode, _) =>
      if Ok(statusCode) then DELIVERED
      else PublishResult(false, Some("HTTP " + Numerals.Decimal(statusCode)), RetryableStatus(statusCode))
  }

  function IndividualResult(results: map<EventId, EventResult>, id: EventId): PublishResult {
    if id !in results || results[id].success then DELIVERED
    else
      PublishResult(false,
        Some(if results[id].error != "" then results[id].error else "Unknown error"),
        if results[id].retryable.Some? then results[id].retryable.value else true)
  }

  /** What the destination's outcome means for one of its events. */
  function ResultFor(outcome: Outcome, id: EventId): PublishResult {
    if outcome.Response? && Ok(outcome.statusCode) && outcome.body.Results? then
      IndividualResult(outcome.body.results, id)
    else UniformResult(outcome)
  }

  function DestinationOf(e: Event): string {
    e.data.destinationUrl
  }

  ghost function RequestTo(events: seq<Event>, url: string): Request {
    var group := Members(events, DestinationOf, url);
    Request(url, |group|, group)
  }

  class Network {
    const answer: Request -> Outcome
    var sent: seq<Request>

    constructor (answer: Request -> Outcome)
      ensures this.answer == answer && sent == []
    {
      this.answer := answer;
      sent := [];
    }

    method Send(request: Request) returns (outcome: Outcome)
      modifies this
      ensures outcome == answer(request) && sent == old(sent) + [request]
    {
      sent := sent + [request];
      outcome := answer(request);
    }
  }

  ghost function Urls(requests: seq<Request>): seq<string> {
    seq(|requests|, i requires 0 <= i < |requests| => requests[i].destinationUrl)
  }

  /** Each destination of the batch gets one request, holding its events in order. */
  ghost predicate OnePerDestination(events: seq<Event>, requests: seq<Request>) {
    && KeysOnce(events, DestinationOf, Urls(requests))
    && forall i :: 0 <= i < |requests| ==> requests[i] == RequestTo(events, requests[i].destinationUrl)
  }

  ghost function TotalCount(requests: seq<Request>): nat {
    if requests == [] then 0 else requests[0].count + TotalCount(requests[1..])
  }

  lemma {:induction false} CountsAreSizes(events: seq<Event>, requests: seq<Request>)
    requires forall i :: 0 <= i < |requests| ==> requests[i] == RequestTo(events, requests[i].destinationUrl)
    ensures TotalCount(requests) == TotalSize(events, DestinationOf, Urls(requests))
  {
    if requests != [] {
      CountsAreSizes(events, requests[1..]);
      assert Urls(requests)[1..] == Urls(requests[1..]);
    }
  }

  /** The counts in the envelopes add up to the batch: no event is dropped or sent twice. */
  lemma EnvelopesCoverTheBatch(events: seq<Event>, requests: seq<Request>)
    requires OnePerDestination(events, requests)
    ensures TotalCount(requests) == |events|
  {
    CountsAreSizes(events, requests);
    SizesAddUp(events, DestinationOf, Urls(requests));
  }

  ghost function Expected(events: seq<Event>, answer: Request -> Outcome): Event -> PublishResult {
    (e: Event) => ResultFor(answer(RequestTo(events, DestinationOf(e))), e.id)
  }

  /** Every event has a result: that of its own destination's outcome. */
  ghost predicate ResultsByDestination(events: seq<Event>, answer: Request -> Outcome, results: map<EventId,
                                       PublishResult>) {
    Reported(events, Expected(events, answer), results)
  }

  /** One destination's outcome never shows in the results of another: change what the network
      does with every other request, and an event's result is the same. */
  lemma DestinationsAreIsolated(events: seq<Event>, before: Request -> Outcome, after: Request -> Outcome,
                                first: map<EventId, PublishResult>, second: map<EventId, PublishResult>, e: Event)
    requires ResultsByDestination(events, before, first) && ResultsByDestination(events, after, second)
    requires e in events
    requires forall r: Request :: r.destinationUrl == DestinationOf(e) ==> before(r) == after(r)
    ensures e.id in first && e.id in second && first[e.id] == second[e.id]
  {
    assert RequestTo(events, DestinationOf(e)).destinationUrl == DestinationOf(e);
    assert e.id in IdSet(events);
  }

  /** What an answer means for one of its events: 200 to 299 delivers it, unless the body gives the event a failure of
      its own; 408, 429 and 500 upwards and a broken connection are failures to retry; every other status is final. */
  ghost predicate Means(outcome: Outcome, id: EventId, result: PublishResult) {
    match outcome
    case NetworkError(message) => result == PublishResult(false, Some(message), true)
    case Response(code, body) =>
      if code < 200 || code > 299 then
        result
          == PublishResult(false, Some("HTTP " + Numerals.Decimal(code)), code == 408 || code == 429 || code >= 500)
      else match body
        case Opaque => result == PublishResult(true, None, false)
        case Results(results) =>
          if id in results && !results[id].success then
            && !result.success && (result.retryable <==> results[id].retryable != Some(false))
            && result.error == if results[id].error == "" then Some("Unknown error") else Some(results[id].error)
          else result == PublishResult(true, None, false)
  }

  lemma ResultForMeans(outcome: Outcome, id: EventId)
    ensures Means(outcome, id, ResultFor(outcome, id))
  {
  }

  /** With this publisher the worker's decision about an event hangs on the answer of the event's own destination
      alone, and never on a missing result. It takes an event as delivered only on a status from 200 to 299 (and then
      exactly if the body does not report the event failed); on other statuses it retries exactly 408, 429 and 500
      upwards, and a network error, while retries are left; everything else it gives up. */
  lemma WorkerFollowsTheDestination(events: seq<Event>, answer: Request -> Outcome,
                                    results: map<EventId, PublishResult>, e: Event, maxRetries: int)
    requires ResultsByDestination(events, answer, results) && e in events
    ensures var decision := Worker.EventDecision(e, Worker.Returned(results), maxRetries);
      match answer(RequestTo(events, e.data.destinationUrl))
      case NetworkError(_) => decision == if e.retryCount < maxRetries then Reschedule else GiveUp
      case Response(code, body) =>
        var failed := body.Results? && e.id in body.results && !body.results[e.id].success;
        && (decision == Succeed <==> 200 <= code <= 299 && !failed)
        && (decision == Reschedule <==>
              && e.retryCount < maxRetries
              && (code == 408 || code == 429 || code >= 500
                  || (200 <= code <= 299 && failed && body.results[e.id].retryable != Some(false))))
  {
    assert DestinationOf(e) == e.data.destinationUrl;
    assert results[e.id] == ResultFor(answer(RequestTo(events, DestinationOf(e))), e.id);
  }

  /** Every event has a result, and it is what the answer from the event's own URL means for it. */
  ghost predicate MeansByUrl(events: seq<Event>, answer: Request -> Outcome, results: map<EventId, PublishResult>) {
    && results.Keys == IdSet(events)
    && forall e :: e in events ==> Means(answer(RequestTo(events, e.data.destinationUrl)), e.id, results[e.id])
  }

  lemma ResultsMean(events: seq<Event>, answer: Request -> Outcome, results: map<EventId, PublishResult>)
    requires ResultsByDestination(events, answer, results)
    ensures MeansByUrl(events, answer, results)
  {
    forall e | e in events
      ensures Means(answer(RequestTo(events, e.data.destinationUrl)), e.id, results[e.id])
    {
      assert DestinationOf(e) == e.data.destinationUrl;
      assert results[e.id] == ResultFor(answer(RequestTo(events, DestinationOf(e))), e.id);
      ResultForMeans(answer(RequestTo(events, DestinationOf(e))), e.id);
    }
  }

  /** The requests send every event to its own URL, each with the number of its events. */
  ghost predicate SentToOwnUrl(events: seq<Event>, requests: seq<Request>) {
    && (forall i :: 0 <= i < |requests| ==> requests[i].count == |requests[i].events|)
    && (forall i, e :: 0 <= i < |requests| && e in requests[i].events ==>
          e in events && requests[i].destinationUrl == e.data.destinationUrl)
    && (forall e :: e in events ==> exists i :: 0 <= i < |requests| && e in requests[i].events)
  }

  lemma OnePerDestinationIsOwnUrl(events: seq<Event>, requests: seq<Request>)
    requires OnePerDestination(events, requests)
    ensures SentToOwnUrl(events, requests)
  {
    forall i, e | 0 <= i < |requests| && e in requests[i].events
      ensures e in events && requests[i].destinationUrl == e.data.destinationUrl
    {
      MembersBelong(events, DestinationOf, requests[i].destinationUrl, e);
    }
    forall e | e in events
      ensures exists i :: 0 <= i < |requests| && e in requests[i].events
    {
      assert DestinationOf(e) in Urls(requests);
      var i :| 0 <= i < |requests| && Urls(requests)[i] == DestinationOf(e);
      MembersBelong(events, DestinationOf, DestinationOf(e), e);
      assert e in requests[i].events;
    }
  }

  class HttpPublisher {
    constructor () {
    }

    /** All events in one pass: a group is created for a new destination and appended to otherwise. */
    method GroupByDestination(events: seq<Event>) returns (groups: map<string, seq<Event>>)
      ensures Grouped(events, DestinationOf, groups)
    {
      groups := map[];
      for i := 0 to |events|
        invariant Grouped(events[..i], DestinationOf, groups)
      {
        var event := events[i];
        var existing := if DestinationOf(event) in groups then groups[DestinationOf(event)] else [];
        GroupOneMore(events, DestinationOf, groups, i);
        groups := groups[DestinationOf(event) := existing + [event]];
      }
      assert events[..|events|] == events;
    }

    method BuildUniformResults(eventIds: seq<EventId>, result: PublishResult)
      returns (results: map<EventId, PublishResult>)
      ensures results.Keys == Elements(eventIds)
      ensures forall id :: id in results ==> results[id] == result
    {
      results := map[];
      for i := 0 to |eventIds|
        invariant results.Keys == Elements(eventIds[..i])
        invariant forall id :: id in results ==> results[id] == result
      {
        assert eventIds[..i + 1] == eventIds[..i] + [eventIds[i]];
        results := results[eventIds[i] := result];
      }
      assert eventIds[..|eventIds|] == eventIds;
    }

    /** The answers per event, if the body has any: an event it does not mention was delivered. */
    method ParseIndividualResults(body: Body, eventIds: seq<EventId>)
      returns (parsed: Option<map<EventId, PublishResult>>)
      ensures parsed.None? <==> body.Opaque?
      ensures parsed.Some? ==> parsed.value.Keys == Elements(eventIds)
      ensures parsed.Some? ==> forall id :: id in parsed.value ==>
        parsed.value[id] == IndividualResult(body.results, id)
      ensures parsed.Some? ==> forall id :: id in parsed.value ==> Means(Response(200, body), id, parsed.value[id])
    {
      if body.Opaque? {
        return None;
      }
      var results := map[];
      for i := 0 to |eventIds|
        invariant results.Keys == Elements(eventIds[..i])
        invariant forall id :: id in results ==> results[id] == IndividualResult(body.results, id)
      {
        var id := eventIds[i];
        assert eventIds[..i + 1] == eventIds[..i] + [id];
        if id in body.results {
          var eventResult := body.results[id];
          if eventResult.success {
            results := results[id := PublishResult(true, None, false)];
          } else {
            var error := if eventResult.error != "" then eventResult.error else "Unknown error";
            var retryable := if eventResult.retryable.Some? then eventResult.retryable.value else true;
            results := results[id := PublishResult(false, Some(error), retryable)];
          }
        } else {
          results := results[id := PublishResult(true, None, false)];
        }
      }
      assert eventIds[..|eventIds|] == eventIds;
      parsed := Some(results);
    }

    method PublishToDestination(url: string, events: seq<Event>, network: Network)
      returns (results: map<EventId, PublishResult>)
      modifies network
      ensures network.sent == old(network.sent) + [Request(url, |events|, events)]
      ensures results.Keys == IdSet(events)
      ensures forall id :: id in results ==>
        results[id] == ResultFor(network.answer(Request(url, |events|, events)), id)
      ensures forall id :: id in results ==>
        Means(network.answer(Request(url, |events|, events)), id, results[id])
    {
      var eventIds := EventIds(events);
      assert Elements(eventIds) == IdSet(events) by {
        forall id | id in IdSet(events)
          ensures id in eventIds
        {
          var i :| 0 <= i < |events| && events[i].id == id;
          assert eventIds[i] == id;
        }
      }
      var outcome := network.Send(Request(url, |events|, events));
      if outcome.Response? && Ok(outcome.statusCode) {
        var individual := ParseIndividualResults(outcome.body, eventIds);
        if individual.Some? {
          return individual.value;
        }
      }
      results := BuildUniformResults(eventIds, UniformResult(outcome));
    }

    /** The concurrent task of one destination: it adds its results to the shared Map. */
    method CompleteDestination(url: string, destEvents: seq<Event>, network: Network, results: map<EventId,
                               PublishResult>,
                               ghost events: seq<Event>, ghost done: set<string>)
      returns (more: map<EventId, PublishResult>)
      requires Distinct(EventIds(events)) && destEvents == Members(events, DestinationOf, url)
      requires Collected(events, DestinationOf, Expected(events, network.answer), done, results)
      modifies network
      ensures network.sent == old(network.sent) + [RequestTo(events, url)]
      ensures Collected(events, DestinationOf, Expected(events, network.answer), done + {url}, more)
    {
      var batchResults := PublishToDestination(url, destEvents, network);
      GroupReports(events, network.answer, url, batchResults);
      more := results + batchResults;
      CollectGroup(events, DestinationOf, Expected(events, network.answer), done, results, url, more);
    }

    /** Completes every destination, in any order. */
    method CompleteAll(groups: map<string, seq<Event>>, network: Network, ghost events: seq<Event>)
      returns (results: map<EventId, PublishResult>, ghost urls: seq<string>)
      requires Distinct(EventIds(events)) && Grouped(events, DestinationOf, groups)
      modifies network
      ensures Distinct(urls) && Elements(urls) == groups.Keys
      ensures network.sent == old(network.sent) + RequestsTo(events, urls)
      ensures Collected(events, DestinationOf, Expected(events, network.answer), groups.Keys, results)
    {
      results, urls := map[], [];
      var remaining := groups.Keys;
      while remaining != {}
        invariant Picked(groups.Keys, remaining, urls)
        invariant network.sent == old(network.sent) + RequestsTo(events, urls)
        invariant Collected(events, DestinationOf, Expected(events, network.answer), groups.Keys - remaining, results)
      {
        var url :| url in remaining;
        results := CompleteDestination(url, groups[url], network, results, events, groups.Keys - remaining);
        OneMoreRequest(events, urls, url);
        PickNext(groups.Keys, remaining, urls, url);
        urls := urls + [url];
        remaining := remaining - {url};
      }
      assert groups.Keys - remaining == groups.Keys;
    }

    /** Whatever order the requests complete in, the results are those of each event's own
        destination, and each destination is sent its events once, in order. */
    method Publish(events: seq<Event>, network: Network) returns (results: map<EventId, PublishResult>)
      requires Distinct(EventIds(events))
      modifies network
      ensures ResultsByDestination(events, network.answer, results)
      ensures old(network.sent) <= network.sent
      ensures OnePerDestination(events, network.sent[|old(network.sent)|..])
      ensures SentToOwnUrl(events, network.sent[|old(network.sent)|..])
      ensures MeansByUrl(events, network.answer, results)
    {
      var groups := GroupByDestination(events);
      ghost var urls;
      results, urls := CompleteAll(groups, network, events);
      AllCollected(events, DestinationOf, Expected(events, network.answer), groups, results);
      AllSent(events, groups, urls);
      assert network.sent[|old(network.sent)|..] == RequestsTo(events, urls);
      OnePerDestinationIsOwnUrl(events, network.sent[|old(network.sent)|..]);
      ResultsMean(events, network.answer, results);
    }
  }

  ghost function RequestsTo(events: seq<Event>, urls: seq<string>): seq<Request> {
    seq(|urls|, i requires 0 <= i < |urls| => RequestTo(events, urls[i]))
  }

  lemma OneMoreRequest(events: seq<Event>, urls: seq<string>, url: string)
    ensures RequestsTo(events, urls + [url]) == RequestsTo(events, urls) + [RequestTo(events, url)]
  {
  }

  lemma AllSent(events: seq<Event>, groups: map<string, seq<Event>>, urls: seq<string>)
    requires Grouped(events, DestinationOf, groups) && Distinct(urls) && Elements(urls) == groups.Keys
    ensures OnePerDestination(events, RequestsTo(events, urls))
  {
    GroupKeysOnce(events, DestinationOf, groups, urls);
    assert Urls(RequestsTo(events, urls)) == urls;
  }

  lemma {:induction false} GroupReports(events: seq<Event>, answer: Request -> Outcome, url: string,
                                        results: map<EventId, PublishResult>)
    requires results.Keys == IdSet(Members(events, DestinationOf, url))
    requires forall id :: id in results ==> results[id] == ResultFor(answer(RequestTo(events, url)), id)
    ensures forall e :: e in Members(events, DestinationOf, url) ==>
      e.id in results && results[e.id] == Expected(events, answer)(e)
  {
    forall e | e in Members(events, DestinationOf, url)
      ensures e.id in results && results[e.id] == Expected(events, answer)(e)
    {
      MembersBelong(events, DestinationOf, url, e);
      assert e.id in IdSet(Members(events, DestinationOf, url));
    }
  }
}
