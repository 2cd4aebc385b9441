/** What holds of every row after any sequence of statements whatsoever, whoever issued them
    and whenever: late writers, racing replays and repeated recoveries included. */
module AttemptBound {
  import opened Common
  import opened OutboxTable

  /** A statement with the instant the database ran it. */
  datatype Entry = Entry(statement: Statement, now: Millis)

  /** The table after the whole log, from the empty table. */
  ghost function Table(log: seq<Entry>): Rows {
    if log == [] then map[] else
      var last := log[|log| - 1];
      Execute(Table(log[..|log| - 1]), last.statement, last.now)
  }

  /** The entry changed the row with this id. */
  ghost predicate Took(rows: Rows, e: Entry, id: EventId) {
    && id in rows
    && Hits(e.statement, id, rows[id], e.now)
    && UniqueKeys(Apply(rows, e.statement, e.now))
  }

  /** The claims of a row once the statement has changed it. */
  ghost function ClaimsAfter(s: Statement, claims: nat): nat {
    match s
    case Claim(_) => claims + 1
    case ReplayOne(_) => 0
    case ReplayRows(_) => 0
    case _ => claims
  }

  /** How often the log claimed the row since it last replayed it (or since its insertion). */
  ghost function ClaimsSinceReplay(log: seq<Entry>, id: EventId): nat {
    if log == [] then 0 else
      var before, last := log[..|log| - 1], log[|log| - 1];
      if !Took(Table(before), last, id) then ClaimsSinceReplay(before, id)
      else ClaimsAfter(last.statement, ClaimsSinceReplay(before, id))
  }

  ghost predicate RowInvariant(row: Row, claims: nat) {
    && row.retryCount <= Max(0, row.maxRetries)
    && claims <= row.retryCount + 1
    && (row.status == Pending || row.status == Failed ==> claims <= row.retryCount)
    && (row.status == Pending ==> row.nextRetryAt.None?)
    && (row.status == Failed ==> row.nextRetryAt.Some?)
  }

  lemma StatementKeepsInvariant(s: Statement, id: EventId, row: Row, now: Millis, claims: nat)
    requires RowInvariant(row, claims) && Hits(s, id, row, now)
    ensures RowInvariant(Changed(s, id, row, now), ClaimsAfter(s, claims))
  {
  }

  lemma {:induction false} NoClaimsBeforeInsertion(log: seq<Entry>, id: EventId)
    requires id !in Table(log)
    ensures ClaimsSinceReplay(log, id) == 0
  {
    if log != [] {
      var before, last := log[..|log| - 1], log[|log| - 1];
      RowsPersist(Table(before), last.statement, last.now);
      NoClaimsBeforeInsertion(before, id);
    }
  }

  lemma {:induction false} RowInvariantHolds(log: seq<Entry>, id: EventId)
    requires id in Table(log)
    ensures RowInvariant(Table(log)[id], ClaimsSinceReplay(log, id))
  {
    if log != [] {
      var before, last := log[..|log| - 1], log[|log| - 1];
      RowsPersist(Table(before), last.statement, last.now);
      if id in Table(before) {
        RowInvariantHolds(before, id);
        if Took(Table(before), last, id) {
          StatementKeepsInvariant(last.statement, id, Table(before)[id], last.now, ClaimsSinceReplay(before, id));
        }
      } else {
        NoClaimsBeforeInsertion(before, id);
      }
    }
  }

  /** A row never counts more retries than it was given, and between two replays is never
      handed to a worker more than max_retries + 1 times. */
  lemma {:induction false} AttemptsAreBounded(log: seq<Entry>, id: EventId)
    requires id in Table(log)
    ensures Table(log)[id].retryCount <= Max(0, Table(log)[id].maxRetries)
    ensures ClaimsSinceReplay(log, id) <= Max(0, Table(log)[id].maxRetries) + 1
  {
    RowInvariantHolds(log, id);
  }

  /** A statement neither cancels a row nor deletes it softly. */
  lemma StatementKeepsInUse(s: Statement, id: EventId, row: Row, now: Millis)
    requires row.status != Cancelled && row.deletedAt.None?
    ensures RowAfter(s, id, row, now).status != Cancelled && RowAfter(s, id, row, now).deletedAt.None?
  {
  }

  /** So no row is ever cancelled or deleted softly. */
  lemma {:induction false} NothingIsCancelledOrDeleted(log: seq<Entry>, id: EventId)
    requires id in Table(log)
    ensures Table(log)[id].status != Cancelled && Table(log)[id].deletedAt.None?
  {
    if log != [] {
      var before, last := log[..|log| - 1], log[|log| - 1];
      RowsPersist(Table(before), last.statement, last.now);
      if id in Table(before) {
        NothingIsCancelledOrDeleted(before, id);
        StatementKeepsInUse(last.statement, id, Table(before)[id], last.now);
      }
    }
  }
}
