/** The inbox repository's statements on committed rows: failing a row and cleaning up processed ones. */
module InboxMaintenance {
  import opened Inbox

  const DAY_MS := 86400000.0

  /** The retention is rejected, or so many rows were deleted. */
  datatype CleanupResult = Rejected | Deleted(count: nat)

  /** Deleting keys takes away as many rows. */
  lemma RowsDeleted(rows: InboxRows, keys: set<Key>)
    requires keys <= rows.Keys
    ensures |rows - keys| == |rows| - |keys|
  {
    assert (rows - keys).Keys == rows.Keys - keys;
    assert |rows.Keys - keys| == |rows.Keys| - |keys|;
  }

  class InboxRepository {
    var rows: InboxRows

    constructor (rows: InboxRows)
      ensures this.rows == rows
    {
      this.rows := rows;
    }

    /** Deletes exactly the rows processed longer ago than the retention, which must be a day at least, and counts
        them; where the state machine lets the same cleanup run, it leaves the same table. */
    method CleanupProcessedEvents(retentionDays: int, now: Millis) returns (r: CleanupResult)
      modifies this
      ensures r.Rejected? <==> retentionDays < 1
      ensures r.Rejected? ==> rows == old(rows)
      ensures r.Deleted? ==> forall k :: k in old(rows) ==>
        (k !in rows <==>
           old(rows)[k].status == Processed && now > old(rows)[k].processedAt + retentionDays as real * 86400000.0)
      ensures r.Deleted? ==> forall k :: k in rows ==> k in old(rows) && rows[k] == old(rows)[k]
      ensures r.Deleted? ==> r.count == |old(rows)| - |rows|
      ensures r.Deleted? ==> forall s: State :: s.committed == old(rows) && s.now == now ==>
        var cleanup := Cleanup(retentionDays as real * 86400000.0);
        Enabled(s, cleanup) ==> Next(s, cleanup).committed == rows
    {
      if retentionDays < 1 {
        return Rejected;
      }
      var retentionMs := retentionDays as real * DAY_MS;
      var expired := set k | k in rows && Expired(rows[k], now, retentionMs);
      RowsDeleted(rows, expired);
      forall s: State | s.committed == rows && s.now == now
        ensures ExpiredKeys(s, retentionMs) == expired
      {
      }
      rows := rows - expired;
      r := Deleted(|expired|);
    }

    /** Fails the row with that id, if there is one, at that instant, and changes no other. */
    method MarkFailed(eventId: RowId, now: Millis)
      modifies this
      ensures rows.Keys == old(rows).Keys
      ensures forall k :: k in rows ==>
        rows[k] == if old(rows)[k].id == eventId then InboxRow(eventId, Failed, now) else old(rows)[k]
    {
      rows := map k | k in rows :: if rows[k].id == eventId then Fail(rows[k], now) else rows[k];
    }
  }
}
