/**
 The ledger table as a map from hours to rows, its three statements as functions on that map,
 and the class whose methods run them.
 */
module Ledger {
  import opened Wrappers
  import opened Hours

  datatype Status = Ingested | Missing | Failed

  datatype Row = Row(
    status: Status, events: Option<nat>, bytes: Option<nat>, detail: string, recordedAt: Instant)

  type Rows = map<Hour, Row>

  /** RECORD_HOUR: refresh an unsettled row, never move one off ingested. */
  function Upsert(prior: Option<Row>, row: Row): Row {
    if prior.Some? && prior.value.status.Ingested? && !row.status.Ingested? then prior.value else row
  }

  predicate IngestedAt(rows: Rows, h: Hour) {
    h in rows && rows[h].status.Ingested?
  }

  /** Whether the scan leaves the hour alone. */
  predicate Settled(row: Option<Row>, retryFailed: bool) {
    row.Some? && (row.value.status.Ingested? || row.value.status.Missing?
                  || (row.value.status.Failed? && !retryFailed))
  }

  /** The unsettled hours of lo .. hi - 1, oldest first. */
  function PendingBetween(rows: Rows, lo: Hour, hi: Hour, retryFailed: bool): seq<Hour>
    decreases hi - lo
  {
    if hi <= lo then []
    else
      PendingBetween(rows, lo, hi - 1, retryFailed)
      + (if Settled(Look(rows, hi - 1), retryFailed) then [] else [hi - 1])
  }

  /** PENDING_HOURS over an inclusive range of days. */
  function Pending(rows: Rows, firstDay: int, lastDay: int, retryFailed: bool): seq<Hour> {
    PendingBetween(rows, firstDay * 24, lastDay * 24 + 24, retryFailed)
  }

  predicate InRange(h: Hour, firstDay: int, lastDay: int) {
    firstDay <= DayOf(h) <= lastDay
  }

  lemma {:induction false} PendingBetweenIs(rows: Rows, lo: Hour, hi: Hour, retryFailed: bool)
    ensures var p := PendingBetween(rows, lo, hi, retryFailed);
            && Increasing(p)
            && forall h :: h in p <==> lo <= h < hi && !Settled(Look(rows, h), retryFailed)
    decreases hi - lo
  {
    if lo < hi {
      PendingBetweenIs(rows, lo, hi - 1, retryFailed);
      var before := PendingBetween(rows, lo, hi - 1, retryFailed);
      assert forall i :: 0 <= i < |before| ==> before[i] in before;
    }
  }

  /** The scan returns every unsettled hour of the range once, oldest first, and nothing else. */
  lemma PendingIs(rows: Rows, firstDay: int, lastDay: int, retryFailed: bool)
    ensures var p := Pending(rows, firstDay, lastDay, retryFailed);
            && Increasing(p)
            && forall h :: h in p <==> InRange(h, firstDay, lastDay) && !Settled(Look(rows, h), retryFailed)
  {
    PendingBetweenIs(rows, firstDay * 24, lastDay * 24 + 24, retryFailed);
  }

  /** FORGET_INGESTED_HOURS: the rows left, and the hours whose row was removed. */
  function Forgotten(rows: Rows, hours: set<Hour>): set<Hour> {
    set h | h in hours && IngestedAt(rows, h)
  }

  function Forget(rows: Rows, hours: set<Hour>): Rows {
    rows - Forgotten(rows, hours)
  }

  function IngestedSet(rows: Rows): set<Hour> {
    set h | h in rows && rows[h].status.Ingested?
  }

  /** The archive_hours table behind its connection. */
  class ArchiveHours {
    var rows: Rows

    constructor ()
      ensures rows == map[]
    {
      rows := map[];
    }

    method RecordHour(h: Hour, row: Row)
      requires row.status.Ingested? ==> row.events.Some?
      modifies this
      ensures rows == old(rows)[h := Upsert(Look(old(rows), h), row)]
      ensures IngestedAt(old(rows), h) && !row.status.Ingested? ==> rows == old(rows)
      ensures !IngestedAt(old(rows), h) || row.status.Ingested? ==> rows == old(rows)[h := row]
    {
      if h !in rows || !rows[h].status.Ingested? || row.status.Ingested? {
        rows := rows[h := row];
      }
    }

    /** What another writer of the table did meanwhile: rows gone between two of our statements. */
    method RowsVanish(hours: set<Hour>)
      modifies this
      ensures rows == old(rows) - hours
    {
      rows := rows - hours;
    }

    method ForgetIngestedHours(hours: seq<Hour>) returns (removed: set<Hour>)
      modifies this
      ensures removed == Forgotten(old(rows), set h | h in hours)
      ensures rows == Forget(old(rows), set h | h in hours)
    {
      if hours == [] {
        assert rows == Forget(rows, set h | h in hours);
        return {};
      }
      removed := set h | h in hours && IngestedAt(rows, h);
      rows := rows - removed;
    }
  }
}
