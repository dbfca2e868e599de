/** Run counters: monotonic within a run, with the duplicates derived rather than counted. */
module Metrics {
  import opened Wrappers
  import opened Ledger

  class ConsumeCounters {
    var batches: nat
    var consumed: nat
    var stored: nat
    var deadLettered: nat

    constructor ()
      ensures batches == 0 && consumed == 0 && stored == 0 && deadLettered == 0
    {
      batches, consumed, stored, deadLettered := 0, 0, 0, 0;
    }

    function Duplicates(): int
      reads this
    {
      consumed - stored - deadLettered
    }

    method RecordBatch(consumed: nat, stored: nat, deadLettered: nat)
      modifies this
      ensures batches == old(batches) + 1
      ensures this.consumed == old(this.consumed) + consumed
      ensures this.stored == old(this.stored) + stored
      ensures this.deadLettered == old(this.deadLettered) + deadLettered
      ensures Duplicates() == old(Duplicates()) + consumed - stored - deadLettered
    {
      batches := batches + 1;
      this.consumed := this.consumed + consumed;
      this.stored := this.stored + stored;
      this.deadLettered := this.deadLettered + deadLettered;
    }
  }

  class ArchiveCounters {
    var passes: nat
    var due: nat
    var ingested: nat
    var missing: nat
    var failed: nat
    var outstanding: nat
    var events: nat

    constructor ()
      ensures passes == due == ingested == missing == failed == outstanding == events == 0
    {
      passes, due, ingested, missing, failed, outstanding, events := 0, 0, 0, 0, 0, 0, 0;
    }

    /** Hours accounted for: everything attempted ends up in exactly one of the four. */
    function Attempts(): nat
      reads this
    {
      ingested + missing + failed + outstanding
    }

    method RecordPass(due: nat)
      modifies this`passes, this`due
      ensures passes == old(passes) + 1 && this.due == old(this.due) + due
    {
      passes := passes + 1;
      this.due := this.due + due;
    }

    method RecordHour(status: Option<Status>, events: Option<nat>)
      modifies this`ingested, this`missing, this`failed, this`outstanding, this`events
      ensures Attempts() == old(Attempts()) + 1
      ensures outstanding == old(outstanding) + (if status.None? then 1 else 0)
      ensures ingested == old(ingested) + (if status == Some(Ingested) then 1 else 0)
      ensures missing == old(missing) + (if status == Some(Missing) then 1 else 0)
      ensures failed == old(failed) + (if status == Some(Failed) then 1 else 0)
      ensures this.events
           == old(this.events) + (if status == Some(Ingested) && events.Some? then events.value else 0)
    {
      if status.None? {
        outstanding := outstanding + 1;
        return;
      }
      if status.value.Ingested? {
        ingested := ingested + 1;
        this.events := this.events + (if events.Some? then events.value else 0);
      } else if status.value.Missing? {
        missing := missing + 1;
      } else {
        failed := failed + 1;
      }
    }
  }
}
