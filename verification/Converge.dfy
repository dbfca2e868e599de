/**
 What one pass achieves.

 Due are the pending hours whose end has come, PassWorld the pass over them one hour at a time.
 The lemmas say exactly what is pending afterwards, by how much the number drops, and when a
 single pass is enough; Schedule shows that every interleaving ends in PassWorld.
 */
module Converge {
  import opened Wrappers
  import opened Hours
  import opened Ledger
  import opened Archive
  import opened Lake
  import opened Ingest
  import Dedup
  import Metrics

  /** The hours of one scan: a range of days, and whether failures are picked up again. */
  datatype Scan = Scan(firstDay: int, lastDay: int, retryFailed: bool)

  /** The hours among p that have closed. */
  function Closed(p: seq<Hour>, now: Instant): seq<Hour> {
    if p == [] then []
    else Closed(p[..|p| - 1], now) + (if HourEnd(p[|p| - 1]) <= now then [p[|p| - 1]] else [])
  }

  function PendingIn(rows: Rows, scan: Scan): seq<Hour> {
    Pending(rows, scan.firstDay, scan.lastDay, scan.retryFailed)
  }

  function Due(rows: Rows, scan: Scan, now: Instant): seq<Hour> {
    Closed(PendingIn(rows, scan), now)
  }

  lemma {:induction false} ClosedIs(p: seq<Hour>, now: Instant)
    requires Increasing(p)
    ensures Increasing(Closed(p, now))
    ensures forall h :: h in Closed(p, now) <==> h in p && HourEnd(h) <= now
  {
    if p != [] {
      var q, h := p[..|p| - 1], p[|p| - 1];
      ClosedIs(q, now);
      assert p == q + [h];
      var c := Closed(q, now);
      forall i | 0 <= i < |c|
        ensures c[i] < h
      {
        assert c[i] in c;
      }
    }
  }

  /** A pass ingests the closed unsettled hours of the range, each once, oldest first. */
  lemma DueIs(rows: Rows, scan: Scan, now: Instant)
    ensures Increasing(Due(rows, scan, now))
    ensures forall h :: h in Due(rows, scan, now) <==>
              InRange(h, scan.firstDay, scan.lastDay) && HourEnd(h) <= now
              && !Settled(Look(rows, h), scan.retryFailed)
  {
    PendingIs(rows, scan.firstDay, scan.lastDay, scan.retryFailed);
    ClosedIs(PendingIn(rows, scan), now);
  }

  // ---- one pass -------------------------------------------------------------------

  /** Ingesting the hours of due one after the other. */
  function PassWorld(cfg: Settings, env: Hour -> Env, w: World, due: seq<Hour>): World {
    if due == [] then w
    else
      var v := PassWorld(cfg, env, w, due[..|due| - 1]);
      var h := due[|due| - 1];
      Put(v, h, IngestCell(cfg, h, CellAt(v, h), env(h)).0)
  }

  /** What the attempt at hour h reports when its cell is as it was before the pass. */
  function Outcome(cfg: Settings, env: Hour -> Env, w: World, h: Hour): Report {
    IngestCell(cfg, h, CellAt(w, h), env(h)).1
  }

  function Outcomes(cfg: Settings, env: Hour -> Env, w: World, due: seq<Hour>): seq<Report> {
    seq(|due|, i requires 0 <= i < |due| => Outcome(cfg, env, w, due[i]))
  }

  /** Distinct hours do not meet: each cell ends as its own ingest leaves it, the rest untouched. */
  lemma {:induction false} PassCells(cfg: Settings, env: Hour -> Env, w: World, due: seq<Hour>, k: Hour)
    requires Dedup.NoRepeats(due)
    ensures CellAt(PassWorld(cfg, env, w, due), k)
         == if k in due then IngestCell(cfg, k, CellAt(w, k), env(k)).0 else CellAt(w, k)
  {
    if due != [] {
      var before, h := due[..|due| - 1], due[|due| - 1];
      PassCells(cfg, env, w, before, k);
      PassCells(cfg, env, w, before, h);
      assert due == before + [h];
      var v := PassWorld(cfg, env, w, before);
      PutThenLook(v, h, IngestCell(cfg, h, CellAt(v, h), env(h)).0, k);
    }
  }

  lemma IncreasingNoRepeats(s: seq<int>)
    requires Increasing(s)
    ensures Dedup.NoRepeats(s)
  {
  }

  // ---- what a pass achieves -----------------------------------------------------------

  /** Whether an outcome leaves the hour for a later scan of the same kind. */
  predicate Leaves(report: Report, retryFailed: bool) {
    report.status.None? || (report.status == Some(Failed) && retryFailed)
  }

  lemma RowAfterIngest(cfg: Settings, h: Hour, cell: Cell, env: Env)
    requires cell.row.None? || !cell.row.value.status.Ingested?
    ensures var (c, report) := IngestCell(cfg, h, cell, env);
            if report.status.None? then c.row == cell.row
            else c.row.Some? && c.row.value.status == report.status.value
                 && c.row.value.recordedAt == cfg.now
  {
  }

  /**
   After a pass, the hours still pending in its range are exactly those that had not closed and
   those whose attempt recorded nothing (or a failure, when failures are retried).
   */
  lemma PendingAfterPass(cfg: Settings, env: Hour -> Env, w: World, scan: Scan, h: Hour)
    ensures var due := Due(w.rows, scan, cfg.now);
            h in PendingIn(PassWorld(cfg, env, w, due).rows, scan)
            <==> h in PendingIn(w.rows, scan)
                 && (HourEnd(h) > cfg.now || Leaves(Outcome(cfg, env, w, h), scan.retryFailed))
  {
    var due := Due(w.rows, scan, cfg.now);
    var after := PassWorld(cfg, env, w, due);
    DueIs(w.rows, scan, cfg.now);
    PendingIs(w.rows, scan.firstDay, scan.lastDay, scan.retryFailed);
    PendingIs(after.rows, scan.firstDay, scan.lastDay, scan.retryFailed);
    IncreasingNoRepeats(due);
    PassCells(cfg, env, w, due, h);
    assert Look(after.rows, h) == CellAt(after, h).row && Look(w.rows, h) == CellAt(w, h).row;
    if h in due {
      RowAfterIngest(cfg, h, CellAt(w, h), env(h));
    }
  }

  /** The due hours a pass settles. */
  ghost function SettledBy(cfg: Settings, env: Hour -> Env, w: World, scan: Scan): set<Hour> {
    set h | h in Due(w.rows, scan, cfg.now) && !Leaves(Outcome(cfg, env, w, h), scan.retryFailed)
  }

  /** The pending count drops by exactly the number of hours the pass settled. */
  lemma PendingCountDrops(cfg: Settings, env: Hour -> Env, w: World, scan: Scan)
    ensures var after := PassWorld(cfg, env, w, Due(w.rows, scan, cfg.now));
            |PendingIn(after.rows, scan)| == |PendingIn(w.rows, scan)| - |SettledBy(cfg, env, w, scan)|
  {
    var after := PassWorld(cfg, env, w, Due(w.rows, scan, cfg.now));
    var p, q := PendingIn(w.rows, scan), PendingIn(after.rows, scan);
    PendingIs(w.rows, scan.firstDay, scan.lastDay, scan.retryFailed);
    PendingIs(after.rows, scan.firstDay, scan.lastDay, scan.retryFailed);
    DueIs(w.rows, scan, cfg.now);
    var settled := SettledBy(cfg, env, w, scan);
    forall h
      ensures h in q <==> h in p && h !in settled
    {
      PendingAfterPass(cfg, env, w, scan, h);
    }
    CountDrops(p, q, settled);
  }

  lemma CountDrops(p: seq<Hour>, q: seq<Hour>, gone: set<Hour>)
    requires Increasing(p) && Increasing(q)
    requires forall h :: h in q <==> h in p && h !in gone
    requires forall h :: h in gone ==> h in p
    ensures |q| == |p| - |gone|
  {
    IncreasingNoRepeats(p);
    IncreasingNoRepeats(q);
    Dedup.DistinctElements(p);
    Dedup.DistinctElements(q);
    var inP, inQ := set h | h in p, set h | h in q;
    assert inQ == inP - gone;
    forall h | h in gone
      ensures h in inP
    {
    }
  }

  /** The publisher, or a source already downloaded, decides the hour one way or another. */
  predicate Definitive(cfg: Settings, env: Hour -> Env, w: World, h: Hour) {
    || h in w.sources
    || env(h).answer.Body?
    || (env(h).answer.HttpStatus? && WriteOff(cfg, h, env(h).answer.code))
  }

  /** An attempt records something exactly when the answer is definitive. */
  lemma DefinitiveSettles(cfg: Settings, env: Hour -> Env, w: World, h: Hour)
    ensures Outcome(cfg, env, w, h).status.Some? <==> Definitive(cfg, env, w, h)
  {
  }

  /** What a non-retrying pass over closed hours leaves: the due hours nobody answered for. */
  lemma LeftAfterPass(cfg: Settings, env: Hour -> Env, w: World, scan: Scan, h: Hour)
    requires !scan.retryFailed
    requires HourEnd(scan.lastDay * 24 + 23) <= cfg.now
    ensures var due := Due(w.rows, scan, cfg.now);
            h in PendingIn(PassWorld(cfg, env, w, due).rows, scan)
            <==> h in due && !Definitive(cfg, env, w, h)
  {
    DueIs(w.rows, scan, cfg.now);
    PendingIs(w.rows, scan.firstDay, scan.lastDay, scan.retryFailed);
    PendingAfterPass(cfg, env, w, scan, h);
    DefinitiveSettles(cfg, env, w, h);
  }

  /**
   A non-retrying pass over closed hours empties the range exactly when every due hour gets a
   definitive answer; a range it has emptied it never touches again.
   */
  lemma OnePassConverges(cfg: Settings, env: Hour -> Env, w: World, scan: Scan)
    requires !scan.retryFailed
    requires HourEnd(scan.lastDay * 24 + 23) <= cfg.now
    ensures var due := Due(w.rows, scan, cfg.now);
            PendingIn(PassWorld(cfg, env, w, due).rows, scan) == []
            <==> forall h :: h in due ==> Definitive(cfg, env, w, h)
  {
    var due := Due(w.rows, scan, cfg.now);
    var left := PendingIn(PassWorld(cfg, env, w, due).rows, scan);
    if left == [] {
      forall h | h in due
        ensures Definitive(cfg, env, w, h)
      {
        LeftAfterPass(cfg, env, w, scan, h);
      }
    } else {
      LeftAfterPass(cfg, env, w, scan, left[0]);
    }
  }

  /** With nothing pending, any later pass over the range leaves the whole world as it is. */
  lemma ConvergedIsStable(cfg: Settings, env: Hour -> Env, w: World, scan: Scan)
    requires PendingIn(w.rows, scan) == []
    ensures PassWorld(cfg, env, w, Due(w.rows, scan, cfg.now)) == w
  {
  }

  // ---- the routine -----------------------------------------------------------------------

  method ConvergeOnce(
    archive: ArchiveDir, lake: LakeDir, ledger: ArchiveHours, counters: Metrics.ArchiveCounters,
    cfg: Settings, scan: Scan, concurrency: int, env: Hour -> Env)
    returns (r: Result<seq<Report>, string>)
    modifies archive, lake, ledger, counters
    ensures r.Ok? <==> concurrency >= 1
    ensures r.Err? ==> WorldOf(archive, lake, ledger) == old(WorldOf(archive, lake, ledger)) && unchanged(counters)
    ensures r.Ok? ==>
      var w := old(WorldOf(archive, lake, ledger));
      var due := Due(w.rows, scan, cfg.now);
      && WorldOf(archive, lake, ledger) == PassWorld(cfg, env, w, due)
      && r.value == Outcomes(cfg, env, w, due)
      && counters.passes == old(counters.passes) + 1
      && counters.due == old(counters.due) + |due|
      && counters.ingested == old(counters.ingested) + CountOf(r.value, Some(Ingested))
      && counters.missing == old(counters.missing) + CountOf(r.value, Some(Missing))
      && counters.failed == old(counters.failed) + CountOf(r.value, Some(Failed))
      && counters.outstanding == old(counters.outstanding) + CountOf(r.value, None)
      && counters.events == old(counters.events) + EventsOf(r.value)
      && counters.Attempts() == old(counters.Attempts()) + |due|
  {
    if concurrency < 1 {
      return Err("concurrency must be at least 1");
    }
    ghost var w := WorldOf(archive, lake, ledger);
    var due := Due(ledger.rows, scan, cfg.now);
    counters.RecordPass(|due|);
    DueIs(w.rows, scan, cfg.now);
    IncreasingNoRepeats(due);
    var reports := IngestAll(archive, lake, ledger, cfg, due, env);
    CountReports(counters, reports);
    return Ok(reports);
  }

  /** Every report is counted under its own status, and only ingested events are summed. */
  method CountReports(counters: Metrics.ArchiveCounters, reports: seq<Report>)
    modifies counters`ingested, counters`missing, counters`failed, counters`outstanding, counters`events
    ensures counters.ingested == old(counters.ingested) + CountOf(reports, Some(Ingested))
    ensures counters.missing == old(counters.missing) + CountOf(reports, Some(Missing))
    ensures counters.failed == old(counters.failed) + CountOf(reports, Some(Failed))
    ensures counters.outstanding == old(counters.outstanding) + CountOf(reports, None)
    ensures counters.events == old(counters.events) + EventsOf(reports)
    ensures counters.Attempts() == old(counters.Attempts()) + |reports|
  {
    for i := 0 to |reports|
      invariant counters.ingested == old(counters.ingested) + CountOf(reports[..i], Some(Ingested))
      invariant counters.missing == old(counters.missing) + CountOf(reports[..i], Some(Missing))
      invariant counters.failed == old(counters.failed) + CountOf(reports[..i], Some(Failed))
      invariant counters.outstanding == old(counters.outstanding) + CountOf(reports[..i], None)
      invariant counters.events == old(counters.events) + EventsOf(reports[..i])
      invariant counters.Attempts() == old(counters.Attempts()) + i
    {
      assert reports[..i + 1][..i] == reports[..i];
      counters.RecordHour(reports[i].status, reports[i].events);
    }
    assert reports[..|reports|] == reports;
  }

  function CountOf(reports: seq<Report>, status: Option<Status>): nat {
    if reports == [] then 0
    else CountOf(reports[..|reports| - 1], status) + (if reports[|reports| - 1].status == status then 1 else 0)
  }

  function EventsOf(reports: seq<Report>): nat {
    if reports == [] then 0
    else
      var last := reports[|reports| - 1];
      EventsOf(reports[..|reports| - 1])
      + (if last.status == Some(Ingested) && last.events.Some? then last.events.value else 0)
  }

  /** Every given hour, which must have closed, one after the other. */
  method IngestAll(
    archive: ArchiveDir, lake: LakeDir, ledger: ArchiveHours, cfg: Settings, due: seq<Hour>,
    env: Hour -> Env)
    returns (reports: seq<Report>)
    requires Dedup.NoRepeats(due)
    requires forall h :: h in due ==> HourEnd(h) <= cfg.now
    modifies archive, lake, ledger
    ensures WorldOf(archive, lake, ledger) == PassWorld(cfg, env, old(WorldOf(archive, lake, ledger)), due)
    ensures reports == Outcomes(cfg, env, old(WorldOf(archive, lake, ledger)), due)
  {
    ghost var w := WorldOf(archive, lake, ledger);
    reports := [];
    for i := 0 to |due|
      invariant WorldOf(archive, lake, ledger) == PassWorld(cfg, env, w, due[..i])
      invariant reports == Outcomes(cfg, env, w, due[..i])
    {
      reports := IngestNext(archive, lake, ledger, cfg, due, i, env, reports, w);
    }
    assert due[..|due|] == due;
  }

  method IngestNext(
    archive: ArchiveDir, lake: LakeDir, ledger: ArchiveHours, cfg: Settings, due: seq<Hour>, i: nat,
    env: Hour -> Env, before: seq<Report>, ghost w: World)
    returns (reports: seq<Report>)
    requires Dedup.NoRepeats(due) && i < |due| && HourEnd(due[i]) <= cfg.now
    requires WorldOf(archive, lake, ledger) == PassWorld(cfg, env, w, due[..i])
    requires before == Outcomes(cfg, env, w, due[..i])
    modifies archive, lake, ledger
    ensures WorldOf(archive, lake, ledger) == PassWorld(cfg, env, w, due[..i + 1])
    ensures reports == Outcomes(cfg, env, w, due[..i + 1])
  {
    var h := due[i];
    PassNext(cfg, env, w, due, i);
    var attempt := IngestHour(h, archive, lake, ledger, cfg, env(h));
    reports := before + [attempt.value];
  }

  lemma PassNext(cfg: Settings, env: Hour -> Env, w: World, due: seq<Hour>, i: nat)
    requires Dedup.NoRepeats(due) && i < |due|
    ensures var v := PassWorld(cfg, env, w, due[..i]);
            var (cell, report) := IngestCell(cfg, due[i], CellAt(v, due[i]), env(due[i]));
            && PassWorld(cfg, env, w, due[..i + 1]) == Put(v, due[i], cell)
            && Outcomes(cfg, env, w, due[..i + 1]) == Outcomes(cfg, env, w, due[..i]) + [report]
  {
    assert due[..i + 1][..i] == due[..i];
    PassCells(cfg, env, w, due[..i], due[i]);
  }
}
