/**
 What a repair leaves behind, hour by hour.

 RepairedWorld is the world with the false claims gone and those hours ingested again. The lemmas
 say when that passes the next verify and that nothing else moves; RepairUnbacked is proved to
 end there, with a report that accounts for every target.
 */
module Repair {
  import opened Wrappers
  import opened Hours
  import opened Ledger
  import opened Archive
  import opened Lake
  import opened Ingest
  import opened Converge
  import opened Verify
  import opened Session

  datatype Reconciliation = Reconciliation(
    hour: Hour, claimedEvents: nat, problem: Problem, outcome: Option<Status>, actualEvents: Option<nat>)
  {
    predicate Recovered() {
      outcome == Some(Ingested)
    }

    predicate Agrees() {
      Recovered() && actualEvents == Some(claimedEvents)
    }
  }

  datatype RepairReport = RepairReport(
    dryRun: bool, unbacked: seq<Finding>, unclearable: seq<Hour>, reconciliations: seq<Reconciliation>)
  {
    predicate Ok() {
      if dryRun then unbacked == []
      else unclearable == [] && forall r | r in reconciliations :: r.Recovered()
    }
  }

  /** The table's CHECK on every row. */
  ghost predicate AllCounted(rows: Rows) {
    forall h :: IngestedAt(rows, h) ==> rows[h].events.Some?
  }

  /** The hours a repair at this setting goes after. */
  ghost predicate IsTarget(w: World, counts: bool, h: Hour) {
    IngestedAt(w.rows, h) && !ClaimHolds(h, w.rows[h], w.files, counts)
  }

  /** The world once the false claims are gone; vanished is what another writer removed first. */
  ghost function Cleared(w: World, targets: set<Hour>, vanished: set<Hour>): World {
    w.(rows := Forget(w.rows - vanished, targets))
  }

  ghost function TargetsOf(f: seq<Finding>): set<Hour> {
    set h | h in HoursOf(f)
  }

  lemma TargetsAre(w: World, counts: bool, listing: seq<Hour>, h: Hour)
    ensures h in TargetsOf(OnlyUnbacked(FindingsOf(w.rows, w.files, counts, listing)))
            <==> IsTarget(w, counts, h)
  {
    UnbackedHours(w.rows, w.files, counts, listing, h);
  }

  lemma ClearedCell(w: World, targets: set<Hour>, vanished: set<Hour>, h: Hour)
    ensures CellAt(Cleared(w, targets, vanished), h)
         == if h in vanished || (h in targets && IngestedAt(w.rows, h)) then CellAt(w, h).(row := None)
            else CellAt(w, h)
  {
  }

  /** An ingest of an hour with no row that reports success leaves a claim its own file backs. */
  lemma FreshClaimIsBacked(cfg: Settings, h: Hour, cell: Cell, env: Env)
    requires cell.row.None?
    requires IngestCell(cfg, h, cell, env).1.status == Some(Ingested)
    ensures var (c, report) := IngestCell(cfg, h, cell, env);
            && c.row.Some? && c.row.value.status.Ingested? && c.row.value.recordedAt == cfg.now
            && c.file.Some? && Describes(c.row.value, c.file, h)
            && report.events == Some(|c.file.value.stamps|)
            && SourceInUse(cell.source, env.answer).Some?
            && Convert(SourceInUse(cell.source, env.answer).value, h) == Ok(c.file.value)
  {
    var source := SourceInUse(cell.source, env.answer).value;
    assert Convert(source, h).Ok?;
    if source.Readable? {
      VerifyHourMeans(source.stamps, h);
    }
  }

  /**
   Where the repair ends: the cleared hours that have closed ingested again, oldest first. An
   hour whose end is still to come raises when it is reached, and stays cleared.
   */
  ghost function RepairedWorld(
    cfg: Settings, env: Hour -> Env, w: World, targets: set<Hour>, vanished: set<Hour>): World
  {
    PassWorld(cfg, env, Cleared(w, targets, vanished), Refetched(cfg, w, targets, vanished))
  }

  ghost function Refetched(cfg: Settings, w: World, targets: set<Hour>, vanished: set<Hour>): seq<Hour> {
    Closed(Sorted(Forgotten(w.rows - vanished, targets)), cfg.now)
  }

  lemma RepairedCell(
    cfg: Settings, env: Hour -> Env, w: World, targets: set<Hour>, vanished: set<Hour>, h: Hour)
    ensures CellAt(RepairedWorld(cfg, env, w, targets, vanished), h)
         == if h in vanished then CellAt(w, h).(row := None)
            else if h in targets && IngestedAt(w.rows, h)
                 then if HourEnd(h) <= cfg.now
                      then IngestCell(cfg, h, CellAt(w, h).(row := None), env(h)).0
                      else CellAt(w, h).(row := None)
            else CellAt(w, h)
  {
    var removed := Forgotten(w.rows - vanished, targets);
    ClosedIs(Sorted(removed), cfg.now);
    IncreasingNoRepeats(Refetched(cfg, w, targets, vanished));
    PassCells(cfg, env, Cleared(w, targets, vanished), Refetched(cfg, w, targets, vanished), h);
    ClearedCell(w, targets, vanished, h);
    assert h in Sorted(removed) <==> h in removed;
  }

  /** Nothing outside the targets is touched: no backed, missing or failed row, no file, no source. */
  lemma OthersUntouched(
    cfg: Settings, env: Hour -> Env, w: World, counts: bool, targets: set<Hour>, vanished: set<Hour>, h: Hour)
    requires forall k :: k in targets <==> IsTarget(w, counts, k)
    requires h !in vanished && !IsTarget(w, counts, h)
    ensures CellAt(RepairedWorld(cfg, env, w, targets, vanished), h) == CellAt(w, h)
  {
    RepairedCell(cfg, env, w, targets, vanished, h);
  }

  /** The row each reconciliation speaks of, and what it came back as. */
  ghost predicate Reconciles(
    r: Reconciliation, cfg: Settings, env: Hour -> Env, w: World, counts: bool)
  {
    && IsTarget(w, counts, r.hour)
    && w.rows[r.hour].events == Some(r.claimedEvents)
    && IsProblem(r.hour, w.rows[r.hour], w.files, counts, r.problem)
    && var report := IngestCell(cfg, r.hour, CellAt(w, r.hour).(row := None), env(r.hour)).1;
       r.outcome == report.status && r.actualEvents == report.events
  }

  /** Each target is in exactly one of the two lists, once, and nothing else is. */
  ghost predicate SplitsTargets(
    reconciled: seq<Hour>, unclearable: seq<Hour>, w: World, counts: bool, vanished: set<Hour>)
  {
    && Increasing(reconciled) && Increasing(unclearable)
    && (forall h :: h in reconciled <==> IsTarget(w, counts, h) && h !in vanished)
    && (forall h :: h in unclearable <==> IsTarget(w, counts, h) && h in vanished)
  }

  /**
   The report of a repair that was not a dry run: the targets split exactly into the hours
   reconciled and the hours that could not be cleared, each listed once.
   */
  ghost predicate Accounts(
    report: RepairReport, cfg: Settings, env: Hour -> Env, w: World, counts: bool, vanished: set<Hour>)
  {
    && !report.dryRun
    && (forall h :: IsTarget(w, counts, h) && h !in vanished ==> HourEnd(h) <= cfg.now)
    && SplitsTargets(ReconciledHours(report.reconciliations), report.unclearable, w, counts, vanished)
    && (forall r :: r in report.reconciliations ==> Reconciles(r, cfg, env, w, counts))
  }

  function ReconciledHours(rs: seq<Reconciliation>): seq<Hour> {
    seq(|rs|, i requires 0 <= i < |rs| => rs[i].hour)
  }

  /**
   Repair heals: when the report is ok, every target holds an ingested row, recorded now, that
   describes the file just converted at its path.
   */
  lemma RepairHeals(
    report: RepairReport, cfg: Settings, env: Hour -> Env, w: World, counts: bool,
    targets: set<Hour>, vanished: set<Hour>, h: Hour)
    requires Accounts(report, cfg, env, w, counts, vanished) && report.Ok()
    requires forall k :: k in targets <==> IsTarget(w, counts, k)
    requires IsTarget(w, counts, h)
    ensures var after := RepairedWorld(cfg, env, w, targets, vanished);
            && IngestedAt(after.rows, h) && after.rows[h].recordedAt == cfg.now
            && h in after.files && Describes(after.rows[h], Some(after.files[h]), h)
            && SourceInUse(Look(w.sources, h), env(h).answer).Some?
            && Convert(SourceInUse(Look(w.sources, h), env(h).answer).value, h) == Ok(after.files[h])
  {
    var after := RepairedWorld(cfg, env, w, targets, vanished);
    assert h !in report.unclearable;
    var i :| 0 <= i < |report.reconciliations| && ReconciledHours(report.reconciliations)[i] == h;
    var r := report.reconciliations[i];
    assert r in report.reconciliations && Reconciles(r, cfg, env, w, counts) && r.Recovered();
    RepairedCell(cfg, env, w, targets, vanished, h);
    FreshClaimIsBacked(cfg, h, CellAt(w, h).(row := None), env(h));
    assert CellAt(after, h).row == Look(after.rows, h);
    assert CellAt(after, h).file == Look(after.files, h);
  }

  /** After an ok repair, verifying presence and size finds nothing unbacked. */
  lemma VerifyPassesAfterRepair(
    report: RepairReport, cfg: Settings, env: Hour -> Env, w: World, counts: bool,
    targets: set<Hour>, vanished: set<Hour>, listing: seq<Hour>)
    requires Accounts(report, cfg, env, w, counts, vanished) && report.Ok()
    requires forall k :: k in targets <==> IsTarget(w, counts, k)
    ensures var after := RepairedWorld(cfg, env, w, targets, vanished);
            OnlyUnbacked(FindingsOf(after.rows, after.files, false, listing)) == []
  {
    var after := RepairedWorld(cfg, env, w, targets, vanished);
    forall h | IngestedAt(after.rows, h)
      ensures ClaimHolds(h, after.rows[h], after.files, false)
    {
      ClaimHoldsAfter(report, cfg, env, w, counts, targets, vanished, h);
    }
    OkMeansEveryClaimHolds(after.rows, after.files, false, listing);
  }

  lemma ClaimHoldsAfter(
    report: RepairReport, cfg: Settings, env: Hour -> Env, w: World, counts: bool,
    targets: set<Hour>, vanished: set<Hour>, h: Hour)
    requires Accounts(report, cfg, env, w, counts, vanished) && report.Ok()
    requires forall k :: k in targets <==> IsTarget(w, counts, k)
    requires IngestedAt(RepairedWorld(cfg, env, w, targets, vanished).rows, h)
    ensures var after := RepairedWorld(cfg, env, w, targets, vanished);
            ClaimHolds(h, after.rows[h], after.files, false)
    ensures var after := RepairedWorld(cfg, env, w, targets, vanished);
            IsTarget(w, counts, h) ==> Describes(after.rows[h], Look(after.files, h), h)
    ensures var after := RepairedWorld(cfg, env, w, targets, vanished);
            !IsTarget(w, counts, h) ==>
              IngestedAt(w.rows, h) && after.rows[h] == w.rows[h] && Look(after.files, h) == Look(w.files, h)
  {
    var after := RepairedWorld(cfg, env, w, targets, vanished);
    assert CellAt(after, h).row == Look(after.rows, h) && CellAt(w, h).row == Look(w.rows, h);
    assert CellAt(after, h).file == Look(after.files, h) && CellAt(w, h).file == Look(w.files, h);
    RepairedCell(cfg, env, w, targets, vanished, h);
    if IsTarget(w, counts, h) {
      RepairHeals(report, cfg, env, w, counts, targets, vanished, h);
    }
  }

  /** The source the repair will convert for the hour holds no event at all. */
  ghost predicate EmptySource(env: Hour -> Env, w: World, h: Hour) {
    var source := SourceInUse(Look(w.sources, h), env(h).answer);
    source.Some? && source.value.Readable? && source.value.stamps == []
  }

  /**
   With event counts compared as well, an ok repair of a correctly filed lake passes the next
   verify exactly when no target's source is empty, which can be looked at before the repair: an
   hour without an event has no group in the count, so its claim always reads as a finding.
   */
  lemma VerifyCountsAfterRepair(
    report: RepairReport, cfg: Settings, env: Hour -> Env, w: World,
    targets: set<Hour>, vanished: set<Hour>, listing: seq<Hour>)
    requires Accounts(report, cfg, env, w, true, vanished) && report.Ok()
    requires forall k :: k in targets <==> IsTarget(w, true, k)
    requires CorrectlyFiled(w.files)
    ensures var after := RepairedWorld(cfg, env, w, targets, vanished);
            OnlyUnbacked(FindingsOf(after.rows, after.files, true, listing)) == []
            <==> forall h :: IsTarget(w, true, h) ==> !EmptySource(env, w, h)
  {
    var after := RepairedWorld(cfg, env, w, targets, vanished);
    StaysCorrectlyFiled(cfg, env, w, targets, vanished);
    forall h
      ensures IngestedAt(after.rows, h) ==>
        (ClaimHolds(h, after.rows[h], after.files, true) <==> !(IsTarget(w, true, h) && EmptySource(env, w, h)))
      ensures IsTarget(w, true, h) ==> IngestedAt(after.rows, h)
    {
      CountedClaim(report, cfg, env, w, targets, vanished, h);
    }
    OkMeansEveryClaimHolds(after.rows, after.files, true, listing);
  }

  /** One hour after an ok counting repair. */
  lemma CountedClaim(
    report: RepairReport, cfg: Settings, env: Hour -> Env, w: World,
    targets: set<Hour>, vanished: set<Hour>, h: Hour)
    requires Accounts(report, cfg, env, w, true, vanished) && report.Ok()
    requires forall k :: k in targets <==> IsTarget(w, true, k)
    requires CorrectlyFiled(w.files) && CorrectlyFiled(RepairedWorld(cfg, env, w, targets, vanished).files)
    ensures var after := RepairedWorld(cfg, env, w, targets, vanished);
            && (IsTarget(w, true, h) ==> IngestedAt(after.rows, h))
            && (IngestedAt(after.rows, h) ==>
                  (ClaimHolds(h, after.rows[h], after.files, true)
                   <==> !(IsTarget(w, true, h) && EmptySource(env, w, h))))
  {
    var after := RepairedWorld(cfg, env, w, targets, vanished);
    if IsTarget(w, true, h) {
      RepairHeals(report, cfg, env, w, true, targets, vanished, h);
      FreshCount(after, h, SourceInUse(Look(w.sources, h), env(h).answer).value);
    } else if IngestedAt(after.rows, h) {
      ClaimHoldsAfter(report, cfg, env, w, true, targets, vanished, h);
      KeptCount(w, after, h);
    }
  }

  /** A claim that describes a freshly converted file holds unless the source was empty. */
  lemma FreshCount(after: World, h: Hour, source: Source)
    requires CorrectlyFiled(after.files) && IngestedAt(after.rows, h) && h in after.files
    requires Describes(after.rows[h], Some(after.files[h]), h) && Convert(source, h) == Ok(after.files[h])
    ensures source.Readable?
    ensures ClaimHolds(h, after.rows[h], after.files, true) <==> source.stamps != []
  {
    LakeCountOwn(after.files, h);
  }

  /** A claim that held keeps holding when neither its row nor its file changes. */
  lemma KeptCount(w: World, after: World, h: Hour)
    requires CorrectlyFiled(w.files) && CorrectlyFiled(after.files)
    requires IngestedAt(w.rows, h) && ClaimHolds(h, w.rows[h], w.files, true)
    requires IngestedAt(after.rows, h) && after.rows[h] == w.rows[h] && Look(after.files, h) == Look(w.files, h)
    ensures ClaimHolds(h, after.rows[h], after.files, true)
  {
    LakeCountOwn(after.files, h);
    LakeCountOwn(w.files, h);
  }

  /** Converting an empty source succeeds and claims no event. */
  lemma EmptyIngest(cfg: Settings, h: Hour, cell: Cell, env: Env)
    requires cell.row.None? && SourceInUse(cell.source, env.answer).Some?
    requires var source := SourceInUse(cell.source, env.answer).value;
             source.Readable? && source.stamps == []
    ensures var (c, report) := IngestCell(cfg, h, cell, env);
            && report.status == Some(Ingested)
            && c.row.Some? && c.row.value.status.Ingested? && c.row.value.events == Some(0)
  {
  }

  /**
   The failing input: a target whose source in use is empty is reported recovered, and the next
   counting repair makes it a target again.
   */
  lemma EmptyHourIsTargetAgain(
    cfg: Settings, env: Hour -> Env, w: World, targets: set<Hour>, vanished: set<Hour>, h: Hour)
    requires forall k :: k in targets <==> IsTarget(w, true, k)
    requires IsTarget(w, true, h) && h !in vanished && HourEnd(h) <= cfg.now
    requires EmptySource(env, w, h)
    ensures IngestCell(cfg, h, CellAt(w, h).(row := None), env(h)).1.status == Some(Ingested)
    ensures IsTarget(RepairedWorld(cfg, env, w, targets, vanished), true, h)
  {
    var after := RepairedWorld(cfg, env, w, targets, vanished);
    RepairedCell(cfg, env, w, targets, vanished, h);
    EmptyIngest(cfg, h, CellAt(w, h).(row := None), env(h));
    assert CellAt(after, h).row == Look(after.rows, h);
  }

  /** From no row, an attempt leaves an ingested one exactly when it reports so, with its count. */
  lemma FreshRow(cfg: Settings, h: Hour, cell: Cell, env: Env)
    requires cell.row.None?
    ensures var (c, report) := IngestCell(cfg, h, cell, env);
            && (report.status == Some(Ingested) <==> c.row.Some? && c.row.value.status.Ingested?)
            && (report.status == Some(Ingested) ==> c.row.value.events == report.events)
  {
  }

  /** A comparison that agrees is the deleted row's count standing again in the ledger. */
  lemma AgreesMeans(
    report: RepairReport, cfg: Settings, env: Hour -> Env, w: World, counts: bool,
    targets: set<Hour>, vanished: set<Hour>, r: Reconciliation)
    requires Accounts(report, cfg, env, w, counts, vanished) && r in report.reconciliations
    requires forall k :: k in targets <==> IsTarget(w, counts, k)
    ensures var after := RepairedWorld(cfg, env, w, targets, vanished);
            r.Agrees() <==> IngestedAt(after.rows, r.hour) && after.rows[r.hour].events == w.rows[r.hour].events
  {
    var after := RepairedWorld(cfg, env, w, targets, vanished);
    ReconciledHour(report, cfg, env, w, counts, vanished, r);
    RepairedCell(cfg, env, w, targets, vanished, r.hour);
    FreshRow(cfg, r.hour, CellAt(w, r.hour).(row := None), env(r.hour));
    assert CellAt(after, r.hour).row == Look(after.rows, r.hour);
  }

  /**
   What ok says of a repair that was not a dry run: every target could be cleared and stands in
   the ledger as ingested again. A count that came back different is no failure.
   */
  lemma OkMeans(
    report: RepairReport, cfg: Settings, env: Hour -> Env, w: World, counts: bool,
    targets: set<Hour>, vanished: set<Hour>)
    requires Accounts(report, cfg, env, w, counts, vanished)
    requires forall k :: k in targets <==> IsTarget(w, counts, k)
    ensures var after := RepairedWorld(cfg, env, w, targets, vanished);
            report.Ok() <==> forall h :: IsTarget(w, counts, h) ==> h !in vanished && IngestedAt(after.rows, h)
  {
    var after := RepairedWorld(cfg, env, w, targets, vanished);
    forall r | r in report.reconciliations
      ensures IsTarget(w, counts, r.hour) && r.hour !in vanished
      ensures r.Recovered() <==> IngestedAt(after.rows, r.hour)
    {
      RecoveredMeans(report, cfg, env, w, counts, targets, vanished, r);
    }
    HeadIsIn(report.unclearable);
    forall h | IsTarget(w, counts, h) && h !in vanished
      ensures exists r :: r in report.reconciliations && r.hour == h
    {
      var i :| 0 <= i < |report.reconciliations| && ReconciledHours(report.reconciliations)[i] == h;
      assert report.reconciliations[i] in report.reconciliations;
    }
  }

  lemma RecoveredMeans(
    report: RepairReport, cfg: Settings, env: Hour -> Env, w: World, counts: bool,
    targets: set<Hour>, vanished: set<Hour>, r: Reconciliation)
    requires Accounts(report, cfg, env, w, counts, vanished) && r in report.reconciliations
    requires forall k :: k in targets <==> IsTarget(w, counts, k)
    ensures IsTarget(w, counts, r.hour) && r.hour !in vanished
    ensures r.Recovered() <==> IngestedAt(RepairedWorld(cfg, env, w, targets, vanished).rows, r.hour)
  {
    var after := RepairedWorld(cfg, env, w, targets, vanished);
    ReconciledHour(report, cfg, env, w, counts, vanished, r);
    RepairedCell(cfg, env, w, targets, vanished, r.hour);
    FreshRow(cfg, r.hour, CellAt(w, r.hour).(row := None), env(r.hour));
    assert CellAt(after, r.hour).row == Look(after.rows, r.hour);
  }

  lemma ReconciledHour(
    report: RepairReport, cfg: Settings, env: Hour -> Env, w: World, counts: bool, vanished: set<Hour>,
    r: Reconciliation)
    requires Accounts(report, cfg, env, w, counts, vanished) && r in report.reconciliations
    ensures IsTarget(w, counts, r.hour) && r.hour !in vanished && HourEnd(r.hour) <= cfg.now
    ensures Reconciles(r, cfg, env, w, counts)
  {
    var i :| 0 <= i < |report.reconciliations| && report.reconciliations[i] == r;
    assert ReconciledHours(report.reconciliations)[i] == r.hour;
  }

  lemma StaysCorrectlyFiled(cfg: Settings, env: Hour -> Env, w: World, targets: set<Hour>, vanished: set<Hour>)
    requires CorrectlyFiled(w.files)
    ensures CorrectlyFiled(RepairedWorld(cfg, env, w, targets, vanished).files)
  {
    var after := RepairedWorld(cfg, env, w, targets, vanished);
    forall k | k in after.files
      ensures OnlyHolds(after.files[k].stamps, k)
    {
      RepairedCell(cfg, env, w, targets, vanished, k);
      assert CellAt(after, k).file == Some(after.files[k]) && CellAt(w, k).file == Look(w.files, k);
      IngestKeepsFiled(cfg, k, CellAt(w, k).(row := None), env(k));
    }
  }

  lemma IngestKeepsFiled(cfg: Settings, h: Hour, cell: Cell, env: Env)
    requires FileIsOwn(cell, h)
    ensures FileIsOwn(IngestCell(cfg, h, cell, env).0, h)
  {
    if cell.source.Some? && cell.source.value.Readable? {
      VerifyHourMeans(cell.source.value.stamps, h);
    }
    if env.answer.Body? && env.answer.source.Readable? {
      VerifyHourMeans(env.answer.source.stamps, h);
    }
  }

  // ---- the routine --------------------------------------------------------------------------

  method RepairUnbacked(
    archive: ArchiveDir, lake: LakeDir, ledger: ArchiveHours, cfg: Settings, concurrency: int,
    dryRun: bool, checkCounts: bool, listing: seq<Hour>, env: Hour -> Env, vanished: set<Hour>)
    returns (r: Result<RepairReport, string>)
    requires AllCounted(ledger.rows)
    modifies archive, lake, ledger
    ensures var w := old(WorldOf(archive, lake, ledger));
            r.Ok? <==>
              concurrency >= 1
              && (dryRun || forall h :: IsTarget(w, checkCounts, h) && h !in vanished ==> HourEnd(h) <= cfg.now)
    ensures var w := old(WorldOf(archive, lake, ledger));
            var unbacked := OnlyUnbacked(FindingsOf(w.rows, w.files, checkCounts, listing));
            && (r.Ok? ==> r.value.unbacked == unbacked && r.value.dryRun == dryRun)
            && (r.Ok? && (dryRun || unbacked == []) ==> r.value == RepairReport(dryRun, unbacked, [], []))
            && (concurrency < 1 || dryRun || unbacked == [] ==> WorldOf(archive, lake, ledger) == w)
            && (concurrency >= 1 && !dryRun && unbacked != [] ==>
                  WorldOf(archive, lake, ledger) == RepairedWorld(cfg, env, w, TargetsOf(unbacked), vanished))
            && (r.Ok? && !dryRun && unbacked != [] ==> Accounts(r.value, cfg, env, w, checkCounts, vanished))
    ensures var w := old(WorldOf(archive, lake, ledger));
            && (r.Ok? && dryRun ==> (r.value.Ok() <==> forall h :: !IsTarget(w, checkCounts, h)))
            && (r.Ok? && !dryRun ==>
                  (r.value.Ok() <==> forall h :: IsTarget(w, checkCounts, h) ==>
                                       h !in vanished && IngestedAt(ledger.rows, h)))
  {
    if concurrency < 1 {
      return Err("concurrency must be at least 1");
    }
    ghost var w := WorldOf(archive, lake, ledger);
    var claims := ledger.rows;
    var verified := VerifyLake(ledger, lake, checkCounts, listing);
    var unbacked := verified.UnbackedFindings();
    NoTargets(w, checkCounts, listing);
    if unbacked == [] || dryRun {
      return Ok(RepairReport(dryRun, unbacked, [], []));
    }
    var targets := HoursOf(unbacked);
    ledger.RowsVanish(vanished);
    var removed := ledger.ForgetIngestedHours(targets);
    var unclearable := NotIn(targets, removed);
    var again := Sorted(removed);
    assert WorldOf(archive, lake, ledger) == Cleared(w, TargetsOf(unbacked), vanished);
    RemovedHaveClaims(w, checkCounts, listing, vanished);
    var reports := Refetch(archive, lake, ledger, cfg, again, env);
    if reports.Err? {
      return Err(reports.error);
    }
    var report := RepairReport(false, unbacked, unclearable,
                               Reconcile(claims, unbacked, again, reports.value));
    ReportAccounts(cfg, env, w, checkCounts, listing, vanished, again, reports.value);
    TargetSet(w, checkCounts, listing);
    OkMeans(report, cfg, env, w, checkCounts, TargetsOf(unbacked), vanished);
    return Ok(report);
  }

  lemma TargetSet(w: World, counts: bool, listing: seq<Hour>)
    ensures forall h :: h in TargetsOf(OnlyUnbacked(FindingsOf(w.rows, w.files, counts, listing)))
                        <==> IsTarget(w, counts, h)
  {
    forall h
      ensures h in TargetsOf(OnlyUnbacked(FindingsOf(w.rows, w.files, counts, listing))) <==> IsTarget(w, counts, h)
    {
      TargetsAre(w, counts, listing, h);
    }
  }

  lemma NoTargets(w: World, counts: bool, listing: seq<Hour>)
    ensures OnlyUnbacked(FindingsOf(w.rows, w.files, counts, listing)) == []
            <==> forall h :: !IsTarget(w, counts, h)
  {
    OkMeansEveryClaimHolds(w.rows, w.files, counts, listing);
    assert forall h :: IsTarget(w, counts, h) <==> IngestedAt(w.rows, h) && !ClaimHolds(h, w.rows[h], w.files, counts);
  }

  /** The hours removed are targets of the ledger as it was read, and each carried a count. */
  lemma RemovedHaveClaims(w: World, counts: bool, listing: seq<Hour>, vanished: set<Hour>)
    requires AllCounted(w.rows)
    ensures var f := OnlyUnbacked(FindingsOf(w.rows, w.files, counts, listing));
            var again := Sorted(Forgotten(w.rows - vanished, TargetsOf(f)));
            && HasClaims(w.rows, again)
            && forall h :: h in again <==> IsTarget(w, counts, h) && h !in vanished
  {
    var f := OnlyUnbacked(FindingsOf(w.rows, w.files, counts, listing));
    var again := Sorted(Forgotten(w.rows - vanished, TargetsOf(f)));
    forall h
      ensures h in again <==> IsTarget(w, counts, h) && h !in vanished
    {
      RemovedAre(w, counts, listing, vanished, h);
    }
    forall i | 0 <= i < |again|
      ensures again[i] in w.rows && w.rows[again[i]].events.Some?
    {
      assert again[i] in again;
    }
  }

  /** Ingest each hour again, oldest first; the first that has not closed raises. */
  method Refetch(
    archive: ArchiveDir, lake: LakeDir, ledger: ArchiveHours, cfg: Settings, again: seq<Hour>, env: Hour -> Env)
    returns (r: Result<seq<Report>, string>)
    requires Increasing(again)
    modifies archive, lake, ledger
    ensures WorldOf(archive, lake, ledger)
         == PassWorld(cfg, env, old(WorldOf(archive, lake, ledger)), Closed(again, cfg.now))
    ensures r.Ok? <==> forall h :: h in again ==> HourEnd(h) <= cfg.now
    ensures r.Ok? ==> r.value == Outcomes(cfg, env, old(WorldOf(archive, lake, ledger)), again)
  {
    ghost var w := WorldOf(archive, lake, ledger);
    IncreasingNoRepeats(again);
    var reports: seq<Report> := [];
    for i := 0 to |again|
      invariant WorldOf(archive, lake, ledger) == PassWorld(cfg, env, w, again[..i])
      invariant reports == Outcomes(cfg, env, w, again[..i])
      invariant forall k :: 0 <= k < i ==> HourEnd(again[k]) <= cfg.now
    {
      if HourEnd(again[i]) > cfg.now {
        ClosedIsPrefix(again, cfg.now, i);
        var refused := IngestHour(again[i], archive, lake, ledger, cfg, env(again[i]));
        assert again[i] in again;
        return Err(refused.error);
      }
      reports := IngestNext(archive, lake, ledger, cfg, again, i, env, reports, w);
    }
    assert again[..|again|] == again;
    ClosedIsPrefix(again, cfg.now, |again|);
    return Ok(reports);
  }

  lemma {:induction false} AllClosed(hours: seq<Hour>, now: Instant)
    requires forall k :: 0 <= k < |hours| ==> HourEnd(hours[k]) <= now
    ensures Closed(hours, now) == hours
  {
    if hours != [] {
      AllClosed(hours[..|hours| - 1], now);
    }
  }

  lemma ClosedStops(less: seq<Hour>, last: Hour, now: Instant)
    requires HourEnd(last) > now
    ensures Closed(less + [last], now) == Closed(less, now)
  {
    assert (less + [last])[..|less|] == less;
  }

  lemma {:induction false} ClosedUpTo(hours: seq<Hour>, now: Instant, n: nat, m: nat)
    requires n <= m <= |hours|
    requires forall k :: 0 <= k < m ==> (HourEnd(hours[k]) <= now <==> k < n)
    ensures Closed(hours[..m], now) == hours[..n]
  {
    if m == n {
      AllClosed(hours[..n], now);
    } else {
      ClosedUpTo(hours, now, n, m - 1);
      ClosedStops(hours[..m - 1], hours[m - 1], now);
      assert hours[..m] == hours[..m - 1] + [hours[m - 1]];
    }
  }

  /** Hours close in order, so those of an increasing list that have closed are a prefix of it. */
  lemma ClosedIsPrefix(hours: seq<Hour>, now: Instant, n: nat)
    requires Increasing(hours) && n <= |hours|
    requires forall k :: 0 <= k < n ==> HourEnd(hours[k]) <= now
    requires n < |hours| ==> HourEnd(hours[n]) > now
    ensures Closed(hours, now) == hours[..n]
  {
    forall k | n <= k < |hours|
      ensures HourEnd(hours[k]) > now
    {
      assert n < k ==> hours[n] < hours[k];
    }
    ClosedUpTo(hours, now, n, |hours|);
    assert hours[..|hours|] == hours;
  }

  /** The elements of s outside t, in order. */
  function NotIn(s: seq<Hour>, t: set<Hour>): seq<Hour> {
    if s == [] then []
    else NotIn(s[..|s| - 1], t) + (if s[|s| - 1] in t then [] else [s[|s| - 1]])
  }

  lemma {:induction false} NotInIs(s: seq<Hour>, t: set<Hour>)
    requires Increasing(s)
    ensures Increasing(NotIn(s, t))
    ensures forall h :: h in NotIn(s, t) <==> h in s && h !in t
  {
    if s != [] {
      NotInIs(s[..|s| - 1], t);
      assert s == s[..|s| - 1] + [s[|s| - 1]];
      var before := NotIn(s[..|s| - 1], t);
      assert forall i :: 0 <= i < |before| ==> before[i] in before;
    }
  }

  /** The problem verify named for an hour. */
  function ProblemOf(unbacked: seq<Finding>, h: Hour): Problem {
    if unbacked == [] then Absent
    else if unbacked[|unbacked| - 1].hour == h then unbacked[|unbacked| - 1].problem
    else ProblemOf(unbacked[..|unbacked| - 1], h)
  }

  lemma {:induction false} ProblemOfIs(unbacked: seq<Finding>, h: Hour)
    requires h in HoursOf(unbacked)
    ensures Finding(h, ProblemOf(unbacked, h)) in unbacked
  {
    var n := |unbacked| - 1;
    if unbacked[n].hour != h {
      var i :| 0 <= i < |unbacked| && HoursOf(unbacked)[i] == h;
      assert HoursOf(unbacked[..n])[i] == h;
      ProblemOfIs(unbacked[..n], h);
    } else {
      assert unbacked[n] == Finding(h, unbacked[n].problem);
    }
  }

  /** The claims read before the check carry a count for every hour in the list. */
  ghost predicate HasClaims(claims: Rows, hours: seq<Hour>) {
    forall i :: 0 <= i < |hours| ==> hours[i] in claims && claims[hours[i]].events.Some?
  }

  function Reconcile(claims: Rows, unbacked: seq<Finding>, again: seq<Hour>, reports: seq<Report>): seq<Reconciliation>
    requires |again| == |reports| && HasClaims(claims, again)
  {
    seq(|again|, i requires 0 <= i < |again| =>
      Reconciliation(again[i], claims[again[i]].events.value, ProblemOf(unbacked, again[i]),
                     reports[i].status, reports[i].events))
  }

  /** What was removed is the targets nobody else removed first. */
  lemma RemovedAre(w: World, counts: bool, listing: seq<Hour>, vanished: set<Hour>, h: Hour)
    ensures var f := OnlyUnbacked(FindingsOf(w.rows, w.files, counts, listing));
            && (h in HoursOf(f) <==> IsTarget(w, counts, h))
            && (h in Forgotten(w.rows - vanished, TargetsOf(f)) <==> IsTarget(w, counts, h) && h !in vanished)
  {
    TargetsAre(w, counts, listing, h);
  }

  /** Each line of the comparison speaks of its own hour. */
  lemma ReconcileIs(
    cfg: Settings, env: Hour -> Env, w: World, counts: bool, listing: seq<Hour>, vanished: set<Hour>,
    again: seq<Hour>, i: nat)
    requires HasClaims(w.rows, again) && i < |again|
    requires IsTarget(w, counts, again[i])
    ensures var f := OnlyUnbacked(FindingsOf(w.rows, w.files, counts, listing));
            var cleared := Cleared(w, TargetsOf(f), vanished);
            Reconciles(Reconcile(w.rows, f, again, Outcomes(cfg, env, cleared, again))[i], cfg, env, w, counts)
  {
    var f := OnlyUnbacked(FindingsOf(w.rows, w.files, counts, listing));
    UnbackedAreClaimFindings(w.rows, w.files, counts, listing);
    TargetsAre(w, counts, listing, again[i]);
    ProblemOfIs(f, again[i]);
    ClaimFindingsAre(w.rows, w.files, counts, Claims(w.rows));
    CheckFinds(again[i], w.rows[again[i]], w.files, counts, ProblemOf(f, again[i]));
    ClearedCell(w, TargetsOf(f), vanished, again[i]);
  }

  /** The comparison is listed in the order the hours were fetched again. */
  lemma ReconcileHours(claims: Rows, unbacked: seq<Finding>, again: seq<Hour>, reports: seq<Report>)
    requires |again| == |reports| && HasClaims(claims, again)
    ensures ReconciledHours(Reconcile(claims, unbacked, again, reports)) == again
  {
  }

  /** The report a repair ends with when every hour it cleared had closed. */
  lemma ReportAccounts(
    cfg: Settings, env: Hour -> Env, w: World, counts: bool, listing: seq<Hour>, vanished: set<Hour>,
    again: seq<Hour>, reports: seq<Report>)
    requires HasClaims(w.rows, again) && forall h :: h in again ==> HourEnd(h) <= cfg.now
    requires var f := OnlyUnbacked(FindingsOf(w.rows, w.files, counts, listing));
             again == Sorted(Forgotten(w.rows - vanished, TargetsOf(f)))
    requires var f := OnlyUnbacked(FindingsOf(w.rows, w.files, counts, listing));
             reports == Outcomes(cfg, env, Cleared(w, TargetsOf(f), vanished), again)
    ensures var f := OnlyUnbacked(FindingsOf(w.rows, w.files, counts, listing));
            var removed := Forgotten(w.rows - vanished, TargetsOf(f));
            Accounts(RepairReport(false, f, NotIn(HoursOf(f), removed), Reconcile(w.rows, f, again, reports)),
                     cfg, env, w, counts, vanished)
  {
    var f := OnlyUnbacked(FindingsOf(w.rows, w.files, counts, listing));
    var removed := Forgotten(w.rows - vanished, TargetsOf(f));
    TargetsSplit(w, counts, listing, vanished);
    AllReconcile(cfg, env, w, counts, listing, vanished, again);
    ReconcileHours(w.rows, f, again, reports);
    AccountsFrom(RepairReport(false, f, NotIn(HoursOf(f), removed), Reconcile(w.rows, f, again, reports)),
                 cfg, env, w, counts, vanished);
  }

  lemma AccountsFrom(
    report: RepairReport, cfg: Settings, env: Hour -> Env, w: World, counts: bool, vanished: set<Hour>)
    requires !report.dryRun
    requires SplitsTargets(ReconciledHours(report.reconciliations), report.unclearable, w, counts, vanished)
    requires forall h :: h in ReconciledHours(report.reconciliations) ==> HourEnd(h) <= cfg.now
    requires forall r :: r in report.reconciliations ==> Reconciles(r, cfg, env, w, counts)
    ensures Accounts(report, cfg, env, w, counts, vanished)
  {
  }

  /** What was removed and what could not be cleared split the targets. */
  lemma TargetsSplit(w: World, counts: bool, listing: seq<Hour>, vanished: set<Hour>)
    ensures var f := OnlyUnbacked(FindingsOf(w.rows, w.files, counts, listing));
            var removed := Forgotten(w.rows - vanished, TargetsOf(f));
            SplitsTargets(Sorted(removed), NotIn(HoursOf(f), removed), w, counts, vanished)
  {
    var f := OnlyUnbacked(FindingsOf(w.rows, w.files, counts, listing));
    var removed := Forgotten(w.rows - vanished, TargetsOf(f));
    UnbackedAreClaimFindings(w.rows, w.files, counts, listing);
    ClaimFindingsIncrease(w.rows, w.files, counts, Claims(w.rows));
    NotInIs(HoursOf(f), removed);
    forall h
      ensures h in Sorted(removed) <==> IsTarget(w, counts, h) && h !in vanished
      ensures h in NotIn(HoursOf(f), removed) <==> IsTarget(w, counts, h) && h in vanished
    {
      RemovedAre(w, counts, listing, vanished, h);
    }
  }

  lemma AllReconcile(
    cfg: Settings, env: Hour -> Env, w: World, counts: bool, listing: seq<Hour>, vanished: set<Hour>,
    again: seq<Hour>)
    requires HasClaims(w.rows, again)
    requires forall h :: h in again ==> IsTarget(w, counts, h)
    ensures var f := OnlyUnbacked(FindingsOf(w.rows, w.files, counts, listing));
            var cleared := Cleared(w, TargetsOf(f), vanished);
            forall r :: r in Reconcile(w.rows, f, again, Outcomes(cfg, env, cleared, again)) ==>
              Reconciles(r, cfg, env, w, counts)
  {
    forall i | 0 <= i < |again|
      ensures var f := OnlyUnbacked(FindingsOf(w.rows, w.files, counts, listing));
              var cleared := Cleared(w, TargetsOf(f), vanished);
              Reconciles(Reconcile(w.rows, f, again, Outcomes(cfg, env, cleared, again))[i], cfg, env, w, counts)
    {
      assert again[i] in again;
      ReconcileIs(cfg, env, w, counts, listing, vanished, again, i);
    }
  }
}
