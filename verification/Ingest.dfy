/**
 One attempt at one hour, whole and in pieces.

 World is everything durable. Cell is the slice of it at one hour, and one ingest touches one
 cell. IngestCell is the whole of it; Phase and StepTask take it apart into the durable effects
 a crash, or another task, can fall between.
 */
module Ingest {
  import opened Wrappers
  import opened Hours
  import opened Ledger
  import opened Archive
  import opened Lake

  // ---- the durable world and its slice at one hour -----------------------------

  datatype World = World(
    sources: map<Hour, Source>,
    sourceParts: map<Hour, Source>,
    files: map<Hour, LakeFile>,
    fileParts: map<Hour, LakeFile>,
    rows: Rows)

  datatype Cell = Cell(
    source: Option<Source>,
    sourcePart: Option<Source>,
    file: Option<LakeFile>,
    filePart: Option<LakeFile>,
    row: Option<Row>)

  const EMPTY_WORLD := World(map[], map[], map[], map[], map[])

  function Set<T>(m: map<Hour, T>, h: Hour, v: Option<T>): map<Hour, T> {
    if v.Some? then m[h := v.value] else m - {h}
  }

  function CellAt(w: World, h: Hour): Cell {
    Cell(Look(w.sources, h), Look(w.sourceParts, h), Look(w.files, h), Look(w.fileParts, h), Look(w.rows, h))
  }

  function Put(w: World, h: Hour, c: Cell): World {
    World(Set(w.sources, h, c.source), Set(w.sourceParts, h, c.sourcePart),
          Set(w.files, h, c.file), Set(w.fileParts, h, c.filePart), Set(w.rows, h, c.row))
  }

  lemma PutThenLook(w: World, h: Hour, c: Cell, k: Hour)
    ensures CellAt(Put(w, h, c), k) == if k == h then c else CellAt(w, k)
  {
  }

  lemma SameMap<T>(m: map<Hour, T>, n: map<Hour, T>)
    requires forall h :: Look(m, h) == Look(n, h)
    ensures m == n
  {
    forall h
      ensures h in m <==> h in n
      ensures h in m ==> m[h] == n[h]
    {
      assert Look(m, h) == Look(n, h);
    }
  }

  /** A world is its cells. */
  lemma SameCells(v: World, w: World)
    requires forall h :: CellAt(v, h) == CellAt(w, h)
    ensures v == w
  {
    forall h
      ensures Look(v.sources, h) == Look(w.sources, h) && Look(v.sourceParts, h) == Look(w.sourceParts, h)
      ensures Look(v.files, h) == Look(w.files, h) && Look(v.fileParts, h) == Look(w.fileParts, h)
      ensures Look(v.rows, h) == Look(w.rows, h)
    {
      assert CellAt(v, h) == CellAt(w, h);
    }
    SameMap(v.sources, w.sources);
    SameMap(v.sourceParts, w.sourceParts);
    SameMap(v.files, w.files);
    SameMap(v.fileParts, w.fileParts);
    SameMap(v.rows, w.rows);
  }

  // ---- one ingest, whole -----------------------------------------------------------

  /** What the caller of a pass fixes: the clock, the publication grace, whether sources stay. */
  datatype Settings = Settings(now: Instant, grace: int, keepSource: bool)

  /** What the outside does to one ingest: the publisher's answer, and a refusal to unlink. */
  datatype Env = Env(answer: Answer, unlinkRefused: bool)

  /** What an attempt returns; without a status it wrote no row. */
  datatype Report = Report(
    status: Option<Status>, events: Option<nat>, bytes: Option<nat>, detail: string)

  function UnrecordedReport(detail: string): Report {
    Report(None, None, None, detail)
  }

  function FailedRow(now: Instant, e: Mismatch): Row {
    Row(Failed, None, None, MismatchDetail(e), now)
  }

  function MissingRow(now: Instant): Row {
    Row(Missing, None, None, "still absent", now)
  }

  function IngestedRow(now: Instant, file: LakeFile): Row {
    Row(Ingested, Some(|file.stamps|), Some(file.size), "", now)
  }

  /** The report that goes with a row this attempt wrote. */
  function ReportOf(row: Row): Report {
    Report(Some(row.status), row.events, row.bytes, row.detail)
  }

  /** An absent hour is written off only once it has been absent for the whole grace. */
  predicate WriteOff(cfg: Settings, h: Hour, code: int) {
    code == NOT_FOUND && cfg.now - HourEnd(h) >= cfg.grace
  }

  function Recorded(cell: Cell, row: Row): Cell {
    cell.(row := Some(Upsert(cell.row, row)))
  }

  /** From a source in place to the recorded outcome. */
  function ConvertCell(cfg: Settings, h: Hour, cell: Cell, source: Source, env: Env): (Cell, Report) {
    match Convert(source, h)
    case Err(e) =>
      var row := FailedRow(cfg.now, e);
      (Recorded(cell.(filePart := None), row), ReportOf(row))
    case Ok(file) =>
      var row := IngestedRow(cfg.now, file);
      var written := Recorded(cell.(file := Some(file), filePart := None), row);
      (if cfg.keepSource || env.unlinkRefused then written else written.(source := None), ReportOf(row))
  }

  function IngestCell(cfg: Settings, h: Hour, cell: Cell, env: Env): (Cell, Report) {
    if cell.source.Some? then ConvertCell(cfg, h, cell, cell.source.value, env)
    else
      match env.answer
      case Body(source) =>
        ConvertCell(cfg, h, cell.(source := Some(source), sourcePart := None), source, env)
      case NoResponse(kind) => (cell.(sourcePart := None), UnrecordedReport(kind))
      case HttpStatus(code) =>
        if WriteOff(cfg, h, code) then
          var row := MissingRow(cfg.now);
          (Recorded(cell.(sourcePart := None), row), ReportOf(row))
        else
          (cell.(sourcePart := None),
           UnrecordedReport(if code == NOT_FOUND then "not published yet" else "fetch returned an error status"))
  }

  // ---- one ingest, effect by effect ---------------------------------------------------

  datatype Phase =
    | Queued                                   // waiting for the semaphore
    | Fetching                                 // about to look for the source, then ask
    | Downloaded                               // complete .part, about to rename
    | Converting                               // source in place
    | Staged                                   // lake .part written, about to check
    | Checked(row: Row)                        // checked and measured, about to replace
    | Writing(row: Row)                        // has an outcome, waiting for the connection
    | Holding(row: Row)                        // its statement is in flight
    | Discarding(report: Report)               // recorded, about to unlink the source
    | Done(report: Report)

  function Rank(p: Phase): nat {
    match p
    case Queued => 9
    case Fetching => 8
    case Downloaded => 7
    case Converting => 6
    case Staged => 5
    case Checked(_) => 4
    case Writing(_) => 3
    case Holding(_) => 2
    case Discarding(_) => 1
    case Done(_) => 0
  }

  /** The next durable effect of the task for hour h. */
  function StepTask(cfg: Settings, h: Hour, cell: Cell, p: Phase, env: Env): (r: (Cell, Phase))
    ensures Rank(r.1) < Rank(p) || (p.Done? && r == (cell, p))
  {
    match p
    case Queued => (cell, Fetching)
    case Fetching =>
      if cell.source.Some? then (cell, Converting)
      else (
        match env.answer
        case Body(source) => (cell.(sourcePart := Some(source)), Downloaded)
        case NoResponse(kind) => (cell.(sourcePart := None), Done(UnrecordedReport(kind)))
        case HttpStatus(code) =>
          (cell.(sourcePart := None),
           if WriteOff(cfg, h, code) then Writing(MissingRow(cfg.now))
           else Done(UnrecordedReport(if code == NOT_FOUND then "not published yet"
                                      else "fetch returned an error status"))))
    case Downloaded => (cell.(source := cell.sourcePart, sourcePart := None), Converting)
    case Converting =>
      if cell.source.None? then (cell, Done(UnrecordedReport("no source")))
      else (
        match cell.source.value
        case Garbled(detail) =>
          (cell.(filePart := None), Writing(FailedRow(cfg.now, Untrustworthy(detail))))
        case Readable(stamps, bytes) => (cell.(filePart := Some(LakeFile(stamps, bytes))), Staged))
    case Staged =>
      if cell.filePart.None? then (cell, Done(UnrecordedReport("no staged file")))
      else (
        match VerifyHour(cell.filePart.value.stamps, h)
        case Err(e) => (cell.(filePart := None), Writing(FailedRow(cfg.now, e)))
        case Ok(_) => (cell, Checked(IngestedRow(cfg.now, cell.filePart.value))))
    case Checked(row) => (cell.(file := cell.filePart, filePart := None), Writing(row))
    case Writing(row) => (cell, Holding(row))
    case Holding(row) =>
      (Recorded(cell, row),
       if row.status.Ingested? && !cfg.keepSource then Discarding(ReportOf(row)) else Done(ReportOf(row)))
    case Discarding(report) =>
      (if env.unlinkRefused then cell else cell.(source := None), Done(report))
    case Done(_) => (cell, p)
  }

  /** Running the task from phase p to its end, alone. */
  function Finish(cfg: Settings, h: Hour, cell: Cell, p: Phase, env: Env): (Cell, Report)
    decreases Rank(p)
  {
    if p.Done? then (cell, p.report)
    else
      var (c, q) := StepTask(cfg, h, cell, p, env);
      Finish(cfg, h, c, q, env)
  }

  lemma FinishWriting(cfg: Settings, h: Hour, cell: Cell, row: Row, env: Env)
    ensures Finish(cfg, h, cell, Writing(row), env)
         == (if row.status.Ingested? && !cfg.keepSource && !env.unlinkRefused
             then Recorded(cell, row).(source := None) else Recorded(cell, row),
             ReportOf(row))
  {
    var (c, q) := StepTask(cfg, h, cell, Holding(row), env);
    assert Finish(cfg, h, cell, Holding(row), env) == Finish(cfg, h, c, q, env);
    if q.Discarding? {
      var (d, o) := StepTask(cfg, h, c, q, env);
      assert Finish(cfg, h, c, q, env) == Finish(cfg, h, d, o, env);
    }
  }

  lemma FinishConverting(cfg: Settings, h: Hour, cell: Cell, env: Env)
    requires cell.source.Some?
    ensures Finish(cfg, h, cell, Converting, env) == ConvertCell(cfg, h, cell, cell.source.value, env)
  {
    var source := cell.source.value;
    var (c, q) := StepTask(cfg, h, cell, Converting, env);
    match source {
      case Garbled(detail) =>
        FinishWriting(cfg, h, c, q.row, env);
      case Readable(stamps, bytes) =>
        var (d, p) := StepTask(cfg, h, c, Staged, env);
        assert Finish(cfg, h, c, Staged, env) == Finish(cfg, h, d, p, env);
        if p.Checked? {
          var (e, o) := StepTask(cfg, h, d, p, env);
          FinishWriting(cfg, h, e, p.row, env);
        } else {
          FinishWriting(cfg, h, d, p.row, env);
        }
    }
  }

  /** Effect by effect or in one piece, an ingest does the same thing to its cell. */
  lemma FinishIsIngest(cfg: Settings, h: Hour, cell: Cell, env: Env)
    ensures Finish(cfg, h, cell, Queued, env) == IngestCell(cfg, h, cell, env)
  {
    var (c, q) := StepTask(cfg, h, cell, Fetching, env);
    assert Finish(cfg, h, cell, Queued, env) == Finish(cfg, h, c, q, env);
    if cell.source.Some? {
      FinishConverting(cfg, h, cell, env);
    } else {
      match env.answer {
        case Body(source) =>
          var (d, p) := StepTask(cfg, h, c, q, env);
          FinishConverting(cfg, h, d, env);
        case NoResponse(_) =>
        case HttpStatus(code) =>
          if WriteOff(cfg, h, code) {
            FinishWriting(cfg, h, c, q.row, env);
          }
      }
    }
  }

  // ---- what an attempt comes to ---------------------------------------------------------------

  /** The source an attempt converts: the one in place, or else the body it is answered with. */
  function SourceInUse(inPlace: Option<Source>, answer: Answer): Option<Source> {
    if inPlace.Some? then inPlace
    else if answer.Body? then Some(answer.source)
    else None
  }

  /** Every row of the source is of the hour it is to be filed under. */
  ghost predicate Trusted(source: Source, h: Hour) {
    source.Readable? && forall i :: 0 <= i < |source.stamps| ==> source.stamps[i] == Some(h)
  }

  /** The publisher said the hour is not there, with the whole grace gone by since its end. */
  ghost predicate NeverPublished(cfg: Settings, h: Hour, inPlace: Option<Source>, answer: Answer) {
    inPlace.None? && answer == HttpStatus(404) && cfg.now >= (h + 1) * 3600 + cfg.grace
  }

  /** What one attempt reports, from the source in place and the publisher's answer alone. */
  ghost predicate Reports(cfg: Settings, h: Hour, inPlace: Option<Source>, answer: Answer, report: Report) {
    var source := SourceInUse(inPlace, answer);
    && (report.status == Some(Missing) <==> NeverPublished(cfg, h, inPlace, answer))
    && (report.status == Some(Failed) <==> source.Some? && !Trusted(source.value, h))
    && (report.status == Some(Ingested) <==> source.Some? && Trusted(source.value, h))
    && (report.status == Some(Ingested) ==>
          report.events == Some(|source.value.stamps|) && report.bytes == Some(source.value.parquetBytes))
    && (report.status != Some(Ingested) ==> report.events == None && report.bytes == None)
  }

  /**
   What one attempt leaves at its own hour: a new row only with a status to record and never over
   an ingested one unless it is ingested itself, a new file only when ingested, and the source
   gone only then, unless it is kept or cannot be removed.
   */
  ghost predicate Lands(cfg: Settings, h: Hour, before: Cell, env: Env, report: Report, after: Cell) {
    var source := SourceInUse(before.source, env.answer);
    && (if report.status.None?
           || (before.row.Some? && before.row.value.status.Ingested? && report.status != Some(Ingested))
        then after.row == before.row
        else after.row == Some(Row(report.status.value, report.events, report.bytes, report.detail, cfg.now)))
    && (if report.status == Some(Ingested)
        then after.file.Some? && source.Some? && source.value.Readable?
             && after.file.value.stamps == source.value.stamps
             && after.file.value.size == source.value.parquetBytes
        else after.file == before.file)
    && after.source == (if report.status == Some(Ingested) && !cfg.keepSource && !env.unlinkRefused
                        then None else source)
    && after.sourcePart == (if before.source.Some? then before.sourcePart else None)
    && after.filePart == (if source.Some? then None else before.filePart)
  }

  /** The attempt as IngestCell computes it has exactly these outcomes and effects. */
  lemma AttemptMeans(cfg: Settings, h: Hour, cell: Cell, env: Env)
    ensures var (c, report) := IngestCell(cfg, h, cell, env);
            Reports(cfg, h, cell.source, env.answer, report) && Lands(cfg, h, cell, env, report, c)
  {
    var source := SourceInUse(cell.source, env.answer);
    if source.Some? && source.value.Readable? {
      VerifyHourMeans(source.value.stamps, h);
    }
  }

  // ---- the routine itself -----------------------------------------------------------------

  ghost function WorldOf(archive: ArchiveDir, lake: LakeDir, ledger: ArchiveHours): World
    reads archive, lake, ledger
  {
    World(archive.files, archive.parts, lake.files, lake.parts, ledger.rows)
  }

  lemma PutTwice(w: World, h: Hour, c: Cell, d: Cell)
    ensures Put(Put(w, h, c), h, d) == Put(w, h, d)
  {
    SetTwice(w.sources, h, c.source, d.source);
    SetTwice(w.sourceParts, h, c.sourcePart, d.sourcePart);
    SetTwice(w.files, h, c.file, d.file);
    SetTwice(w.fileParts, h, c.filePart, d.filePart);
    SetTwice(w.rows, h, c.row, d.row);
  }

  lemma SetTwice<T>(m: map<Hour, T>, h: Hour, v: Option<T>, u: Option<T>)
    ensures Set(Set(m, h, v), h, u) == Set(m, h, u)
  {
  }

  /** What a source in place, or one just fetched, makes of the world. */
  lemma FetchedWorld(w: World, h: Hour, source: Source, v: World)
    requires v.files == w.files && v.fileParts == w.fileParts && v.rows == w.rows
    requires h in w.sources ==> v.sources == w.sources && v.sourceParts == w.sourceParts && source == w.sources[h]
    requires h !in w.sources ==> v.sources == w.sources[h := source] && v.sourceParts == w.sourceParts - {h}
    ensures v == Put(w, h, FetchedCell(CellAt(w, h), source)) && CellAt(v, h) == FetchedCell(CellAt(w, h), source)
  {
    SetSame(w.sources, h);
    SetSame(w.sourceParts, h);
    SetSame(w.files, h);
    SetSame(w.fileParts, h);
    SetSame(w.rows, h);
    PutThenLook(w, h, FetchedCell(CellAt(w, h), source), h);
  }

  function FetchedCell(cell: Cell, source: Source): Cell {
    if cell.source.Some? then cell else cell.(source := Some(source), sourcePart := None)
  }

  /** Setting an entry to what it already is changes nothing. */
  lemma SetSame<T>(m: map<Hour, T>, h: Hour)
    ensures Set(m, h, Look(m, h)) == m
  {
  }

  /** The attempt over the three stores. Before the hour's end it is refused and nothing changes. */
  method IngestHour(
    h: Hour, archive: ArchiveDir, lake: LakeDir, ledger: ArchiveHours, cfg: Settings, env: Env)
    returns (r: Result<Report, string>)
    modifies archive, lake, ledger
    ensures r.Err? <==> cfg.now < (h + 1) * 3600
    ensures r.Err? ==> WorldOf(archive, lake, ledger) == old(WorldOf(archive, lake, ledger))
    ensures r.Ok? ==>
      var before, after := old(CellAt(WorldOf(archive, lake, ledger), h)), CellAt(WorldOf(archive, lake, ledger), h);
      Reports(cfg, h, before.source, env.answer, r.value) && Lands(cfg, h, before, env, r.value, after)
    ensures forall k :: k != h ==>
      CellAt(WorldOf(archive, lake, ledger), k) == old(CellAt(WorldOf(archive, lake, ledger), k))
    ensures r.Ok? ==>
      var w := old(WorldOf(archive, lake, ledger));
      var (cell, report) := IngestCell(cfg, h, CellAt(w, h), env);
      r.value == report && WorldOf(archive, lake, ledger) == Put(w, h, cell)
  {
    if cfg.now < HourEnd(h) {
      return Err("hour has not closed yet");
    }
    ghost var w := WorldOf(archive, lake, ledger);
    AttemptMeans(cfg, h, CellAt(w, h), env);
    forall k
      ensures CellAt(Put(w, h, IngestCell(cfg, h, CellAt(w, h), env).0), k)
           == if k == h then IngestCell(cfg, h, CellAt(w, h), env).0 else CellAt(w, k)
    {
      PutThenLook(w, h, IngestCell(cfg, h, CellAt(w, h), env).0, k);
    }
    var report := Attempt(h, archive, lake, ledger, cfg, env);
    return Ok(report);
  }

  /** The attempt at an hour that has closed: fetch, convert, record, discard. */
  method Attempt(
    h: Hour, archive: ArchiveDir, lake: LakeDir, ledger: ArchiveHours, cfg: Settings, env: Env)
    returns (report: Report)
    modifies archive, lake, ledger
    ensures
      var w := old(WorldOf(archive, lake, ledger));
      var (cell, expected) := IngestCell(cfg, h, CellAt(w, h), env);
      report == expected && WorldOf(archive, lake, ledger) == Put(w, h, cell)
  {
    ghost var w := WorldOf(archive, lake, ledger);
    var fetched := archive.DownloadHour(h, env.answer);
    if fetched.Err? {
      report := NotFetched(h, fetched.error, ledger, cfg);
      NotFetchedWorld(w, h, cfg, env, WorldOf(archive, lake, ledger));
      return;
    }
    ghost var cell := FetchedCell(CellAt(w, h), fetched.value);
    FetchedWorld(w, h, fetched.value, WorldOf(archive, lake, ledger));
    report := ConvertFetched(h, fetched.value, archive, lake, ledger, cfg, env);
    PutTwice(w, h, cell, ConvertCell(cfg, h, cell, fetched.value, env).0);
  }

  /** From a source in place to the recorded outcome, and the source discarded after it. */
  method ConvertFetched(
    h: Hour, source: Source, archive: ArchiveDir, lake: LakeDir, ledger: ArchiveHours, cfg: Settings, env: Env)
    returns (report: Report)
    requires Look(archive.files, h) == Some(source)
    modifies archive, lake, ledger
    ensures
      var w := old(WorldOf(archive, lake, ledger));
      var (cell, expected) := ConvertCell(cfg, h, CellAt(w, h), source, env);
      report == expected && WorldOf(archive, lake, ledger) == Put(w, h, cell)
  {
    ghost var w := WorldOf(archive, lake, ledger);
    SetSame(w.sources, h);
    SetSame(w.sourceParts, h);
    SetSame(w.files, h);
    var row := ConvertAndRecord(h, source, lake, ledger, cfg);
    if row.status.Ingested? && !cfg.keepSource {
      archive.DiscardSource(h, env.unlinkRefused);
    }
    return ReportOf(row);
  }

  /** The row an attempt without a source writes, if it writes one, and what it reports. */
  function Unfetched(cfg: Settings, h: Hour, answer: Answer): (Option<Row>, Report)
    requires !answer.Body?
  {
    match answer
    case NoResponse(kind) => (None, UnrecordedReport(kind))
    case HttpStatus(code) =>
      if code != NOT_FOUND then (None, UnrecordedReport("fetch returned an error status"))
      else if cfg.now - HourEnd(h) < cfg.grace then (None, UnrecordedReport("not published yet"))
      else (Some(MissingRow(cfg.now)), ReportOf(MissingRow(cfg.now)))
  }

  lemma NotFetchedWorld(w: World, h: Hour, cfg: Settings, env: Env, v: World)
    requires h !in w.sources && !env.answer.Body?
    requires v.sources == w.sources && v.sourceParts == w.sourceParts - {h}
    requires v.files == w.files && v.fileParts == w.fileParts
    requires var row := Unfetched(cfg, h, env.answer).0;
             v.rows == if row.Some? then w.rows[h := Upsert(Look(w.rows, h), row.value)] else w.rows
    ensures var (cell, report) := IngestCell(cfg, h, CellAt(w, h), env);
            v == Put(w, h, cell) && report == Unfetched(cfg, h, env.answer).1
  {
    SetSame(w.sources, h);
    SetSame(w.files, h);
    SetSame(w.fileParts, h);
    SetSame(w.rows, h);
  }

  /** Nothing came: the hour is written off, or left as it was. */
  method NotFetched(h: Hour, answer: Answer, ledger: ArchiveHours, cfg: Settings) returns (report: Report)
    requires !answer.Body?
    modifies ledger
    ensures var (row, expected) := Unfetched(cfg, h, answer);
      && report == expected
      && ledger.rows == if row.Some? then old(ledger.rows)[h := Upsert(Look(old(ledger.rows), h), row.value)]
                        else old(ledger.rows)
  {
    match answer {
      case NoResponse(kind) =>
        return UnrecordedReport(kind);
      case HttpStatus(code) =>
        if code != NOT_FOUND {
          return UnrecordedReport("fetch returned an error status");
        }
        if cfg.now - HourEnd(h) < cfg.grace {
          return UnrecordedReport("not published yet");
        }
        ledger.RecordHour(h, MissingRow(cfg.now));
        return ReportOf(MissingRow(cfg.now));
    }
  }

  /** Write the hour into the lake and record what came of it. */
  method ConvertAndRecord(h: Hour, source: Source, lake: LakeDir, ledger: ArchiveHours, cfg: Settings)
    returns (row: Row)
    modifies lake, ledger
    ensures Convert(source, h).Err? ==>
      row == FailedRow(cfg.now, Convert(source, h).error) && lake.files == old(lake.files)
    ensures Convert(source, h).Ok? ==>
      && row == IngestedRow(cfg.now, Convert(source, h).value)
      && lake.files == old(lake.files)[h := Convert(source, h).value]
    ensures lake.parts == old(lake.parts) - {h}
    ensures ledger.rows == old(ledger.rows)[h := Upsert(Look(old(ledger.rows), h), row)]
  {
    var written := lake.WriteHour(source, h);
    if written.Err? {
      row := FailedRow(cfg.now, written.error);
    } else {
      row := Row(Ingested, Some(written.value.events), Some(written.value.bytes), "", cfg.now);
    }
    ledger.RecordHour(h, row);
  }
}
