/**
 Whole runs of the archive system: any sequence of loop and backfill passes, repairs, crashes
 between any two durable effects, and an operator deleting partition files.

 One process at a time. The publisher may answer differently at every step. An action the
 machine is not ready for leaves it as it is, so every list of actions is a run.
 */
module Session {
  import opened Wrappers
  import opened Hours
  import opened Ledger
  import opened Lake
  import opened Ingest
  import opened Converge
  import opened Schedule

  /** What one process is in the middle of. */
  datatype Running = Running(cfg: Settings, retryFailed: bool, pass: Pass)

  datatype State =
    | Idle(world: World)
    | Busy(running: Running)
  {
    function W(): World {
      if Idle? then world else running.pass.world
    }

    function Tasks(): map<Hour, Phase> {
      if Idle? then map[] else running.pass.tasks
    }
  }

  datatype Action =
    | StartPass(now: Instant, keepSource: bool, scan: Scan, concurrency: nat)
    | StartRepair(now: Instant, keepSource: bool, unbacked: set<Hour>, concurrency: nat)
    | Effect(hour: Hour, env: Env)
    | EndPass
    | Crash
    | OperatorDeletes(hour: Hour)

  /** The publication grace is one setting of the deployment. */
  function Step(grace: int, s: State, a: Action): State {
    match a
    case StartPass(now, keep, scan, concurrency) =>
      if s.Busy? then s
      else
        var due := Due(s.world.rows, scan, now);
        Busy(Running(Settings(now, grace, keep), scan.retryFailed, Begin(s.world, due, concurrency)))
    case StartRepair(now, keep, unbacked, concurrency) =>
      if s.Busy? then s
      else
        var removed := Forgotten(s.world.rows, unbacked);
        var cleared := s.world.(rows := Forget(s.world.rows, unbacked));
        Busy(Running(Settings(now, grace, keep), false,
                     Begin(cleared, Closed(Sorted(removed), now), concurrency)))
    case Effect(h, env) =>
      if s.Idle? then s
      else Busy(s.running.(pass := StepPass(s.running.cfg, _ => env, s.running.pass, h)))
    case EndPass =>
      if s.Busy? && (forall h | h in s.running.pass.tasks :: s.running.pass.tasks[h].Done?) then Idle(s.W()) else s
    case Crash => Idle(s.W())
    case OperatorDeletes(h) =>
      if s.Idle? then Idle(DropFile(s.world, h))
      else Busy(s.running.(pass := s.running.pass.(world := DropFile(s.W(), h))))
  }

  function DropFile(w: World, h: Hour): World {
    w.(files := w.files - {h})
  }

  function Exec(grace: int, s: State, run: seq<Action>): State {
    if run == [] then s else Step(grace, Exec(grace, s, run[..|run| - 1]), run[|run| - 1])
  }

  // ---- what each hour keeps ---------------------------------------------------------------

  /** The hour's file describes exactly what a row would claim of it. */
  ghost predicate Describes(row: Row, file: Option<LakeFile>, h: Hour) {
    file.Some? && row.events == Some(|file.value.stamps|) && row.bytes == Some(file.value.size)
    && OnlyHolds(file.value.stamps, h)
  }

  /** An ingested claim is true of the file at its path. */
  ghost predicate Backed(cell: Cell, h: Hour) {
    cell.row.Some? && cell.row.value.status.Ingested? ==> Describes(cell.row.value, cell.file, h)
  }

  /** A final partition holds only its own hour's rows. */
  ghost predicate FileIsOwn(cell: Cell, h: Hour) {
    cell.file.Some? ==> OnlyHolds(cell.file.value.stamps, h)
  }

  ghost predicate OnTime(row: Row, h: Hour, grace: int) {
    row.recordedAt >= HourEnd(h) && (row.status.Missing? ==> row.recordedAt >= HourEnd(h) + grace)
  }

  ghost predicate CellOnTime(cell: Cell, h: Hour, grace: int) {
    cell.row.Some? ==> OnTime(cell.row.value, h, grace)
  }

  /** A task before its record is on an hour that is not settled; after it, on one it settled. */
  ghost predicate TaskShape(cfg: Settings, retryFailed: bool, h: Hour, cell: Cell, p: Phase) {
    && (p.Discarding? ==> cell.row.Some? && cell.row.value.status.Ingested?)
    && (Rank(p) >= 2 ==> HourEnd(h) <= cfg.now && !Settled(cell.row, retryFailed))
    && (p.Downloaded? ==> cell.source.None? && cell.sourcePart.Some?)
    && (p.Converting? || p.Staged? || p.Checked? ==> cell.source.Some?)
    && (p.Writing? || p.Holding? ==> OnTime(p.row, h, cfg.grace))
    && (p.Checked? ==> p.row.status.Ingested? && p.row.recordedAt == cfg.now)
  }

  /** A task about to claim an hour holds the file that makes the claim true. */
  ghost predicate TaskFile(h: Hour, cell: Cell, p: Phase) {
    && (p.Checked? ==> Describes(p.row, cell.filePart, h))
    && ((p.Writing? || p.Holding?) && p.row.status.Ingested? ==> Describes(p.row, cell.file, h))
  }

  /** One effect of one task, at its own hour. */
  lemma EffectKeepsShape(cfg: Settings, retryFailed: bool, h: Hour, cell: Cell, p: Phase, env: Env)
    requires TaskShape(cfg, retryFailed, h, cell, p)
    ensures var (c, q) := StepTask(cfg, h, cell, p, env);
            && TaskShape(cfg, retryFailed, h, c, q)
            && (c.row != cell.row ==> !Settled(cell.row, retryFailed))
            && (cell.source.Some? && c.source.None? ==> c.row.Some? && c.row.value.status.Ingested?)
            && (CellOnTime(cell, h, cfg.grace) ==> CellOnTime(c, h, cfg.grace))
  {
  }

  lemma EffectKeepsFile(cfg: Settings, retryFailed: bool, h: Hour, cell: Cell, p: Phase, env: Env)
    requires TaskShape(cfg, retryFailed, h, cell, p) && TaskFile(h, cell, p) && Backed(cell, h)
    ensures var (c, q) := StepTask(cfg, h, cell, p, env);
            && TaskFile(h, c, q) && Backed(c, h)
            && (FileIsOwn(cell, h) ==> FileIsOwn(c, h))
  {
    if p.Staged? && cell.filePart.Some? {
      VerifyHourMeans(cell.filePart.value.stamps, h);
    }
  }

  ghost predicate ShapeAt(s: State, h: Hour) {
    s.Busy? && h in s.Tasks() ==>
      TaskShape(s.running.cfg, s.running.retryFailed, h, CellAt(s.W(), h), s.Tasks()[h])
  }

  ghost predicate BackedAt(s: State, h: Hour) {
    && Backed(CellAt(s.W(), h), h)
    && (h in s.Tasks() ==> TaskFile(h, CellAt(s.W(), h), s.Tasks()[h]))
  }

  /** The grace of the running pass is the deployment's. */
  ghost predicate GraceIs(s: State, grace: int) {
    s.Busy? ==> s.running.cfg.grace == grace
  }

  lemma StartPassDue(grace: int, s: State, a: Action, h: Hour)
    requires s.Idle? && a.StartPass?
    ensures var t := Step(grace, s, a);
            && t.W() == s.world && ShapeAt(t, h)
            && (h in t.Tasks() ==> t.Tasks()[h].Queued?)
            && (h in t.Tasks() <==> h in Due(s.world.rows, a.scan, a.now))
  {
    DueIs(s.world.rows, a.scan, a.now);
    assert CellAt(s.world, h).row == Look(s.world.rows, h);
  }

  lemma StartRepairClears(grace: int, s: State, a: Action, h: Hour)
    requires s.Idle? && a.StartRepair?
    ensures var t := Step(grace, s, a);
            && ShapeAt(t, h)
            && (h in t.Tasks() ==> t.Tasks()[h].Queued?)
            && CellAt(t.W(), h)
            == (if h in a.unbacked && IngestedAt(s.world.rows, h)
                then CellAt(s.world, h).(row := None) else CellAt(s.world, h))
            && (h in t.Tasks() <==> h in a.unbacked && IngestedAt(s.world.rows, h) && HourEnd(h) <= a.now)
  {
    var removed := Forgotten(s.world.rows, a.unbacked);
    ClosedIs(Sorted(removed), a.now);
  }

  /** What an effect does to the cell and task of hour k, its own or another. */
  lemma EffectAt(grace: int, s: State, h: Hour, env: Env, k: Hour)
    requires s.Busy?
    ensures var t := Step(grace, s, Effect(h, env));
            && t.Busy? && t.running.cfg == s.running.cfg && t.running.retryFailed == s.running.retryFailed
            && t.Tasks().Keys == s.Tasks().Keys
            && if k == h && CanStep(s.running.pass, h)
               then (CellAt(t.W(), k), t.Tasks()[k])
                 == StepTask(s.running.cfg, h, CellAt(s.W(), h), s.Tasks()[h], env)
               else CellAt(t.W(), k) == CellAt(s.W(), k) && (k in s.Tasks() ==> t.Tasks()[k] == s.Tasks()[k])
  {
    if CanStep(s.running.pass, h) {
      var (cell, _) := StepTask(s.running.cfg, h, CellAt(s.W(), h), s.Tasks()[h], env);
      PutThenLook(s.W(), h, cell, k);
    }
  }

  lemma DropFileAt(w: World, h: Hour, k: Hour)
    ensures CellAt(DropFile(w, h), k) == if k == h then CellAt(w, k).(file := None) else CellAt(w, k)
  {
  }

  lemma StepKeepsShape(grace: int, s: State, a: Action, h: Hour)
    requires ShapeAt(s, h) && GraceIs(s, grace)
    ensures ShapeAt(Step(grace, s, a), h) && GraceIs(Step(grace, s, a), grace)
  {
    match a
    case StartPass(_, _, _, _) =>
      if s.Idle? { StartPassDue(grace, s, a, h); }
    case StartRepair(_, _, _, _) =>
      if s.Idle? { StartRepairClears(grace, s, a, h); }
    case Effect(k, env) =>
      if s.Busy? {
        EffectAt(grace, s, k, env, h);
        if h == k && CanStep(s.running.pass, k) {
          EffectKeepsShape(s.running.cfg, s.running.retryFailed, h, CellAt(s.W(), h), s.Tasks()[h], env);
        }
      }
    case OperatorDeletes(k) => DropFileAt(s.W(), k, h);
    case _ =>
  }

  /** Only deleting its file from outside can make a true claim false. */
  lemma StepKeepsBacked(grace: int, s: State, a: Action, h: Hour)
    requires ShapeAt(s, h) && BackedAt(s, h)
    requires a != OperatorDeletes(h)
    ensures BackedAt(Step(grace, s, a), h)
    ensures FileIsOwn(CellAt(s.W(), h), h) ==> FileIsOwn(CellAt(Step(grace, s, a).W(), h), h)
  {
    match a
    case StartPass(_, _, _, _) =>
      if s.Idle? { StartPassDue(grace, s, a, h); }
    case StartRepair(_, _, _, _) =>
      if s.Idle? { StartRepairClears(grace, s, a, h); }
    case Effect(k, env) =>
      if s.Busy? {
        EffectAt(grace, s, k, env, h);
        if h == k && CanStep(s.running.pass, k) {
          EffectKeepsFile(s.running.cfg, s.running.retryFailed, h, CellAt(s.W(), h), s.Tasks()[h], env);
        }
      }
    case OperatorDeletes(k) => DropFileAt(s.W(), k, h);
    case _ =>
  }

  lemma {:induction false} RunKeepsShape(grace: int, w: World, run: seq<Action>, h: Hour)
    ensures ShapeAt(Exec(grace, Idle(w), run), h) && GraceIs(Exec(grace, Idle(w), run), grace)
  {
    if run != [] {
      RunKeepsShape(grace, w, run[..|run| - 1], h);
      StepKeepsShape(grace, Exec(grace, Idle(w), run[..|run| - 1]), run[|run| - 1], h);
    }
  }

  lemma ExecStep(grace: int, s: State, run: seq<Action>, a: Action)
    ensures Exec(grace, s, run + [a]) == Step(grace, Exec(grace, s, run), a)
  {
    assert (run + [a])[..|run|] == run;
  }

  lemma {:induction false} ExecAppend(grace: int, s: State, a: seq<Action>, b: seq<Action>)
    ensures Exec(grace, s, a + b) == Exec(grace, Exec(grace, s, a), b)
  {
    if b == [] {
      assert a + b == a;
    } else {
      assert a + b == (a + b[..|b| - 1]) + [b[|b| - 1]];
      ExecAppend(grace, s, a, b[..|b| - 1]);
      ExecStep(grace, s, a + b[..|b| - 1], b[|b| - 1]);
    }
  }

  // ---- crash safety -------------------------------------------------------------------------

  lemma {:induction false} StaysBackedAt(grace: int, w: World, before: seq<Action>, after: seq<Action>, h: Hour)
    requires BackedAt(Exec(grace, Idle(w), before), h)
    requires forall i :: 0 <= i < |after| ==> after[i] != OperatorDeletes(h)
    ensures var s, t := Exec(grace, Idle(w), before), Exec(grace, Idle(w), before + after);
            && BackedAt(t, h)
            && (FileIsOwn(CellAt(s.W(), h), h) ==> FileIsOwn(CellAt(t.W(), h), h))
  {
    if after == [] {
      assert before + after == before;
    } else {
      var less, a := after[..|after| - 1], after[|after| - 1];
      StaysBackedAt(grace, w, before, less, h);
      assert before + after == (before + less) + [a];
      ExecStep(grace, Idle(w), before + less, a);
      RunKeepsShape(grace, w, before + less, h);
      StepKeepsBacked(grace, Exec(grace, Idle(w), before + less), a, h);
    }
  }

  /**
   A true claim stays true however the rest of the run goes, unless its own file is deleted from
   outside: the ledger claims the hour only while the file at its path bears the claim out.
   */
  lemma HourStaysBacked(grace: int, w: World, before: seq<Action>, after: seq<Action>, h: Hour)
    requires var v := Exec(grace, Idle(w), before).W();
             IngestedAt(v.rows, h) && Describes(v.rows[h], Look(v.files, h), h)
    requires forall i :: 0 <= i < |after| ==> after[i] != OperatorDeletes(h)
    ensures Backed(CellAt(Exec(grace, Idle(w), before + after).W(), h), h)
  {
    RunKeepsShape(grace, w, before, h);
    StaysBackedAt(grace, w, before, after, h);
  }

  /**
   From a fresh deployment, whatever passes, repairs and crashes follow: every ingested row's
   count and size are those of the file at its path, and every partition holds only its own
   hour.
   */
  lemma CrashSafety(grace: int, run: seq<Action>, h: Hour)
    requires forall i :: 0 <= i < |run| ==> !run[i].OperatorDeletes?
    ensures var cell := CellAt(Exec(grace, Idle(EMPTY_WORLD), run).W(), h);
            Backed(cell, h) && FileIsOwn(cell, h)
  {
    StaysBackedAt(grace, EMPTY_WORLD, [], run, h);
    assert [] + run == run;
  }

  /** A fully downloaded source disappears only in a state that records its hour ingested. */
  lemma SourceOutlivesRecord(grace: int, w: World, run: seq<Action>, a: Action, h: Hour)
    requires h in Exec(grace, Idle(w), run).W().sources
    requires h !in Exec(grace, Idle(w), run + [a]).W().sources
    ensures IngestedAt(Exec(grace, Idle(w), run + [a]).W().rows, h)
  {
    var s := Exec(grace, Idle(w), run);
    ExecStep(grace, Idle(w), run, a);
    RunKeepsShape(grace, w, run, h);
    var t := Step(grace, s, a);
    assert CellAt(s.W(), h).source.Some? && CellAt(t.W(), h).source.None?;
    assert CellAt(t.W(), h).row == Look(t.W().rows, h);
    if a.Effect? && s.Busy? {
      EffectAt(grace, s, a.hour, a.env, h);
      EffectKeepsShape(s.running.cfg, s.running.retryFailed, h, CellAt(s.W(), h), s.Tasks()[h], a.env);
    }
  }

  // ---- status discipline ------------------------------------------------------------------------

  /** One action: what may happen to the row of hour h. */
  lemma RowChanges(grace: int, s: State, a: Action, h: Hour)
    requires ShapeAt(s, h) && GraceIs(s, grace) && !a.StartRepair?
    ensures var r, q := Look(s.W().rows, h), Look(Step(grace, s, a).W().rows, h);
            && (q != r ==> s.Busy? && !Settled(r, s.running.retryFailed))
            && (CellOnTime(CellAt(s.W(), h), h, grace) ==> CellOnTime(CellAt(Step(grace, s, a).W(), h), h, grace))
  {
    assert CellAt(s.W(), h).row == Look(s.W().rows, h);
    assert CellAt(Step(grace, s, a).W(), h).row == Look(Step(grace, s, a).W().rows, h);
    match a
    case Effect(k, env) =>
      if s.Busy? {
        EffectAt(grace, s, k, env, h);
        if h == k && CanStep(s.running.pass, k) {
          EffectKeepsShape(s.running.cfg, s.running.retryFailed, h, CellAt(s.W(), h), s.Tasks()[h], env);
        }
      }
    case _ =>
  }

  /** Without a repair, ingested and missing rows are never changed again, by anything. */
  lemma {:induction false} SettledIsForever(
    grace: int, w: World, before: seq<Action>, after: seq<Action>, h: Hour)
    requires forall i :: 0 <= i < |after| ==> !after[i].StartRepair?
    requires Settled(Look(Exec(grace, Idle(w), before).W().rows, h), true)
    ensures Look(Exec(grace, Idle(w), before + after).W().rows, h)
         == Look(Exec(grace, Idle(w), before).W().rows, h)
  {
    if after == [] {
      assert before + after == before;
    } else {
      var less, a := after[..|after| - 1], after[|after| - 1];
      SettledIsForever(grace, w, before, less, h);
      assert before + after == (before + less) + [a];
      ExecStep(grace, Idle(w), before + less, a);
      RunKeepsShape(grace, w, before + less, h);
      RowChanges(grace, Exec(grace, Idle(w), before + less), a, h);
    }
  }

  /** A failed row changes only inside a pass that retries failures. */
  lemma FailedChangesOnlyOnRetry(grace: int, w: World, run: seq<Action>, a: Action, h: Hour)
    requires !a.StartRepair?
    requires var s := Exec(grace, Idle(w), run);
             h in s.W().rows && s.W().rows[h].status.Failed?
    requires Look(Exec(grace, Idle(w), run + [a]).W().rows, h) != Look(Exec(grace, Idle(w), run).W().rows, h)
    ensures var s := Exec(grace, Idle(w), run);
            s.Busy? && s.running.retryFailed && a.Effect? && a.hour == h
  {
    var s := Exec(grace, Idle(w), run);
    ExecStep(grace, Idle(w), run, a);
    RunKeepsShape(grace, w, run, h);
    RowChanges(grace, s, a, h);
    assert CellAt(s.W(), h).row == Look(s.W().rows, h);
    if a.Effect? {
      EffectAt(grace, s, a.hour, a.env, h);
      assert CellAt(Step(grace, s, a).W(), h).row == Look(Step(grace, s, a).W().rows, h);
    }
  }

  /**
   Every row was recorded at or after its hour closed, and every missing row not before the
   whole grace had passed since.
   */
  lemma {:induction false} EveryRowOnTime(grace: int, w: World, run: seq<Action>, h: Hour)
    requires CellOnTime(CellAt(w, h), h, grace)
    ensures CellOnTime(CellAt(Exec(grace, Idle(w), run).W(), h), h, grace)
  {
    if run != [] {
      var less, a := run[..|run| - 1], run[|run| - 1];
      EveryRowOnTime(grace, w, less, h);
      var s := Exec(grace, Idle(w), less);
      RunKeepsShape(grace, w, less, h);
      if a.StartRepair? {
        if s.Idle? { StartRepairClears(grace, s, a, h); }
      } else {
        RowChanges(grace, s, a, h);
      }
    }
  }

  // ---- why the loop cannot repair the record, and the repair can -----------------------------------

  /**
   A claim no file backs survives any number of passes and crashes: the row stays word for word,
   no file appears at its path, and no scan, of any range or kind, ever finds the hour pending.
   */
  lemma {:induction false} FalseClaimSurvives(grace: int, w: World, run: seq<Action>, h: Hour)
    requires IngestedAt(w.rows, h) && h !in w.files
    requires forall i :: 0 <= i < |run| ==> !run[i].StartRepair?
    ensures var s := Exec(grace, Idle(w), run);
            && Look(s.W().rows, h) == Look(w.rows, h)
            && h !in s.W().files && h !in s.Tasks()
            && forall scan: Scan :: h !in PendingIn(s.W().rows, scan)
  {
    var s := Exec(grace, Idle(w), run);
    if run != [] {
      var less, a := run[..|run| - 1], run[|run| - 1];
      FalseClaimSurvives(grace, w, less, h);
      ClaimUntouched(grace, Exec(grace, Idle(w), less), a, h);
    }
    forall scan: Scan
      ensures h !in PendingIn(s.W().rows, scan)
    {
      PendingIs(s.W().rows, scan.firstDay, scan.lastDay, scan.retryFailed);
    }
  }

  lemma ClaimUntouched(grace: int, s: State, a: Action, h: Hour)
    requires IngestedAt(s.W().rows, h) && h !in s.W().files && h !in s.Tasks() && !a.StartRepair?
    ensures var t := Step(grace, s, a);
            && Look(t.W().rows, h) == Look(s.W().rows, h)
            && h !in t.W().files && h !in t.Tasks()
  {
    match a
    case StartPass(_, _, scan, _) =>
      if s.Idle? {
        StartPassDue(grace, s, a, h);
        DueIs(s.world.rows, scan, a.now);
      }
    case Effect(k, env) =>
      if s.Busy? {
        EffectAt(grace, s, k, env, h);
        var t := Step(grace, s, a);
        assert CellAt(t.W(), h) == CellAt(s.W(), h);
        assert CellAt(t.W(), h).row == Look(t.W().rows, h) && CellAt(s.W(), h).row == Look(s.W().rows, h);
        assert CellAt(t.W(), h).file == Look(t.W().files, h) && CellAt(s.W(), h).file == Look(s.W().files, h);
      }
    case _ =>
  }

  /**
   Once a repair has started on an hour, the false claim is gone for good: the hour is pending
   from that moment, and whatever happens next, a crash included, the ledger claims it again
   only when the file at its path makes the claim true.
   */
  lemma RepairedIsNeverFalselyClaimed(
    grace: int, w: World, repair: Action, after: seq<Action>, h: Hour, scan: Scan)
    requires repair.StartRepair? && h in repair.unbacked && IngestedAt(w.rows, h)
    requires forall i :: 0 <= i < |after| ==> after[i] != OperatorDeletes(h)
    ensures InRange(h, scan.firstDay, scan.lastDay) ==>
              h in PendingIn(Exec(grace, Idle(w), [repair]).W().rows, scan)
    ensures Backed(CellAt(Exec(grace, Idle(w), [repair] + after).W(), h), h)
  {
    var s := Step(grace, Idle(w), repair);
    ExecStep(grace, Idle(w), [], repair);
    assert [] + [repair] == [repair];
    StartRepairClears(grace, Idle(w), repair, h);
    assert CellAt(s.W(), h).row == Look(s.W().rows, h);
    PendingIs(s.W().rows, scan.firstDay, scan.lastDay, scan.retryFailed);
    StaysBackedAt(grace, w, [repair], after, h);
  }

  // ---- a whole pass, and convergence after any run --------------------------------------------------

  /** The effects of a schedule, every hour answered throughout as env says. */
  function Effects(schedule: seq<Hour>, env: Hour -> Env): seq<Action> {
    seq(|schedule|, i requires 0 <= i < |schedule| => Effect(schedule[i], env(schedule[i])))
  }

  lemma {:induction false} EffectsRun(grace: int, running: Running, schedule: seq<Hour>, env: Hour -> Env)
    ensures Exec(grace, Busy(running), Effects(schedule, env))
         == Busy(running.(pass := RunPass(running.cfg, env, running.pass, schedule)))
  {
    if schedule != [] {
      var less, h := schedule[..|schedule| - 1], schedule[|schedule| - 1];
      EffectsRun(grace, running, less, env);
      assert Effects(schedule, env) == Effects(less, env) + [Effect(h, env(h))];
      ExecStep(grace, Busy(running), Effects(less, env), Effect(h, env(h)));
    }
  }

  /** A pass of the process from its start to its end. */
  function WholePass(
    now: Instant, keepSource: bool, scan: Scan, concurrency: nat, schedule: seq<Hour>, env: Hour -> Env): seq<Action>
  {
    [StartPass(now, keepSource, scan, concurrency)] + Effects(schedule, env) + [EndPass]
  }

  /** The schedule takes every task of the pass to its end. */
  ghost predicate PassFinishes(
    cfg: Settings, w: World, scan: Scan, concurrency: nat, schedule: seq<Hour>, env: Hour -> Env)
  {
    Finished(RunPass(cfg, env, Begin(w, Due(w.rows, scan, cfg.now), concurrency), schedule))
  }

  lemma WholePassRuns(
    cfg: Settings, w: World, scan: Scan, concurrency: nat, schedule: seq<Hour>, env: Hour -> Env)
    ensures var pass := RunPass(cfg, env, Begin(w, Due(w.rows, scan, cfg.now), concurrency), schedule);
            Exec(cfg.grace, Idle(w), WholePass(cfg.now, cfg.keepSource, scan, concurrency, schedule, env))
            == Step(cfg.grace, Busy(Running(cfg, scan.retryFailed, pass)), EndPass)
  {
    var start := StartPass(cfg.now, cfg.keepSource, scan, concurrency);
    var running := Running(cfg, scan.retryFailed, Begin(w, Due(w.rows, scan, cfg.now), concurrency));
    ExecStep(cfg.grace, Idle(w), [], start);
    assert [] + [start] == [start];
    ExecAppend(cfg.grace, Idle(w), [start], Effects(schedule, env));
    EffectsRun(cfg.grace, running, schedule, env);
    ExecStep(cfg.grace, Idle(w), [start] + Effects(schedule, env), EndPass);
  }

  /** Short of a crash a pass ends only when every one of its tasks has. */
  lemma PassEndsWhenFinished(
    cfg: Settings, w: World, scan: Scan, concurrency: nat, schedule: seq<Hour>, env: Hour -> Env)
    ensures Exec(cfg.grace, Idle(w), WholePass(cfg.now, cfg.keepSource, scan, concurrency, schedule, env)).Idle?
            <==> PassFinishes(cfg, w, scan, concurrency, schedule, env)
  {
    WholePassRuns(cfg, w, scan, concurrency, schedule, env);
  }

  /** Started, run to its end in any interleaving and ended, a pass is PassWorld over the due hours. */
  lemma WholePassIsPassWorld(
    cfg: Settings, w: World, scan: Scan, concurrency: nat, schedule: seq<Hour>, env: Hour -> Env)
    requires PassFinishes(cfg, w, scan, concurrency, schedule, env)
    ensures Exec(cfg.grace, Idle(w), WholePass(cfg.now, cfg.keepSource, scan, concurrency, schedule, env))
         == Idle(PassWorld(cfg, env, w, Due(w.rows, scan, cfg.now)))
  {
    var due := Due(w.rows, scan, cfg.now);
    WholePassRuns(cfg, w, scan, concurrency, schedule, env);
    DueIs(w.rows, scan, cfg.now);
    IncreasingNoRepeats(due);
    ScheduleIndependence(cfg, env, w, due, concurrency, schedule);
  }

  lemma PassAfterRun(
    cfg: Settings, w0: World, run: seq<Action>, w: World, scan: Scan, concurrency: nat,
    schedule: seq<Hour>, env: Hour -> Env)
    requires Exec(cfg.grace, Idle(w0), run) == Idle(w)
    requires PassFinishes(cfg, w, scan, concurrency, schedule, env)
    ensures Exec(cfg.grace, Idle(w0), run + WholePass(cfg.now, cfg.keepSource, scan, concurrency, schedule, env))
         == Idle(PassWorld(cfg, env, w, Due(w.rows, scan, cfg.now)))
  {
    ExecAppend(cfg.grace, Idle(w0), run, WholePass(cfg.now, cfg.keepSource, scan, concurrency, schedule, env));
    WholePassIsPassWorld(cfg, w, scan, concurrency, schedule, env);
  }

  /** A crash leaves the process idle over whatever is durable. */
  lemma CrashedIsIdle(grace: int, w0: World, run: seq<Action>)
    ensures Exec(grace, Idle(w0), run + [Crash]) == Idle(Exec(grace, Idle(w0), run).W())
  {
    ExecStep(grace, Idle(w0), run, Crash);
  }

  /**
   Convergence after anything: let any run of passes, repairs, deletions and crashes be cut off
   by a crash. One pass over a range of closed hours, however its tasks interleave, then leaves
   nothing of the range pending exactly when every hour it found due got a definitive answer.
   */
  lemma OnePassAfterAnyRun(
    cfg: Settings, w0: World, run: seq<Action>, scan: Scan, concurrency: nat, schedule: seq<Hour>, env: Hour -> Env)
    requires !scan.retryFailed && HourEnd(scan.lastDay * 24 + 23) <= cfg.now
    requires PassFinishes(cfg, Exec(cfg.grace, Idle(w0), run).W(), scan, concurrency, schedule, env)
    ensures var w := Exec(cfg.grace, Idle(w0), run).W();
            var pass := WholePass(cfg.now, cfg.keepSource, scan, concurrency, schedule, env);
            PendingIn(Exec(cfg.grace, Idle(w0), run + [Crash] + pass).W().rows, scan) == []
            <==> forall h :: h in Due(w.rows, scan, cfg.now) ==> Definitive(cfg, env, w, h)
  {
    var w := Exec(cfg.grace, Idle(w0), run).W();
    CrashedIsIdle(cfg.grace, w0, run);
    PassAfterRun(cfg, w0, run + [Crash], w, scan, concurrency, schedule, env);
    OnePassConverges(cfg, env, w, scan);
  }

  /** Such a schedule always exists, with at most nine effects for each due hour. */
  lemma WholePassExists(cfg: Settings, w: World, scan: Scan, concurrency: nat, env: Hour -> Env)
    returns (schedule: seq<Hour>)
    requires concurrency >= 1
    ensures PassFinishes(cfg, w, scan, concurrency, schedule, env)
    ensures |schedule| <= 9 * |Due(w.rows, scan, cfg.now)|
  {
    DueIs(w.rows, scan, cfg.now);
    IncreasingNoRepeats(Due(w.rows, scan, cfg.now));
    schedule := EveryPassCanFinish(cfg, env, w, Due(w.rows, scan, cfg.now), concurrency);
  }
}
