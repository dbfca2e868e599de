/**
 One pass under bounded concurrency: a task per due hour, a semaphore that admits a fixed
 number of them, and one lock around the shared connection. A schedule is any list of hours to
 step; a task that cannot run yet (no permit, lock taken, already finished) stays where it is.
 */
module Schedule {
  import opened Wrappers
  import opened Hours
  import opened Ingest
  import opened Converge
  import Dedup

  datatype Pass = Pass(world: World, tasks: map<Hour, Phase>, permits: nat, lock: Option<Hour>)

  function Begin(w: World, due: seq<Hour>, concurrency: nat): Pass {
    Pass(w, map h | h in due :: Queued, concurrency, None)
  }

  predicate CanStep(p: Pass, h: Hour) {
    && h in p.tasks
    && !p.tasks[h].Done?
    && (p.tasks[h].Queued? ==> p.permits > 0)
    && (p.tasks[h].Writing? ==> p.lock.None?)
  }

  function StepPass(cfg: Settings, env: Hour -> Env, p: Pass, h: Hour): Pass {
    if !CanStep(p, h) then p
    else
      var before := p.tasks[h];
      var (cell, after) := StepTask(cfg, h, CellAt(p.world, h), before, env(h));
      Pass(Put(p.world, h, cell),
           p.tasks[h := after],
           if before.Queued? then p.permits - 1 else if after.Done? then p.permits + 1 else p.permits,
           if before.Writing? then Some(h) else if before.Holding? then None else p.lock)
  }

  function RunPass(cfg: Settings, env: Hour -> Env, p: Pass, schedule: seq<Hour>): Pass {
    if schedule == [] then p
    else StepPass(cfg, env, RunPass(cfg, env, p, schedule[..|schedule| - 1]), schedule[|schedule| - 1])
  }

  // ---- mutual exclusion -------------------------------------------------------------

  /** Ingests in flight: admitted and not finished. */
  ghost function Active(p: Pass): set<Hour> {
    set h | h in p.tasks && !p.tasks[h].Queued? && !p.tasks[h].Done?
  }

  /** Connection operations in flight. */
  ghost function InFlight(p: Pass): set<Hour> {
    set h | h in p.tasks && p.tasks[h].Holding?
  }

  ghost predicate Exclusive(p: Pass, concurrency: nat) {
    && |Active(p)| + p.permits == concurrency
    && InFlight(p) == (if p.lock.Some? then {p.lock.value} else {})
  }

  lemma StepExclusive(cfg: Settings, env: Hour -> Env, p: Pass, h: Hour, concurrency: nat)
    requires Exclusive(p, concurrency)
    ensures Exclusive(StepPass(cfg, env, p, h), concurrency)
  {
    if CanStep(p, h) {
      PhaseMoves(cfg, h, CellAt(p.world, h), p.tasks[h], env(h));
      MoveExclusive(p, StepPass(cfg, env, p, h), h, concurrency);
    }
  }

  /** No effect leads back to the queue, and only the one before it leads to the connection. */
  lemma PhaseMoves(cfg: Settings, h: Hour, cell: Cell, p: Phase, env: Env)
    requires !p.Done?
    ensures var q := StepTask(cfg, h, cell, p, env).1;
            !q.Queued? && (q.Holding? <==> p.Writing?) && (p.Queued? ==> !q.Done?)
  {
  }

  /** Moving one task, with the permit and the lock following it, keeps both counts right. */
  lemma MoveExclusive(p: Pass, q: Pass, h: Hour, concurrency: nat)
    requires Exclusive(p, concurrency) && CanStep(p, h)
    requires h in q.tasks && q.tasks == p.tasks[h := q.tasks[h]]
    requires var before, after := p.tasks[h], q.tasks[h];
             && !after.Queued? && (after.Holding? <==> before.Writing?) && (before.Queued? ==> !after.Done?)
             && q.permits == (if before.Queued? then p.permits - 1
                              else if after.Done? then p.permits + 1 else p.permits)
             && q.lock == (if before.Writing? then Some(h) else if before.Holding? then None else p.lock)
    ensures Exclusive(q, concurrency)
  {
    ActiveAfter(p, q, h);
    InFlightAfter(p, q, h);
  }

  lemma InFlightAfter(p: Pass, q: Pass, h: Hour)
    requires h in p.tasks && h in q.tasks && q.tasks == p.tasks[h := q.tasks[h]]
    ensures InFlight(q) == if q.tasks[h].Holding? then InFlight(p) + {h} else InFlight(p) - {h}
    ensures h in InFlight(p) <==> p.tasks[h].Holding?
  {
  }

  lemma ActiveAfter(p: Pass, q: Pass, h: Hour)
    requires h in p.tasks && h in q.tasks && !p.tasks[h].Done? && q.tasks == p.tasks[h := q.tasks[h]]
    requires !q.tasks[h].Queued? && (p.tasks[h].Queued? ==> !q.tasks[h].Done?)
    ensures |Active(q)| == |Active(p)| + (if p.tasks[h].Queued? then 1 else 0) - (if q.tasks[h].Done? then 1 else 0)
  {
    if p.tasks[h].Queued? {
      assert Active(q) == Active(p) + {h};
    } else if q.tasks[h].Done? {
      assert Active(q) == Active(p) - {h};
    } else {
      assert Active(q) == Active(p);
    }
  }

  // ---- what every schedule keeps ---------------------------------------------------

  /** Finishing each task from where it stands still ends where its own ingest would. */
  ghost predicate OnCourse(cfg: Settings, env: Hour -> Env, w: World, p: Pass) {
    forall h ::
      if h in p.tasks
      then Finish(cfg, h, CellAt(p.world, h), p.tasks[h], env(h)) == IngestCell(cfg, h, CellAt(w, h), env(h))
      else CellAt(p.world, h) == CellAt(w, h)
  }

  lemma BeginKeeps(cfg: Settings, env: Hour -> Env, w: World, due: seq<Hour>, concurrency: nat)
    ensures OnCourse(cfg, env, w, Begin(w, due, concurrency))
    ensures Exclusive(Begin(w, due, concurrency), concurrency)
  {
    var p := Begin(w, due, concurrency);
    forall h | h in p.tasks
      ensures Finish(cfg, h, CellAt(w, h), p.tasks[h], env(h)) == IngestCell(cfg, h, CellAt(w, h), env(h))
    {
      FinishIsIngest(cfg, h, CellAt(w, h), env(h));
    }
    assert Active(p) == {};
  }

  lemma StepOnCourse(cfg: Settings, env: Hour -> Env, w: World, p: Pass, h: Hour)
    requires OnCourse(cfg, env, w, p)
    ensures OnCourse(cfg, env, w, StepPass(cfg, env, p, h))
  {
    if CanStep(p, h) {
      var q := StepPass(cfg, env, p, h);
      var cell := StepTask(cfg, h, CellAt(p.world, h), p.tasks[h], env(h)).0;
      forall k
        ensures if k in q.tasks
                then Finish(cfg, k, CellAt(q.world, k), q.tasks[k], env(k)) == IngestCell(cfg, k, CellAt(w, k), env(k))
                else CellAt(q.world, k) == CellAt(w, k)
      {
        PutThenLook(p.world, h, cell, k);
      }
    }
  }

  lemma {:induction false} RunKeeps(
    cfg: Settings, env: Hour -> Env, w: World, due: seq<Hour>, concurrency: nat, schedule: seq<Hour>)
    ensures var p := RunPass(cfg, env, Begin(w, due, concurrency), schedule);
            && OnCourse(cfg, env, w, p)
            && Exclusive(p, concurrency)
            && p.tasks.Keys == (set h | h in due)
  {
    if schedule == [] {
      BeginKeeps(cfg, env, w, due, concurrency);
    } else {
      var before, h := schedule[..|schedule| - 1], schedule[|schedule| - 1];
      RunKeeps(cfg, env, w, due, concurrency, before);
      var p := RunPass(cfg, env, Begin(w, due, concurrency), before);
      StepOnCourse(cfg, env, w, p, h);
      StepExclusive(cfg, env, p, h, concurrency);
    }
  }

  /** At no moment do more than concurrency ingests run, or two statements share the connection. */
  lemma BoundedAndSerialised(
    cfg: Settings, env: Hour -> Env, w: World, due: seq<Hour>, concurrency: nat, schedule: seq<Hour>)
    ensures var p := RunPass(cfg, env, Begin(w, due, concurrency), schedule);
            |Active(p)| <= concurrency && |InFlight(p)| <= 1
  {
    RunKeeps(cfg, env, w, due, concurrency, schedule);
  }

  ghost predicate Finished(p: Pass) {
    forall h :: h in p.tasks ==> p.tasks[h].Done?
  }

  /** No deadlock: until every task is done, some task can step. */
  lemma SomeTaskCanStep(
    cfg: Settings, env: Hour -> Env, w: World, due: seq<Hour>, concurrency: nat, schedule: seq<Hour>)
    returns (h: Hour)
    requires concurrency >= 1
    requires !Finished(RunPass(cfg, env, Begin(w, due, concurrency), schedule))
    ensures CanStep(RunPass(cfg, env, Begin(w, due, concurrency), schedule), h)
  {
    var p := RunPass(cfg, env, Begin(w, due, concurrency), schedule);
    RunKeeps(cfg, env, w, due, concurrency, schedule);
    if p.lock.Some? {
      h := p.lock.value;
      assert h in InFlight(p);
    } else if a :| a in Active(p) {
      h := a;
    } else {
      h :| h in p.tasks && !p.tasks[h].Done?;
      assert (forall a :: a !in Active(p)) ==> Active(p) == {};
    }
  }

  // ---- termination -----------------------------------------------------------------------

  /** Effects still to come, over the hours of due. */
  ghost function Remaining(p: Pass, due: seq<Hour>): nat {
    if due == [] then 0
    else
      var h := due[|due| - 1];
      Remaining(p, due[..|due| - 1]) + (if h in p.tasks then Rank(p.tasks[h]) else 0)
  }

  lemma {:induction false} RemainingAfter(p: Pass, q: Pass, due: seq<Hour>, h: Hour)
    requires Dedup.NoRepeats(due)
    requires h in p.tasks && h in q.tasks && q.tasks == p.tasks[h := q.tasks[h]]
    ensures Remaining(q, due) == Remaining(p, due) + (if h in due then Rank(q.tasks[h]) - Rank(p.tasks[h]) else 0)
  {
    if due != [] {
      var before := due[..|due| - 1];
      RemainingAfter(p, q, before, h);
      assert due == before + [due[|due| - 1]];
    }
  }

  /** Every effective step uses up at least one of the at most nine effects of each due hour. */
  lemma EveryStepIsProgress(cfg: Settings, env: Hour -> Env, p: Pass, due: seq<Hour>, h: Hour)
    requires Dedup.NoRepeats(due) && p.tasks.Keys == (set k | k in due)
    requires CanStep(p, h)
    ensures Remaining(StepPass(cfg, env, p, h), due) < Remaining(p, due)
  {
    assert h in due;
    RemainingAfter(p, StepPass(cfg, env, p, h), due, h);
  }

  lemma {:induction false} AtMostNineEach(w: World, due: seq<Hour>, sub: seq<Hour>, concurrency: nat)
    ensures Remaining(Begin(w, due, concurrency), sub) <= 9 * |sub|
  {
    if sub != [] {
      AtMostNineEach(w, due, sub[..|sub| - 1], concurrency);
    }
  }

  lemma RunPassStep(cfg: Settings, env: Hour -> Env, p: Pass, schedule: seq<Hour>, h: Hour)
    ensures RunPass(cfg, env, p, schedule + [h]) == StepPass(cfg, env, RunPass(cfg, env, p, schedule), h)
  {
    assert (schedule + [h])[..|schedule|] == schedule;
  }

  lemma OneMoreStep(
    cfg: Settings, env: Hour -> Env, w: World, due: seq<Hour>, concurrency: nat, schedule: seq<Hour>)
    returns (h: Hour)
    requires Dedup.NoRepeats(due) && concurrency >= 1
    requires !Finished(RunPass(cfg, env, Begin(w, due, concurrency), schedule))
    ensures Remaining(RunPass(cfg, env, Begin(w, due, concurrency), schedule + [h]), due)
          < Remaining(RunPass(cfg, env, Begin(w, due, concurrency), schedule), due)
  {
    h := SomeTaskCanStep(cfg, env, w, due, concurrency, schedule);
    RunKeeps(cfg, env, w, due, concurrency, schedule);
    EveryStepIsProgress(cfg, env, RunPass(cfg, env, Begin(w, due, concurrency), schedule), due, h);
    RunPassStep(cfg, env, Begin(w, due, concurrency), schedule, h);
  }

  lemma {:induction false} Drain(
    cfg: Settings, env: Hour -> Env, w: World, due: seq<Hour>, concurrency: nat, schedule: seq<Hour>)
    returns (all: seq<Hour>)
    requires Dedup.NoRepeats(due) && concurrency >= 1
    ensures Finished(RunPass(cfg, env, Begin(w, due, concurrency), all))
    ensures |all| <= |schedule| + Remaining(RunPass(cfg, env, Begin(w, due, concurrency), schedule), due)
    decreases Remaining(RunPass(cfg, env, Begin(w, due, concurrency), schedule), due)
  {
    if Finished(RunPass(cfg, env, Begin(w, due, concurrency), schedule)) {
      all := schedule;
    } else {
      var h := OneMoreStep(cfg, env, w, due, concurrency, schedule);
      all := Drain(cfg, env, w, due, concurrency, schedule + [h]);
    }
  }

  /** Every pass can finish, and within nine effects for each due hour. */
  lemma EveryPassCanFinish(cfg: Settings, env: Hour -> Env, w: World, due: seq<Hour>, concurrency: nat)
    returns (schedule: seq<Hour>)
    requires Dedup.NoRepeats(due) && concurrency >= 1
    ensures Finished(RunPass(cfg, env, Begin(w, due, concurrency), schedule))
    ensures |schedule| <= 9 * |due|
  {
    schedule := Drain(cfg, env, w, due, concurrency, []);
    AtMostNineEach(w, due, due, concurrency);
  }

  // ---- schedule independence ---------------------------------------------------------------

  /**
   Whatever the interleaving, a finished pass has left the ledger and the lake exactly as
   ingesting the due hours one by one would, and every task reports the same.
   */
  lemma ScheduleIndependence(
    cfg: Settings, env: Hour -> Env, w: World, due: seq<Hour>, concurrency: nat, schedule: seq<Hour>)
    requires Dedup.NoRepeats(due)
    requires Finished(RunPass(cfg, env, Begin(w, due, concurrency), schedule))
    ensures var p := RunPass(cfg, env, Begin(w, due, concurrency), schedule);
            && p.world == PassWorld(cfg, env, w, due)
            && forall i :: 0 <= i < |due| ==>
                 due[i] in p.tasks && p.tasks[due[i]] == Done(Outcomes(cfg, env, w, due)[i])
  {
    var p := RunPass(cfg, env, Begin(w, due, concurrency), schedule);
    RunKeeps(cfg, env, w, due, concurrency, schedule);
    forall h
      ensures CellAt(p.world, h) == CellAt(PassWorld(cfg, env, w, due), h)
    {
      PassCells(cfg, env, w, due, h);
      if h in due {
        assert h in p.tasks;
      }
    }
    SameCells(p.world, PassWorld(cfg, env, w, due));
    forall i | 0 <= i < |due|
      ensures due[i] in p.tasks && p.tasks[due[i]] == Done(Outcomes(cfg, env, w, due)[i])
    {
      assert due[i] in p.tasks.Keys;
    }
  }

  /** The order the hours are taken in does not matter either. */
  lemma OrderIndependence(cfg: Settings, env: Hour -> Env, w: World, a: seq<Hour>, b: seq<Hour>)
    requires Dedup.NoRepeats(a) && Dedup.NoRepeats(b)
    requires forall h :: h in a <==> h in b
    ensures PassWorld(cfg, env, w, a) == PassWorld(cfg, env, w, b)
  {
    forall h
      ensures CellAt(PassWorld(cfg, env, w, a), h) == CellAt(PassWorld(cfg, env, w, b), h)
    {
      PassCells(cfg, env, w, a, h);
      PassCells(cfg, env, w, b, h);
    }
    SameCells(PassWorld(cfg, env, w, a), PassWorld(cfg, env, w, b));
  }
}
