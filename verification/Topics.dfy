/**
 Provisioners racing against one broker.

 The broker answers a create request with one code per topic instead of raising. The machine
 interleaves any number of provisioners that want the same topics, one broker-side creation at
 a time; EnsureTopics is one of them run alone.
 */
module Topics {
  import opened Wrappers

  datatype TopicSpec = TopicSpec(name: string, partitions: int, replication: int)

  datatype Sizing = Sizing(partitions: int, replication: int)

  /** The topics there are, each with the replica count of every partition. */
  type Live = map<string, seq<nat>>

  /** A topic's sizing as it is read: the replication is taken from the first partition. */
  function SizingOf(partitions: seq<nat>): Sizing {
    Sizing(|partitions|, if partitions == [] then 0 else partitions[0])
  }

  const NO_ERROR := 0
  const TOPIC_ALREADY_EXISTS := 36
  const INVALID_PARTITIONS := 37
  const INVALID_REPLICATION_FACTOR := 38

  /** The broker's answer to one topic of a create request. */
  function CodeFor(live: Live, brokers: nat, spec: TopicSpec): int {
    if spec.name in live then TOPIC_ALREADY_EXISTS
    else if spec.partitions < 1 then INVALID_PARTITIONS
    else if spec.replication < 1 || spec.replication > brokers then INVALID_REPLICATION_FACTOR
    else NO_ERROR
  }

  function Create(live: Live, brokers: nat, spec: TopicSpec): Live {
    if CodeFor(live, brokers, spec) == NO_ERROR
    then live[spec.name := seq(spec.partitions, _ => spec.replication)]
    else live
  }

  function AbsentFrom(live: Live, specs: seq<TopicSpec>): seq<TopicSpec> {
    if specs == [] then []
    else
      AbsentFrom(live, specs[..|specs| - 1])
      + (if specs[|specs| - 1].name in live then [] else [specs[|specs| - 1]])
  }

  lemma {:induction false} AbsentFromIs(live: Live, specs: seq<TopicSpec>)
    ensures forall s :: s in AbsentFrom(live, specs) <==> s in specs && s.name !in live
  {
    if specs != [] {
      AbsentFromIs(live, specs[..|specs| - 1]);
      assert specs == specs[..|specs| - 1] + [specs[|specs| - 1]];
    }
  }

  // ---- what a pass reports --------------------------------------------------------------

  datatype TopicOutcome = TopicOutcome(name: string, created: bool, existed: bool, sizing: Option<Sizing>)
  {
    predicate Missing() {
      !(created || existed)
    }

    /** Only a topic found, never one just created, can differ from its spec. */
    predicate DriftsFrom(spec: TopicSpec) {
      existed && sizing.Some? && sizing.value != Sizing(spec.partitions, spec.replication)
    }
  }

  datatype ProvisionReport = ProvisionReport(outcomes: seq<TopicOutcome>, drifts: seq<string>)
  {
    predicate Ready() {
      drifts == [] && forall o | o in outcomes :: !o.Missing()
    }
  }

  function OutcomeFor(live: Live, created: set<string>, spec: TopicSpec): TopicOutcome {
    TopicOutcome(spec.name, spec.name in created, spec.name in live && spec.name !in created,
                 if spec.name in live then Some(SizingOf(live[spec.name])) else None)
  }

  function OutcomesFor(live: Live, created: set<string>, specs: seq<TopicSpec>): seq<TopicOutcome> {
    seq(|specs|, i requires 0 <= i < |specs| => OutcomeFor(live, created, specs[i]))
  }

  function DriftsFor(live: Live, created: set<string>, specs: seq<TopicSpec>): seq<string> {
    if specs == [] then []
    else
      var last := specs[|specs| - 1];
      DriftsFor(live, created, specs[..|specs| - 1])
      + (if OutcomeFor(live, created, last).DriftsFrom(last) then [last.name] else [])
  }

  function ReportFor(live: Live, created: set<string>, specs: seq<TopicSpec>): ProvisionReport {
    ProvisionReport(OutcomesFor(live, created, specs), DriftsFor(live, created, specs))
  }

  /** The topic is there with as many partitions as asked for, and the first replicated as asked. */
  ghost predicate Matches(live: Live, spec: TopicSpec) {
    && spec.name in live
    && |live[spec.name]| == spec.partitions
    && (if spec.partitions == 0 then spec.replication == 0 else live[spec.name][0] == spec.replication)
  }

  /** A topic that was found, not created, and is not as configured. */
  ghost predicate Drifted(live: Live, created: set<string>, spec: TopicSpec) {
    spec.name in live && spec.name !in created && !Matches(live, spec)
  }

  lemma {:induction false} DriftsForIs(live: Live, created: set<string>, specs: seq<TopicSpec>)
    ensures DriftsFor(live, created, specs) == [] <==> forall s :: s in specs ==> !Drifted(live, created, s)
  {
    if specs != [] {
      var less, last := specs[..|specs| - 1], specs[|specs| - 1];
      DriftsForIs(live, created, less);
      assert forall s :: s in specs <==> s in less || s == last by {
        assert specs == less + [last];
      }
      DriftedIs(live, created, last);
    }
  }

  /** The places in the request of a topic of this name that drifted. */
  ghost function DriftPlaces(live: Live, created: set<string>, specs: seq<TopicSpec>, name: string): set<int> {
    set i | 0 <= i < |specs| && specs[i].name == name && Drifted(live, created, specs[i])
  }

  /** Exactly the topics that drifted are named, each as often as it is asked about. */
  lemma {:induction false} DriftsName(live: Live, created: set<string>, specs: seq<TopicSpec>, name: string)
    ensures multiset(DriftsFor(live, created, specs))[name] == |DriftPlaces(live, created, specs, name)|
  {
    if specs == [] {
      assert DriftPlaces(live, created, specs, name) == {};
    } else {
      var less, last := specs[..|specs| - 1], specs[|specs| - 1];
      DriftsName(live, created, less, name);
      DriftedIs(live, created, last);
      OneMorePlace(live, created, less, last, name);
      assert specs == less + [last];
    }
  }

  lemma OneMorePlace(live: Live, created: set<string>, less: seq<TopicSpec>, last: TopicSpec, name: string)
    ensures |DriftPlaces(live, created, less + [last], name)|
         == |DriftPlaces(live, created, less, name)|
            + (if last.name == name && Drifted(live, created, last) then 1 else 0)
  {
    var before := DriftPlaces(live, created, less, name);
    var more := if last.name == name && Drifted(live, created, last) then {|less|} else {};
    assert DriftPlaces(live, created, less + [last], name) == before + more;
  }

  lemma DriftedIs(live: Live, created: set<string>, spec: TopicSpec)
    ensures OutcomeFor(live, created, spec).DriftsFrom(spec) <==> Drifted(live, created, spec)
  {
  }

  /** The deploy gate: ready exactly when every topic is there, created now or as configured. */
  lemma ReadyMeans(live: Live, created: set<string>, specs: seq<TopicSpec>)
    requires created <= live.Keys
    ensures ReportFor(live, created, specs).Ready()
            <==> forall s :: s in specs ==> s.name in created || Matches(live, s)
  {
    DriftsForIs(live, created, specs);
    var outcomes := OutcomesFor(live, created, specs);
    assert forall i :: 0 <= i < |specs| ==>
             outcomes[i] in outcomes && (outcomes[i].Missing() <==> specs[i].name !in live);
  }

  // ---- several provisioners at once ---------------------------------------------------------

  /** The codes of a create response, in request order. */
  datatype Code = Code(topic: string, code: int)

  datatype Phase =
    | Starting
    | Creating(todo: seq<TopicSpec>, codes: seq<Code>)   // the broker is working through the request
    | Answered(codes: seq<Code>)
    | Refreshing(created: set<string>)
    | Done(created: set<string>, report: ProvisionReport)
    | Failed

  datatype State = State(live: Live, brokers: nat, provisioners: seq<Phase>)

  function CreatedIn(codes: seq<Code>): set<string> {
    set c | c in codes && c.code == NO_ERROR :: c.topic
  }

  predicate Refused(codes: seq<Code>) {
    exists c :: c in codes && c.code != NO_ERROR && c.code != TOPIC_ALREADY_EXISTS
  }

  function StepOne(live: Live, brokers: nat, specs: seq<TopicSpec>, p: Phase): (Live, Phase) {
    match p
    case Starting =>
      if brokers > 0 && exists s :: s in specs && s.replication > brokers then (live, Failed)
      else if AbsentFrom(live, specs) == [] then (live, Refreshing({}))
      else (live, Creating(AbsentFrom(live, specs), []))
    case Creating(todo, codes) =>
      if todo == [] then (live, Answered(codes))
      else (Create(live, brokers, todo[0]),
            Creating(todo[1..], codes + [Code(todo[0].name, CodeFor(live, brokers, todo[0]))]))
    case Answered(codes) => if Refused(codes) then (live, Failed) else (live, Refreshing(CreatedIn(codes)))
    case Refreshing(created) => (live, Done(created, ReportFor(live, created, specs)))
    case Done(_, _) => (live, p)
    case Failed => (live, p)
  }

  function Step(specs: seq<TopicSpec>, s: State, i: nat): State {
    if i >= |s.provisioners| then s
    else
      var (live, p) := StepOne(s.live, s.brokers, specs, s.provisioners[i]);
      State(live, s.brokers, s.provisioners[i := p])
  }

  function Start(live: Live, brokers: nat, count: nat): State {
    State(live, brokers, seq(count, _ => Starting))
  }

  function Run(specs: seq<TopicSpec>, s: State, schedule: seq<nat>): State {
    if schedule == [] then s else Step(specs, Run(specs, s, schedule[..|schedule| - 1]), schedule[|schedule| - 1])
  }

  /** What the broker will accept of a spec, when nothing of that name exists. */
  predicate Hostable(spec: TopicSpec, brokers: nat) {
    spec.partitions >= 1 && 1 <= spec.replication <= brokers
  }

  ghost predicate Creatable(specs: seq<TopicSpec>, brokers: nat) {
    forall s :: s in specs ==> Hostable(s, brokers)
  }

  /** Every spec is live already or could be hosted, and none wants more replicas than brokers. */
  ghost predicate Fits(live: Live, brokers: nat, specs: seq<TopicSpec>) {
    && (forall s :: s in specs ==> s.name in live || Hostable(s, brokers))
    && (brokers > 0 ==> forall s :: s in specs ==> s.replication <= brokers)
  }

  ghost predicate DistinctNames(specs: seq<TopicSpec>) {
    forall i, j :: 0 <= i < j < |specs| ==> specs[i].name != specs[j].name
  }

  /** The topics a provisioner has been told it created. */
  function CreatedBy(p: Phase): set<string> {
    match p
    case Creating(_, codes) => CreatedIn(codes)
    case Answered(codes) => CreatedIn(codes)
    case Refreshing(created) => created
    case Done(created, _) => created
    case _ => {}
  }

  function CodesOf(p: Phase): seq<Code> {
    if p.Creating? || p.Answered? then p.codes else []
  }

  /** One provisioner, seen from the broker's present topics. */
  ghost predicate OneOk(specs: seq<TopicSpec>, live0: Live, live: Live, p: Phase) {
    && !p.Failed?
    && !Refused(CodesOf(p))
    && CreatedBy(p) <= live.Keys && CreatedBy(p) !! live0.Keys
    && (p.Creating? ==> forall s :: s in p.todo ==> s in specs && s.name !in live0)
    && (forall s :: s in specs && !p.Starting? ==> s.name in live || (p.Creating? && s in p.todo))
    && (p.Done? ==> ReportOk(specs, p.created, p.report))
  }

  /** Every spec has its outcome, none is missing, and created is claimed of what was created. */
  ghost predicate ReportOk(specs: seq<TopicSpec>, created: set<string>, r: ProvisionReport) {
    && (forall o :: o in r.outcomes ==> !o.Missing() && (o.created <==> o.name in created))
    && (forall s :: s in specs ==> exists o :: o in r.outcomes && o.name == s.name)
  }

  /** Pre-existing topics keep their sizing, and what is new has its spec's sizing. */
  ghost predicate LiveOk(specs: seq<TopicSpec>, live0: Live, live: Live) {
    && (forall n :: n in live0 ==> n in live && live[n] == live0[n])
    && (forall n :: n in live && n !in live0 ==> exists s :: s in specs && s.name == n && Matches(live, s))
  }

  ghost predicate Inv(specs: seq<TopicSpec>, live0: Live, s: State) {
    && LiveOk(specs, live0, s.live)
    && (forall i :: 0 <= i < |s.provisioners| ==> OneOk(specs, live0, s.live, s.provisioners[i]))
    && (forall i, j :: 0 <= i < j < |s.provisioners| ==>
          CreatedBy(s.provisioners[i]) !! CreatedBy(s.provisioners[j]))
    && (forall n :: n in s.live && n !in live0 ==> SomeoneCreated(s, n))
  }

  ghost predicate SomeoneCreated(s: State, n: string) {
    exists i :: 0 <= i < |s.provisioners| && n in CreatedBy(s.provisioners[i])
  }

  lemma CreatedInAppend(codes: seq<Code>, c: Code)
    ensures CreatedIn(codes + [c]) == CreatedIn(codes) + (if c.code == NO_ERROR then {c.topic} else {})
    ensures Refused(codes + [c]) <==> Refused(codes) || (c.code != NO_ERROR && c.code != TOPIC_ALREADY_EXISTS)
  {
    assert forall x :: x in codes + [c] <==> x in codes || x == c;
  }

  /** What one step of one provisioner does to itself, to the broker, and to what it created. */
  ghost predicate Follows(
    specs: seq<TopicSpec>, live0: Live, live: Live, p: Phase, after: Live, q: Phase)
  {
    && LiveOk(specs, live0, after) && OneOk(specs, live0, after, q)
    && live.Keys <= after.Keys
    && CreatedBy(p) <= CreatedBy(q)
    && after.Keys - live.Keys == CreatedBy(q) - CreatedBy(p)
    && (forall n :: n in CreatedBy(q) && n !in CreatedBy(p) ==> n !in live)
  }

  lemma CreatingStep(specs: seq<TopicSpec>, live0: Live, live: Live, brokers: nat, p: Phase)
    requires Fits(live0, brokers, specs) && LiveOk(specs, live0, live) && OneOk(specs, live0, live, p)
    requires p.Creating? && p.todo != []
    ensures var (after, q) := StepOne(live, brokers, specs, p);
            Follows(specs, live0, live, p, after, q)
  {
    var spec := p.todo[0];
    assert spec in p.todo;
    CreatedInAppend(p.codes, Code(spec.name, CodeFor(live, brokers, spec)));
    assert forall s :: s in p.todo <==> s == spec || s in p.todo[1..];
    CreateOk(specs, live0, live, brokers, spec);
  }

  lemma OneStep(specs: seq<TopicSpec>, live0: Live, live: Live, brokers: nat, p: Phase)
    requires Fits(live0, brokers, specs) && LiveOk(specs, live0, live) && OneOk(specs, live0, live, p)
    ensures var (after, q) := StepOne(live, brokers, specs, p);
            Follows(specs, live0, live, p, after, q)
  {
    match p {
      case Starting =>
        AbsentFromIs(live, specs);
        assert CreatedIn([]) == {};
      case Creating(todo, codes) =>
        if todo != [] {
          CreatingStep(specs, live0, live, brokers, p);
        }
      case Refreshing(created) =>
        OutcomesPresent(live, created, specs);
      case _ =>
    }
  }

  lemma CreateOk(specs: seq<TopicSpec>, live0: Live, live: Live, brokers: nat, spec: TopicSpec)
    requires LiveOk(specs, live0, live) && spec in specs
    ensures LiveOk(specs, live0, Create(live, brokers, spec))
  {
    var after := Create(live, brokers, spec);
    forall n | n in after && n !in live0
      ensures exists s :: s in specs && s.name == n && Matches(after, s)
    {
      if n in live {
        var s :| s in specs && s.name == n && Matches(live, s);
        assert Matches(after, s);
      } else {
        assert Matches(after, spec);
      }
    }
  }

  lemma OutcomesPresent(live: Live, created: set<string>, specs: seq<TopicSpec>)
    requires forall s :: s in specs ==> s.name in live
    ensures ReportOk(specs, created, ReportFor(live, created, specs))
  {
    var outcomes := OutcomesFor(live, created, specs);
    forall s | s in specs
      ensures exists o :: o in outcomes && o.name == s.name
    {
      var i :| 0 <= i < |specs| && specs[i] == s;
      assert outcomes[i] in outcomes;
    }
  }

  lemma MoreLive(specs: seq<TopicSpec>, live0: Live, live: Live, after: Live, p: Phase)
    requires OneOk(specs, live0, live, p) && live.Keys <= after.Keys
    ensures OneOk(specs, live0, after, p)
  {
  }

  lemma StepKeeps(specs: seq<TopicSpec>, live0: Live, s: State, i: nat)
    requires Fits(live0, s.brokers, specs) && Inv(specs, live0, s)
    ensures Inv(specs, live0, Step(specs, s, i))
  {
    if i < |s.provisioners| {
      var p := s.provisioners[i];
      var (after, q) := StepOne(s.live, s.brokers, specs, p);
      OneStep(specs, live0, s.live, s.brokers, p);
      var t := Step(specs, s, i);
      forall j | 0 <= j < |t.provisioners|
        ensures OneOk(specs, live0, after, t.provisioners[j])
      {
        if j != i {
          MoreLive(specs, live0, s.live, after, s.provisioners[j]);
        }
      }
      forall j, k | 0 <= j < k < |t.provisioners|
        ensures CreatedBy(t.provisioners[j]) !! CreatedBy(t.provisioners[k])
      {
        assert CreatedBy(s.provisioners[j]) !! CreatedBy(s.provisioners[k]);
        assert OneOk(specs, live0, s.live, s.provisioners[j]) && OneOk(specs, live0, s.live, s.provisioners[k]);
      }
      forall n | n in t.live && n !in live0
        ensures SomeoneCreated(t, n)
      {
        if n in s.live {
          var j :| 0 <= j < |s.provisioners| && n in CreatedBy(s.provisioners[j]);
          assert n in CreatedBy(t.provisioners[j]);
        } else {
          assert n in CreatedBy(t.provisioners[i]);
        }
      }
    }
  }

  lemma {:induction false} RunKeeps(specs: seq<TopicSpec>, live0: Live, brokers: nat, count: nat, schedule: seq<nat>)
    requires Fits(live0, brokers, specs)
    ensures var s := Run(specs, Start(live0, brokers, count), schedule);
            Inv(specs, live0, s) && s.brokers == brokers && |s.provisioners| == count
  {
    if schedule != [] {
      RunKeeps(specs, live0, brokers, count, schedule[..|schedule| - 1]);
      var s := Run(specs, Start(live0, brokers, count), schedule[..|schedule| - 1]);
      StepKeeps(specs, live0, s, schedule[|schedule| - 1]);
    }
  }

  // ---- every provisioner finishes, however unfairly the others run --------------------------

  /** Steps a provisioner may still need. */
  function Rank(specs: seq<TopicSpec>, p: Phase): nat {
    match p
    case Starting => |specs| + 4
    case Creating(todo, _) => |todo| + 3
    case Answered(_) => 2
    case Refreshing(_) => 1
    case _ => 0
  }

  function Turns(schedule: seq<nat>, i: nat): nat {
    if schedule == [] then 0
    else Turns(schedule[..|schedule| - 1], i) + (if schedule[|schedule| - 1] == i then 1 else 0)
  }

  lemma {:induction false} AbsentNoLonger(live: Live, specs: seq<TopicSpec>)
    ensures |AbsentFrom(live, specs)| <= |specs|
  {
    if specs != [] {
      AbsentNoLonger(live, specs[..|specs| - 1]);
    }
  }

  lemma {:induction false} TurnsCount(specs: seq<TopicSpec>, live0: Live, brokers: nat, count: nat,
                                      schedule: seq<nat>, i: nat)
    requires i < count
    ensures var s := Run(specs, Start(live0, brokers, count), schedule);
            |s.provisioners| == count
            && (Rank(specs, s.provisioners[i]) == 0
                || Rank(specs, s.provisioners[i]) + Turns(schedule, i) <= |specs| + 4)
  {
    if schedule != [] {
      var before := Run(specs, Start(live0, brokers, count), schedule[..|schedule| - 1]);
      TurnsCount(specs, live0, brokers, count, schedule[..|schedule| - 1], i);
      AbsentNoLonger(before.live, specs);
    }
  }

  /** No provisioner can be held up by the others: with enough turns of its own, it is done. */
  lemma ProvisionerFinishes(specs: seq<TopicSpec>, live0: Live, brokers: nat, count: nat,
                            schedule: seq<nat>, i: nat)
    requires Fits(live0, brokers, specs) && i < count && Turns(schedule, i) >= |specs| + 4
    ensures var s := Run(specs, Start(live0, brokers, count), schedule);
            |s.provisioners| == count && s.provisioners[i].Done?
  {
    TurnsCount(specs, live0, brokers, count, schedule, i);
    RunKeeps(specs, live0, brokers, count, schedule);
    var s := Run(specs, Start(live0, brokers, count), schedule);
    assert OneOk(specs, live0, s.live, s.provisioners[i]);
  }

  ghost predicate AllDone(s: State) {
    forall i :: 0 <= i < |s.provisioners| ==> s.provisioners[i].Done?
  }

  /**
   At no point of any interleaving has a provisioner failed or a pre-existing topic changed
   size; and a topic that is new belongs to exactly one provisioner.
   */
  lemma RaceIsSafe(specs: seq<TopicSpec>, live0: Live, brokers: nat, count: nat, schedule: seq<nat>)
    requires Fits(live0, brokers, specs)
    ensures var s := Run(specs, Start(live0, brokers, count), schedule);
            && (forall i :: 0 <= i < |s.provisioners| ==> !s.provisioners[i].Failed?)
            && (forall n :: n in live0 ==> n in s.live && s.live[n] == live0[n])
    ensures var s := Run(specs, Start(live0, brokers, count), schedule);
            forall i, j :: 0 <= i < j < |s.provisioners| ==>
              CreatedBy(s.provisioners[i]) !! CreatedBy(s.provisioners[j])
    ensures var s := Run(specs, Start(live0, brokers, count), schedule);
            forall i :: 0 <= i < |s.provisioners| ==> CreatedBy(s.provisioners[i]) !! live0.Keys
  {
    RunKeeps(specs, live0, brokers, count, schedule);
  }

  ghost predicate ClaimsCreation(p: Phase, n: string) {
    p.Done? && exists o :: o in p.report.outcomes && o.name == n && o.created
  }

  /**
   When all are done, every required topic exists, sized as found or as configured; no report
   misses one; and a topic that was absent is reported created by exactly one provisioner.
   */
  lemma RaceOutcome(specs: seq<TopicSpec>, live0: Live, brokers: nat, count: nat, schedule: seq<nat>)
    requires Fits(live0, brokers, specs) && count > 0
    requires AllDone(Run(specs, Start(live0, brokers, count), schedule))
    ensures var s := Run(specs, Start(live0, brokers, count), schedule);
            && (forall spec :: spec in specs ==> spec.name in s.live)
            && (forall i, o :: 0 <= i < |s.provisioners| && o in s.provisioners[i].report.outcomes ==> !o.Missing())
    ensures var s := Run(specs, Start(live0, brokers, count), schedule);
            forall n :: n in s.live && n !in live0 ==>
              exists spec :: spec in specs && spec.name == n && Matches(s.live, spec)
    ensures var s := Run(specs, Start(live0, brokers, count), schedule);
            forall spec :: spec in specs && spec.name !in live0 ==> OneClaims(s, spec.name)
  {
    RunKeeps(specs, live0, brokers, count, schedule);
    var s := Run(specs, Start(live0, brokers, count), schedule);
    assert OneOk(specs, live0, s.live, s.provisioners[0]);
    forall spec | spec in specs && spec.name !in live0
      ensures OneClaims(s, spec.name)
    {
      ExactlyOne(specs, live0, s, spec);
    }
  }

  ghost predicate OneClaims(s: State, n: string) {
    exists i :: 0 <= i < |s.provisioners| && ClaimsCreation(s.provisioners[i], n) && NoOtherClaims(s, i, n)
  }

  ghost predicate NoOtherClaims(s: State, i: nat, n: string) {
    forall j :: 0 <= j < |s.provisioners| && j != i ==> !ClaimsCreation(s.provisioners[j], n)
  }

  lemma ClaimsWhatItCreated(specs: seq<TopicSpec>, live0: Live, live: Live, p: Phase, spec: TopicSpec)
    requires OneOk(specs, live0, live, p) && p.Done? && spec in specs
    ensures ClaimsCreation(p, spec.name) <==> spec.name in CreatedBy(p)
  {
    assert ReportOk(specs, p.created, p.report);
  }

  lemma ExactlyOne(specs: seq<TopicSpec>, live0: Live, s: State, spec: TopicSpec)
    requires Inv(specs, live0, s) && AllDone(s)
    requires spec in specs && spec.name in s.live && spec.name !in live0
    ensures OneClaims(s, spec.name)
  {
    assert SomeoneCreated(s, spec.name);
    var i :| 0 <= i < |s.provisioners| && spec.name in CreatedBy(s.provisioners[i]);
    ClaimsWhatItCreated(specs, live0, s.live, s.provisioners[i], spec);
    forall j | 0 <= j < |s.provisioners| && j != i
      ensures !ClaimsCreation(s.provisioners[j], spec.name)
    {
      ClaimsWhatItCreated(specs, live0, s.live, s.provisioners[j], spec);
      var lo, hi := if i < j then i else j, if i < j then j else i;
      assert CreatedBy(s.provisioners[lo]) !! CreatedBy(s.provisioners[hi]);
    }
    assert NoOtherClaims(s, i, spec.name);
  }

  // ---- and when the specs do not fit, none succeeds ------------------------------------------

  /** A spec that no creation can satisfy: absent, and more than the broker can host. */
  ghost predicate Hopeless(specs: seq<TopicSpec>, live: Live, brokers: nat, bad: TopicSpec) {
    bad in specs && bad.name !in live && !Hostable(bad, brokers)
  }

  /** On the way to failing: still to be refused, or refused already. */
  ghost predicate Doomed(specs: seq<TopicSpec>, bad: TopicSpec, p: Phase) {
    && !p.Refreshing? && !p.Done?
    && (p.Creating? ==> forall s :: s in p.todo ==> s in specs)
    && (p.Creating? ==> bad in p.todo || Refused(p.codes))
    && (p.Answered? ==> Refused(p.codes))
  }

  lemma DoomedStep(specs: seq<TopicSpec>, live: Live, brokers: nat, bad: TopicSpec, p: Phase)
    requires DistinctNames(specs) && Hopeless(specs, live, brokers, bad) && Doomed(specs, bad, p)
    ensures var (after, q) := StepOne(live, brokers, specs, p);
            Hopeless(specs, after, brokers, bad) && Doomed(specs, bad, q)
  {
    match p {
      case Starting => AbsentFromIs(live, specs);
      case Creating(todo, codes) =>
        if todo != [] {
          var spec := todo[0];
          assert spec in todo && (bad in todo ==> bad == spec || bad in todo[1..]);
          CreatedInAppend(codes, Code(spec.name, CodeFor(live, brokers, spec)));
          SameNameSameSpec(specs, spec, bad);
        }
      case _ =>
    }
  }

  lemma SameNameSameSpec(specs: seq<TopicSpec>, a: TopicSpec, b: TopicSpec)
    requires DistinctNames(specs) && a in specs && b in specs
    ensures a.name == b.name ==> a == b
  {
    var i :| 0 <= i < |specs| && specs[i] == a;
    var j :| 0 <= j < |specs| && specs[j] == b;
    assert i < j ==> specs[i].name != specs[j].name;
    assert j < i ==> specs[j].name != specs[i].name;
  }

  lemma {:induction false} HopelessRun(
    specs: seq<TopicSpec>, live0: Live, brokers: nat, count: nat, schedule: seq<nat>, bad: TopicSpec)
    requires DistinctNames(specs) && Hopeless(specs, live0, brokers, bad)
    ensures var s := Run(specs, Start(live0, brokers, count), schedule);
            && s.brokers == brokers && Hopeless(specs, s.live, brokers, bad)
            && forall i :: 0 <= i < |s.provisioners| ==> Doomed(specs, bad, s.provisioners[i])
  {
    if schedule != [] {
      var less, i := schedule[..|schedule| - 1], schedule[|schedule| - 1];
      HopelessRun(specs, live0, brokers, count, less, bad);
      var s := Run(specs, Start(live0, brokers, count), less);
      if i < |s.provisioners| {
        DoomedStep(specs, s.live, brokers, bad, s.provisioners[i]);
      }
    }
  }

  lemma {:induction false} OversizedRun(
    specs: seq<TopicSpec>, live0: Live, brokers: nat, count: nat, schedule: seq<nat>, bad: TopicSpec)
    requires brokers > 0 && bad in specs && bad.replication > brokers
    ensures var s := Run(specs, Start(live0, brokers, count), schedule);
            && s.brokers == brokers && s.live == live0
            && forall i :: 0 <= i < |s.provisioners| ==> s.provisioners[i].Starting? || s.provisioners[i].Failed?
  {
    if schedule != [] {
      OversizedRun(specs, live0, brokers, count, schedule[..|schedule| - 1], bad);
    }
  }

  /** The condition is exact: where the specs do not fit, no provisioner of any race succeeds. */
  lemma UnfitRaceFails(specs: seq<TopicSpec>, live0: Live, brokers: nat, count: nat, schedule: seq<nat>)
    requires DistinctNames(specs) && !Fits(live0, brokers, specs)
    ensures var s := Run(specs, Start(live0, brokers, count), schedule);
            forall i :: 0 <= i < |s.provisioners| ==> !s.provisioners[i].Done?
  {
    if bad :| bad in specs && bad.name !in live0 && !Hostable(bad, brokers) {
      HopelessRun(specs, live0, brokers, count, schedule, bad);
    } else {
      var bad :| bad in specs && bad.replication > brokers;
      OversizedRun(specs, live0, brokers, count, schedule, bad);
    }
  }

  // ---- one provisioner --------------------------------------------------------------------

  class Broker {
    const brokers: nat
    var live: Live
    ghost var createRequests: nat

    constructor (brokers: nat)
      ensures this.brokers == brokers && live == map[] && createRequests == 0
    {
      this.brokers := brokers;
      live := map[];
      createRequests := 0;
    }

    /** One create request: every topic answered with its own code, nothing raised. */
    method CreateTopics(specs: seq<TopicSpec>) returns (codes: seq<Code>)
      modifies this
      ensures createRequests == old(createRequests) + 1
      ensures live == CreateAll(old(live), brokers, specs).0
      ensures codes == CreateAll(old(live), brokers, specs).1
    {
      createRequests := createRequests + 1;
      codes := [];
      for i := 0 to |specs|
        invariant createRequests == old(createRequests) + 1
        invariant (live, codes) == CreateAll(old(live), brokers, specs[..i])
      {
        assert specs[..i + 1][..i] == specs[..i];
        codes := codes + [Code(specs[i].name, CodeFor(live, brokers, specs[i]))];
        live := Create(live, brokers, specs[i]);
      }
      assert specs[..|specs|] == specs;
    }
  }

  function CreateAll(live: Live, brokers: nat, specs: seq<TopicSpec>): (Live, seq<Code>) {
    if specs == [] then (live, [])
    else
      var (before, codes) := CreateAll(live, brokers, specs[..|specs| - 1]);
      var spec := specs[|specs| - 1];
      (Create(before, brokers, spec), codes + [Code(spec.name, CodeFor(before, brokers, spec))])
  }

  /** Unless something was refused, a request leaves exactly its absent topics created. */
  lemma {:induction false} CreateAllIs(specs: seq<TopicSpec>, live: Live, brokers: nat, todo: seq<TopicSpec>)
    requires forall s :: s in todo ==> s in specs
    ensures var (after, codes) := CreateAll(live, brokers, todo);
            && LiveOk(specs, live, after)
            && after.Keys - live.Keys == CreatedIn(codes)
            && (!Refused(codes) ==> forall s :: s in todo ==> s.name in after)
            && (Creatable(specs, brokers) ==> !Refused(codes))
  {
    if todo == [] {
      assert CreatedIn([]) == {};
    } else {
      var less, spec := todo[..|todo| - 1], todo[|todo| - 1];
      assert todo == less + [spec];
      CreateAllIs(specs, live, brokers, less);
      var (before, codes) := CreateAll(live, brokers, less);
      CreateOk(specs, live, before, brokers, spec);
      CreatedInAppend(codes, Code(spec.name, CodeFor(before, brokers, spec)));
    }
  }

  lemma {:induction false} AbsentStayDistinct(live: Live, specs: seq<TopicSpec>)
    requires DistinctNames(specs)
    ensures DistinctNames(AbsentFrom(live, specs))
  {
    if specs != [] {
      var less, last := specs[..|specs| - 1], specs[|specs| - 1];
      AbsentStayDistinct(live, less);
      AbsentFromIs(live, less);
      var absent := AbsentFrom(live, less);
      forall i | 0 <= i < |absent|
        ensures absent[i].name != last.name
      {
        assert absent[i] in absent;
      }
    }
  }

  lemma NotYetThere(live: Live, brokers: nat, less: seq<TopicSpec>, spec: TopicSpec)
    requires DistinctNames(less + [spec]) && spec.name !in live
    ensures spec.name !in CreateAll(live, brokers, less).0
  {
    CreateAllIs(less, live, brokers, less);
    forall s | s in less
      ensures s.name != spec.name
    {
      var i :| 0 <= i < |less| && less[i] == s;
      assert (less + [spec])[i] == s && (less + [spec])[|less|] == spec;
    }
  }

  lemma CodeMeans(live: Live, brokers: nat, spec: TopicSpec)
    requires spec.name !in live
    ensures CodeFor(live, brokers, spec) == NO_ERROR <==> Hostable(spec, brokers)
    ensures CodeFor(live, brokers, spec) != TOPIC_ALREADY_EXISTS
  {
  }

  /** A request for absent topics is refused exactly when the broker cannot host one of them. */
  lemma {:induction false} RefusedMeans(live: Live, brokers: nat, todo: seq<TopicSpec>)
    requires DistinctNames(todo) && forall s :: s in todo ==> s.name !in live
    ensures Refused(CreateAll(live, brokers, todo).1) <==> !Creatable(todo, brokers)
  {
    if todo == [] {
      assert CreateAll(live, brokers, todo).1 == [];
    } else {
      var less, spec := todo[..|todo| - 1], todo[|todo| - 1];
      assert todo == less + [spec];
      RefusedMeans(live, brokers, less);
      NotYetThere(live, brokers, less, spec);
      var (before, codes) := CreateAll(live, brokers, less);
      CodeMeans(before, brokers, spec);
      CreatedInAppend(codes, Code(spec.name, CodeFor(before, brokers, spec)));
      assert Creatable(todo, brokers) <==> Creatable(less, brokers) && Hostable(spec, brokers);
    }
  }

  lemma AbsentRefused(live: Live, brokers: nat, specs: seq<TopicSpec>)
    requires DistinctNames(specs)
    requires brokers > 0 ==> forall s :: s in specs ==> s.replication <= brokers
    ensures Refused(CreateAll(live, brokers, AbsentFrom(live, specs)).1) <==> !Fits(live, brokers, specs)
  {
    AbsentFromIs(live, specs);
    AbsentStayDistinct(live, specs);
    RefusedMeans(live, brokers, AbsentFrom(live, specs));
  }

  /** No topic asked about is described with an error other than that it does not exist. */
  predicate Readable(specs: seq<TopicSpec>, unreadable: set<string>) {
    forall s | s in specs :: s.name !in unreadable
  }

  /** The deploy gate's look at the broker, which leaves it as it is. */
  method VerifyTopics(broker: Broker, specs: seq<TopicSpec>, unreadable: set<string>)
    returns (r: Result<ProvisionReport, string>)
    ensures r.Ok? <==> forall s :: s in specs ==> s.name !in unreadable
    ensures r.Ok? ==> (r.value.Ready() <==> forall s :: s in specs ==> Matches(broker.live, s))
    ensures r.Ok? ==> r.value == ReportFor(broker.live, {}, specs)
  {
    if !Readable(specs, unreadable) {
      return Err("cannot read a topic");
    }
    ReadyMeans(broker.live, {}, specs);
    return Ok(ReportFor(broker.live, {}, specs));
  }

  /**
   One provisioner run alone. An excess of replicas is found before any create request; after
   that, only an unreadable topic or a refused creation makes it fail.
   */
  method EnsureTopics(
    broker: Broker, specs: seq<TopicSpec>, unreadableBefore: set<string>, unreadableAfter: set<string>)
    returns (r: Result<ProvisionReport, string>)
    requires specs != []
    modifies broker
    ensures LiveOk(specs, old(broker.live), broker.live)
    ensures Creatable(specs, broker.brokers) ==>
              (forall s :: s in specs ==> s.name !in unreadableBefore + unreadableAfter) ==> r.Ok?
    ensures DistinctNames(specs) ==>
              (r.Ok? <==> Fits(old(broker.live), broker.brokers, specs)
                          && forall s :: s in specs ==> s.name !in unreadableBefore + unreadableAfter)
    ensures (exists s :: s in specs && s.name in unreadableBefore) ==> r.Err? && broker.live == old(broker.live)
    ensures broker.brokers > 0 && (exists s :: s in specs && s.replication > broker.brokers) ==>
              r.Err? && broker.live == old(broker.live)
    ensures r.Ok? ==> forall s :: s in specs ==> s.name in broker.live
    ensures r.Ok? ==> r.value == ReportFor(broker.live, broker.live.Keys - old(broker.live.Keys), specs)
    ensures (forall s :: s in specs ==> s.name in old(broker.live)) ==>
              broker.live == old(broker.live) && broker.createRequests == old(broker.createRequests)
  {
    if broker.brokers > 0 && exists s :: s in specs && s.replication > broker.brokers {
      return Err("replication factor exceeds the registered brokers");
    }
    if !Readable(specs, unreadableBefore) {
      return Err("cannot read a topic");
    }
    var absent := AbsentFrom(broker.live, specs);
    AbsentFromIs(broker.live, specs);
    if DistinctNames(specs) {
      AbsentRefused(broker.live, broker.brokers, specs);
    }
    var created: set<string> := {};
    if absent != [] {
      assert absent[0] in absent;
      CreateAllIs(specs, broker.live, broker.brokers, absent);
      var codes := broker.CreateTopics(absent);
      var refused := false;
      created, refused := ReadCodes(codes);
      if refused {
        return Err("could not create");
      }
    }
    assert forall s :: s in specs && s.name !in old(broker.live) ==> s in absent;
    assert created == broker.live.Keys - old(broker.live.Keys);
    if !Readable(specs, unreadableAfter) {
      return Err("cannot read a topic");
    }
    return Ok(ReportFor(broker.live, created, specs));
  }

  /** Reading a response: which topics were created, or that one was refused. */
  method ReadCodes(codes: seq<Code>) returns (created: set<string>, refused: bool)
    ensures refused <==> exists c :: c in codes && c.code != 0 && c.code != 36
    ensures !refused ==> created == set c | c in codes && c.code == 0 :: c.topic
  {
    created := {};
    for i := 0 to |codes|
      invariant !Refused(codes[..i])
      invariant created == CreatedIn(codes[..i])
    {
      assert codes[..i + 1] == codes[..i] + [codes[i]];
      CreatedInAppend(codes[..i], codes[i]);
      if codes[i].code == NO_ERROR {
        created := created + {codes[i].topic};
      } else if codes[i].code != TOPIC_ALREADY_EXISTS {
        assert codes[i] in codes;
        return {}, true;
      }
    }
    assert codes[..|codes|] == codes;
    return created, false;
  }
}
