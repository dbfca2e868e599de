/**
 At-least-once delivery made effectively-once, over every crash schedule.

 The machine is one consumer group on a partitioned log: poll, store the batch in one
 transaction, deliver its dead letters one by one, and only then commit: the source commits a
 batch when it is asked for the next one. A batch holding an event the database refuses cannot be
 stored, which leaves only the crash. The dedup window lives in memory. A crash may happen between any two
 steps; it discards the window and whatever was in flight and rewinds to the committed
 offsets. A clean stop is the same event. A schedule is any list of actions: an action the
 machine is not ready for leaves it as it is, so every list is a schedule.
 */
module Delivery {
  import opened Wrappers
  import opened Events
  import opened Wire
  import opened Consumer
  import Store

  type Log = seq<seq<Message>>

  /** The run's parameters: the codec, the window size, and what the database accepts. */
  datatype Setup = Setup(codec: Codec, maxlen: nat, storable: Envelope -> bool)

  datatype Phase =
    | Idle                       // about to poll: the batch boundary
    | Holding(batch: seq<Message>)
    | Sending(batch: seq<Message>, failures: seq<DeadLetter>, undelivered: set<nat>)

  datatype State = State(
    log: Log,
    committed: seq<nat>,
    position: seq<nat>,
    window: seq<string>,
    phase: Phase,
    table: Store.Table,
    letters: seq<DeadLetter>)

  /** One partition's share of a poll: at most count messages of that partition. */
  datatype Chunk = Chunk(partition: nat, count: nat)

  datatype Action =
    | Produce(partition: nat, message: Message)
    | Poll(chunks: seq<Chunk>)
    | StoreBatch
    | Deliver(letter: nat)
    | Commit
    | Crash

  function Min(a: nat, b: nat): nat {
    if a < b then a else b
  }

  function Indices(n: nat): (r: set<nat>)
    ensures forall i: nat :: i in r <==> i < n
  {
    if n == 0 then {} else Indices(n - 1) + {n - 1}
  }

  ghost predicate Offsets(log: Log, offsets: seq<nat>) {
    |offsets| == |log| && forall p :: 0 <= p < |log| ==> offsets[p] <= |log[p]|
  }

  /** Reading the chunks of one poll in order: the new position and the batch. */
  function Fetch(log: Log, position: seq<nat>, chunks: seq<Chunk>): (r: (seq<nat>, seq<Message>))
    requires Offsets(log, position)
    ensures Offsets(log, r.0)
  {
    if chunks == [] then (position, [])
    else
      var (at, batch) := Fetch(log, position, chunks[..|chunks| - 1]);
      var c := chunks[|chunks| - 1];
      if c.partition >= |log| then (at, batch)
      else
        var upto := Min(at[c.partition] + c.count, |log[c.partition]|);
        (at[c.partition := upto], batch + log[c.partition][at[c.partition]..upto])
  }

  ghost predicate Placed(s: State) {
    Offsets(s.log, s.position) && Offsets(s.log, s.committed)
  }

  function Step(setup: Setup, s: State, a: Action): (t: State)
    requires Placed(s)
    ensures Placed(t)
  {
    match a
    case Produce(p, m) =>
      if p < |s.log| then s.(log := s.log[p := s.log[p] + [m]]) else s
    case Poll(chunks) =>
      if !s.phase.Idle? then s
      else
        var (at, batch) := Fetch(s.log, s.position, chunks);
        s.(position := at, phase := Holding(batch))
    case StoreBatch =>
      if !s.phase.Holding? then s
      else
        var r := Route(setup.codec, setup.maxlen, s.window, s.phase.batch);
        if !Store.AllStorable(setup.storable, r.toStore) then s
        else
          s.(window := r.window,
             table := Store.InsertAll(s.table, r.toStore),
             phase := Sending(s.phase.batch, r.failures, Indices(|r.failures|)))
    case Deliver(i) =>
      if !s.phase.Sending? || i !in s.phase.undelivered || i >= |s.phase.failures| then s
      else s.(letters := s.letters + [s.phase.failures[i]],
              phase := s.phase.(undelivered := s.phase.undelivered - {i}))
    case Commit =>
      if !s.phase.Sending? || s.phase.undelivered != {} then s
      else s.(committed := if s.phase.batch == [] then s.committed else s.position, phase := Idle)
    case Crash =>
      s.(position := s.committed, window := [], phase := Idle)
  }

  // ---- the invariant ----------------------------------------------------------

  ghost predicate InLog(log: Log, m: Message) {
    exists p :: 0 <= p < |log| && m in log[p]
  }

  ghost predicate Settled(setup: Setup, s: State, m: Message) {
    if Decodes(setup.codec, m) then IdOf(setup.codec, m) in Store.Ids(s.table)
    else LetterOf(setup.codec, m) in s.letters
  }

  /** A message of the log that the database accepts, and the row it makes under its key. */
  ghost predicate MakesRow(setup: Setup, log: Log, m: Message, k: Store.Key, row: Store.Row) {
    && InLog(log, m) && Decodes(setup.codec, m) && setup.storable(EnvelopeOf(setup.codec, m))
    && var e := EnvelopeOf(setup.codec, m);
       k == Store.Key(e.event.id, e.event.createdAt) && Store.Holds(row, e)
  }

  ghost predicate RowInLog(setup: Setup, log: Log, k: Store.Key, row: Store.Row) {
    exists m :: MakesRow(setup, log, m, k, row)
  }

  ghost predicate LetterInLog(setup: Setup, log: Log, l: DeadLetter) {
    exists m :: InLog(log, m) && !Decodes(setup.codec, m) && LetterOf(setup.codec, m) == l
  }

  /** Nothing below a committed offset is lost. */
  ghost predicate CommittedSettled(setup: Setup, s: State)
    requires Offsets(s.log, s.committed)
  {
    forall p, o :: 0 <= p < |s.log| && 0 <= o < s.committed[p] ==> Settled(setup, s, s.log[p][o])
  }

  /** Everything read and not committed is in the batch in hand. */
  ghost predicate UncommittedInHand(s: State)
    requires Offsets(s.log, s.committed) && Offsets(s.log, s.position)
  {
    && (forall p :: 0 <= p < |s.log| ==> s.committed[p] <= s.position[p])
    && (forall p, o :: 0 <= p < |s.log| && s.committed[p] <= o < s.position[p] ==> s.log[p][o] in InHand(s.phase))
  }

  function InHand(phase: Phase): seq<Message> {
    if phase.Idle? then [] else phase.batch
  }

  /** The window only ever refuses an id the store already has. */
  ghost predicate WindowStored(s: State) {
    forall id :: id in s.window ==> id in Store.Ids(s.table)
  }

  /** Once the batch is stored, its events are in the table and its letters sent or still owed. */
  ghost predicate BatchHandled(setup: Setup, s: State) {
    s.phase.Sending? ==>
      && (forall m :: m in s.phase.batch && Decodes(setup.codec, m) ==> IdOf(setup.codec, m) in Store.Ids(s.table))
      && (forall m :: m in s.phase.batch && !Decodes(setup.codec, m) ==> LetterOf(setup.codec, m) in s.phase.failures)
      && (forall i :: 0 <= i < |s.phase.failures| ==>
            i in s.phase.undelivered || s.phase.failures[i] in s.letters)
      && (forall i :: i in s.phase.undelivered ==> i < |s.phase.failures|)
      && (forall l :: l in s.phase.failures ==> LetterInLog(setup, s.log, l))
  }

  ghost predicate OnlyFromLog(setup: Setup, s: State) {
    && (forall m :: m in InHand(s.phase) ==> InLog(s.log, m))
    && (forall k :: k in s.table ==> RowInLog(setup, s.log, k, s.table[k]))
    && (forall l :: l in s.letters ==> LetterInLog(setup, s.log, l))
  }

  ghost predicate Inv(setup: Setup, s: State) {
    && Offsets(s.log, s.committed) && Offsets(s.log, s.position)
    && CommittedSettled(setup, s)
    && UncommittedInHand(s)
    && WindowStored(s)
    && BatchHandled(setup, s)
    && OnlyFromLog(setup, s)
  }

  function Start(log: Log): State {
    var zero := seq(|log|, _ => 0);
    State(log, zero, zero, [], Idle, map[], [])
  }

  lemma StartKeeps(setup: Setup, log: Log)
    ensures Inv(setup, Start(log))
  {
  }

  // ---- every step keeps it ------------------------------------------------------

  lemma {:induction false} FetchReads(log: Log, position: seq<nat>, chunks: seq<Chunk>)
    requires Offsets(log, position)
    ensures var (at, batch) := Fetch(log, position, chunks);
            && (forall p :: 0 <= p < |log| ==> position[p] <= at[p])
            && (forall p, o :: 0 <= p < |log| && position[p] <= o < at[p] ==> log[p][o] in batch)
            && (forall m :: m in batch ==> InLog(log, m))
  {
    if chunks != [] {
      var (at, batch) := Fetch(log, position, chunks[..|chunks| - 1]);
      var c := chunks[|chunks| - 1];
      FetchReads(log, position, chunks[..|chunks| - 1]);
      if c.partition < |log| {
        var upto := Min(at[c.partition] + c.count, |log[c.partition]|);
        var more := log[c.partition][at[c.partition]..upto];
        forall o | at[c.partition] <= o < upto
          ensures log[c.partition][o] in more
        {
          assert more[o - at[c.partition]] == log[c.partition][o];
        }
        forall m | m in more
          ensures InLog(log, m)
        {
          assert m in log[c.partition];
        }
      }
    }
  }

  lemma ProduceKeeps(setup: Setup, s: State, p: nat, m: Message)
    requires Inv(setup, s)
    ensures Inv(setup, Step(setup, s, Produce(p, m)))
  {
    if p < |s.log| {
      var t := Step(setup, s, Produce(p, m));
      LongerLog(setup, s.log, t.log, p);
    }
  }

  lemma LongerLog(setup: Setup, log: Log, longer: Log, p: nat)
    requires p < |log| == |longer| && log[p] <= longer[p]
    requires forall q :: 0 <= q < |log| && q != p ==> longer[q] == log[q]
    ensures forall m :: InLog(log, m) ==> InLog(longer, m)
    ensures forall k, row :: RowInLog(setup, log, k, row) ==> RowInLog(setup, longer, k, row)
    ensures forall l :: LetterInLog(setup, log, l) ==> LetterInLog(setup, longer, l)
  {
    forall m | InLog(log, m)
      ensures InLog(longer, m)
    {
      var q :| 0 <= q < |log| && m in log[q];
      assert m in longer[q];
    }
    forall k, row | RowInLog(setup, log, k, row)
      ensures RowInLog(setup, longer, k, row)
    {
      var m :| MakesRow(setup, log, m, k, row);
      assert MakesRow(setup, longer, m, k, row);
    }
  }

  lemma PollKeeps(setup: Setup, s: State, chunks: seq<Chunk>)
    requires Inv(setup, s)
    ensures Inv(setup, Step(setup, s, Poll(chunks)))
  {
    if s.phase.Idle? {
      FetchReads(s.log, s.position, chunks);
      forall p | 0 <= p < |s.log|
        ensures s.position[p] == s.committed[p]
      {
        assert s.position[p] <= s.committed[p] || s.log[p][s.committed[p]] in InHand(s.phase);
      }
      assert s.position == s.committed;
    }
  }

  lemma StoreKeeps(setup: Setup, s: State)
    requires Inv(setup, s)
    ensures Inv(setup, Step(setup, s, StoreBatch))
  {
    if Accepts(setup, s) {
      var r := Route(setup.codec, setup.maxlen, s.window, s.phase.batch);
      RouteCovers(setup.codec, setup.maxlen, s.window, s.phase.batch);
      StoredIds(s.table, r.toStore);
      StoreOnlyFromLog(setup, s);
    }
  }

  /** The store step is ready: a batch is in hand and the database accepts all it would be handed. */
  ghost predicate Accepts(setup: Setup, s: State) {
    && s.phase.Holding?
    && Store.AllStorable(setup.storable, Route(setup.codec, setup.maxlen, s.window, s.phase.batch).toStore)
  }

  lemma StoreOnlyFromLog(setup: Setup, s: State)
    requires Inv(setup, s) && Accepts(setup, s)
    ensures var t := Step(setup, s, StoreBatch);
            OnlyFromLog(setup, t) && forall l :: l in t.phase.failures ==> LetterInLog(setup, t.log, l)
  {
    var batch, t := s.phase.batch, Step(setup, s, StoreBatch);
    var r := Route(setup.codec, setup.maxlen, s.window, batch);
    RouteSources(setup.codec, setup.maxlen, s.window, batch);
    StoredRowsInLog(setup, s, r.toStore);
    assert t.table == Store.InsertAll(s.table, r.toStore) && t.log == s.log;
    assert InHand(t.phase) == InHand(s.phase);
    forall k | k in t.table
      ensures RowInLog(setup, t.log, k, t.table[k])
    {
      assert k in Store.InsertAll(s.table, r.toStore);
    }
    forall l | l in r.failures
      ensures LetterInLog(setup, s.log, l)
    {
      assert LetterFrom(setup.codec, l, batch);
    }
  }

  /** Storing a batch makes its ids present and keeps the ones that were. */
  lemma StoredIds(table: Store.Table, envelopes: seq<Envelope>)
    ensures forall id :: id in Store.Ids(table) ==> id in Store.Ids(Store.InsertAll(table, envelopes))
    ensures forall id :: id in IdsOf(envelopes) ==> id in Store.Ids(Store.InsertAll(table, envelopes))
  {
    Store.InsertAllKeys(table, envelopes);
    var after := Store.InsertAll(table, envelopes);
    forall id | id in Store.Ids(table)
      ensures id in Store.Ids(after)
    {
      var k :| k in table && k.eventId == id;
      assert k in after;
    }
    forall id | id in IdsOf(envelopes)
      ensures id in Store.Ids(after)
    {
      var i :| 0 <= i < |envelopes| && envelopes[i].event.id == id;
      assert Store.KeyOf(envelopes[i]) in Store.Keys(envelopes);
      assert Store.KeyOf(envelopes[i]) in after;
    }
  }

  lemma StoredRowsInLog(setup: Setup, s: State, envelopes: seq<Envelope>)
    requires OnlyFromLog(setup, s) && Store.AllStorable(setup.storable, envelopes)
    requires forall e :: e in envelopes ==> FromStream(setup.codec, e, InHand(s.phase))
    ensures var table := Store.InsertAll(s.table, envelopes);
            forall k :: k in table ==> RowInLog(setup, s.log, k, table[k])
  {
    Store.InsertAllKeys(s.table, envelopes);
    var table := Store.InsertAll(s.table, envelopes);
    forall k | k in table
      ensures RowInLog(setup, s.log, k, table[k])
    {
      if k !in s.table {
        Store.InsertAllRows(s.table, envelopes, k);
        var e :| e in envelopes && k == Store.Key(e.event.id, e.event.createdAt) && Store.Holds(table[k], e);
        StorableRow(setup, s, envelopes, e, k, table[k]);
      }
    }
  }

  lemma StorableRow(
    setup: Setup, s: State, envelopes: seq<Envelope>, e: Envelope, k: Store.Key, row: Store.Row)
    requires OnlyFromLog(setup, s) && Store.AllStorable(setup.storable, envelopes) && e in envelopes
    requires FromStream(setup.codec, e, InHand(s.phase))
    requires k == Store.Key(e.event.id, e.event.createdAt) && Store.Holds(row, e)
    ensures RowInLog(setup, s.log, k, row)
  {
    var m :| m in InHand(s.phase) && Decodes(setup.codec, m) && EnvelopeOf(setup.codec, m) == e;
    assert MakesRow(setup, s.log, m, k, row);
  }

  lemma DeliverKeeps(setup: Setup, s: State, i: nat)
    requires Inv(setup, s)
    ensures Inv(setup, Step(setup, s, Deliver(i)))
  {
    var t := Step(setup, s, Deliver(i));
    if t != s {
      var l := s.phase.failures[i];
      assert l in s.phase.failures;
      assert forall x :: x in s.letters ==> x in t.letters;
      assert l == t.letters[|s.letters|];
    }
  }

  lemma CommitKeeps(setup: Setup, s: State)
    requires Inv(setup, s)
    ensures Inv(setup, Step(setup, s, Commit))
  {
    var t := Step(setup, s, Commit);
    if t != s {
      forall p, o | 0 <= p < |s.log| && 0 <= o < t.committed[p]
        ensures Settled(setup, t, s.log[p][o])
      {
        if o < s.committed[p] {
          assert Settled(setup, s, s.log[p][o]);
        } else {
          assert s.log[p][o] in s.phase.batch;
        }
      }
    }
  }

  lemma CrashKeeps(setup: Setup, s: State)
    requires Inv(setup, s)
    ensures Inv(setup, Step(setup, s, Crash))
  {
  }

  lemma StepKeeps(setup: Setup, s: State, a: Action)
    requires Inv(setup, s)
    ensures Inv(setup, Step(setup, s, a))
  {
    match a
    case Produce(p, m) => ProduceKeeps(setup, s, p, m);
    case Poll(chunks) => PollKeeps(setup, s, chunks);
    case StoreBatch => StoreKeeps(setup, s);
    case Deliver(i) => DeliverKeeps(setup, s, i);
    case Commit => CommitKeeps(setup, s);
    case Crash => CrashKeeps(setup, s);
  }

  // ---- every run ------------------------------------------------------------------

  ghost function After(setup: Setup, s: State, actions: seq<Action>): (t: State)
    requires Placed(s)
    ensures Placed(t)
  {
    if actions == [] then s
    else Step(setup, After(setup, s, actions[..|actions| - 1]), actions[|actions| - 1])
  }

  lemma {:induction false} AfterAppend(setup: Setup, s: State, a: seq<Action>, b: seq<Action>)
    requires Placed(s)
    ensures After(setup, s, a + b) == After(setup, After(setup, s, a), b)
  {
    if b == [] {
      assert a + b == a;
    } else {
      assert (a + b)[..|a + b| - 1] == a + b[..|b| - 1];
      AfterAppend(setup, s, a, b[..|b| - 1]);
    }
  }

  lemma AfterStep(setup: Setup, s: State, actions: seq<Action>, a: Action)
    requires Placed(s)
    ensures After(setup, s, actions + [a]) == Step(setup, After(setup, s, actions), a)
  {
    assert (actions + [a])[..|actions|] == actions;
  }

  lemma {:induction false} AfterKeeps(setup: Setup, s: State, actions: seq<Action>)
    requires Inv(setup, s)
    ensures Inv(setup, After(setup, s, actions))
  {
    if actions != [] {
      AfterKeeps(setup, s, actions[..|actions| - 1]);
      StepKeeps(setup, After(setup, s, actions[..|actions| - 1]), actions[|actions| - 1]);
    }
  }

  /** The state a schedule leads to, from an empty store and a log nobody has read. */
  ghost function Run(setup: Setup, log: Log, schedule: seq<Action>): (s: State)
    ensures Placed(s)
  {
    After(setup, Start(log), schedule)
  }

  lemma RunKeeps(setup: Setup, log: Log, schedule: seq<Action>)
    ensures Inv(setup, Run(setup, log, schedule))
  {
    StartKeeps(setup, log);
    AfterKeeps(setup, Start(log), schedule);
  }

  /**
   Whatever the crashes: every message below a committed offset has its event id in the store
   or, if it does not decode, was dead-lettered. It rests on the window refusing only ids that
   are already stored, which holds at every moment of every run.
   */
  lemma NothingCommittedIsLost(setup: Setup, log: Log, schedule: seq<Action>)
    ensures var s := Run(setup, log, schedule);
            && WindowStored(s)
            && forall p, o :: 0 <= p < |s.log| && 0 <= o < s.committed[p] ==> Settled(setup, s, s.log[p][o])
  {
    RunKeeps(setup, log, schedule);
  }

  /** The ids some message of the log decodes to. */
  ghost predicate Decodable(setup: Setup, log: Log, id: string) {
    exists m :: InLog(log, m) && Decodes(setup.codec, m) && IdOf(setup.codec, m) == id
  }

  /**
   The store and the dead-letter log never hold anything the log did not carry: each stored row
   is, column for column, that of some message of the log, and each letter that of another.
   */
  lemma NothingIsInvented(setup: Setup, log: Log, schedule: seq<Action>)
    ensures var s := Run(setup, log, schedule);
            && (forall k :: k in s.table ==> RowInLog(setup, s.log, k, s.table[k]))
            && (forall id :: id in Store.Ids(s.table) ==> Decodable(setup, s.log, id))
            && (forall l :: l in s.letters ==> LetterInLog(setup, s.log, l))
  {
    var s := Run(setup, log, schedule);
    RunKeeps(setup, log, schedule);
    forall id | id in Store.Ids(s.table)
      ensures Decodable(setup, s.log, id)
    {
      var m := SourceOfId(setup, s, id);
    }
  }

  /** A stored id was carried by a message of the log that the database accepts. */
  lemma SourceOfId(setup: Setup, s: State, id: string) returns (m: Message)
    requires OnlyFromLog(setup, s) && id in Store.Ids(s.table)
    ensures InLog(s.log, m) && Decodes(setup.codec, m) && IdOf(setup.codec, m) == id
    ensures setup.storable(EnvelopeOf(setup.codec, m))
  {
    var k :| k in s.table && k.eventId == id;
    assert RowInLog(setup, s.log, k, s.table[k]);
    m :| MakesRow(setup, s.log, m, k, s.table[k]);
  }

  /** Effectively once: when the whole log is committed, the store holds exactly its decodable ids. */
  lemma EffectivelyOnce(setup: Setup, log: Log, schedule: seq<Action>)
    requires var s := Run(setup, log, schedule);
             forall p :: 0 <= p < |s.log| ==> s.committed[p] == |s.log[p]|
    ensures var s := Run(setup, log, schedule);
            && (forall id :: id in Store.Ids(s.table) <==> Decodable(setup, s.log, id))
            && (forall m :: InLog(s.log, m) && !Decodes(setup.codec, m) ==> LetterOf(setup.codec, m) in s.letters)
  {
    var s := Run(setup, log, schedule);
    NothingCommittedIsLost(setup, log, schedule);
    NothingIsInvented(setup, log, schedule);
    forall m | InLog(s.log, m)
      ensures Settled(setup, s, m)
    {
      var p :| 0 <= p < |s.log| && m in s.log[p];
      var o :| 0 <= o < |s.log[p]| && s.log[p][o] == m;
    }
  }

  /** Every copy of an id in the log carries the same created_at. */
  ghost predicate IdFixesTime(setup: Setup, log: Log) {
    forall m, n :: InLog(log, m) && InLog(log, n) && Decodes(setup.codec, m) && Decodes(setup.codec, n)
                   && IdOf(setup.codec, m) == IdOf(setup.codec, n)
                   ==> EnvelopeOf(setup.codec, m).event.createdAt == EnvelopeOf(setup.codec, n).event.createdAt
  }

  /** However often an id was redelivered, it has one row. */
  lemma OneRowPerId(setup: Setup, log: Log, schedule: seq<Action>, j: Store.Key, k: Store.Key)
    requires IdFixesTime(setup, Run(setup, log, schedule).log)
    requires j in Run(setup, log, schedule).table && k in Run(setup, log, schedule).table
    requires j.eventId == k.eventId
    ensures j == k
  {
    var s := Run(setup, log, schedule);
    RunKeeps(setup, log, schedule);
    assert RowInLog(setup, s.log, j, s.table[j]) && RowInLog(setup, s.log, k, s.table[k]);
    var m :| MakesRow(setup, s.log, m, j, s.table[j]);
    var n :| MakesRow(setup, s.log, n, k, s.table[k]);
    assert IdOf(setup.codec, m) == IdOf(setup.codec, n);
  }

  /** A stored row is never changed or lost, and committed offsets never move back. */
  lemma {:induction false} ProgressIsKept(
    setup: Setup, log: Log, schedule: seq<Action>, more: seq<Action>)
    ensures var s, t := Run(setup, log, schedule), Run(setup, log, schedule + more);
            && (forall k :: k in s.table ==> k in t.table && t.table[k] == s.table[k])
            && s.letters <= t.letters
            && |t.log| == |s.log|
            && (forall p :: 0 <= p < |s.log| ==> s.committed[p] <= t.committed[p])
  {
    if more == [] {
      assert schedule + more == schedule;
    } else {
      var less, a := more[..|more| - 1], more[|more| - 1];
      ProgressIsKept(setup, log, schedule, less);
      assert schedule + more == (schedule + less) + [a];
      AfterStep(setup, Start(log), schedule + less, a);
      RunKeeps(setup, log, schedule + less);
      OneStepOn(setup, Run(setup, log, schedule + less), a);
    }
  }

  lemma OneStepOn(setup: Setup, s: State, a: Action)
    requires Inv(setup, s)
    ensures var t := Step(setup, s, a);
            && (forall k :: k in s.table ==> k in t.table && t.table[k] == s.table[k])
            && s.letters <= t.letters
            && |t.log| == |s.log|
            && (forall p :: 0 <= p < |s.log| ==> s.committed[p] <= t.committed[p])
  {
    if a.StoreBatch? && s.phase.Holding? {
      Store.InsertAllKeys(s.table, Route(setup.codec, setup.maxlen, s.window, s.phase.batch).toStore);
    }
  }

  // ---- and every run can be finished ------------------------------------------------

  function PollEverything(log: Log): seq<Chunk> {
    seq(|log|, p requires 0 <= p < |log| => Chunk(p, |log[p]|))
  }

  lemma {:induction false} FetchEverything(log: Log, position: seq<nat>, n: nat)
    requires Offsets(log, position) && n <= |log|
    ensures var at := Fetch(log, position, PollEverything(log)[..n]).0;
            forall p :: 0 <= p < |log| ==> at[p] == if p < n then |log[p]| else position[p]
  {
    if n > 0 {
      assert PollEverything(log)[..n][..n - 1] == PollEverything(log)[..n - 1];
      FetchEverything(log, position, n - 1);
    }
  }

  function DeliverUpTo(n: nat): seq<Action> {
    seq(n, i requires 0 <= i < n => Deliver(i))
  }

  /** The log and the place read up to are as they were. */
  ghost predicate SamePlace(s: State, from: State) {
    s.log == from.log && s.position == from.position
  }

  /** The letters of the batch in hand are owed from the n-th on at most. */
  ghost predicate Owes(s: State, failures: seq<DeadLetter>, n: nat) {
    && s.phase.Sending? && s.phase.failures == failures && n <= |failures|
    && forall i :: i in s.phase.undelivered ==> n <= i < |failures|
  }

  lemma DeliverNext(setup: Setup, s: State, from: State, failures: seq<DeadLetter>, n: nat)
    requires Placed(s) && Owes(s, failures, n) && n < |failures| && SamePlace(s, from)
    ensures var t := Step(setup, s, Deliver(n));
            Owes(t, failures, n + 1) && SamePlace(t, from)
  {
  }

  lemma {:induction false} DeliverEverything(setup: Setup, s: State, failures: seq<DeadLetter>, n: nat)
    requires Placed(s) && Owes(s, failures, 0) && n <= |failures|
    ensures var t := After(setup, s, DeliverUpTo(n));
            Owes(t, failures, n) && SamePlace(t, s)
  {
    if n > 0 {
      DeliverEverything(setup, s, failures, n - 1);
      assert DeliverUpTo(n)[..n - 1] == DeliverUpTo(n - 1);
      DeliverNext(setup, After(setup, s, DeliverUpTo(n - 1)), s, failures, n - 1);
    }
  }

  /** The database accepts whatever the log decodes to. */
  ghost predicate LogStorable(setup: Setup, log: Log) {
    forall m :: InLog(log, m) && Decodes(setup.codec, m) ==> setup.storable(EnvelopeOf(setup.codec, m))
  }

  lemma BatchStorable(setup: Setup, s: State)
    requires Inv(setup, s) && s.phase.Holding? && LogStorable(setup, s.log)
    ensures Accepts(setup, s)
  {
    RouteSources(setup.codec, setup.maxlen, s.window, s.phase.batch);
    var toStore := Route(setup.codec, setup.maxlen, s.window, s.phase.batch).toStore;
    forall i | 0 <= i < |toStore|
      ensures setup.storable(toStore[i])
    {
      assert toStore[i] in toStore;
      assert FromStream(setup.codec, toStore[i], s.phase.batch);
    }
  }

  /** Neither a crash nor a new message. */
  ghost predicate Undisturbed(actions: seq<Action>) {
    forall i :: 0 <= i < |actions| ==> !actions[i].Crash? && !actions[i].Produce?
  }

  lemma CommitDelivered(setup: Setup, s: State, failures: seq<DeadLetter>)
    requires Placed(s) && Owes(s, failures, |failures|)
    ensures var t := Step(setup, s, Commit);
            t.phase.Idle? && SamePlace(t, s)
  {
    assert s.phase.undelivered == {};
  }

  /** A stored batch can be delivered and committed. */
  lemma SettleStored(setup: Setup, s: State) returns (more: seq<Action>)
    requires Inv(setup, s) && s.phase.Sending?
    ensures var t := After(setup, s, more);
            t.phase.Idle? && SamePlace(t, s) && Undisturbed(more)
  {
    var failures := s.phase.failures;
    var delivered := DeliverUpTo(|failures|);
    DeliverEverything(setup, s, failures, |failures|);
    AfterStep(setup, s, delivered, Commit);
    CommitDelivered(setup, After(setup, s, delivered), failures);
    more := delivered + [Commit];
  }

  lemma StoresInPlace(setup: Setup, s: State)
    requires Inv(setup, s) && s.phase.Holding? && LogStorable(setup, s.log)
    ensures var t := Step(setup, s, StoreBatch);
            t.phase.Sending? && SamePlace(t, s) && Inv(setup, t)
  {
    BatchStorable(setup, s);
    StepKeeps(setup, s, StoreBatch);
  }

  lemma SettleHeld(setup: Setup, s: State) returns (more: seq<Action>)
    requires Inv(setup, s) && s.phase.Holding? && LogStorable(setup, s.log)
    ensures var t := After(setup, s, more);
            t.phase.Idle? && SamePlace(t, s) && Undisturbed(more)
  {
    StoresInPlace(setup, s);
    AfterStep(setup, s, [], StoreBatch);
    var stored := After(setup, s, [] + [StoreBatch]);
    var rest := SettleStored(setup, stored);
    AfterAppend(setup, s, [] + [StoreBatch], rest);
    more := [] + [StoreBatch] + rest;
  }

  /** Whatever is in hand can be stored, delivered and committed, at the place it was read up to. */
  lemma SettleBatch(setup: Setup, s: State) returns (more: seq<Action>)
    requires Inv(setup, s) && LogStorable(setup, s.log)
    ensures var t := After(setup, s, more);
            t.phase.Idle? && SamePlace(t, s) && Undisturbed(more)
  {
    if s.phase.Idle? {
      more := [];
    } else if s.phase.Sending? {
      more := SettleStored(setup, s);
    } else {
      more := SettleHeld(setup, s);
    }
  }

  ghost predicate AllCommitted(s: State)
    requires Placed(s)
  {
    forall p :: 0 <= p < |s.log| ==> s.committed[p] == |s.log[p]|
  }

  lemma IdleAtEnd(setup: Setup, s: State)
    requires Inv(setup, s) && s.phase.Idle?
    requires forall p :: 0 <= p < |s.log| ==> s.position[p] == |s.log[p]|
    ensures AllCommitted(s)
  {
    forall p | 0 <= p < |s.log|
      ensures s.committed[p] == |s.log[p]|
    {
      assert s.position[p] <= s.committed[p] || s.log[p][s.committed[p]] in InHand(s.phase);
    }
  }

  lemma ReadsEverything(setup: Setup, s: State)
    requires Inv(setup, s) && s.phase.Idle?
    ensures var t := Step(setup, s, Poll(PollEverything(s.log)));
            Inv(setup, t) && t.log == s.log && forall p :: 0 <= p < |t.log| ==> t.position[p] == |t.log[p]|
  {
    StepKeeps(setup, s, Poll(PollEverything(s.log)));
    FetchEverything(s.log, s.position, |s.log|);
    assert PollEverything(s.log)[..|s.log|] == PollEverything(s.log);
  }

  /** Settle what is in hand, read the rest of every partition, and settle that. */
  lemma FinishFrom(setup: Setup, s: State) returns (more: seq<Action>)
    requires Inv(setup, s) && LogStorable(setup, s.log)
    ensures var t := After(setup, s, more);
            t.log == s.log && AllCommitted(t) && Undisturbed(more)
  {
    var first := SettleBatch(setup, s);
    AfterKeeps(setup, s, first);
    var idle, read := After(setup, s, first), Poll(PollEverything(s.log));
    ReadsEverything(setup, idle);
    AfterStep(setup, s, first, read);
    var rest := SettleBatch(setup, Step(setup, idle, read));
    AfterAppend(setup, s, first + [read], rest);
    more := first + [read] + rest;
    AfterKeeps(setup, s, more);
    IdleAtEnd(setup, After(setup, s, more));
  }

  /**
   While the database accepts every event of the log, no crash schedule can wedge the pipeline:
   from wherever it left things, the whole log can be committed, without another crash.
   */
  lemma EveryRunCanFinish(setup: Setup, log: Log, schedule: seq<Action>)
    returns (more: seq<Action>)
    requires LogStorable(setup, Run(setup, log, schedule).log)
    ensures var s, t := Run(setup, log, schedule), Run(setup, log, schedule + more);
            t.log == s.log && AllCommitted(t)
    ensures Undisturbed(more)
  {
    RunKeeps(setup, log, schedule);
    more := FinishFrom(setup, Run(setup, log, schedule));
    AfterAppend(setup, Start(log), schedule, more);
  }

  /** A poll may stop anywhere: any number of the messages still unread in a partition is a batch. */
  lemma AnyCutCanBePolled(setup: Setup, s: State, p: nat, count: nat)
    requires Placed(s) && s.phase.Idle? && p < |s.log| && s.position[p] + count <= |s.log[p]|
    ensures var t := Step(setup, s, Poll([Chunk(p, count)]));
            && t.phase == Holding(s.log[p][s.position[p]..s.position[p] + count])
            && t.position == s.position[p := s.position[p] + count]
            && t.log == s.log && t.committed == s.committed && t.window == s.window
  {
    var chunks := [Chunk(p, count)];
    assert chunks[..|chunks| - 1] == [];
    assert Fetch(s.log, s.position, []) == (s.position, []);
  }

  // ---- each letter of a batch is sent once ------------------------------------------------

  /** How often a letter is at an owed place below n. */
  ghost function OwedBelow(failures: seq<DeadLetter>, owed: set<nat>, l: DeadLetter, n: nat): nat
    requires n <= |failures|
  {
    if n == 0 then 0
    else OwedBelow(failures, owed, l, n - 1) + (if n - 1 in owed && failures[n - 1] == l then 1 else 0)
  }

  lemma {:induction false} OneLessOwed(failures: seq<DeadLetter>, owed: set<nat>, l: DeadLetter, i: nat, n: nat)
    requires n <= |failures| && i in owed
    ensures OwedBelow(failures, owed, l, n)
         == OwedBelow(failures, owed - {i}, l, n) + (if i < n && failures[i] == l then 1 else 0)
  {
    if n > 0 {
      OneLessOwed(failures, owed, l, i, n - 1);
    }
  }

  lemma {:induction false} AllOwed(failures: seq<DeadLetter>, owed: set<nat>, l: DeadLetter, n: nat)
    requires n <= |failures| && forall i :: 0 <= i < n ==> i in owed
    ensures OwedBelow(failures, owed, l, n) == multiset(failures[..n])[l]
  {
    if n > 0 {
      AllOwed(failures, owed, l, n - 1);
      assert failures[..n] == failures[..n - 1] + [failures[n - 1]];
    }
  }

  lemma {:induction false} NoneOwed(failures: seq<DeadLetter>, l: DeadLetter, n: nat)
    requires n <= |failures|
    ensures OwedBelow(failures, {}, l, n) == 0
  {
    if n > 0 {
      NoneOwed(failures, l, n - 1);
    }
  }

  ghost predicate OnlyDelivers(actions: seq<Action>) {
    forall i :: 0 <= i < |actions| ==> actions[i].Deliver?
  }

  /** How often a letter was sent or is still owed. */
  ghost function SentAndOwed(s: State, l: DeadLetter): nat
    requires s.phase.Sending?
  {
    multiset(s.letters)[l] + OwedBelow(s.phase.failures, s.phase.undelivered, l, |s.phase.failures|)
  }

  lemma {:induction false} DeliveringConserves(setup: Setup, s: State, sends: seq<Action>, l: DeadLetter)
    requires Placed(s) && s.phase.Sending? && OnlyDelivers(sends)
    ensures var t := After(setup, s, sends);
            t.phase.Sending? && t.phase.failures == s.phase.failures && SentAndOwed(t, l) == SentAndOwed(s, l)
  {
    if sends != [] {
      var before, i := After(setup, s, sends[..|sends| - 1]), sends[|sends| - 1].letter;
      DeliveringConserves(setup, s, sends[..|sends| - 1], l);
      if i in before.phase.undelivered {
        OneLessOwed(before.phase.failures, before.phase.undelivered, l, i, |before.phase.failures|);
      }
    }
  }

  /**
   Delivered in whatever order, with whatever repeats, a batch adds exactly its letters to those
   sent, each as often as it is one: only a crash can make a letter come twice.
   */
  lemma EachLetterOnce(setup: Setup, s: State, sends: seq<Action>)
    requires Placed(s) && Accepts(setup, s) && OnlyDelivers(sends)
    requires var t := After(setup, Step(setup, s, StoreBatch), sends);
             t.phase.Sending? && t.phase.undelivered == {}
    ensures multiset(After(setup, Step(setup, s, StoreBatch), sends).letters)
         == multiset(s.letters) + multiset(Route(setup.codec, setup.maxlen, s.window, s.phase.batch).failures)
  {
    var stored := Step(setup, s, StoreBatch);
    var failures, t := stored.phase.failures, After(setup, stored, sends);
    assert failures[..|failures|] == failures;
    forall l
      ensures multiset(t.letters)[l] == multiset(s.letters)[l] + multiset(failures)[l]
    {
      DeliveringConserves(setup, stored, sends, l);
      AllOwed(failures, stored.phase.undelivered, l, |failures|);
      NoneOwed(failures, l, |failures|);
    }
  }

  // ---- one event the database refuses ----------------------------------------------------------

  /** Every message carrying this id is refused, so nothing can ever put the id in the store. */
  ghost predicate Refused(setup: Setup, log: Log, id: string) {
    forall m :: InLog(log, m) && Decodes(setup.codec, m) && IdOf(setup.codec, m) == id
                ==> !setup.storable(EnvelopeOf(setup.codec, m))
  }

  /** No schedule ever commits past a message whose id the database refuses. */
  lemma RefusedIsNeverPassed(setup: Setup, log: Log, schedule: seq<Action>, p: nat, o: nat)
    requires p < |Run(setup, log, schedule).log| && o < |Run(setup, log, schedule).log[p]|
    requires Decodes(setup.codec, Run(setup, log, schedule).log[p][o])
    requires var s := Run(setup, log, schedule);
             Refused(setup, s.log, IdOf(setup.codec, s.log[p][o]))
    ensures Run(setup, log, schedule).committed[p] <= o
  {
    var s := Run(setup, log, schedule);
    RunKeeps(setup, log, schedule);
    if s.committed[p] > o {
      assert Settled(setup, s, s.log[p][o]);
      var m := SourceOfId(setup, s, IdOf(setup.codec, s.log[p][o]));
      assert false;
    }
  }

  /** Copies of one id are all accepted or all refused. */
  ghost predicate IdFixesStorable(setup: Setup, log: Log) {
    forall m, n :: InLog(log, m) && InLog(log, n) && Decodes(setup.codec, m) && Decodes(setup.codec, n)
                   && IdOf(setup.codec, m) == IdOf(setup.codec, n)
                   ==> (setup.storable(EnvelopeOf(setup.codec, m)) <==> setup.storable(EnvelopeOf(setup.codec, n)))
  }

  ghost predicate CanFinish(setup: Setup, log: Log, schedule: seq<Action>) {
    exists more :: Finishes(setup, log, schedule, more)
  }

  ghost predicate Finishes(setup: Setup, log: Log, schedule: seq<Action>, more: seq<Action>) {
    var t := Run(setup, log, schedule + more);
    t.log == Run(setup, log, schedule).log && AllCommitted(t)
  }

  /**
   The condition is exact: the log at hand can be committed to its end just when the database
   accepts every event it decodes to. One refused event stops the source for good.
   */
  lemma CanFinishMeans(setup: Setup, log: Log, schedule: seq<Action>)
    requires IdFixesStorable(setup, Run(setup, log, schedule).log)
    ensures CanFinish(setup, log, schedule) <==> LogStorable(setup, Run(setup, log, schedule).log)
  {
    var s := Run(setup, log, schedule);
    if LogStorable(setup, s.log) {
      var more := EveryRunCanFinish(setup, log, schedule);
      assert Finishes(setup, log, schedule, more);
    } else {
      forall more
        ensures !Finishes(setup, log, schedule, more)
      {
        NeverFinishes(setup, log, schedule, more);
      }
    }
  }

  lemma NeverFinishes(setup: Setup, log: Log, schedule: seq<Action>, more: seq<Action>)
    requires var s := Run(setup, log, schedule);
             IdFixesStorable(setup, s.log) && !LogStorable(setup, s.log)
    ensures !Finishes(setup, log, schedule, more)
  {
    var s, t := Run(setup, log, schedule), Run(setup, log, schedule + more);
    var m :| InLog(s.log, m) && Decodes(setup.codec, m) && !setup.storable(EnvelopeOf(setup.codec, m));
    var p :| 0 <= p < |s.log| && m in s.log[p];
    var o :| 0 <= o < |s.log[p]| && s.log[p][o] == m;
    if t.log == s.log {
      RefusedIsNeverPassed(setup, log, schedule + more, p, o);
    }
  }

  /** A log of one event. */
  function OneEventLog(codec: Codec, event: Event, capturedAt: int): Log {
    [[Message(EncodeValue(codec, event, capturedAt), None)]]
  }

  /** Exactly which single events the pipeline can get past: both ids fit 64 bits, no text holds a NUL. */
  lemma OneEventCanFinish(setup: Setup, event: Event, capturedAt: int)
    requires setup.codec.Faithful() && setup.storable == ((e: Envelope) => Store.FitsColumns(e))
    ensures CanFinish(setup, OneEventLog(setup.codec, event, capturedAt), [])
            <==> && -0x8000_0000_0000_0000 <= event.actorId <= 0x7FFF_FFFF_FFFF_FFFF
                 && -0x8000_0000_0000_0000 <= event.repoId <= 0x7FFF_FFFF_FFFF_FFFF
                 && '\0' !in event.id + event.kind + event.actorLogin + event.repoName
  {
    var log := OneEventLog(setup.codec, event, capturedAt);
    assert Run(setup, log, []).log == log;
    var m, e := log[0][0], Envelope(capturedAt, event);
    LiveRoundTrip(setup.codec, event, capturedAt);
    assert Decodes(setup.codec, m) && EnvelopeOf(setup.codec, m) == e;
    assert InLog(log, m) && forall n :: InLog(log, n) ==> n == m;
    assert setup.storable(e) <==> Store.FitsColumns(e);
    CanFinishMeans(setup, log, []);
  }

  ghost predicate NothingProduced(schedule: seq<Action>) {
    forall i :: 0 <= i < |schedule| ==> !schedule[i].Produce?
  }

  /** The messages a schedule adds to one partition, in order. */
  ghost function ProducedTo(schedule: seq<Action>, p: nat): seq<Message> {
    if schedule == [] then []
    else
      var before, last := ProducedTo(schedule[..|schedule| - 1], p), schedule[|schedule| - 1];
      if last.Produce? && last.partition == p then before + [last.message] else before
  }

  /** The log is append-only: what it began with, and then what was produced, crashes or not. */
  lemma {:induction false} LogIsWhatWasProduced(setup: Setup, log: Log, schedule: seq<Action>)
    ensures var t := Run(setup, log, schedule);
            |t.log| == |log| && forall p :: 0 <= p < |log| ==> t.log[p] == log[p] + ProducedTo(schedule, p)
  {
    if schedule != [] {
      LogIsWhatWasProduced(setup, log, schedule[..|schedule| - 1]);
    }
  }

  lemma {:induction false} NothingProducedTo(schedule: seq<Action>, p: nat)
    requires NothingProduced(schedule)
    ensures ProducedTo(schedule, p) == []
  {
    if schedule != [] {
      NothingProducedTo(schedule[..|schedule| - 1], p);
    }
  }

  /** An actor id of 2^63 decodes, does not fit a bigint, and is redelivered for ever. */
  lemma OversizedIdHaltsIngestion(setup: Setup, event: Event, capturedAt: int, schedule: seq<Action>)
    requires setup.codec.Faithful() && setup.storable == ((e: Envelope) => Store.FitsColumns(e))
    requires event.actorId == 0x8000_0000_0000_0000 && NothingProduced(schedule)
    ensures Run(setup, OneEventLog(setup.codec, event, capturedAt), schedule).committed == [0]
    ensures Run(setup, OneEventLog(setup.codec, event, capturedAt), schedule).table == map[]
  {
    var log := OneEventLog(setup.codec, event, capturedAt);
    var s := Run(setup, log, schedule);
    LogIsWhatWasProduced(setup, log, schedule);
    NothingProducedTo(schedule, 0);
    assert s.log[0] == log[0] && s.log == log;
    LiveRoundTrip(setup.codec, event, capturedAt);
    assert forall m :: InLog(log, m) ==> m == log[0][0];
    RefusedIsNeverPassed(setup, log, schedule, 0, 0);
    RunKeeps(setup, log, schedule);
    assert forall k, row :: !RowInLog(setup, s.log, k, row);
    assert s.table.Keys == {};
  }
}
