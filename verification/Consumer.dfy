/**
 The validating stream consumer: decode, dedupe, store, dead-letter.

 Route is what the loop does with one batch and the window it carries in; the lemmas say what
 a whole run hands on, in terms of the message stream alone.
 */
module Consumer {
  import opened Wrappers
  import opened Wire
  import Dedup
  import Store
  import Metrics

  const REASON_CORRUPT := "corrupt"
  const REASON_UNSUPPORTED_VERSION := "unsupported_version"
  const REASON_INVALID_SHAPE := "invalid_shape"

  datatype Message = Message(value: Bytes, key: Option<Bytes>)

  datatype DeadLetter = DeadLetter(message: Message, reason: string, detail: string)

  function Reason(failure: Decoded): string
    requires !failure.Valid?
  {
    match failure
    case UnsupportedVersion(_) => REASON_UNSUPPORTED_VERSION
    case Corrupt(_) => REASON_CORRUPT
    case WrongShape(_) => REASON_INVALID_SHAPE
  }

  function Detail(failure: Decoded): string
    requires !failure.Valid?
  {
    match failure
    case UnsupportedVersion(_) => "unsupported wire schema version"
    case Corrupt(detail) => detail
    case WrongShape(detail) => detail
  }

  /** The letter a message becomes when it does not decode. */
  function LetterOf(codec: Codec, message: Message): DeadLetter
    requires !DecodeValue(codec, message.value).Valid?
  {
    var failure := DecodeValue(codec, message.value);
    DeadLetter(message, Reason(failure), Detail(failure))
  }

  predicate Decodes(codec: Codec, message: Message) {
    DecodeValue(codec, message.value).Valid?
  }

  function EnvelopeOf(codec: Codec, message: Message): Envelope
    requires Decodes(codec, message)
  {
    DecodeValue(codec, message.value).envelope
  }

  function IdOf(codec: Codec, message: Message): string
    requires Decodes(codec, message)
  {
    EnvelopeOf(codec, message).event.id
  }

  /** What one batch leaves behind: the window, and what the two sinks are handed. */
  datatype Routed = Routed(window: seq<string>, toStore: seq<Envelope>, failures: seq<DeadLetter>)

  function RouteOne(codec: Codec, maxlen: nat, sofar: Routed, message: Message): Routed {
    if !Decodes(codec, message) then
      sofar.(failures := sofar.failures + [LetterOf(codec, message)])
    else
      var id := IdOf(codec, message);
      if id in sofar.window then sofar
      else sofar.(window := Dedup.Slide(sofar.window, maxlen, id),
                  toStore := sofar.toStore + [EnvelopeOf(codec, message)])
  }

  function Route(codec: Codec, maxlen: nat, window: seq<string>, batch: seq<Message>): Routed {
    if batch == [] then Routed(window, [], [])
    else RouteOne(codec, maxlen, Route(codec, maxlen, window, batch[..|batch| - 1]), batch[|batch| - 1])
  }

  /** Routing two batches one after the other, each sink receiving one call per batch. */
  function Then(codec: Codec, maxlen: nat, sofar: Routed, batch: seq<Message>): Routed {
    var r := Route(codec, maxlen, sofar.window, batch);
    Routed(r.window, sofar.toStore + r.toStore, sofar.failures + r.failures)
  }

  function Processed(codec: Codec, maxlen: nat, batches: seq<seq<Message>>): Routed {
    if batches == [] then Routed([], [], [])
    else Then(codec, maxlen, Processed(codec, maxlen, batches[..|batches| - 1]), batches[|batches| - 1])
  }

  function Flatten<T>(batches: seq<seq<T>>): seq<T> {
    if batches == [] then [] else Flatten(batches[..|batches| - 1]) + batches[|batches| - 1]
  }

  lemma RouteStep(codec: Codec, maxlen: nat, window: seq<string>, batch: seq<Message>, m: Message)
    ensures Route(codec, maxlen, window, batch + [m])
         == RouteOne(codec, maxlen, Route(codec, maxlen, window, batch), m)
  {
    assert (batch + [m])[..|batch|] == batch;
  }

  lemma ThenStep(codec: Codec, maxlen: nat, sofar: Routed, batch: seq<Message>, m: Message)
    ensures Then(codec, maxlen, sofar, batch + [m])
         == RouteOne(codec, maxlen, Then(codec, maxlen, sofar, batch), m)
  {
    RouteStep(codec, maxlen, sofar.window, batch, m);
  }

  lemma RouteAppendStep(
    codec: Codec, maxlen: nat, window: seq<string>, a: seq<Message>, less: seq<Message>, m: Message)
    requires Route(codec, maxlen, window, a + less) == Then(codec, maxlen, Route(codec, maxlen, window, a), less)
    ensures Route(codec, maxlen, window, a + (less + [m]))
         == Then(codec, maxlen, Route(codec, maxlen, window, a), less + [m])
  {
    RouteStep(codec, maxlen, window, a + less, m);
    ThenStep(codec, maxlen, Route(codec, maxlen, window, a), less, m);
    assert a + (less + [m]) == (a + less) + [m];
  }

  lemma {:induction false} RouteAppend(
    codec: Codec, maxlen: nat, window: seq<string>, a: seq<Message>, b: seq<Message>)
    ensures Route(codec, maxlen, window, a + b) == Then(codec, maxlen, Route(codec, maxlen, window, a), b)
  {
    if b == [] {
      assert a + b == a;
    } else {
      var less, m := b[..|b| - 1], b[|b| - 1];
      RouteAppend(codec, maxlen, window, a, less);
      RouteAppendStep(codec, maxlen, window, a, less, m);
      assert b == less + [m];
    }
  }

  /** However a stream is cut into batches, the run is the run over the stream in one piece. */
  lemma {:induction false} ProcessedIsRouteOfStream(codec: Codec, maxlen: nat, batches: seq<seq<Message>>)
    ensures Processed(codec, maxlen, batches) == Route(codec, maxlen, [], Flatten(batches))
  {
    if batches == [] {
    } else {
      ProcessedIsRouteOfStream(codec, maxlen, batches[..|batches| - 1]);
      RouteAppend(codec, maxlen, [], Flatten(batches[..|batches| - 1]), batches[|batches| - 1]);
    }
  }

  /** Batch-boundary invariance: the same stream gives both sinks the same things. */
  lemma BatchBoundariesDoNotMatter(
    codec: Codec, maxlen: nat, a: seq<seq<Message>>, b: seq<seq<Message>>)
    requires Flatten(a) == Flatten(b)
    ensures Processed(codec, maxlen, a) == Processed(codec, maxlen, b)
  {
    ProcessedIsRouteOfStream(codec, maxlen, a);
    ProcessedIsRouteOfStream(codec, maxlen, b);
  }

  // ---- what a run hands on, in terms of the stream ---------------------------

  function ValidIds(codec: Codec, stream: seq<Message>): seq<string> {
    if stream == [] then []
    else
      var before := ValidIds(codec, stream[..|stream| - 1]);
      var last := stream[|stream| - 1];
      if Decodes(codec, last) then before + [IdOf(codec, last)] else before
  }

  function Failures(codec: Codec, stream: seq<Message>): seq<DeadLetter> {
    if stream == [] then []
    else
      var before := Failures(codec, stream[..|stream| - 1]);
      var last := stream[|stream| - 1];
      if Decodes(codec, last) then before else before + [LetterOf(codec, last)]
  }

  /** How many decodable messages arrived while their id was among the last maxlen accepted. */
  function Reseen(codec: Codec, maxlen: nat, stream: seq<Message>): nat {
    if stream == [] then 0
    else
      var before := stream[..|stream| - 1];
      var last := stream[|stream| - 1];
      Reseen(codec, maxlen, before)
      + (if Decodes(codec, last)
           && IdOf(codec, last) in Dedup.LastN(Dedup.Accepted(maxlen, ValidIds(codec, before)), maxlen)
         then 1 else 0)
  }

  function IdsOf(envelopes: seq<Envelope>): seq<string> {
    seq(|envelopes|, i requires 0 <= i < |envelopes| => envelopes[i].event.id)
  }

  /** From an empty window the store is handed exactly the accepted ids, in order of arrival. */
  lemma {:induction false} RouteStoresAccepted(codec: Codec, maxlen: nat, stream: seq<Message>)
    requires maxlen >= 1
    ensures Route(codec, maxlen, [], stream).window == Dedup.WindowAfter(maxlen, ValidIds(codec, stream))
    ensures IdsOf(Route(codec, maxlen, [], stream).toStore) == Dedup.Accepted(maxlen, ValidIds(codec, stream))
  {
    if stream == [] {
    } else {
      var before, last := stream[..|stream| - 1], stream[|stream| - 1];
      RouteStoresAccepted(codec, maxlen, before);
      if Decodes(codec, last) {
        Dedup.WindowIsLastAccepted(maxlen, ValidIds(codec, before));
        Dedup.AcceptedStep(maxlen, ValidIds(codec, before), IdOf(codec, last));
        IdsOfAppend(Route(codec, maxlen, [], before).toStore, EnvelopeOf(codec, last));
      }
    }
  }

  lemma IdsOfAppend(envelopes: seq<Envelope>, e: Envelope)
    ensures IdsOf(envelopes + [e]) == IdsOf(envelopes) + [e.event.id]
  {
  }

  /** Every message that does not decode becomes a dead letter, in order, and nothing else does. */
  lemma {:induction false} RouteFailures(codec: Codec, maxlen: nat, window: seq<string>, stream: seq<Message>)
    ensures Route(codec, maxlen, window, stream).failures == Failures(codec, stream)
  {
    if stream != [] {
      RouteFailures(codec, maxlen, window, stream[..|stream| - 1]);
    }
  }

  /** The length of the stream is what was accepted, what failed and what was re-seen, together. */
  lemma {:induction false} EveryMessageCounted(codec: Codec, maxlen: nat, stream: seq<Message>)
    ensures |stream| == |Dedup.Accepted(maxlen, ValidIds(codec, stream))|
                      + |Failures(codec, stream)| + Reseen(codec, maxlen, stream)
  {
    if stream == [] {
    } else {
      var before, last := stream[..|stream| - 1], stream[|stream| - 1];
      EveryMessageCounted(codec, maxlen, before);
      if Decodes(codec, last) {
        Dedup.AcceptedStep(maxlen, ValidIds(codec, before), IdOf(codec, last));
      }
    }
  }

  /** Everything handed to a sink comes from a message of the batch. */
  lemma {:induction false} RouteSources(codec: Codec, maxlen: nat, window: seq<string>, batch: seq<Message>)
    ensures forall e :: e in Route(codec, maxlen, window, batch).toStore ==> FromStream(codec, e, batch)
    ensures forall l :: l in Route(codec, maxlen, window, batch).failures ==> LetterFrom(codec, l, batch)
  {
    if batch != [] {
      var before, last := batch[..|batch| - 1], batch[|batch| - 1];
      RouteSources(codec, maxlen, window, before);
      assert batch == before + [last] && last in batch;
      var r0 := Route(codec, maxlen, window, before);
      assert forall m :: m in before ==> m in batch;
      assert forall e :: FromStream(codec, e, before) ==> FromStream(codec, e, batch);
      assert forall l :: LetterFrom(codec, l, before) ==> LetterFrom(codec, l, batch);
      if Decodes(codec, last) {
        assert FromStream(codec, EnvelopeOf(codec, last), batch);
      } else {
        assert LetterFrom(codec, LetterOf(codec, last), batch);
      }
    }
  }

  ghost predicate FromStream(codec: Codec, e: Envelope, stream: seq<Message>) {
    exists m :: m in stream && Decodes(codec, m) && EnvelopeOf(codec, m) == e
  }

  ghost predicate LetterFrom(codec: Codec, l: DeadLetter, stream: seq<Message>) {
    exists m :: m in stream && !Decodes(codec, m) && LetterOf(codec, m) == l
  }

  /** The triage reason names what the bytes are, and the letter keeps them. */
  ghost predicate SaysWhy(codec: Codec, l: DeadLetter) {
    var parsed := codec.loads(l.message.value);
    && (l.reason == "corrupt" <==> parsed.Err?)
    && (l.reason == "unsupported_version" <==> parsed.Ok? && !OfVersion(parsed.value, 1))
    && (l.reason == "invalid_shape" <==> parsed.Ok? && MisshapenLive(codec, parsed.value))
    && (parsed.Err? ==> l.detail == parsed.error)
  }

  lemma LetterSaysWhy(codec: Codec, m: Message)
    requires !Decodes(codec, m)
    ensures LetterOf(codec, m).message == m && SaysWhy(codec, LetterOf(codec, m))
  {
    LiveOutcomes(codec, m.value);
    assert "corrupt"[0] != "unsupported_version"[0] && "corrupt"[0] != "invalid_shape"[0];
    assert "unsupported_version"[0] != "invalid_shape"[0];
  }

  ghost predicate LiveIn(codec: Codec, e: Envelope, stream: seq<Message>) {
    exists m :: m in stream && CarriesLive(codec, m.value, e)
  }

  ghost predicate LetteredIn(codec: Codec, m: Message, letters: seq<DeadLetter>) {
    exists l :: l in letters && l.message == m && SaysWhy(codec, l)
  }

  /**
   What goes where, from the bytes alone: the store is handed only envelopes that some document of
   this version carries; every message whose bytes carry none becomes a letter with those bytes
   and the reason they do not decode, and nothing else becomes one.
   */
  lemma StreamOutcomes(codec: Codec, maxlen: nat, batches: seq<seq<Message>>)
    ensures var run, stream := Processed(codec, maxlen, batches), Flatten(batches);
            && (forall e :: e in run.toStore ==> LiveIn(codec, e, stream))
            && (forall m :: m in stream && (forall e :: !CarriesLive(codec, m.value, e))
                  ==> LetteredIn(codec, m, run.failures))
            && (forall l :: l in run.failures ==>
                  l.message in stream && SaysWhy(codec, l) && forall e :: !CarriesLive(codec, l.message.value, e))
  {
    var run, stream := Processed(codec, maxlen, batches), Flatten(batches);
    ProcessedIsRouteOfStream(codec, maxlen, batches);
    RouteSources(codec, maxlen, [], stream);
    RouteCovers(codec, maxlen, [], stream);
    forall e | e in run.toStore
      ensures LiveIn(codec, e, stream)
    {
      var m :| m in stream && Decodes(codec, m) && EnvelopeOf(codec, m) == e;
      LiveOutcomes(codec, m.value);
    }
    forall m | m in stream && forall e :: !CarriesLive(codec, m.value, e)
      ensures LetteredIn(codec, m, run.failures)
    {
      Undecoded(codec, m);
      LetterSaysWhy(codec, m);
    }
    forall l | l in run.failures
      ensures l.message in stream && SaysWhy(codec, l) && forall e :: !CarriesLive(codec, l.message.value, e)
    {
      var m :| m in stream && !Decodes(codec, m) && LetterOf(codec, m) == l;
      Undecoded(codec, m);
      LetterSaysWhy(codec, m);
    }
  }

  lemma Undecoded(codec: Codec, m: Message)
    ensures !Decodes(codec, m) <==> forall e :: !CarriesLive(codec, m.value, e)
  {
    LiveOutcomes(codec, m.value);
    if Decodes(codec, m) {
      assert CarriesLive(codec, m.value, EnvelopeOf(codec, m));
    }
  }

  /** Nothing is lost on the way: every message of the batch is in the window it met, stored, or a letter. */
  lemma {:induction false} RouteCovers(codec: Codec, maxlen: nat, window: seq<string>, batch: seq<Message>)
    ensures var r := Route(codec, maxlen, window, batch);
            && (forall m :: m in batch && Decodes(codec, m) ==>
                  IdOf(codec, m) in window || IdOf(codec, m) in IdsOf(r.toStore))
            && (forall m :: m in batch && !Decodes(codec, m) ==> LetterOf(codec, m) in r.failures)
            && (forall id :: id in r.window ==> id in window || id in IdsOf(r.toStore))
  {
    if batch != [] {
      var before, last := batch[..|batch| - 1], batch[|batch| - 1];
      RouteCovers(codec, maxlen, window, before);
      assert batch == before + [last];
      var r0, r := Route(codec, maxlen, window, before), Route(codec, maxlen, window, batch);
      assert r.toStore == r0.toStore || (Decodes(codec, last) && r.toStore == r0.toStore + [EnvelopeOf(codec, last)]);
      assert r.toStore != r0.toStore ==> IdsOf(r.toStore) == IdsOf(r0.toStore) + [IdOf(codec, last)];
    }
  }

  // ---- the loop --------------------------------------------------------------

  /** The bytes one letter puts on the dead-letter topic. */
  function LetterMessage(codec: Codec, letter: DeadLetter): Message {
    Message(EncodeDeadLetter(codec, letter.reason, letter.detail, letter.message.value, letter.message.key),
            letter.message.key)
  }

  function LetterMessages(codec: Codec, letters: seq<DeadLetter>): seq<Message> {
    seq(|letters|, i requires 0 <= i < |letters| => LetterMessage(codec, letters[i]))
  }

  /** The letters of a batch that reached the topic when those at lost were never confirmed. */
  function Delivered(batch: seq<DeadLetter>, lost: set<nat>): seq<DeadLetter> {
    if batch == [] then []
    else
      Delivered(batch[..|batch| - 1], lost)
      + (if |batch| - 1 in lost then [] else [batch[|batch| - 1]])
  }

  predicate Confirmed(batch: seq<DeadLetter>, lost: set<nat>) {
    forall i | 0 <= i < |batch| :: i !in lost
  }

  lemma {:induction false} ConfirmedDelivers(batch: seq<DeadLetter>, lost: set<nat>)
    ensures Confirmed(batch, lost) ==> Delivered(batch, lost) == batch
  {
    if batch != [] && Confirmed(batch, lost) {
      ConfirmedDelivers(batch[..|batch| - 1], lost);
      assert batch == batch[..|batch| - 1] + [batch[|batch| - 1]];
    }
  }

  class DeadLetterSink {
    const codec: Codec
    var topic: seq<Message>
    ghost var letters: seq<DeadLetter>

    /** The topic holds the encoded form of every letter ever delivered, in order. */
    ghost predicate Valid()
      reads this
    {
      topic == LetterMessages(codec, letters)
    }

    constructor (codec: Codec)
      ensures Valid() && this.codec == codec && letters == []
    {
      this.codec := codec;
      topic := [];
      letters := [];
    }

    /** The letters go out together; one that is lost fails the call, the others stay delivered. */
    method Send(batch: seq<DeadLetter>, lost: set<nat>) returns (ok: bool)
      requires Valid()
      modifies this`topic, this`letters
      ensures Valid() && letters == old(letters) + Delivered(batch, lost)
      ensures ok <==> Confirmed(batch, lost)
      ensures ok ==> letters == old(letters) + batch
    {
      ok := true;
      for i := 0 to |batch|
        invariant Valid() && letters == old(letters) + Delivered(batch[..i], lost)
        invariant ok <==> Confirmed(batch[..i], lost)
      {
        assert batch[..i + 1][..i] == batch[..i];
        if i in lost {
          ok := false;
        } else {
          topic := topic + [LetterMessage(codec, batch[i])];
          letters := letters + [batch[i]];
        }
      }
      assert batch[..|batch|] == batch;
      ConfirmedDelivers(batch, lost);
    }
  }

  /** Reading the dead-letter topic back recovers every letter with its original bytes. */
  lemma LettersAreRecoverable(codec: Codec, letters: seq<DeadLetter>, i: nat)
    requires codec.Faithful() && i < |letters|
    ensures DecodeDeadLetter(codec, LetterMessages(codec, letters)[i].value)
         == Ok(DeadLetterRecord(Text(letters[i].reason), Text(letters[i].detail),
                                letters[i].message.value, letters[i].message.key))
  {
    DeadLetterRoundTrip(codec, letters[i].reason, letters[i].detail,
                        letters[i].message.value, letters[i].message.key);
  }

  lemma ProcessedStep(codec: Codec, maxlen: nat, source: seq<seq<Message>>, i: nat)
    requires i < |source|
    ensures Processed(codec, maxlen, source[..i + 1])
         == Then(codec, maxlen, Processed(codec, maxlen, source[..i]), source[i])
    ensures |Flatten(source[..i + 1])| == |Flatten(source[..i])| + |source[i]|
  {
    assert source[..i + 1][..i] == source[..i];
  }

  lemma AppendAssociative<T>(a: seq<T>, b: seq<T>, c: seq<T>)
    ensures (a + b) + c == a + (b + c)
  {
  }

  /** What the whole run handed on, in terms of the stream it consumed. */
  lemma RunMeans(codec: Codec, maxlen: nat, batches: seq<seq<Message>>)
    requires maxlen >= 1
    ensures var run, stream := Processed(codec, maxlen, batches), Flatten(batches);
            && IdsOf(run.toStore) == Dedup.Accepted(maxlen, ValidIds(codec, stream))
            && run.failures == Failures(codec, stream)
            && |stream| == |run.toStore| + |run.failures| + Reseen(codec, maxlen, stream)
  {
    var stream := Flatten(batches);
    ProcessedIsRouteOfStream(codec, maxlen, batches);
    RouteStoresAccepted(codec, maxlen, stream);
    RouteFailures(codec, maxlen, [], stream);
    EveryMessageCounted(codec, maxlen, stream);
    assert |IdsOf(Processed(codec, maxlen, batches).toStore)| == |Processed(codec, maxlen, batches).toStore|;
  }

  // ---- the loop, and the three ways it ends ------------------------------------------------

  /** Why a run ended other than by its source ending or its stop being set. */
  datatype Raised =
    | BadWindow
    | StoreRefused(batch: nat)
    | DeadLetterFailed(batch: nat)

  /** The routing of batch k, in the window the batches before it left. */
  function RouteAt(codec: Codec, maxlen: nat, source: seq<seq<Message>>, k: nat): Routed
    requires k < |source|
  {
    Route(codec, maxlen, Processed(codec, maxlen, source[..k]).window, source[k])
  }

  /** What the two sinks hold of the source. */
  datatype Sunk = Sunk(stored: seq<Envelope>, letters: seq<DeadLetter>)

  function SunkBy(run: Routed): Sunk {
    Sunk(run.toStore, run.failures)
  }

  /** What the sinks were handed by the time the run ended, and that it ended no later. */
  ghost predicate EndsAs(
    codec: Codec, maxlen: nat, source: seq<seq<Message>>, storable: Envelope -> bool,
    lost: nat -> set<nat>, e: Raised, sunk: Sunk)
  {
    match e
    case BadWindow => false
    case StoreRefused(k) =>
      && k < |source|
      && !Store.AllStorable(storable, RouteAt(codec, maxlen, source, k).toStore)
      && sunk == SunkBy(Processed(codec, maxlen, source[..k]))
    case DeadLetterFailed(k) =>
      && k < |source|
      && Store.AllStorable(storable, RouteAt(codec, maxlen, source, k).toStore)
      && !Confirmed(RouteAt(codec, maxlen, source, k).failures, lost(k))
      && sunk.stored == Processed(codec, maxlen, source[..k + 1]).toStore
      && sunk.letters == Processed(codec, maxlen, source[..k]).failures
                         + Delivered(RouteAt(codec, maxlen, source, k).failures, lost(k))
  }

  /** The run raised, and the sinks hold what they held before it plus what it had handed them. */
  ghost predicate Ended(
    codec: Codec, maxlen: nat, source: seq<seq<Message>>, store: Store.PostgresStore, deadLetter: DeadLetterSink,
    lost: nat -> set<nat>, e: Raised, stored: seq<Envelope>, letters: seq<DeadLetter>)
    reads store, deadLetter
  {
    exists sunk ::
      && EndsAs(codec, maxlen, source, store.storable, lost, e, sunk)
      && store.received == stored + sunk.stored && deadLetter.letters == letters + sunk.letters
  }

  /** Batch k went through: the store accepted its events and every letter was confirmed. */
  ghost predicate Passed(
    codec: Codec, maxlen: nat, source: seq<seq<Message>>, storable: Envelope -> bool,
    lost: nat -> set<nat>, k: nat)
  {
    && k < |source|
    && Store.AllStorable(storable, RouteAt(codec, maxlen, source, k).toStore)
    && Confirmed(RouteAt(codec, maxlen, source, k).failures, lost(k))
  }

  ghost predicate WentThrough(
    codec: Codec, maxlen: nat, source: seq<seq<Message>>, storable: Envelope -> bool,
    stop: nat -> bool, lost: nat -> set<nat>, n: nat)
  {
    forall k: nat :: k < n ==> !stop(k) && Passed(codec, maxlen, source, storable, lost, k)
  }

  /**
   One run. stop(k) is what the loop sees at its k-th look, lost(k) the letters of batch k that
   are never confirmed. It ends at the first stop, at the end of the source, or where a sink
   raises; a window size below one ends it before the first pull. RunMeans puts what the sinks
   received in terms of the stream.
   */
  method ConsumeStream(
    codec: Codec, source: seq<seq<Message>>, store: Store.PostgresStore, deadLetter: DeadLetterSink,
    seenWindow: int, stop: nat -> bool, lost: nat -> set<nat>)
    returns (r: Result<Metrics.ConsumeCounters, Raised>)
    requires store.Valid() && deadLetter.Valid()
    modifies store`rows, store`received, deadLetter`topic, deadLetter`letters
    ensures store.Valid() && deadLetter.Valid()
    ensures r == Err(BadWindow) <==> seenWindow < 1
    ensures r == Err(BadWindow) ==> unchanged(store) && unchanged(deadLetter)
    ensures r.Err? && seenWindow >= 1 ==>
      Ended(codec, seenWindow, source, store, deadLetter, lost, r.error,
            old(store.received), old(deadLetter.letters))
    ensures r.Ok? ==> fresh(r.value) && r.value.batches <= |source|
    ensures r.Ok? ==> WentThrough(codec, seenWindow, source, store.storable, stop, lost, r.value.batches)
    ensures r.Ok? && r.value.batches < |source| ==> stop(r.value.batches)
    ensures r.Ok? ==>
      var run := Processed(codec, seenWindow, source[..r.value.batches]);
      && store.received == old(store.received) + run.toStore
      && deadLetter.letters == old(deadLetter.letters) + run.failures
    ensures r.Ok? ==>
      var stream := Flatten(source[..r.value.batches]);
      && r.value.consumed == |stream|
      && r.value.deadLettered == |Failures(codec, stream)|
      && r.value.Duplicates() == Reseen(codec, seenWindow, stream)
  {
    var created := Dedup.RecentIds<string>.Create(seenWindow);
    if created.Err? {
      return Err(BadWindow);
    }
    var counters := new Metrics.ConsumeCounters();
    var raised := ConsumeBatches(codec, source, created.value, store, deadLetter, counters, stop, lost);
    if raised.Some? {
      return Err(raised.value);
    }
    RunMeans(codec, seenWindow, source[..counters.batches]);
    return Ok(counters);
  }

  /** Where the loop stands after i whole batches. */
  ghost predicate Standing(
    codec: Codec, source: seq<seq<Message>>, i: nat, seen: Dedup.RecentIds<string>,
    store: Store.PostgresStore, deadLetter: DeadLetterSink, counters: Metrics.ConsumeCounters,
    stored: seq<Envelope>, letters: seq<DeadLetter>)
    reads seen, store, deadLetter, counters
  {
    && i <= |source| && seen.Valid() && store.Valid() && deadLetter.Valid()
    && var run := Processed(codec, seen.maxlen, source[..i]);
       && seen.ids == run.window
       && store.received == stored + run.toStore && deadLetter.letters == letters + run.failures
       && counters.batches == i && counters.consumed == |Flatten(source[..i])|
       && counters.stored == |run.toStore| && counters.deadLettered == |run.failures|
  }

  /** The loop itself, over a window and counters that start empty. */
  method ConsumeBatches(
    codec: Codec, source: seq<seq<Message>>, seen: Dedup.RecentIds<string>,
    store: Store.PostgresStore, deadLetter: DeadLetterSink, counters: Metrics.ConsumeCounters,
    stop: nat -> bool, lost: nat -> set<nat>)
    returns (raised: Option<Raised>)
    requires Standing(codec, source, 0, seen, store, deadLetter, counters, store.received, deadLetter.letters)
    modifies seen`ids, seen`added, store`rows, store`received, deadLetter`topic, deadLetter`letters, counters
    ensures store.Valid() && deadLetter.Valid()
    ensures raised.None? ==>
      && Standing(codec, source, counters.batches, seen, store, deadLetter, counters,
                  old(store.received), old(deadLetter.letters))
      && (counters.batches < |source| ==> stop(counters.batches))
      && WentThrough(codec, seen.maxlen, source, store.storable, stop, lost, counters.batches)
    ensures raised.Some? ==>
      Ended(codec, seen.maxlen, source, store, deadLetter, lost, raised.value,
            old(store.received), old(deadLetter.letters))
  {
    var i := 0;
    while i < |source| && !stop(i)
      invariant Standing(codec, source, i, seen, store, deadLetter, counters,
                         old(store.received), old(deadLetter.letters))
      invariant WentThrough(codec, seen.maxlen, source, store.storable, stop, lost, i)
    {
      raised := ConsumeNext(codec, source, i, seen, store, deadLetter, counters, lost,
                            old(store.received), old(deadLetter.letters));
      if raised.Some? {
        return;
      }
      i := i + 1;
    }
    return None;
  }

  /** One turn of the loop, after i batches. */
  method ConsumeNext(
    codec: Codec, source: seq<seq<Message>>, i: nat, seen: Dedup.RecentIds<string>,
    store: Store.PostgresStore, deadLetter: DeadLetterSink, counters: Metrics.ConsumeCounters,
    lost: nat -> set<nat>, ghost stored: seq<Envelope>, ghost letters: seq<DeadLetter>)
    returns (raised: Option<Raised>)
    requires i < |source|
    requires Standing(codec, source, i, seen, store, deadLetter, counters, stored, letters)
    modifies seen`ids, seen`added, store`rows, store`received, deadLetter`topic, deadLetter`letters, counters
    ensures store.Valid() && deadLetter.Valid()
    ensures raised.None? ==>
      && Standing(codec, source, i + 1, seen, store, deadLetter, counters, stored, letters)
      && Passed(codec, seen.maxlen, source, store.storable, lost, i)
    ensures raised.Some? ==>
      Ended(codec, seen.maxlen, source, store, deadLetter, lost, raised.value, stored, letters)
  {
    ghost var run, routed := Processed(codec, seen.maxlen, source[..i]), RouteAt(codec, seen.maxlen, source, i);
    ProcessedStep(codec, seen.maxlen, source, i);
    AppendAssociative(stored, run.toStore, routed.toStore);
    AppendAssociative(letters, run.failures, routed.failures);
    AppendAssociative(letters, run.failures, Delivered(routed.failures, lost(i)));
    var storeOk, sinkOk := ConsumeBatch(codec, seen, store, deadLetter, counters, source[i], lost(i));
    if !storeOk {
      assert EndsAs(codec, seen.maxlen, source, store.storable, lost, StoreRefused(i), SunkBy(run));
      return Some(StoreRefused(i));
    }
    if !sinkOk {
      ghost var sunk := Sunk(run.toStore + routed.toStore, run.failures + Delivered(routed.failures, lost(i)));
      assert EndsAs(codec, seen.maxlen, source, store.storable, lost, DeadLetterFailed(i), sunk);
      return Some(DeadLetterFailed(i));
    }
    return None;
  }

  /** Route the batch, then hand each sink what it is owed, then count; a sink that raises ends it there. */
  method ConsumeBatch(
    codec: Codec, seen: Dedup.RecentIds<string>, store: Store.PostgresStore, deadLetter: DeadLetterSink,
    counters: Metrics.ConsumeCounters, batch: seq<Message>, lost: set<nat>)
    returns (storeOk: bool, sinkOk: bool)
    requires seen.Valid() && store.Valid() && deadLetter.Valid()
    modifies seen`ids, seen`added, store`rows, store`received, deadLetter`topic, deadLetter`letters, counters
    ensures seen.Valid() && store.Valid() && deadLetter.Valid()
    ensures var routed := Route(codec, seen.maxlen, old(seen.ids), batch);
      && seen.ids == routed.window
      && (storeOk <==> Store.AllStorable(store.storable, routed.toStore))
      && (sinkOk <==> storeOk && Confirmed(routed.failures, lost))
      && store.received == old(store.received) + (if storeOk then routed.toStore else [])
      && deadLetter.letters
         == old(deadLetter.letters) + (if storeOk then Delivered(routed.failures, lost) else [])
      && (sinkOk ==> Delivered(routed.failures, lost) == routed.failures)
      && (sinkOk ==>
            && counters.batches == old(counters.batches) + 1
            && counters.consumed == old(counters.consumed) + |batch|
            && counters.stored == old(counters.stored) + |routed.toStore|
            && counters.deadLettered == old(counters.deadLettered) + |routed.failures|)
  {
    var valid, failures := RouteBatch(codec, seen, batch);
    ConfirmedDelivers(failures, lost);
    if valid != [] {
      storeOk := store.Write(valid);
      if !storeOk {
        return false, false;
      }
    }
    if failures != [] {
      sinkOk := deadLetter.Send(failures, lost);
      if !sinkOk {
        return true, false;
      }
    }
    counters.RecordBatch(|batch|, |valid|, |failures|);
    return true, true;
  }

  /** The inner loop over one batch. */
  method RouteBatch(codec: Codec, seen: Dedup.RecentIds<string>, batch: seq<Message>)
    returns (toStore: seq<Envelope>, failures: seq<DeadLetter>)
    requires seen.Valid()
    modifies seen`ids, seen`added
    ensures seen.Valid()
    ensures Routed(seen.ids, toStore, failures) == Route(codec, seen.maxlen, old(seen.ids), batch)
  {
    toStore, failures := [], [];
    for i := 0 to |batch|
      invariant seen.Valid()
      invariant Routed(seen.ids, toStore, failures) == Route(codec, seen.maxlen, old(seen.ids), batch[..i])
    {
      assert batch[..i + 1][..i] == batch[..i];
      var message := batch[i];
      var decoded := DecodeValue(codec, message.value);
      if !decoded.Valid? {
        failures := failures + [DeadLetter(message, Reason(decoded), Detail(decoded))];
        continue;
      }
      var accepted := seen.Add(decoded.envelope.event.id);
      if accepted {
        toStore := toStore + [decoded.envelope];
      }
    }
    assert batch[..|batch|] == batch;
  }
}
