/**
 The capture files as text, written, read back, and compared with what other sinks hold.

 The JSON of one event is a parameter (Format). What is modelled is the file: which hour an
 event lands in, in what order, how lines are cut, and what reading the file back gives.
 */
module Sinks {
  import opened Wrappers
  import opened Events
  import opened Hours
  import Dedup

  // ---- one line per event -------------------------------------------------------------

  datatype Format = Format(write: Event -> string, read: string -> Result<Event, string>)
  {
    /**
     A JSON object on one line: it is braced, holds no raw control character (section 7 of
     RFC 8259), and reads back as the event it was written from.
     */
    ghost predicate Faithful() {
      && (forall e :: read(write(e)) == Ok(e))
      && (forall e, c :: c in write(e) ==> c >= ' ')
      && (forall e :: Braced(write(e)))
    }
  }

  predicate Braced(s: string) {
    |s| >= 2 && s[0] == '{' && s[|s| - 1] == '}'
  }

  /** The characters Python strips from the ends of a line. */
  predicate IsSpace(c: char) {
    var n := c as int;
    || 0x09 <= n <= 0x0D || 0x1C <= n <= 0x20 || n == 0x85 || n == 0xA0 || n == 0x1680
    || 0x2000 <= n <= 0x200A || n == 0x2028 || n == 0x2029 || n == 0x202F || n == 0x205F || n == 0x3000
  }

  function Strip(s: string): string
    decreases |s|
  {
    if s == "" then ""
    else if IsSpace(s[0]) then Strip(s[1..])
    else if IsSpace(s[|s| - 1]) then Strip(s[..|s| - 1])
    else s
  }

  /** Stripping takes the whitespace off both ends and nothing else. */
  lemma {:induction false} StripIs(s: string) returns (a: nat, b: nat)
    ensures a <= b <= |s| && Strip(s) == s[a..b]
    ensures forall i :: 0 <= i < a || b <= i < |s| ==> IsSpace(s[i])
    ensures a < b ==> !IsSpace(s[a]) && !IsSpace(s[b - 1])
    decreases |s|
  {
    if s == "" {
      a, b := 0, 0;
    } else if IsSpace(s[0]) {
      a, b := StripIs(s[1..]);
      a, b := a + 1, b + 1;
    } else if IsSpace(s[|s| - 1]) {
      a, b := StripIs(s[..|s| - 1]);
    } else {
      a, b := 0, |s|;
    }
  }

  /** The code points of whitespace: control characters, separators, and Unicode's other spaces. */
  ghost predicate Whitespace(n: int) {
    n in {0x09, 0x0A, 0x0B, 0x0C, 0x0D, 0x1C, 0x1D, 0x1E, 0x1F, 0x20, 0x85, 0xA0, 0x1680,
          0x2000, 0x2001, 0x2002, 0x2003, 0x2004, 0x2005, 0x2006, 0x2007, 0x2008, 0x2009, 0x200A,
          0x2028, 0x2029, 0x202F, 0x205F, 0x3000}
  }

  ghost predicate Blank(line: string) {
    forall i :: 0 <= i < |line| ==> Whitespace(line[i] as int)
  }

  lemma BlankIsStripped(line: string)
    ensures Strip(line) == "" <==> Blank(line)
  {
    var a, b := StripIs(line);
    assert forall c: char :: IsSpace(c) <==> Whitespace(c as int);
  }

  /** A line that holds something, and not an event. */
  ghost predicate Malformed(format: Format, line: string) {
    !Blank(line) && format.read(Strip(line)).Err?
  }

  lemma {:induction false} FailsAtMalformed(format: Format, lines: seq<string>)
    ensures ReadLines(format, lines).failure.None? <==> forall i :: 0 <= i < |lines| ==> !Malformed(format, lines[i])
  {
    if lines != [] {
      FailsAtMalformed(format, lines[..|lines| - 1]);
      BlankIsStripped(lines[|lines| - 1]);
    }
  }

  /** The text cut at every newline; a text that ends in one ends in an empty line. */
  function Lines(text: string): (lines: seq<string>)
    ensures |lines| >= 1
  {
    if text == "" then [""]
    else
      var before, c := Lines(text[..|text| - 1]), text[|text| - 1];
      if c == '\n' then before + [""]
      else before[..|before| - 1] + [before[|before| - 1] + [c]]
  }

  /** What reading yields: the events before the first malformed line, and that line's error. */
  datatype Reading = Reading(events: seq<Event>, failure: Option<string>)

  function ReadOne(format: Format, sofar: Reading, line: string): Reading {
    if sofar.failure.Some? || Strip(line) == "" then sofar
    else
      match format.read(Strip(line))
      case Ok(e) => sofar.(events := sofar.events + [e])
      case Err(detail) => sofar.(failure := Some(detail))
  }

  function ReadLines(format: Format, lines: seq<string>): Reading {
    if lines == [] then Reading([], None)
    else ReadOne(format, ReadLines(format, lines[..|lines| - 1]), lines[|lines| - 1])
  }

  lemma {:induction false} FailureStops(format: Format, lines: seq<string>, n: nat)
    requires n <= |lines| && ReadLines(format, lines[..n]).failure.Some?
    ensures ReadLines(format, lines) == ReadLines(format, lines[..n])
  {
    if n == |lines| {
      assert lines[..n] == lines;
    } else {
      assert lines[..|lines| - 1][..n] == lines[..n];
      FailureStops(format, lines[..|lines| - 1], n);
    }
  }

  /** The reader's loop: the events of the lines up to the first that does not parse. */
  method IterNdjson(format: Format, lines: seq<string>) returns (r: Reading)
    ensures r == ReadLines(format, lines)
    ensures r.failure.None? <==> forall i :: 0 <= i < |lines| ==> !Malformed(format, lines[i])
  {
    FailsAtMalformed(format, lines);
    r := Reading([], None);
    for i := 0 to |lines|
      invariant r == ReadLines(format, lines[..i]) && r.failure.None?
    {
      assert lines[..i + 1][..i] == lines[..i];
      var stripped := Strip(lines[i]);
      if stripped != "" {
        var parsed := format.read(stripped);
        if parsed.Err? {
          r := r.(failure := Some(parsed.error));
          FailureStops(format, lines, i + 1);
          return r;
        }
        r := r.(events := r.events + [parsed.value]);
      }
    }
    assert lines[..|lines|] == lines;
  }

  // ---- text and back --------------------------------------------------------------------

  /** What appending these events, in order, to an empty file leaves in it. */
  function TextOf(format: Format, events: seq<Event>): string {
    if events == [] then ""
    else TextOf(format, events[..|events| - 1]) + (format.write(events[|events| - 1]) + "\n")
  }

  function Written(format: Format, events: seq<Event>): seq<string> {
    seq(|events|, i requires 0 <= i < |events| => format.write(events[i]))
  }

  lemma {:induction false} LinesGrow(text: string, more: string)
    requires '\n' !in more
    ensures var before := Lines(text);
            Lines(text + more) == before[..|before| - 1] + [before[|before| - 1] + more]
  {
    var before := Lines(text);
    if more == "" {
      assert text + more == text;
      assert before[|before| - 1] + more == before[|before| - 1];
      assert before == before[..|before| - 1] + [before[|before| - 1]];
    } else {
      var less := more[..|more| - 1];
      assert more == less + [more[|more| - 1]];
      LinesGrow(text, less);
      assert (text + more)[..|text + more| - 1] == text + less;
      assert before[|before| - 1] + more == (before[|before| - 1] + less) + [more[|more| - 1]];
    }
  }

  lemma LinesOfNewline(text: string)
    ensures Lines(text + "\n") == Lines(text) + [""]
  {
    assert (text + "\n")[..|text|] == text;
  }

  lemma LinesOfOneMore(text: string, line: string)
    requires '\n' !in line
    ensures var before := Lines(text);
            Lines(text + (line + "\n")) == before[..|before| - 1] + [before[|before| - 1] + line, ""]
  {
    LinesGrow(text, line);
    LinesOfNewline(text + line);
    assert text + (line + "\n") == (text + line) + "\n";
  }

  /** Cutting the file gives back one line per event, and the empty line after the last newline. */
  lemma {:induction false} LinesOfText(format: Format, events: seq<Event>)
    requires format.Faithful()
    ensures Lines(TextOf(format, events)) == Written(format, events) + [""]
  {
    if events == [] {
    } else {
      var less, e := events[..|events| - 1], events[|events| - 1];
      LinesOfText(format, less);
      assert '\n' !in format.write(e);
      LinesOfOneMore(TextOf(format, less), format.write(e));
      assert "" + format.write(e) == format.write(e);
      assert Written(format, events) == Written(format, less) + [format.write(e)];
    }
  }

  lemma {:induction false} ReadWritten(format: Format, events: seq<Event>)
    requires format.Faithful()
    ensures ReadLines(format, Written(format, events)) == Reading(events, None)
  {
    if events == [] {
    } else {
      var less, e := events[..|events| - 1], events[|events| - 1];
      ReadWritten(format, less);
      var written := Written(format, events);
      assert written[..|written| - 1] == Written(format, less);
      assert Braced(format.write(e));
      assert Strip(format.write(e)) == format.write(e);
    }
  }

  /** Reading a capture file back gives exactly the events appended to it, in order. */
  lemma FileRoundTrip(format: Format, events: seq<Event>)
    requires format.Faithful()
    ensures ReadLines(format, Lines(TextOf(format, events))) == Reading(events, None)
  {
    LinesOfText(format, events);
    ReadWritten(format, events);
    var lines := Written(format, events) + [""];
    assert lines[..|lines| - 1] == Written(format, events);
  }

  // ---- hours ------------------------------------------------------------------------------

  /** The hour of event time, whatever the offset it was written with. */
  function HourOf(e: Event): Hour { e.createdAt / 3600 }

  function OfHour(events: seq<Event>, h: Hour): seq<Event> {
    if events == [] then []
    else
      var before, e := OfHour(events[..|events| - 1], h), events[|events| - 1];
      if HourOf(e) == h then before + [e] else before
  }

  function InHours(events: seq<Event>, hours: set<Hour>): seq<Event> {
    if events == [] then []
    else
      var before, e := InHours(events[..|events| - 1], hours), events[|events| - 1];
      if HourOf(e) in hours then before + [e] else before
  }

  function HoursOf(events: seq<Event>): set<Hour> {
    set e | e in events :: HourOf(e)
  }

  lemma {:induction false} OfHourAppend(a: seq<Event>, b: seq<Event>, h: Hour)
    ensures OfHour(a + b, h) == OfHour(a, h) + OfHour(b, h)
  {
    if b == [] {
      assert a + b == a;
    } else {
      assert (a + b)[..|a + b| - 1] == a + b[..|b| - 1];
      OfHourAppend(a, b[..|b| - 1], h);
    }
  }

  lemma {:induction false} OfHourInHours(events: seq<Event>, hours: set<Hour>, h: Hour)
    ensures OfHour(InHours(events, hours), h) == if h in hours then OfHour(events, h) else []
  {
    if events != [] {
      var before, e := InHours(events[..|events| - 1], hours), events[|events| - 1];
      OfHourInHours(events[..|events| - 1], hours, h);
      OfHourAppend(before, [e], h);
      assert [e][..0] == [];
      assert OfHour([e], h) == if HourOf(e) == h then [e] else [];
    }
  }

  lemma {:induction false} OfHourMembers(events: seq<Event>, h: Hour)
    ensures forall e :: e in OfHour(events, h) <==> e in events && HourOf(e) == h
  {
    if events != [] {
      OfHourMembers(events[..|events| - 1], h);
      assert events == events[..|events| - 1] + [events[|events| - 1]];
    }
  }

  lemma CreatedInHour(events: seq<Event>, h: Hour)
    ensures h in HoursOf(events) <==> exists e :: e in events && InHour(e.createdAt, h)
    ensures forall e :: e in OfHour(events, h) <==> e in events && InHour(e.createdAt, h)
  {
    OfHourMembers(events, h);
    forall e: Event
      ensures HourOf(e) == h <==> InHour(e.createdAt, h)
    {
    }
  }

  lemma HoursStep(events: seq<Event>, e: Event)
    ensures HoursOf(events + [e]) == HoursOf(events) + {HourOf(e)}
    ensures forall h :: OfHour(events + [e], h) == OfHour(events, h) + (if HourOf(e) == h then [e] else [])
  {
    assert forall o :: o in events + [e] <==> o in events || o == e;
    assert (events + [e])[..|events|] == events;
  }

  lemma {:induction false} SomeOfHour(events: seq<Event>, h: Hour)
    ensures h in HoursOf(events) <==> OfHour(events, h) != []
  {
    if events != [] {
      var less, e := events[..|events| - 1], events[|events| - 1];
      SomeOfHour(less, h);
      HoursStep(less, e);
      assert events == less + [e];
    }
  }

  /** Taking one hour out of a set of hours. */
  lemma {:induction false} SplitHour(events: seq<Event>, hours: set<Hour>, h: Hour)
    requires h in hours
    ensures multiset(InHours(events, hours)) == multiset(OfHour(events, h)) + multiset(InHours(events, hours - {h}))
  {
    if events != [] {
      SplitHour(events[..|events| - 1], hours, h);
    }
  }

  lemma {:induction false} AllHours(events: seq<Event>, hours: set<Hour>)
    requires HoursOf(events) <= hours
    ensures InHours(events, hours) == events
  {
    if events != [] {
      var less, e := events[..|events| - 1], events[|events| - 1];
      assert events == less + [e];
      assert HourOf(e) in HoursOf(events);
      forall o | o in less
        ensures HourOf(o) in HoursOf(events)
      {
        assert o in events;
      }
      AllHours(less, hours);
    }
  }

  // ---- what the files together hold ---------------------------------------------------------

  type Files = map<Hour, string>

  /** The files are the capture of these events: one file per hour they fall in, in arrival order. */
  ghost predicate Captures(format: Format, files: Files, events: seq<Event>) {
    && files.Keys == HoursOf(events)
    && forall h :: h in files ==> files[h] == TextOf(format, OfHour(events, h))
  }

  /** Everything read back from the files, taken together. */
  ghost function ReadAll(format: Format, files: Files): multiset<Event> {
    if forall h :: h !in files then multiset{}
    else
      var h :| h in files;
      multiset(ReadLines(format, Lines(files[h])).events) + ReadAll(format, files - {h})
  }

  lemma {:induction false} ReadAllIs(format: Format, files: Files, events: seq<Event>)
    requires format.Faithful()
    requires forall h :: h in files ==> files[h] == TextOf(format, OfHour(events, h))
    ensures ReadAll(format, files) == multiset(InHours(events, files.Keys))
    decreases |files|
  {
    if forall h :: h !in files {
      assert files.Keys == {};
      NoHours(events);
    } else {
      var h :| h in files && ReadAll(format, files)
               == multiset(ReadLines(format, Lines(files[h])).events) + ReadAll(format, files - {h});
      FileRoundTrip(format, OfHour(events, h));
      ReadAllIs(format, files - {h}, events);
      SplitHour(events, files.Keys, h);
      assert (files - {h}).Keys == files.Keys - {h};
    }
  }

  lemma {:induction false} NoHours(events: seq<Event>)
    ensures InHours(events, {}) == []
  {
    if events != [] {
      NoHours(events[..|events| - 1]);
    }
  }

  /**
   The capture round trip: there is a file for exactly the hours some event was created in, each
   reads back as exactly the events created in its hour in arrival order, and all the files
   together hold exactly the events captured.
   */
  lemma CaptureRoundTrip(format: Format, files: Files, events: seq<Event>)
    requires format.Faithful() && Captures(format, files, events)
    ensures forall h :: h in files <==> exists e :: e in events && InHour(e.createdAt, h)
    ensures forall h :: h in files ==>
              ReadLines(format, Lines(files[h])) == Reading(OfHour(events, h), None)
    ensures forall h, e :: e in OfHour(events, h) <==> e in events && InHour(e.createdAt, h)
    ensures ReadAll(format, files) == multiset(events)
  {
    forall h
      ensures h in files <==> exists e :: e in events && InHour(e.createdAt, h)
      ensures forall e :: e in OfHour(events, h) <==> e in events && InHour(e.createdAt, h)
    {
      CreatedInHour(events, h);
    }
    forall h | h in files
      ensures ReadLines(format, Lines(files[h])) == Reading(OfHour(events, h), None)
    {
      FileRoundTrip(format, OfHour(events, h));
    }
    ReadAllIs(format, files, events);
    AllHours(events, files.Keys);
  }

  /** An event that was captured is read back from the file of its own hour. */
  lemma CapturedIsOnDisk(format: Format, files: Files, events: seq<Event>, e: Event)
    requires format.Faithful() && Captures(format, files, events) && e in events
    ensures HourOf(e) in files && e in ReadLines(format, Lines(files[HourOf(e)])).events
  {
    assert HourOf(e) in HoursOf(events);
    CaptureRoundTrip(format, files, events);
    OfHourMembers(events, HourOf(e));
  }

  // ---- the capture sink --------------------------------------------------------------------------

  lemma {:induction false} TextOfAppend(format: Format, a: seq<Event>, b: seq<Event>)
    ensures TextOf(format, a + b) == TextOf(format, a) + TextOf(format, b)
  {
    if b == [] {
      assert a + b == a;
    } else {
      var less, last := b[..|b| - 1], format.write(b[|b| - 1]) + "\n";
      assert (a + b)[..|a + b| - 1] == a + less;
      TextOfAppend(format, a, less);
      assert TextOf(format, a) + (TextOf(format, less) + last) == (TextOf(format, a) + TextOf(format, less)) + last;
    }
  }

  /** The file of one hour after appending a group of its events. */
  function Appended(format: Format, files: Files, h: Hour, group: seq<Event>): Files {
    files[h := (if h in files then files[h] else "") + TextOf(format, group)]
  }

  class HourlyNdjsonSink {
    const format: Format
    var files: Files
    ghost var captured: seq<Event>

    ghost predicate Valid()
      reads this
    {
      Captures(format, files, captured)
    }

    constructor (format: Format)
      ensures Valid() && this.format == format && captured == []
    {
      this.format := format;
      files := map[];
      captured := [];
    }

    /** After a restart: the files of the runs before are there and are appended to. */
    constructor Resume(format: Format, files: Files, ghost captured: seq<Event>)
      requires Captures(format, files, captured)
      ensures Valid() && this.format == format && this.files == files && this.captured == captured
    {
      this.format := format;
      this.files := files;
      this.captured := captured;
    }

    /**
     Append a batch, bucketed by hour. Opening a file of unwritable raises, and leaves the hours
     before it in the batch's order of hours written whole and the rest not at all.
     */
    method Write(events: seq<Event>, unwritable: set<Hour>) returns (r: Result<(), string>, ghost written: set<Hour>)
      requires Valid()
      modifies this`files, this`captured
      ensures Valid() && captured == old(captured) + InHours(events, written)
      ensures r.Ok? <==> HoursOf(events) !! unwritable
      ensures r.Ok? ==> captured == old(captured) + events
      ensures written <= HoursOf(events) && written !! unwritable
    {
      var hours, buckets := Bucket(events);
      written := {};
      NoHours(events);
      for i := 0 to |hours|
        invariant Valid() && captured == old(captured) + InHours(events, written)
        invariant AreElements(hours[..i], written) && written !! unwritable
      {
        if hours[i] in unwritable {
          assert hours[i] in HoursOf(events) * unwritable;
          assert written <= HoursOf(events);
          return Err("cannot open the hour's file"), written;
        }
        OneMoreElement(hours, i, written);
        written := AppendTo(hours[i], buckets[hours[i]], old(captured), events, written);
      }
      assert hours[..|hours|] == hours;
      AllWritten(events, hours, written);
      return Ok(()), written;
    }

    /** Append one hour's group, one line an event. */
    method AppendTo(h: Hour, group: seq<Event>, ghost before: seq<Event>, ghost batch: seq<Event>,
                    ghost written: set<Hour>)
      returns (ghost now: set<Hour>)
      requires Valid() && captured == before + InHours(batch, written)
      requires h !in written && h in HoursOf(batch) && group == OfHour(batch, h)
      modifies this`files, this`captured
      ensures Valid() && now == written + {h} && captured == before + InHours(batch, now)
      ensures files == Appended(format, old(files), h, group)
    {
      AppendKeeps(format, files, before, batch, written, h);
      var text := if h in files then files[h] else "";
      ghost var was := text;
      for i := 0 to |group|
        invariant files == old(files) && text == was + TextOf(format, group[..i])
      {
        assert group[..i + 1][..i] == group[..i];
        text := text + (format.write(group[i]) + "\n");
      }
      assert group[..|group|] == group;
      files := files[h := text];
      now := written + {h};
      captured := before + InHours(batch, now);
    }
  }

  ghost predicate AreElements<T>(s: seq<T>, elements: set<T>) {
    && (forall i :: 0 <= i < |s| ==> s[i] in elements)
    && (forall x :: x in elements ==> x in s)
  }

  lemma OneMoreElement<T>(s: seq<T>, i: nat, elements: set<T>)
    requires i < |s| && Dedup.NoRepeats(s) && AreElements(s[..i], elements)
    ensures s[i] !in elements && AreElements(s[..i + 1], elements + {s[i]})
  {
    assert s[..i + 1] == s[..i] + [s[i]];
  }

  lemma AllWritten(events: seq<Event>, hours: seq<Hour>, written: set<Hour>)
    requires AreElements(hours, written) && AreElements(hours, HoursOf(events))
    ensures written == HoursOf(events) && InHours(events, written) == events
  {
    assert written == HoursOf(events);
    AllHours(events, written);
  }

  /** One bucket per hour, in the order the hours first appear. */
  method Bucket(events: seq<Event>) returns (hours: seq<Hour>, buckets: map<Hour, seq<Event>>)
    ensures Dedup.NoRepeats(hours) && AreElements(hours, buckets.Keys) && buckets.Keys == HoursOf(events)
    ensures forall h :: h in buckets ==> buckets[h] == OfHour(events, h)
  {
    hours, buckets := [], map[];
    for i := 0 to |events|
      invariant Dedup.NoRepeats(hours) && AreElements(hours, buckets.Keys)
      invariant Buckets(events[..i], buckets)
    {
      var h := HourOf(events[i]);
      assert events[..i + 1] == events[..i] + [events[i]];
      BucketStep(events[..i], buckets, events[i]);
      if h !in buckets {
        hours := hours + [h];
        buckets := buckets[h := []];
      }
      buckets := buckets[h := buckets[h] + [events[i]]];
    }
    assert events[..|events|] == events;
  }

  ghost predicate Buckets(events: seq<Event>, buckets: map<Hour, seq<Event>>) {
    && buckets.Keys == HoursOf(events)
    && forall h :: h in buckets ==> buckets[h] == OfHour(events, h)
  }

  lemma BucketStep(events: seq<Event>, buckets: map<Hour, seq<Event>>, e: Event)
    requires Buckets(events, buckets)
    ensures Buckets(events + [e], buckets[HourOf(e) := (if HourOf(e) in buckets then buckets[HourOf(e)] else []) + [e]])
  {
    HoursStep(events, e);
    SomeOfHour(events, HourOf(e));
  }

  /** How the events of each hour grow when one hour more of the batch is written. */
  lemma OneHourMore(before: seq<Event>, batch: seq<Event>, written: set<Hour>, h: Hour, k: Hour)
    requires h !in written
    ensures OfHour(before + InHours(batch, written + {h}), k)
         == OfHour(before + InHours(batch, written), k) + (if k == h then OfHour(batch, h) else [])
  {
    CapturedOfHour(before, batch, written, k);
    CapturedOfHour(before, batch, written + {h}, k);
  }

  lemma CapturedOfHour(before: seq<Event>, batch: seq<Event>, hours: set<Hour>, k: Hour)
    ensures OfHour(before + InHours(batch, hours), k)
         == OfHour(before, k) + (if k in hours then OfHour(batch, k) else [])
  {
    OfHourAppend(before, InHours(batch, hours), k);
    OfHourInHours(batch, hours, k);
  }

  /** Appending hour h's group to its file captures one hour more of the batch. */
  lemma AppendKeeps(
    format: Format, files: Files, before: seq<Event>, batch: seq<Event>, written: set<Hour>, h: Hour)
    requires Captures(format, files, before + InHours(batch, written))
    requires h !in written && h in HoursOf(batch)
    ensures Captures(format, Appended(format, files, h, OfHour(batch, h)), before + InHours(batch, written + {h}))
  {
    var was, now := before + InHours(batch, written), before + InHours(batch, written + {h});
    forall k: Hour
      ensures OfHour(now, k) == OfHour(was, k) + (if k == h then OfHour(batch, h) else [])
    {
      OneHourMore(before, batch, written, h, k);
    }
    SomeOfHour(batch, h);
    CapturesMore(format, files, was, now, h, OfHour(batch, h));
  }

  lemma CapturesMore(format: Format, files: Files, was: seq<Event>, now: seq<Event>, h: Hour, group: seq<Event>)
    requires Captures(format, files, was) && group != []
    requires forall k :: OfHour(now, k) == OfHour(was, k) + (if k == h then group else [])
    ensures Captures(format, Appended(format, files, h, group), now)
  {
    var after := Appended(format, files, h, group);
    forall k: Hour
      ensures k in after <==> k in HoursOf(now)
      ensures k in after ==> after[k] == TextOf(format, OfHour(now, k))
    {
      SomeOfHour(now, k);
      SomeOfHour(was, k);
      FileGrows(format, files, was, h, group, k);
    }
  }

  lemma FileGrows(format: Format, files: Files, was: seq<Event>, h: Hour, group: seq<Event>, k: Hour)
    requires Captures(format, files, was)
    ensures var after := Appended(format, files, h, group);
            k in after ==> after[k] == TextOf(format, OfHour(was, k) + (if k == h then group else []))
  {
    SomeOfHour(was, k);
    if k == h {
      TextOfAppend(format, OfHour(was, h), group);
      assert "" + TextOf(format, group) == TextOf(format, group);
    } else {
      assert OfHour(was, k) + [] == OfHour(was, k);
    }
  }

  // ---- the tee ---------------------------------------------------------------------------------------

  /** A best-effort sink, and everything it has accepted. */
  class StreamSink {
    var accepted: seq<Event>

    constructor ()
      ensures accepted == []
    {
      accepted := [];
    }

    /** failsAfter says how many events of the batch went out before the sink raised, if it does. */
    method Send(events: seq<Event>, failsAfter: Option<nat>) returns (ok: bool)
      modifies this
      ensures ok <==> failsAfter.None?
      ensures accepted == old(accepted) + Sent(events, failsAfter)
      ensures ok ==> accepted == old(accepted) + events
      ensures !ok && failsAfter.value <= |events| ==> accepted == old(accepted) + events[..failsAfter.value]
    {
      accepted := accepted + Sent(events, failsAfter);
      return failsAfter.None?;
    }
  }

  function Sent(events: seq<Event>, failsAfter: Option<nat>): seq<Event> {
    if failsAfter.Some? && failsAfter.value <= |events| then events[..failsAfter.value] else events
  }

  function Failing(outcomes: seq<Option<nat>>): nat {
    if outcomes == [] then 0
    else Failing(outcomes[..|outcomes| - 1]) + (if outcomes[|outcomes| - 1].Some? then 1 else 0)
  }

  ghost predicate Within(accepted: seq<Event>, captured: seq<Event>) {
    multiset(accepted) <= multiset(captured)
  }

  ghost predicate AllOf(accepted: seq<Event>, captured: seq<Event>) {
    forall e :: e in accepted ==> e in captured
  }

  /** What one sink takes of a batch: a share for every place it has in the list. */
  ghost function Taken(
    sinks: seq<StreamSink>, sink: StreamSink, events: seq<Event>, outcomes: seq<Option<nat>>): seq<Event>
    requires |outcomes| == |sinks|
  {
    if sinks == [] then []
    else
      var n := |sinks| - 1;
      Taken(sinks[..n], sink, events, outcomes[..n])
      + (if sinks[n] == sink then Sent(events, outcomes[n]) else [])
  }

  lemma TakenStep(
    sinks: seq<StreamSink>, i: nat, sink: StreamSink, events: seq<Event>, outcomes: seq<Option<nat>>,
    before: seq<Event>)
    requires |outcomes| == |sinks| && i < |sinks|
    ensures before + Taken(sinks[..i + 1], sink, events, outcomes[..i + 1])
         == before + Taken(sinks[..i], sink, events, outcomes[..i])
            + (if sinks[i] == sink then Sent(events, outcomes[i]) else [])
  {
    assert sinks[..i + 1][..i] == sinks[..i] && outcomes[..i + 1][..i] == outcomes[..i];
  }

  lemma {:induction false} TakenIsOfBatch(
    sinks: seq<StreamSink>, sink: StreamSink, events: seq<Event>, outcomes: seq<Option<nat>>)
    requires |outcomes| == |sinks|
    ensures AllOf(Taken(sinks, sink, events, outcomes), events)
  {
    if sinks != [] {
      TakenIsOfBatch(sinks[..|sinks| - 1], sink, events, outcomes[..|sinks| - 1]);
    }
  }

  lemma {:induction false} TakenNothing(
    sinks: seq<StreamSink>, sink: StreamSink, events: seq<Event>, outcomes: seq<Option<nat>>)
    requires |outcomes| == |sinks| && sink !in sinks
    ensures Taken(sinks, sink, events, outcomes) == []
  {
    if sinks != [] {
      TakenNothing(sinks[..|sinks| - 1], sink, events, outcomes[..|sinks| - 1]);
    }
  }

  /** A sink named once takes one share. */
  lemma {:induction false} TakenOnce(
    sinks: seq<StreamSink>, i: nat, events: seq<Event>, outcomes: seq<Option<nat>>)
    requires |outcomes| == |sinks| && i < |sinks| && Dedup.NoRepeats(sinks)
    ensures Taken(sinks, sinks[i], events, outcomes) == Sent(events, outcomes[i])
  {
    var n := |sinks| - 1;
    if i == n {
      TakenNothing(sinks[..n], sinks[n], events, outcomes[..n]);
    } else {
      TakenOnce(sinks[..n], i, events, outcomes[..n]);
      assert sinks[n] != sinks[i];
    }
  }

  class TeeSink {
    const primary: HourlyNdjsonSink
    const bestEffort: seq<StreamSink>
    var dropped: nat

    /**
     Whatever a best-effort sink holds is in the capture; a sink that is named only once holds no
     event more often than the capture does.
     */
    ghost predicate Valid()
      reads this, primary, bestEffort
    {
      && primary.Valid()
      && (forall i :: 0 <= i < |bestEffort| ==> AllOf(bestEffort[i].accepted, primary.captured))
      && (Dedup.NoRepeats(bestEffort) ==>
            forall i :: 0 <= i < |bestEffort| ==> Within(bestEffort[i].accepted, primary.captured))
    }

    constructor (primary: HourlyNdjsonSink, bestEffort: seq<StreamSink>)
      requires primary.Valid()
      requires forall i :: 0 <= i < |bestEffort| ==> bestEffort[i].accepted == []
      ensures Valid() && this.primary == primary && this.bestEffort == bestEffort && dropped == 0
    {
      this.primary := primary;
      this.bestEffort := bestEffort;
      dropped := 0;
    }

    /**
     One batch. A failing primary is fatal and nothing is passed on; a failing best-effort sink
     is counted, and the ones after it still get the batch.
     */
    method Write(events: seq<Event>, unwritable: set<Hour>, outcomes: seq<Option<nat>>)
      returns (r: Result<(), string>)
      requires Valid() && |outcomes| == |bestEffort|
      modifies this`dropped, primary, bestEffort
      ensures Valid()
      ensures r.Ok? <==> HoursOf(events) !! unwritable
      ensures r.Ok? ==> primary.captured == old(primary.captured) + events
      ensures r.Ok? ==> dropped == old(dropped) + Failing(outcomes)
      ensures r.Ok? ==> forall i :: 0 <= i < |bestEffort| ==>
                bestEffort[i].accepted
                == old(bestEffort[i].accepted) + Taken(bestEffort, bestEffort[i], events, outcomes)
      ensures r.Err? ==> dropped == old(dropped)
      ensures r.Err? ==> forall i :: 0 <= i < |bestEffort| ==> bestEffort[i].accepted == old(bestEffort[i].accepted)
    {
      ghost var written;
      r, written := primary.Write(events, unwritable);
      if r.Err? {
        return;
      }
      PassOn(events, outcomes);
      forall i | 0 <= i < |bestEffort|
        ensures AllOf(bestEffort[i].accepted, primary.captured)
        ensures Dedup.NoRepeats(bestEffort) ==> Within(bestEffort[i].accepted, primary.captured)
      {
        TakenIsOfBatch(bestEffort, bestEffort[i], events, outcomes);
        AllOfMore(old(bestEffort[i].accepted), old(primary.captured),
                  Taken(bestEffort, bestEffort[i], events, outcomes), events);
        if Dedup.NoRepeats(bestEffort) {
          TakenOnce(bestEffort, i, events, outcomes);
          SentIsPart(old(bestEffort[i].accepted), old(primary.captured), events, outcomes[i]);
        }
      }
    }

    /** Every best-effort sink gets the batch, whichever of the others fail. */
    method PassOn(events: seq<Event>, outcomes: seq<Option<nat>>)
      requires |outcomes| == |bestEffort|
      modifies this`dropped, bestEffort
      ensures dropped == old(dropped) + Failing(outcomes)
      ensures forall i :: 0 <= i < |bestEffort| ==>
                bestEffort[i].accepted
                == old(bestEffort[i].accepted) + Taken(bestEffort, bestEffort[i], events, outcomes)
    {
      for i := 0 to |bestEffort|
        invariant dropped == old(dropped) + Failing(outcomes[..i])
        invariant forall j :: 0 <= j < |bestEffort| ==>
                    bestEffort[j].accepted
                    == old(bestEffort[j].accepted) + Taken(bestEffort[..i], bestEffort[j], events, outcomes[..i])
      {
        assert outcomes[..i + 1][..i] == outcomes[..i];
        ghost var sink := bestEffort[i];
        forall j | 0 <= j < |bestEffort|
          ensures old(bestEffort[j].accepted) + Taken(bestEffort[..i + 1], bestEffort[j], events, outcomes[..i + 1])
               == bestEffort[j].accepted + (if bestEffort[j] == sink then Sent(events, outcomes[i]) else [])
        {
          TakenStep(bestEffort, i, bestEffort[j], events, outcomes, old(bestEffort[j].accepted));
        }
        var ok := bestEffort[i].Send(events, outcomes[i]);
        if !ok {
          dropped := dropped + 1;
        }
      }
      assert outcomes[..|outcomes|] == outcomes && bestEffort[..|bestEffort|] == bestEffort;
    }
  }

  lemma AllOfMore(accepted: seq<Event>, captured: seq<Event>, more: seq<Event>, events: seq<Event>)
    requires AllOf(accepted, captured) && AllOf(more, events)
    ensures AllOf(accepted + more, captured + events)
  {
  }

  lemma SentIsPart(accepted: seq<Event>, captured: seq<Event>, events: seq<Event>, failsAfter: Option<nat>)
    requires Within(accepted, captured)
    ensures Within(accepted + Sent(events, failsAfter), captured + events)
  {
    if failsAfter.Some? && failsAfter.value <= |events| {
      assert events == events[..failsAfter.value] + events[failsAfter.value..];
    }
  }

  /** Through the tee, an event a best-effort sink accepted is read back from its hour's file. */
  lemma AcceptedIsOnDisk(format: Format, files: Files, captured: seq<Event>, accepted: seq<Event>, e: Event)
    requires format.Faithful() && Captures(format, files, captured)
    requires AllOf(accepted, captured) && e in accepted
    ensures HourOf(e) in files && e in ReadLines(format, Lines(files[HourOf(e)])).events
  {
    CapturedIsOnDisk(format, files, captured, e);
  }
}
