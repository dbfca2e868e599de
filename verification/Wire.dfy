/**
 Two envelopes and their decoders, proved inverse to each other: the live one, and the one a
 dead letter travels in, with the Base64 arithmetic under it.

 JSON text itself is a parameter (Codec): what is modelled is what this module writes into a
 document and what it accepts out of one.
 */
module Wire {
  import opened Wrappers
  import opened Events

  type Byte = b: int | 0 <= b < 256
  type Bytes = seq<Byte>

  const SCHEMA_VERSION := 1
  const DLQ_SCHEMA_VERSION := 1

  // ---- Base64, section 4 of RFC 4648 -------------------------------------

  type Sextet = s: int | 0 <= s < 64

  function Symbol(s: Sextet): char {
    if s < 26 then 'A' + s as char
    else if s < 52 then 'a' + (s - 26) as char
    else if s < 62 then '0' + (s - 52) as char
    else if s == 62 then '+'
    else '/'
  }

  /** The value of one symbol, or None for a character outside the alphabet. */
  function SymbolValue(c: char): Option<Sextet> {
    if 'A' <= c <= 'Z' then Some((c - 'A') as int)
    else if 'a' <= c <= 'z' then Some((c - 'a') as int + 26)
    else if '0' <= c <= '9' then Some((c - '0') as int + 52)
    else if c == '+' then Some(62)
    else if c == '/' then Some(63)
    else None
  }

  lemma SymbolRoundTrip(s: Sextet)
    ensures SymbolValue(Symbol(s)) == Some(s)
    ensures Symbol(s) != '='
  {
  }

  function Base64(data: Bytes): string {
    if |data| == 0 then ""
    else if |data| == 1 then
      [Symbol(data[0] / 4), Symbol(data[0] % 4 * 16), '=', '=']
    else if |data| == 2 then
      [Symbol(data[0] / 4), Symbol(data[0] % 4 * 16 + data[1] / 16), Symbol(data[1] % 16 * 4), '=']
    else
      [Symbol(data[0] / 4), Symbol(data[0] % 4 * 16 + data[1] / 16),
       Symbol(data[1] % 16 * 4 + data[2] / 64), Symbol(data[2] % 64)]
      + Base64(data[3..])
  }

  /**
   The lenient decoder: characters outside the alphabet are skipped, a completed padding ends
   the input, and running out of input inside a group is an error (None). quad is the position
   inside the current group, left the bits carried over, pads the padding seen in this group.
   */
  function Unbase64From(text: string, quad: nat, left: nat, pads: nat): (r: Option<Bytes>)
    requires quad < 4 && left < (if quad == 1 then 64 else if quad == 2 then 16 else if quad == 3 then 4 else 1)
    decreases |text|
  {
    if text == "" then if quad == 0 then Some([]) else None
    else if text[0] == '=' then
      if quad >= 2 && quad + pads + 1 >= 4 then Some([])
      else Unbase64From(text[1..], quad, left, if quad >= 2 then pads + 1 else pads)
    else
      match SymbolValue(text[0])
      case None => Unbase64From(text[1..], quad, left, pads)
      case Some(s) =>
        if quad == 0 then Unbase64From(text[1..], 1, s, 0)
        else if quad == 1 then Prepend(left * 4 + s / 16, Unbase64From(text[1..], 2, s % 16, 0))
        else if quad == 2 then Prepend(left * 16 + s / 4, Unbase64From(text[1..], 3, s % 4, 0))
        else Prepend(left * 64 + s, Unbase64From(text[1..], 0, 0, 0))
  }

  function Prepend(b: Byte, rest: Option<Bytes>): Option<Bytes> {
    if rest.None? then None else Some([b] + rest.value)
  }

  function Decode64(text: string): Option<Bytes> {
    Unbase64From(text, 0, 0, 0)
  }

  predicate IsAscii(text: string) {
    forall i | 0 <= i < |text| :: text[i] < 128 as char
  }

  /** A text with any character outside ASCII is refused before decoding starts. */
  function Unbase64(text: string): Option<Bytes> {
    if IsAscii(text) then Decode64(text) else None
  }

  // ---- which texts decode ------------------------------------------------

  ghost function Symbols(text: string): nat {
    if text == "" then 0 else Symbols(text[..|text| - 1]) + (if SymbolValue(text[|text| - 1]).Some? then 1 else 0)
  }

  /** A pad after two symbols of a group and an earlier pad, or after three: it ends the input. */
  ghost predicate EndsAt(text: string, p: int) {
    && 0 <= p < |text| && text[p] == '='
    && (Symbols(text[..p]) % 4 == 3 || (Symbols(text[..p]) % 4 == 2 && PaddedBefore(text, p)))
  }

  /** A pad since the last symbol before p. */
  ghost predicate PaddedBefore(text: string, p: nat)
    requires p <= |text|
  {
    exists q :: 0 <= q < p && text[q] == '=' && Symbols(text[..q]) == Symbols(text[..p])
  }

  /** Plain ASCII with a closing pad somewhere, or else whole groups of four symbols. */
  ghost predicate HoldsBytes(text: string) {
    && (forall i :: 0 <= i < |text| ==> text[i] as int <= 0x7F)
    && ((exists p :: EndsAt(text, p)) || Symbols(text) % 4 == 0)
  }

  lemma OneMoreChar(text: string, i: nat)
    requires i < |text|
    ensures Symbols(text[..i + 1]) == Symbols(text[..i]) + (if SymbolValue(text[i]).Some? then 1 else 0)
  {
    assert text[..i + 1][..i] == text[..i];
  }

  lemma {:induction false} SymbolsGrow(text: string, q: nat, i: nat)
    requires q <= i <= |text|
    ensures Symbols(text[..q]) <= Symbols(text[..i])
  {
    if q < i {
      OneMoreChar(text, i - 1);
      SymbolsGrow(text, q, i - 1);
    }
  }

  lemma PaddedStep(text: string, i: nat)
    requires i < |text|
    ensures PaddedBefore(text, i + 1) <==> SymbolValue(text[i]).None? && (text[i] == '=' || PaddedBefore(text, i))
  {
    OneMoreChar(text, i);
    forall q | 0 <= q <= i
      ensures Symbols(text[..q]) <= Symbols(text[..i])
    {
      SymbolsGrow(text, q, i);
    }
    if text[i] == '=' {
      assert Symbols(text[..i]) == Symbols(text[..i + 1]);
    }
  }

  /** What the decoder knows when it stands at i. */
  ghost predicate Stands(text: string, i: nat, left: nat, pads: nat) {
    && i <= |text|
    && var quad := Symbols(text[..i]) % 4;
       && left < (if quad == 1 then 64 else if quad == 2 then 16 else if quad == 3 then 4 else 1)
       && (quad == 2 ==> (pads >= 1 <==> PaddedBefore(text, i)))
  }

  ghost predicate Accepts(text: string, i: nat) {
    (exists p :: i <= p && EndsAt(text, p)) || Symbols(text) % 4 == 0
  }

  /** From there it accepts just when a closing pad lies ahead or the groups come out even. */
  lemma {:induction false} AcceptsFrom(text: string, i: nat, left: nat, pads: nat)
    requires Stands(text, i, left, pads)
    ensures Unbase64From(text[i..], Symbols(text[..i]) % 4, left, pads).Some? <==> Accepts(text, i)
    decreases |text| - i, 1
  {
    if i == |text| {
      assert text[..i] == text;
    } else {
      OneMoreChar(text, i);
      PaddedStep(text, i);
      AcceptsStep(text, i);
      assert text[i..][1..] == text[i + 1..] && text[i..][0] == text[i];
      if SymbolValue(text[i]).Some? {
        AcceptsPastSymbol(text, i, left, pads);
      } else {
        AcceptsPastOther(text, i, left, pads);
      }
    }
  }

  lemma AcceptsStep(text: string, i: nat)
    ensures Accepts(text, i) <==> EndsAt(text, i) || Accepts(text, i + 1)
  {
  }

  lemma {:induction false} AcceptsPastSymbol(text: string, i: nat, left: nat, pads: nat)
    requires i < |text| && Stands(text, i, left, pads) && SymbolValue(text[i]).Some?
    requires Symbols(text[..i + 1]) == Symbols(text[..i]) + 1 && !PaddedBefore(text, i + 1)
    requires text[i..][1..] == text[i + 1..] && text[i..][0] == text[i]
    ensures Unbase64From(text[i..], Symbols(text[..i]) % 4, left, pads).Some? <==> Accepts(text, i + 1)
    decreases |text| - i, 0
  {
    var quad, s := Symbols(text[..i]) % 4, SymbolValue(text[i]).value;
    var rest := if quad == 0 then s else if quad == 1 then s % 16 else if quad == 2 then s % 4 else 0;
    AcceptsFrom(text, i + 1, rest, 0);
  }

  lemma {:induction false} AcceptsPastOther(text: string, i: nat, left: nat, pads: nat)
    requires i < |text| && Stands(text, i, left, pads) && SymbolValue(text[i]).None?
    requires Symbols(text[..i + 1]) == Symbols(text[..i])
    requires PaddedBefore(text, i + 1) <==> text[i] == '=' || PaddedBefore(text, i)
    requires text[i..][1..] == text[i + 1..] && text[i..][0] == text[i]
    ensures Unbase64From(text[i..], Symbols(text[..i]) % 4, left, pads).Some?
            <==> EndsAt(text, i) || Accepts(text, i + 1)
    decreases |text| - i, 0
  {
    if !EndsAt(text, i) {
      AcceptsFrom(text, i + 1, left, if text[i] == '=' && Symbols(text[..i]) % 4 >= 2 then pads + 1 else pads);
    }
  }

  /** Exactly which texts are bytes. */
  lemma Unbase64Accepts(text: string)
    ensures Unbase64(text).Some? <==> HoldsBytes(text)
  {
    assert text[0..] == text && text[..0] == "";
    AcceptsFrom(text, 0, 0, 0);
  }

  lemma ReadSymbol(s: Sextet, rest: string, quad: nat, left: nat, pads: nat)
    requires quad < 4 && left < (if quad == 1 then 64 else if quad == 2 then 16 else if quad == 3 then 4 else 1)
    ensures Unbase64From([Symbol(s)] + rest, quad, left, pads)
         == (if quad == 0 then Unbase64From(rest, 1, s, 0)
             else if quad == 1 then Prepend(left * 4 + s / 16, Unbase64From(rest, 2, s % 16, 0))
             else if quad == 2 then Prepend(left * 16 + s / 4, Unbase64From(rest, 3, s % 4, 0))
             else Prepend(left * 64 + s, Unbase64From(rest, 0, 0, 0)))
  {
    SymbolRoundTrip(s);
    assert ([Symbol(s)] + rest)[1..] == rest;
  }

  lemma ReadLastTwo(left: nat, s2: Sextet, s3: Sextet, rest: string)
    requires left < 16
    ensures Unbase64From([Symbol(s2)] + ([Symbol(s3)] + rest), 2, left, 0)
         == Prepend(left * 16 + s2 / 4, Prepend(s2 % 4 * 64 + s3, Decode64(rest)))
  {
    ReadSymbol(s3, rest, 3, s2 % 4, 0);
    ReadSymbol(s2, [Symbol(s3)] + rest, 2, left, 0);
  }

  lemma ReadSymbols(s0: Sextet, s1: Sextet, s2: Sextet, s3: Sextet, rest: string)
    ensures Decode64([Symbol(s0)] + ([Symbol(s1)] + ([Symbol(s2)] + ([Symbol(s3)] + rest))))
         == Prepend(s0 * 4 + s1 / 16,
              Prepend(s1 % 16 * 16 + s2 / 4, Prepend(s2 % 4 * 64 + s3, Decode64(rest))))
  {
    var tail := [Symbol(s2)] + ([Symbol(s3)] + rest);
    ReadLastTwo(s1 % 16, s2, s3, rest);
    ReadSymbol(s1, tail, 1, s0, 0);
    ReadSymbol(s0, [Symbol(s1)] + tail, 0, 0, 0);
  }

  /** The six-bit pieces of three bytes are sextets, and put the three bytes back together. */
  lemma GroupBits(a: Byte, b: Byte, c: Byte)
    ensures a / 4 < 64 && a % 4 * 16 + b / 16 < 64 && b % 16 * 4 + c / 64 < 64
    ensures a / 4 * 4 + (a % 4 * 16 + b / 16) / 16 == a
    ensures (a % 4 * 16 + b / 16) % 16 * 16 + (b % 16 * 4 + c / 64) / 4 == b
    ensures (b % 16 * 4 + c / 64) % 4 * 64 + c % 64 == c
  {
  }

  /** Reading one whole group of four symbols gives back its three bytes. */
  lemma ReadGroup(a: Byte, b: Byte, c: Byte, rest: string)
    ensures Decode64([Symbol(a / 4), Symbol(a % 4 * 16 + b / 16),
                      Symbol(b % 16 * 4 + c / 64), Symbol(c % 64)] + rest)
         == Prepend(a, Prepend(b, Prepend(c, Decode64(rest))))
  {
    GroupBits(a, b, c);
    var s0, s1, s2, s3 := a / 4, a % 4 * 16 + b / 16, b % 16 * 4 + c / 64, c % 64;
    ReadSymbols(s0, s1, s2, s3, rest);
    FourThenRest(Symbol(s0), Symbol(s1), Symbol(s2), Symbol(s3), rest);
  }

  lemma FourThenRest(c0: char, c1: char, c2: char, c3: char, rest: string)
    ensures [c0, c1, c2, c3] + rest == [c0] + ([c1] + ([c2] + ([c3] + rest)))
  {
  }

  /** The padding of an incomplete last group ends the input. */
  lemma ReadPadding()
    ensures forall left: nat :: left < 16 ==> Unbase64From("==", 2, left, 0) == Some([])
    ensures forall left: nat :: left < 4 ==> Unbase64From("=", 3, left, 0) == Some([])
  {
    assert "=="[1..] == "=";
    forall left: nat | left < 16
      ensures Unbase64From("==", 2, left, 0) == Some([])
    {
      assert Unbase64From("=", 2, left, 1) == Some([]);
    }
  }

  lemma ReadOneByte(a: Byte)
    ensures Decode64(Base64([a])) == Some([a])
  {
    GroupBits(a, 0, 0);
    var s0, s1 := a / 4, a % 4 * 16;
    ReadPadding();
    ReadSymbol(s1, "==", 1, s0, 0);
    ReadSymbol(s0, [Symbol(s1)] + "==", 0, 0, 0);
    assert Base64([a]) == [Symbol(s0)] + ([Symbol(s1)] + "==");
    assert [a] + [] == [a];
  }

  lemma ReadThreeSymbols(s0: Sextet, s1: Sextet, s2: Sextet)
    ensures Decode64([Symbol(s0)] + ([Symbol(s1)] + ([Symbol(s2)] + "=")))
         == Prepend(s0 * 4 + s1 / 16, Prepend(s1 % 16 * 16 + s2 / 4, Some([])))
  {
    ReadPadding();
    ReadSymbol(s2, "=", 2, s1 % 16, 0);
    ReadSymbol(s1, [Symbol(s2)] + "=", 1, s0, 0);
    ReadSymbol(s0, [Symbol(s1)] + ([Symbol(s2)] + "="), 0, 0, 0);
  }

  lemma ReadTwoBytes(a: Byte, b: Byte)
    ensures Decode64(Base64([a, b])) == Some([a, b])
  {
    GroupBits(a, b, 0);
    var s0, s1, s2 := a / 4, a % 4 * 16 + b / 16, b % 16 * 4;
    ReadThreeSymbols(s0, s1, s2);
    assert Base64([a, b]) == [Symbol(s0)] + ([Symbol(s1)] + ([Symbol(s2)] + "="));
    assert [b] + [] == [b] && [a] + [b] == [a, b];
  }

  lemma {:induction false} DecodeEncoded(data: Bytes)
    ensures Decode64(Base64(data)) == Some(data)
    decreases |data|
  {
    if |data| == 0 {
    } else if |data| == 1 {
      ReadOneByte(data[0]);
      assert data == [data[0]];
    } else if |data| == 2 {
      ReadTwoBytes(data[0], data[1]);
      assert data == [data[0], data[1]];
    } else {
      DecodeEncoded(data[3..]);
      ReadGroup(data[0], data[1], data[2], Base64(data[3..]));
      assert data == [data[0]] + ([data[1]] + ([data[2]] + data[3..]));
    }
  }

  ghost predicate IsBase64Text(s: string) {
    forall i :: 0 <= i < |s| ==> SymbolValue(s[i]).Some? || s[i] == '='
  }

  lemma AllSymbols()
    ensures forall s: Sextet :: SymbolValue(Symbol(s)) == Some(s)
  {
    forall s: Sextet
      ensures SymbolValue(Symbol(s)) == Some(s)
    {
      SymbolRoundTrip(s);
    }
  }

  lemma GroupIsText(data: Bytes)
    requires 1 <= |data| <= 3
    ensures |Base64(data)| == 4 && IsBase64Text(Base64(data))
  {
    AllSymbols();
    assert |data| == 3 ==> Base64(data[3..]) == "";
  }

  /** The encoding is pure text of the alphabet and the pad, in whole groups of four. */
  lemma {:induction false} Base64IsText(data: Bytes)
    ensures |Base64(data)| == (|data| + 2) / 3 * 4
    ensures IsBase64Text(Base64(data))
    decreases |data|
  {
    if 0 < |data| <= 3 {
      GroupIsText(data);
    } else if |data| > 3 {
      Base64IsText(data[3..]);
      GroupIsText(data[..3]);
      assert data[..3][3..] == [];
      assert Base64(data) == Base64(data[..3]) + Base64(data[3..]);
    }
  }

  /** Every byte string survives Base64, whatever its length leaves to pad. */
  lemma Base64RoundTrip(data: Bytes)
    ensures Unbase64(Base64(data)) == Some(data)
  {
    DecodeEncoded(data);
    Base64IsText(data);
    TextIsAscii(Base64(data));
  }

  lemma TextIsAscii(s: string)
    requires IsBase64Text(s)
    ensures IsAscii(s)
  {
  }

  // ---- JSON documents ------------------------------------------------------

  datatype Json =
    | Null
    | Bool(truth: bool)
    | Number(units: int, decimals: nat)   // units / 10^decimals, as a decimal literal spells it
    | Text(text: string)
    | Array(items: seq<Json>)
    | Object(fields: map<string, Json>)

  /** The JSON text layer and the typed readers of the fields this module does not own. */
  datatype Codec = Codec(
    dumps: Json -> Bytes,
    loads: Bytes -> Result<Json, string>,
    writeEvent: Event -> Json,
    readEvent: Json -> Result<Event, string>,
    writeTime: int -> Json,
    readTime: Json -> Result<int, string>)
  {
    /** Printing then parsing a document, or writing then reading a field, changes nothing. */
    ghost predicate Faithful() {
      && (forall j :: loads(dumps(j)) == Ok(j))
      && (forall e :: readEvent(writeEvent(e)) == Ok(e))
      && (forall t :: readTime(writeTime(t)) == Ok(t))
    }
  }

  /** The version field of a document; an absent field, or no object at all, reads as null. */
  function VersionOf(j: Json): Json {
    if j.Object? && "v" in j.fields then j.fields["v"] else Null
  }

  function Pow10(n: nat): nat {
    if n == 0 then 1 else 10 * Pow10(n - 1)
  }

  /** Equality with a version number as the reader evaluates it: 1.0 is one, and so is true. */
  predicate IsVersion(j: Json, version: int) {
    || (j.Number? && j.units == version * Pow10(j.decimals))
    || (j.Bool? && (if j.truth then 1 else 0) == version)
  }

  // ---- the live envelope ---------------------------------------------------

  datatype Envelope = Envelope(capturedAt: int, event: Event)

  datatype Decoded =
    | Valid(envelope: Envelope)
    | Corrupt(detail: string)
    | UnsupportedVersion(version: Json)
    | WrongShape(detail: string)

  function EncodeValue(codec: Codec, event: Event, capturedAt: int): Bytes {
    codec.dumps(Object(map["v" := Number(SCHEMA_VERSION, 0),
                           "captured_at" := codec.writeTime(capturedAt),
                           "event" := codec.writeEvent(event)]))
  }

  /** The version is checked before the shape, so a foreign document is never misparsed. */
  function DecodeValue(codec: Codec, data: Bytes): Decoded {
    match codec.loads(data)
    case Err(detail) => Corrupt(detail)
    case Ok(raw) =>
      if !IsVersion(VersionOf(raw), SCHEMA_VERSION) then UnsupportedVersion(VersionOf(raw))
      else ReadEnvelope(codec, raw.fields)
  }

  function ReadEnvelope(codec: Codec, fields: map<string, Json>): Decoded {
    if "captured_at" !in fields then WrongShape("captured_at")
    else if "event" !in fields then WrongShape("event")
    else
      match codec.readTime(fields["captured_at"])
      case Err(detail) => WrongShape(detail)
      case Ok(at) =>
        match codec.readEvent(fields["event"])
        case Err(detail) => WrongShape(detail)
        case Ok(event) => Valid(Envelope(at, event))
  }

  lemma LiveRoundTrip(codec: Codec, event: Event, capturedAt: int)
    requires codec.Faithful()
    ensures DecodeValue(codec, EncodeValue(codec, event, capturedAt)) == Valid(Envelope(capturedAt, event))
  {
    assert codec.loads(EncodeValue(codec, event, capturedAt))
        == Ok(Object(map["v" := Number(SCHEMA_VERSION, 0),
                           "captured_at" := codec.writeTime(capturedAt),
                           "event" := codec.writeEvent(event)]));
  }

  /**
   Which values count as version n: n however many zeros its literal ends in after the point, and
   for zero and one the boolean Python counts as that number; nothing that is not a number.
   */
  lemma VersionMeans(j: Json, n: int)
    ensures j.Number? && j.decimals == 0 ==> (IsVersion(j, n) <==> j.units == n)
    ensures j.Number? && j.decimals > 0 ==>
              (IsVersion(j, n) <==> j.units % 10 == 0 && IsVersion(Number(j.units / 10, j.decimals - 1), n))
    ensures j.Bool? ==> (IsVersion(j, n) <==> (j.truth && n == 1) || (!j.truth && n == 0))
    ensures !j.Number? && !j.Bool? ==> !IsVersion(j, n)
  {
    if j.Number? && j.decimals > 0 {
      assert n * Pow10(j.decimals) == 10 * (n * Pow10(j.decimals - 1));
    }
  }

  /** An object whose version field counts as this one. */
  ghost predicate OfVersion(raw: Json, n: int) {
    raw.Object? && "v" in raw.fields && IsVersion(raw.fields["v"], n)
  }

  /** The version a document gives, an object's field or none. */
  ghost function VersionFound(raw: Json): Json {
    if raw.Object? && "v" in raw.fields then raw.fields["v"] else Null
  }

  /** The bytes are a document of this version that carries the event and its capture time. */
  ghost predicate CarriesLive(codec: Codec, data: Bytes, e: Envelope) {
    match codec.loads(data)
    case Err(_) => false
    case Ok(raw) =>
      && OfVersion(raw, 1)
      && "captured_at" in raw.fields && codec.readTime(raw.fields["captured_at"]) == Ok(e.capturedAt)
      && "event" in raw.fields && codec.readEvent(raw.fields["event"]) == Ok(e.event)
  }

  /** A document of this version with a field missing or unreadable. */
  ghost predicate MisshapenLive(codec: Codec, raw: Json) {
    && OfVersion(raw, 1)
    && !(&& "captured_at" in raw.fields && codec.readTime(raw.fields["captured_at"]).Ok?
         && "event" in raw.fields && codec.readEvent(raw.fields["event"]).Ok?)
  }

  /** How decoding a live message ends, for every input, with the detail it gives. */
  lemma LiveOutcomes(codec: Codec, data: Bytes)
    ensures DecodeValue(codec, data).Corrupt? <==> codec.loads(data).Err?
    ensures DecodeValue(codec, data).Corrupt? ==> DecodeValue(codec, data).detail == codec.loads(data).error
    ensures DecodeValue(codec, data).UnsupportedVersion? <==>
              codec.loads(data).Ok? && !OfVersion(codec.loads(data).value, 1)
    ensures DecodeValue(codec, data).UnsupportedVersion? ==>
              DecodeValue(codec, data).version == VersionFound(codec.loads(data).value)
    ensures DecodeValue(codec, data).WrongShape? <==>
              codec.loads(data).Ok? && MisshapenLive(codec, codec.loads(data).value)
    ensures forall e :: DecodeValue(codec, data) == Valid(e) <==> CarriesLive(codec, data, e)
  {
    VersionMeans(Null, 1);
  }

  // ---- the dead-letter envelope --------------------------------------------

  /** reason and detail are taken from the document as they are, text or not. */
  datatype DeadLetterRecord = DeadLetterRecord(
    reason: Json, detail: Json, value: Bytes, key: Option<Bytes>)

  /** BadField is the lookup or decoding error of a field, let out as it is. */
  datatype DeadLetterError =
    | NotParseable
    | ForeignVersion(version: Json)
    | BadField

  function EncodeDeadLetter(
    codec: Codec, reason: string, detail: string, value: Bytes, key: Option<Bytes>): Bytes
  {
    codec.dumps(Object(DeadLetterFields(reason, detail, value, key)))
  }

  function DeadLetterFields(
    reason: string, detail: string, value: Bytes, key: Option<Bytes>): map<string, Json>
  {
    LetterFields(Text(reason), Text(detail), value, key)
  }

  function LetterFields(reason: Json, detail: Json, value: Bytes, key: Option<Bytes>): map<string, Json> {
    map["v" := Number(DLQ_SCHEMA_VERSION, 0),
        "reason" := reason,
        "detail" := detail,
        "key" := if key.Some? then Text(Base64(key.value)) else Null,
        "value" := Text(Base64(value))]
  }

  function DecodeDeadLetter(codec: Codec, data: Bytes): Result<DeadLetterRecord, DeadLetterError> {
    match codec.loads(data)
    case Err(_) => Err(NotParseable)
    case Ok(raw) =>
      if !IsVersion(VersionOf(raw), DLQ_SCHEMA_VERSION) then Err(ForeignVersion(VersionOf(raw)))
      else ReadDeadLetter(raw.fields)
  }

  /** The fields as they are looked up; one that cannot be read raises. */
  function ReadDeadLetter(fields: map<string, Json>): Result<DeadLetterRecord, DeadLetterError> {
    if "key" !in fields || "reason" !in fields || "detail" !in fields then Err(BadField)
    else if "value" !in fields || BytesOf(fields["value"]).None? then Err(BadField)
    else if !fields["key"].Null? && BytesOf(fields["key"]).None? then Err(BadField)
    else Ok(DeadLetterRecord(fields["reason"], fields["detail"], BytesOf(fields["value"]).value,
                             if fields["key"].Null? then None else BytesOf(fields["key"])))
  }

  /** The bytes a field carries, if it is text and that text decodes. */
  function BytesOf(field: Json): Option<Bytes> {
    if field.Text? then Unbase64(field.text) else None
  }

  /** Every field is there, and the value and the key, unless it is null, are texts of bytes. */
  ghost predicate WellFormedLetter(fields: map<string, Json>) {
    && {"key", "reason", "detail", "value"} <= fields.Keys
    && fields["value"].Text? && HoldsBytes(fields["value"].text)
    && (fields["key"].Null? || (fields["key"].Text? && HoldsBytes(fields["key"].text)))
  }

  /**
   How decoding ends, for every input: bytes that are no document, a document of another version
   (no object has none), an object of this version that lacks a field or holds a key or value
   that is not Base64 text, and otherwise a record. The third is not one of the two failures the
   contract names.
   */
  lemma DeadLetterFailures(codec: Codec, data: Bytes)
    ensures DecodeDeadLetter(codec, data) == Err(NotParseable) <==> codec.loads(data).Err?
    ensures forall v :: DecodeDeadLetter(codec, data) == Err(ForeignVersion(v)) <==>
              && codec.loads(data).Ok? && !OfVersion(codec.loads(data).value, 1)
              && v == VersionFound(codec.loads(data).value)
    ensures DecodeDeadLetter(codec, data) == Err(BadField) <==>
              && codec.loads(data).Ok? && OfVersion(codec.loads(data).value, 1)
              && !WellFormedLetter(codec.loads(data).value.fields)
  {
    VersionMeans(Null, 1);
    if codec.loads(data).Ok? {
      var raw := codec.loads(data).value;
      if OfVersion(raw, 1) {
        ReadFails(raw.fields);
      }
    }
  }

  lemma ReadFails(fields: map<string, Json>)
    ensures ReadDeadLetter(fields).Ok? <==> WellFormedLetter(fields)
    ensures !WellFormedLetter(fields) ==> ReadDeadLetter(fields) == Err(BadField)
  {
    forall name | name in fields && fields[name].Text?
      ensures BytesOf(fields[name]).Some? <==> HoldsBytes(fields[name].text)
    {
      Unbase64Accepts(fields[name].text);
    }
  }

  /** A document with nothing but its version is parseable, of this version, and still fails. */
  lemma BareVersionEscapes(codec: Codec)
    requires codec.Faithful()
    ensures DecodeDeadLetter(codec, codec.dumps(Object(map["v" := Number(DLQ_SCHEMA_VERSION, 0)])))
         == Err(BadField)
  {
    var doc := Object(map["v" := Number(DLQ_SCHEMA_VERSION, 0)]);
    assert codec.loads(codec.dumps(doc)) == Ok(doc);
    assert Pow10(0) == 1;
  }

  /** What is written as a field is read as it: also a reason or detail that is not text. */
  lemma LetterFieldsRead(reason: Json, detail: Json, value: Bytes, key: Option<Bytes>)
    ensures ReadDeadLetter(LetterFields(reason, detail, value, key))
         == Ok(DeadLetterRecord(reason, detail, value, key))
  {
    Base64RoundTrip(value);
    if key.Some? {
      Base64RoundTrip(key.value);
    }
  }

  lemma VersionRead(reason: Json, detail: Json, value: Bytes, key: Option<Bytes>)
    ensures IsVersion(VersionOf(Object(LetterFields(reason, detail, value, key))), DLQ_SCHEMA_VERSION)
  {
    assert Pow10(0) == 1;
  }

  /** A reason or detail that is not text is handed on as it is: no exception of any kind. */
  lemma LetterIsReadBack(codec: Codec, reason: Json, detail: Json, value: Bytes, key: Option<Bytes>)
    requires codec.Faithful()
    ensures DecodeDeadLetter(codec, codec.dumps(Object(LetterFields(reason, detail, value, key))))
         == Ok(DeadLetterRecord(reason, detail, value, key))
  {
    var doc := Object(LetterFields(reason, detail, value, key));
    assert codec.loads(codec.dumps(doc)) == Ok(doc);
    VersionRead(reason, detail, value, key);
    LetterFieldsRead(reason, detail, value, key);
  }

  /**
   A dead letter gives back exactly what it was made from: reason, detail, every byte of the
   value, and the key, with an absent key and an empty key kept apart.
   */
  lemma DeadLetterRoundTrip(
    codec: Codec, reason: string, detail: string, value: Bytes, key: Option<Bytes>)
    requires codec.Faithful()
    ensures DecodeDeadLetter(codec, EncodeDeadLetter(codec, reason, detail, value, key))
         == Ok(DeadLetterRecord(Text(reason), Text(detail), value, key))
  {
    LetterIsReadBack(codec, Text(reason), Text(detail), value, key);
  }

  /** Two dead letters with the same bytes were made from the same reason, detail, value and key. */
  lemma DeadLettersNeverCollide(codec: Codec, a: DeadLetterRecord, b: DeadLetterRecord)
    requires codec.Faithful()
    requires a.reason.Text? && a.detail.Text? && b.reason.Text? && b.detail.Text?
    requires EncodeDeadLetter(codec, a.reason.text, a.detail.text, a.value, a.key)
          == EncodeDeadLetter(codec, b.reason.text, b.detail.text, b.value, b.key)
    ensures a == b
  {
    DeadLetterRoundTrip(codec, a.reason.text, a.detail.text, a.value, a.key);
    DeadLetterRoundTrip(codec, b.reason.text, b.detail.text, b.value, b.key);
  }
}
