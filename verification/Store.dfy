/** The events table as a map under its primary key, and the insert that never replaces a row. */
module Store {
  import opened Wire

  datatype Key = Key(eventId: string, createdAt: int)

  datatype Row = Row(
    eventId: string, kind: string, actorId: int, actorLogin: string, repoId: int, repoName: string,
    createdAt: int, capturedAt: int, payload: string)

  type Table = map<Key, Row>

  function RowOf(envelope: Envelope): Row {
    var e := envelope.event;
    Row(e.id, e.kind, e.actorId, e.actorLogin, e.repoId, e.repoName, e.createdAt,
        envelope.capturedAt, e.payload)
  }

  function KeyOf(envelope: Envelope): Key {
    Key(envelope.event.id, envelope.event.createdAt)
  }

  /** The insert of one row: a key that is taken keeps its row. */
  function Insert(table: Table, envelope: Envelope): Table {
    if KeyOf(envelope) in table then table else table[KeyOf(envelope) := RowOf(envelope)]
  }

  function InsertAll(table: Table, envelopes: seq<Envelope>): Table {
    if envelopes == [] then table
    else Insert(InsertAll(table, envelopes[..|envelopes| - 1]), envelopes[|envelopes| - 1])
  }

  /** Every column of the row is that field of the envelope. */
  ghost predicate Holds(row: Row, e: Envelope) {
    && row.eventId == e.event.id && row.kind == e.event.kind
    && row.actorId == e.event.actorId && row.actorLogin == e.event.actorLogin
    && row.repoId == e.event.repoId && row.repoName == e.event.repoName
    && row.createdAt == e.event.createdAt && row.capturedAt == e.capturedAt
    && row.payload == e.event.payload
  }

  ghost function Keys(envelopes: seq<Envelope>): set<Key> {
    set e | e in envelopes :: KeyOf(e)
  }

  /** A batch adds exactly the keys it carries and never touches a row that was there. */
  lemma {:induction false} InsertAllKeys(table: Table, envelopes: seq<Envelope>)
    ensures InsertAll(table, envelopes).Keys == table.Keys + Keys(envelopes)
    ensures forall k :: k in table ==> InsertAll(table, envelopes)[k] == table[k]
  {
    if envelopes == [] {
    } else {
      var before := envelopes[..|envelopes| - 1];
      InsertAllKeys(table, before);
      assert envelopes == before + [envelopes[|envelopes| - 1]];
    }
  }

  /** A new key holds the row of the first envelope that carried it. */
  lemma {:induction false} InsertAllFirstWins(table: Table, envelopes: seq<Envelope>, i: nat)
    requires i < |envelopes| && KeyOf(envelopes[i]) !in table
    requires forall j :: 0 <= j < i ==> KeyOf(envelopes[j]) != KeyOf(envelopes[i])
    ensures KeyOf(envelopes[i]) in InsertAll(table, envelopes)
    ensures Holds(InsertAll(table, envelopes)[KeyOf(envelopes[i])], envelopes[i])
  {
    var before := envelopes[..|envelopes| - 1];
    InsertAllKeys(table, before);
    if i < |before| {
      InsertAllFirstWins(table, before, i);
    }
  }

  ghost predicate RowOfOne(envelopes: seq<Envelope>, k: Key, row: Row) {
    exists e :: e in envelopes && k == Key(e.event.id, e.event.createdAt) && Holds(row, e)
  }

  /** Every row of the table afterwards was there before or is one envelope's, whole. */
  lemma {:induction false} InsertAllRows(table: Table, envelopes: seq<Envelope>, k: Key)
    requires k in InsertAll(table, envelopes) && k !in table
    ensures RowOfOne(envelopes, k, InsertAll(table, envelopes)[k])
  {
    var before, last := envelopes[..|envelopes| - 1], envelopes[|envelopes| - 1];
    assert envelopes == before + [last];
    if k in InsertAll(table, before) {
      InsertAllRows(table, before, k);
      var e :| e in before && k == Key(e.event.id, e.event.createdAt) && Holds(InsertAll(table, before)[k], e);
      assert e in envelopes;
    }
  }

  lemma {:induction false} InsertAllAppend(table: Table, a: seq<Envelope>, b: seq<Envelope>)
    ensures InsertAll(table, a + b) == InsertAll(InsertAll(table, a), b)
  {
    if b == [] {
      assert a + b == a;
    } else {
      assert (a + b)[..|a + b| - 1] == a + b[..|b| - 1];
      InsertAllAppend(table, a, b[..|b| - 1]);
    }
  }

  /** Redelivering anything whose keys are already there changes nothing. */
  lemma {:induction false} RedeliveryIsNoOp(table: Table, again: seq<Envelope>)
    requires Keys(again) <= table.Keys
    ensures InsertAll(table, again) == table
  {
    if again == [] {
    } else {
      assert KeyOf(again[|again| - 1]) in Keys(again);
      RedeliveryIsNoOp(table, again[..|again| - 1]);
    }
  }

  /** Every row describes its own key. */
  ghost predicate Consistent(table: Table) {
    forall k :: k in table ==> table[k].eventId == k.eventId && table[k].createdAt == k.createdAt
  }

  lemma {:induction false} InsertAllConsistent(table: Table, envelopes: seq<Envelope>)
    requires Consistent(table)
    ensures Consistent(InsertAll(table, envelopes))
  {
    if envelopes != [] {
      InsertAllConsistent(table, envelopes[..|envelopes| - 1]);
    }
  }

  ghost function Ids(table: Table): set<string> {
    set k | k in table :: k.eventId
  }

  /** What inserting a batch does to a table, row by row. */
  lemma WrittenRows(table: Table, envelopes: seq<Envelope>)
    ensures var after := InsertAll(table, envelopes);
            && (forall k :: k in table ==> k in after && after[k] == table[k])
            && (forall e :: e in envelopes ==> Key(e.event.id, e.event.createdAt) in after)
            && (forall k :: k in after && k !in table ==> RowOfOne(envelopes, k, after[k]))
  {
    var after := InsertAll(table, envelopes);
    InsertAllKeys(table, envelopes);
    forall e | e in envelopes
      ensures Key(e.event.id, e.event.createdAt) in after
    {
      assert KeyOf(e) in Keys(envelopes);
    }
    forall k | k in after && k !in table
      ensures RowOfOne(envelopes, k, after[k])
    {
      InsertAllRows(table, envelopes, k);
    }
  }

  const BIGINT_LIMIT := 0x8000_0000_0000_0000

  predicate FitsBigint(n: int) {
    -BIGINT_LIMIT <= n < BIGINT_LIMIT
  }

  predicate FitsText(s: string) {
    '\0' !in s
  }

  /** What the table's columns can hold; the envelope itself bounds none of it. */
  predicate FitsColumns(e: Envelope) {
    && FitsBigint(e.event.actorId) && FitsBigint(e.event.repoId)
    && FitsText(e.event.id) && FitsText(e.event.kind)
    && FitsText(e.event.actorLogin) && FitsText(e.event.repoName)
  }

  predicate AllStorable(storable: Envelope -> bool, envelopes: seq<Envelope>) {
    forall i | 0 <= i < |envelopes| :: storable(envelopes[i])
  }

  class PostgresStore {
    const storable: Envelope -> bool
    var rows: Table
    ghost var initial: Table
    ghost var received: seq<Envelope>

    /** The table is the one the store opened with plus every batch it ever accepted. */
    ghost predicate Valid()
      reads this
    {
      rows == InsertAll(initial, received)
    }

    constructor (rows: Table, storable: Envelope -> bool)
      ensures Valid() && this.rows == initial == rows && received == []
      ensures this.storable == storable
    {
      this.rows := rows;
      this.storable := storable;
      initial := rows;
      received := [];
    }

    /** One batch, one transaction: a row the database refuses rolls all of it back. */
    method Write(envelopes: seq<Envelope>) returns (ok: bool)
      requires Valid()
      modifies this`rows, this`received
      ensures Valid()
      ensures ok <==> AllStorable(storable, envelopes)
      ensures ok ==> received == old(received) + envelopes
      ensures ok ==> forall k :: k in old(rows) ==> k in rows && rows[k] == old(rows)[k]
      ensures ok ==> forall e :: e in envelopes ==> Key(e.event.id, e.event.createdAt) in rows
      ensures ok ==> forall k :: k in rows && k !in old(rows) ==> RowOfOne(envelopes, k, rows[k])
      ensures !ok ==> rows == old(rows) && received == old(received)
    {
      var transaction := rows;
      for i := 0 to |envelopes|
        invariant transaction == InsertAll(rows, envelopes[..i])
        invariant rows == old(rows) && received == old(received)
        invariant AllStorable(storable, envelopes[..i])
      {
        assert envelopes[..i + 1][..i] == envelopes[..i];
        if !storable(envelopes[i]) {
          return false;
        }
        if KeyOf(envelopes[i]) !in transaction {
          transaction := transaction[KeyOf(envelopes[i]) := RowOf(envelopes[i])];
        }
      }
      assert envelopes[..|envelopes|] == envelopes;
      InsertAllAppend(initial, received, envelopes);
      WrittenRows(rows, envelopes);
      rows := transaction;
      received := received + envelopes;
      return true;
    }
  }
}
