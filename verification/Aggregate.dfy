/**
 One archive day as two small permanent tables: the ecosystem's day and the repository-day.

 A query is a relation between the rows read and the table produced, because two things in it
 are left to the engine: which of several earliest copies of an event survives the dedup, and
 which of several names at a repository's last instant arg_max returns. KeepEarliest and
 GroupPass are one-pass evaluations of the two queries, proved to be answers to them.
 */
module Aggregate {
  import opened Wrappers
  import opened Hours
  import Dedup

  datatype EventRow = EventRow(
    id: string, kind: string, actor: Option<int>, repo: Option<int>, name: Option<string>,
    at: Instant, day: int, hr: int)

  const BREAKOUT_EVENT_TYPES := [
    "PushEvent", "WatchEvent", "ForkEvent", "IssuesEvent", "PullRequestEvent", "ReleaseEvent"]

  // ---- dedup: row_number() OVER (PARTITION BY id ORDER BY created_at) = 1 ---------------------

  predicate IsEarliest(r: EventRow, rows: seq<EventRow>) {
    r in rows && forall o :: o in rows && o.id == r.id ==> r.at <= o.at
  }

  ghost predicate OnePerId(kept: set<EventRow>) {
    forall a, b :: a in kept && b in kept && a.id == b.id ==> a == b
  }

  ghost predicate HasId(kept: set<EventRow>, id: string) {
    exists k :: k in kept && k.id == id
  }

  /** kept is one answer the dedup may give: for every id one row, among the earliest of it. */
  ghost predicate IsDeduped(rows: seq<EventRow>, kept: set<EventRow>) {
    && OnePerId(kept)
    && (forall k :: k in kept ==> IsEarliest(k, rows))
    && (forall r :: r in rows ==> HasId(kept, r.id))
  }

  function Ids(rows: seq<EventRow>): set<string> {
    set r | r in rows :: r.id
  }

  /** The dedup in one pass: the first row read among the earliest of its id. */
  function KeepEarliest(rows: seq<EventRow>): map<string, EventRow> {
    if rows == [] then map[]
    else
      var before, r := KeepEarliest(rows[..|rows| - 1]), rows[|rows| - 1];
      if r.id !in before || r.at < before[r.id].at then before[r.id := r] else before
  }

  ghost predicate KeepsEarliest(rows: seq<EventRow>, kept: map<string, EventRow>) {
    && kept.Keys == Ids(rows)
    && forall id :: id in kept ==> kept[id].id == id && IsEarliest(kept[id], rows)
  }

  lemma {:induction false} KeepEarliestIs(rows: seq<EventRow>)
    ensures KeepsEarliest(rows, KeepEarliest(rows))
  {
    if rows == [] {
    } else {
      var less, r := rows[..|rows| - 1], rows[|rows| - 1];
      KeepEarliestIs(less);
      assert rows == less + [r];
      KeepOneMore(less, KeepEarliest(less), r);
    }
  }

  lemma KeepOneMore(less: seq<EventRow>, kept: map<string, EventRow>, r: EventRow)
    requires KeepsEarliest(less, kept)
    ensures KeepsEarliest(less + [r], if r.id !in kept || r.at < kept[r.id].at then kept[r.id := r] else kept)
  {
    var rows := less + [r];
    assert forall o :: o in rows <==> o in less || o == r;
    assert Ids(rows) == Ids(less) + {r.id};
    assert forall o :: o in less ==> o.id in Ids(less);
    assert forall o :: o in less && o.id == r.id ==> r.id in kept && kept[r.id].at <= o.at;
  }

  ghost function Kept(rows: seq<EventRow>): set<EventRow> {
    set id | id in KeepEarliest(rows) :: KeepEarliest(rows)[id]
  }

  lemma OnePassDedups(rows: seq<EventRow>)
    ensures IsDeduped(rows, Kept(rows))
  {
    KeepEarliestIs(rows);
    var pass := KeepEarliest(rows);
    forall r | r in rows
      ensures HasId(Kept(rows), r.id)
    {
      assert r.id in Ids(rows);
      assert pass[r.id] in Kept(rows);
    }
  }

  lemma {:induction false} OneRowPerIdSize(kept: set<EventRow>)
    requires OnePerId(kept)
    ensures |set k | k in kept :: k.id| == |kept|
  {
    var ids := set k | k in kept :: k.id;
    if kept == {} {
      assert ids == {};
    } else {
      var k :| k in kept;
      OneRowPerIdSize(kept - {k});
      var others := set o | o in kept - {k} :: o.id;
      assert ids == others + {k.id};
    }
  }

  /** Whichever copies survive, as many rows survive as there are distinct ids, however repeated. */
  lemma DedupCountsIds(rows: seq<EventRow>, kept: set<EventRow>)
    requires IsDeduped(rows, kept)
    ensures |kept| == |Ids(rows)|
  {
    OneRowPerIdSize(kept);
    var ids := set k | k in kept :: k.id;
    forall id | id in Ids(rows)
      ensures id in ids
    {
      var r :| r in rows && r.id == id;
      assert HasId(kept, r.id);
    }
    forall id | id in ids
      ensures id in Ids(rows)
    {
      var k :| k in kept && k.id == id;
      assert IsEarliest(k, rows);
    }
    assert ids == Ids(rows);
  }

  /** Copies of one id that share the earliest created_at are copies in every column. */
  ghost predicate NoEarliestTies(rows: seq<EventRow>) {
    forall a, b :: IsEarliest(a, rows) && IsEarliest(b, rows) && a.id == b.id ==> a == b
  }

  /** Reading the same rows in another order, or one of them twice, cannot change the dedup. */
  lemma DedupIgnoresOrder(rows: seq<EventRow>, again: seq<EventRow>, a: set<EventRow>, b: set<EventRow>)
    requires forall r :: r in rows <==> r in again
    requires NoEarliestTies(rows) && IsDeduped(rows, a) && IsDeduped(again, b)
    ensures a == b
  {
    forall r: EventRow
      ensures IsEarliest(r, rows) <==> IsEarliest(r, again)
    {
    }
    DedupIncluded(rows, a, b);
    DedupIncluded(rows, b, a);
  }

  lemma DedupIncluded(rows: seq<EventRow>, a: set<EventRow>, b: set<EventRow>)
    requires NoEarliestTies(rows)
    requires forall r :: r in a || r in b ==> IsEarliest(r, rows)
    requires forall r :: r in rows ==> HasId(b, r.id)
    ensures a <= b
  {
    forall r | r in a
      ensures r in b
    {
      assert IsEarliest(r, rows) && HasId(b, r.id);
      var k :| k in b && k.id == r.id;
    }
  }

  lemma SwapKept(rows: seq<EventRow>, kept: set<EventRow>, k: EventRow, r: EventRow)
    requires IsDeduped(rows, kept) && k in kept && IsEarliest(r, rows) && r.id == k.id
    ensures IsDeduped(rows, kept - {k} + {r})
  {
    var swapped := kept - {k} + {r};
    forall o | o in rows
      ensures HasId(swapped, o.id)
    {
      assert HasId(kept, o.id);
      var j :| j in kept && j.id == o.id;
      assert j in swapped || r.id == o.id;
    }
  }

  /** The dedup has one answer exactly when no two different copies of an id tie for the earliest. */
  lemma DedupIsDetermined(rows: seq<EventRow>)
    ensures NoEarliestTies(rows) <==> forall a, b :: IsDeduped(rows, a) && IsDeduped(rows, b) ==> a == b
  {
    if NoEarliestTies(rows) {
      forall a, b | IsDeduped(rows, a) && IsDeduped(rows, b)
        ensures a == b
      {
        DedupIgnoresOrder(rows, rows, a, b);
      }
    } else {
      var r, s :| IsEarliest(r, rows) && IsEarliest(s, rows) && r.id == s.id && r != s;
      var a, b := TwoDedups(rows, r, s);
    }
  }

  lemma TwoDedups(rows: seq<EventRow>, r: EventRow, s: EventRow) returns (a: set<EventRow>, b: set<EventRow>)
    requires IsEarliest(r, rows) && IsEarliest(s, rows) && r.id == s.id && r != s
    ensures IsDeduped(rows, a) && IsDeduped(rows, b) && a != b
  {
    OnePassDedups(rows);
    assert HasId(Kept(rows), r.id);
    var k :| k in Kept(rows) && k.id == r.id;
    SwapKept(rows, Kept(rows), k, r);
    SwapKept(rows, Kept(rows), k, s);
    a, b := Kept(rows) - {k} + {r}, Kept(rows) - {k} + {s};
    assert r in a && s in b;
    assert OnePerId(a);
  }

  // ---- columns of one group ----------------------------------------------------------------

  function Repos(rows: set<EventRow>): set<int> {
    set r | r in rows && r.repo.Some? :: r.repo.value
  }

  function Actors(rows: set<EventRow>): set<int> {
    set r | r in rows && r.actor.Some? :: r.actor.value
  }

  function HoursIn(rows: set<EventRow>): set<int> {
    set r | r in rows :: r.hr
  }

  function Times(rows: set<EventRow>): set<Instant> {
    set r | r in rows :: r.at
  }

  function OfKind(rows: set<EventRow>, kind: string): set<EventRow> {
    set r | r in rows && r.kind == kind
  }

  function Breakouts(rows: set<EventRow>): seq<nat> {
    seq(|BREAKOUT_EVENT_TYPES|, i requires 0 <= i < |BREAKOUT_EVENT_TYPES| => |OfKind(rows, BREAKOUT_EVENT_TYPES[i])|)
  }

  function WithoutRepo(rows: set<EventRow>): set<EventRow> {
    set r | r in rows && r.repo.None?
  }

  function Named(rows: set<EventRow>): set<EventRow> {
    set r | r in rows && r.name.Some?
  }

  predicate IsLatest(r: EventRow, group: set<EventRow>) {
    r in group && forall o :: o in group ==> o.at <= r.at
  }

  ghost predicate LatestNamed(group: set<EventRow>, name: Option<string>) {
    exists r :: IsLatest(r, Named(group)) && r.name == name
  }

  /** arg_max(repo_name, created_at): rows without a name are passed over. */
  ghost predicate IsNameOf(group: set<EventRow>, name: Option<string>) {
    if Named(group) == {} then name == None else LatestNamed(group, name)
  }

  // ---- the ecosystem query ---------------------------------------------------------------

  datatype Totals = Totals(
    events: nat, repos: nat, actors: nat, breakouts: seq<nat>, hoursPresent: nat,
    eventsWithoutRepo: nat, firstAt: Instant, lastAt: Instant)

  function Days(rows: set<EventRow>): set<int> {
    set r | r in rows :: r.day
  }

  function OnDay(rows: set<EventRow>, day: int): set<EventRow> {
    set r | r in rows && r.day == day
  }

  ghost predicate AreTotals(group: set<EventRow>, t: Totals) {
    && t.events == |group| && t.repos == |Repos(group)| && t.actors == |Actors(group)|
    && t.breakouts == Breakouts(group) && t.hoursPresent == |HoursIn(group)|
    && t.eventsWithoutRepo == |WithoutRepo(group)|
    && IsLeast(t.firstAt, Times(group)) && IsGreatest(t.lastAt, Times(group))
  }

  ghost predicate IsEcosystemTable(kept: set<EventRow>, table: map<int, Totals>) {
    && table.Keys == Days(kept)
    && forall day :: day in table ==> AreTotals(OnDay(kept, day), table[day])
  }

  function TotalsOf(group: set<EventRow>): (t: Totals)
    requires group != {}
    ensures AreTotals(group, t)
  {
    SomeTime(group);
    Totals(|group|, |Repos(group)|, |Actors(group)|, Breakouts(group), |HoursIn(group)|,
           |WithoutRepo(group)|, Least(Times(group)), Greatest(Times(group)))
  }

  lemma SomeTime(group: set<EventRow>)
    requires group != {}
    ensures Times(group) != {}
  {
    var r :| r in group;
    assert r.at in Times(group);
  }

  lemma SomeRowOnDay(kept: set<EventRow>, day: int)
    ensures day in Days(kept) <==> OnDay(kept, day) != {}
  {
    if OnDay(kept, day) != {} {
      var r :| r in OnDay(kept, day);
      assert r in kept && r.day == day;
    }
    if day in Days(kept) {
      var r :| r in kept && r.day == day;
      assert r in OnDay(kept, day);
    }
  }

  /** The ecosystem query always has an answer: a row for every day that has an event. */
  lemma EcosystemAnswer(kept: set<EventRow>) returns (table: map<int, Totals>)
    ensures IsEcosystemTable(kept, table)
  {
    forall day | day in Days(kept)
      ensures OnDay(kept, day) != {}
    {
      SomeRowOnDay(kept, day);
    }
    table := map day | day in Days(kept) :: TotalsOf(OnDay(kept, day));
  }

  // ---- the repository query -----------------------------------------------------------------

  datatype RepoDay = RepoDay(day: int, repo: int)

  datatype RepoRow = RepoRow(
    name: Option<string>, events: nat, actors: nat, breakouts: seq<nat>,
    firstAt: Instant, lastAt: Instant, minEvents: int)

  type RepoTable = map<RepoDay, RepoRow>

  function Group(rows: set<EventRow>, k: RepoDay): set<EventRow> {
    set r | r in rows && r.day == k.day && r.repo == Some(k.repo)
  }

  ghost predicate IsRepoRow(group: set<EventRow>, floor: int, row: RepoRow) {
    && row.events == |group| && row.actors == |Actors(group)| && row.breakouts == Breakouts(group)
    && IsLeast(row.firstAt, Times(group)) && IsGreatest(row.lastAt, Times(group))
    && IsNameOf(group, row.name)
    && row.minEvents == floor
  }

  /** GROUP BY … HAVING count(*) >= floor, over the rows with a repository. */
  ghost predicate IsRepoTable(kept: set<EventRow>, floor: int, table: RepoTable) {
    && (forall k :: k in table <==> Group(kept, k) != {} && |Group(kept, k)| >= floor)
    && (forall k :: k in table ==> IsRepoRow(Group(kept, k), floor, table[k]))
  }

  // ---- the repository query in one pass ------------------------------------------------------

  /** What is accumulated for one repository-day. */
  datatype Acc = Acc(
    name: Option<string>, namedAt: Instant, events: nat, actors: set<int>, breakouts: seq<nat>,
    firstAt: Instant, lastAt: Instant)

  function ActorOf(r: EventRow): set<int> {
    if r.actor.Some? then {r.actor.value} else {}
  }

  function Bump(counts: seq<nat>, kind: string): seq<nat> {
    seq(|BREAKOUT_EVENT_TYPES|, i requires 0 <= i < |BREAKOUT_EVENT_TYPES| =>
          (if i < |counts| then counts[i] else 0) + (if kind == BREAKOUT_EVENT_TYPES[i] then 1 else 0))
  }

  function Absorb(acc: Option<Acc>, r: EventRow): Acc {
    match acc
    case None => Acc(r.name, r.at, 1, ActorOf(r), Bump([], r.kind), r.at, r.at)
    case Some(a) =>
      var renames := r.name.Some? && (a.name.None? || r.at > a.namedAt);
      Acc(if renames then r.name else a.name, if renames then r.at else a.namedAt,
          a.events + 1, a.actors + ActorOf(r), Bump(a.breakouts, r.kind),
          if r.at < a.firstAt then r.at else a.firstAt,
          if r.at > a.lastAt then r.at else a.lastAt)
  }

  function GroupPass(rows: seq<EventRow>): map<RepoDay, Acc> {
    if rows == [] then map[]
    else
      var before, r := GroupPass(rows[..|rows| - 1]), rows[|rows| - 1];
      if r.repo.None? then before
      else
        var k := RepoDay(r.day, r.repo.value);
        before[k := Absorb(if k in before then Some(before[k]) else None, r)]
  }

  /** HAVING: the rows of the accumulators at or above the floor. */
  function Having(accs: map<RepoDay, Acc>, floor: int): RepoTable {
    map k | k in accs && accs[k].events >= floor ::
      var a := accs[k];
      RepoRow(a.name, a.events, |a.actors|, a.breakouts, a.firstAt, a.lastAt, floor)
  }

  ghost predicate Accumulates(group: set<EventRow>, a: Acc) {
    && a.events == |group| && a.actors == Actors(group) && a.breakouts == Breakouts(group)
    && IsLeast(a.firstAt, Times(group)) && IsGreatest(a.lastAt, Times(group))
    && NamedSoFar(group, a)
  }

  ghost predicate NamedSoFar(group: set<EventRow>, a: Acc) {
    if Named(group) == {} then a.name == None else NamedFrom(group, a)
  }

  ghost predicate NamedFrom(group: set<EventRow>, a: Acc) {
    exists r :: IsLatest(r, Named(group)) && r.name == a.name && r.at == a.namedAt
  }

  lemma BumpIs(group: set<EventRow>, r: EventRow)
    requires r !in group
    ensures Breakouts(group + {r}) == Bump(Breakouts(group), r.kind)
  {
    forall i | 0 <= i < |BREAKOUT_EVENT_TYPES|
      ensures Breakouts(group + {r})[i] == Bump(Breakouts(group), r.kind)[i]
    {
      var kind := BREAKOUT_EVENT_TYPES[i];
      assert OfKind(group + {r}, kind) == OfKind(group, kind) + (if r.kind == kind then {r} else {});
    }
  }

  lemma BumpFirst(r: EventRow)
    ensures Breakouts({r}) == Bump([], r.kind)
  {
    forall i | 0 <= i < |BREAKOUT_EVENT_TYPES|
      ensures Breakouts({r})[i] == Bump([], r.kind)[i]
    {
      var kind := BREAKOUT_EVENT_TYPES[i];
      assert OfKind({r}, kind) == if r.kind == kind then {r} else {};
    }
  }

  lemma TimesGrow(group: set<EventRow>, r: EventRow)
    ensures Times(group + {r}) == Times(group) + {r.at}
    ensures Actors(group + {r}) == Actors(group) + ActorOf(r)
  {
    var more := group + {r};
    assert r in more;
    forall t | t in Times(more)
      ensures t in Times(group) + {r.at}
    {
    }
    forall t | t in Times(group) + {r.at}
      ensures t in Times(more)
    {
      if t != r.at {
        var o :| o in group && o.at == t;
        assert o in more;
      }
    }
    forall x | x in Actors(group) + ActorOf(r)
      ensures x in Actors(more)
    {
      if x !in ActorOf(r) {
        var o :| o in group && o.actor == Some(x);
        assert o in more;
      }
    }
  }

  lemma AbsorbName(group: set<EventRow>, a: Acc, r: EventRow)
    requires NamedSoFar(group, a)
    ensures NamedSoFar(group + {r}, Absorb(Some(a), r))
  {
    var more, b := group + {r}, Absorb(Some(a), r);
    assert Named(more) == Named(group) + (if r.name.Some? then {r} else {});
    if Named(group) != {} {
      var o :| IsLatest(o, Named(group)) && o.name == a.name && o.at == a.namedAt;
      assert IsLatest(if r.name.Some? && r.at > o.at then r else o, Named(more));
    } else if r.name.Some? {
      assert IsLatest(r, Named(more));
    }
  }

  lemma AbsorbOne(group: set<EventRow>, a: Acc, r: EventRow)
    requires Accumulates(group, a) && r !in group
    ensures Accumulates(group + {r}, Absorb(Some(a), r))
  {
    BumpIs(group, r);
    TimesGrow(group, r);
    AbsorbName(group, a, r);
  }

  lemma AbsorbFirst(r: EventRow)
    ensures Accumulates({r}, Absorb(None, r))
  {
    BumpFirst(r);
    TimesGrow({}, r);
    assert {} + {r} == {r};
    assert r.name.Some? ==> IsLatest(r, Named({r}));
    assert r.name.None? ==> Named({r}) == {};
    assert Times({}) == {} && Actors({}) == {};
  }

  function Elements(rows: seq<EventRow>): set<EventRow> {
    set r | r in rows
  }

  lemma GroupGrows(less: set<EventRow>, r: EventRow, k: RepoDay)
    requires r !in less
    ensures Group(less + {r}, k)
         == if r.repo == Some(k.repo) && r.day == k.day then Group(less, k) + {r} else Group(less, k)
    ensures r !in Group(less, k)
  {
  }

  /** The accumulator of k is that of its group, and exists exactly when the group has a row. */
  ghost predicate AccIs(rows: set<EventRow>, accs: map<RepoDay, Acc>, k: RepoDay) {
    && (k in accs <==> Group(rows, k) != {})
    && (k in accs ==> Accumulates(Group(rows, k), accs[k]))
  }

  lemma {:induction false} GroupPassIs(rows: seq<EventRow>, k: RepoDay)
    requires Dedup.NoRepeats(rows)
    ensures AccIs(Elements(rows), GroupPass(rows), k)
  {
    if rows == [] {
    } else {
      var before, r := rows[..|rows| - 1], rows[|rows| - 1];
      GroupPassIs(before, k);
      assert r !in before;
      assert rows == before + [r];
      assert Elements(rows) == Elements(before) + {r};
      GroupPassAt(before, r, k);
    }
  }

  lemma GroupPassAt(before: seq<EventRow>, r: EventRow, k: RepoDay)
    requires r !in before
    requires AccIs(Elements(before), GroupPass(before), k)
    ensures AccIs(Elements(before) + {r}, GroupPass(before + [r]), k)
  {
    assert (before + [r])[..|before|] == before;
    GroupGrows(Elements(before), r, k);
    if r.repo == Some(k.repo) && r.day == k.day {
      if k in GroupPass(before) {
        AbsorbOne(Group(Elements(before), k), GroupPass(before)[k], r);
      } else {
        AbsorbFirst(r);
        assert Group(Elements(before), k) + {r} == {r};
      }
    }
  }

  /** One pass over the deduplicated rows, in any order, answers the repository query. */
  lemma OnePassGroups(rows: seq<EventRow>, floor: int)
    requires Dedup.NoRepeats(rows)
    ensures IsRepoTable(Elements(rows), floor, Having(GroupPass(rows), floor))
  {
    var accs, table := GroupPass(rows), Having(GroupPass(rows), floor);
    forall k: RepoDay
      ensures AccIs(Elements(rows), accs, k)
    {
      GroupPassIs(rows, k);
    }
    forall k: RepoDay
      ensures k in table <==> Group(Elements(rows), k) != {} && |Group(Elements(rows), k)| >= floor
      ensures k in table ==> IsRepoRow(Group(Elements(rows), k), floor, table[k])
    {
      assert AccIs(Elements(rows), accs, k);
    }
  }

  // ---- order independence ---------------------------------------------------------------------

  /** No repository at or above the floor carries two names at its latest instant. */
  ghost predicate NoNameTies(kept: set<EventRow>, floor: int) {
    forall k :: |Group(kept, k)| >= floor ==> OneName(Group(kept, k))
  }

  ghost predicate OneName(group: set<EventRow>) {
    forall a, b :: IsLatest(a, Named(group)) && IsLatest(b, Named(group)) ==> a.name == b.name
  }

  lemma RowIsDetermined(group: set<EventRow>, floor: int, a: RepoRow, b: RepoRow)
    requires IsRepoRow(group, floor, a) && IsRepoRow(group, floor, b)
    requires OneName(group)
    ensures a == b
  {
    assert a.firstAt == b.firstAt && a.lastAt == b.lastAt;
    if Named(group) != {} {
      var x :| IsLatest(x, Named(group)) && x.name == a.name;
      var y :| IsLatest(y, Named(group)) && y.name == b.name;
      assert x.name == y.name;
    }
  }

  lemma TotalsAreDetermined(kept: set<EventRow>, a: map<int, Totals>, b: map<int, Totals>)
    requires IsEcosystemTable(kept, a) && IsEcosystemTable(kept, b)
    ensures a == b
  {
    forall day | day in a
      ensures a[day] == b[day]
    {
      assert AreTotals(OnDay(kept, day), a[day]) && AreTotals(OnDay(kept, day), b[day]);
    }
  }

  lemma RepoTableIsDetermined(kept: set<EventRow>, floor: int, a: RepoTable, b: RepoTable)
    requires NoNameTies(kept, floor) && IsRepoTable(kept, floor, a) && IsRepoTable(kept, floor, b)
    ensures a == b
  {
    SameRepos(kept, floor, a, b);
    forall k | k in a
      ensures a[k] == b[k]
    {
      RowsAgree(kept, floor, a, b, k);
    }
  }

  lemma SameRepos(kept: set<EventRow>, floor: int, a: RepoTable, b: RepoTable)
    requires IsRepoTable(kept, floor, a) && IsRepoTable(kept, floor, b)
    ensures a.Keys == b.Keys
  {
  }

  lemma RowsAgree(kept: set<EventRow>, floor: int, a: RepoTable, b: RepoTable, k: RepoDay)
    requires NoNameTies(kept, floor) && IsRepoTable(kept, floor, a) && IsRepoTable(kept, floor, b)
    requires k in a && k in b
    ensures a[k] == b[k]
  {
    RowAt(kept, floor, a, k);
    RowAt(kept, floor, b, k);
    RowIsDetermined(Group(kept, k), floor, a[k], b[k]);
  }

  lemma RowAt(kept: set<EventRow>, floor: int, table: RepoTable, k: RepoDay)
    requires IsRepoTable(kept, floor, table) && k in table
    ensures |Group(kept, k)| >= floor && IsRepoRow(Group(kept, k), floor, table[k])
  {
  }

  /**
   Order independence: read the same rows in any two orders, and, without ties for the earliest
   copy or for the latest name, both tables come out the same in every column.
   */
  lemma TablesIgnoreOrder(
    rows: seq<EventRow>, again: seq<EventRow>, keptA: set<EventRow>, keptB: set<EventRow>, floor: int,
    ecoA: map<int, Totals>, ecoB: map<int, Totals>, repoA: RepoTable, repoB: RepoTable)
    requires forall r :: r in rows <==> r in again
    requires NoEarliestTies(rows) && NoNameTies(keptA, floor)
    requires IsDeduped(rows, keptA) && IsDeduped(again, keptB)
    requires IsEcosystemTable(keptA, ecoA) && IsEcosystemTable(keptB, ecoB)
    requires IsRepoTable(keptA, floor, repoA) && IsRepoTable(keptB, floor, repoB)
    ensures keptA == keptB && ecoA == ecoB && repoA == repoB
  {
    DedupIgnoresOrder(rows, again, keptA, keptB);
    TotalsAreDetermined(keptA, ecoA, ecoB);
    RepoTableIsDetermined(keptA, floor, repoA, repoB);
  }

  ghost function {:induction false} ListOf(rows: set<EventRow>): (s: seq<EventRow>)
    ensures Dedup.NoRepeats(s) && Elements(s) == rows
  {
    if rows == {} then []
    else
      var r :| r in rows;
      var rest := ListOf(rows - {r});
      assert forall i :: 0 <= i < |rest| ==> rest[i] in Elements(rest);
      assert forall o :: o in rest + [r] <==> o in Elements(rest) || o == r;
      assert Elements(rest + [r]) == rows;
      rest + [r]
  }

  /** The repository table has one answer exactly when no kept repository's latest name is tied. */
  lemma RepoTableIsDeterminedIff(kept: set<EventRow>, floor: int)
    ensures NoNameTies(kept, floor)
            <==> forall a, b :: IsRepoTable(kept, floor, a) && IsRepoTable(kept, floor, b) ==> a == b
  {
    if NoNameTies(kept, floor) {
      forall a, b | IsRepoTable(kept, floor, a) && IsRepoTable(kept, floor, b)
        ensures a == b
      {
        RepoTableIsDetermined(kept, floor, a, b);
      }
    } else {
      var k :| |Group(kept, k)| >= floor && !OneName(Group(kept, k));
      var a, b := TwoAnswers(kept, floor, k);
    }
  }

  /** Two names at one repository's latest instant are two answers. */
  lemma TwoAnswers(kept: set<EventRow>, floor: int, k: RepoDay) returns (a: RepoTable, b: RepoTable)
    requires |Group(kept, k)| >= floor && !OneName(Group(kept, k))
    ensures IsRepoTable(kept, floor, a) && IsRepoTable(kept, floor, b) && a != b
  {
    var group := Group(kept, k);
    var x, y :| IsLatest(x, Named(group)) && IsLatest(y, Named(group)) && x.name != y.name;
    OnePassGroups(ListOf(kept), floor);
    var t := Having(GroupPass(ListOf(kept)), floor);
    Renamed(kept, floor, t, k, x);
    Renamed(kept, floor, t, k, y);
    a, b := t[k := t[k].(name := x.name)], t[k := t[k].(name := y.name)];
    assert a[k] != b[k];
  }

  lemma Renamed(kept: set<EventRow>, floor: int, t: RepoTable, k: RepoDay, x: EventRow)
    requires IsRepoTable(kept, floor, t) && |Group(kept, k)| >= floor && IsLatest(x, Named(Group(kept, k)))
    ensures k in t && IsRepoTable(kept, floor, t[k := t[k].(name := x.name)])
  {
    assert x in Group(kept, k);
    assert LatestNamed(Group(kept, k), x.name);
    assert IsRepoRow(Group(kept, k), floor, t[k].(name := x.name));
  }

  // ---- conservation ------------------------------------------------------------------------------

  ghost function SumEvents(table: RepoTable): nat {
    if table == map[] then 0
    else
      var k :| k in table;
      table[k].events + SumEvents(table - {k})
  }

  /** The rows whose repository-day is among keys. */
  function Covered(kept: set<EventRow>, keys: set<RepoDay>): set<EventRow> {
    set r | r in kept && r.repo.Some? && RepoDay(r.day, r.repo.value) in keys
  }

  lemma {:induction false} SumIsCovered(kept: set<EventRow>, table: RepoTable)
    requires forall k :: k in table ==> table[k].events == |Group(kept, k)|
    ensures SumEvents(table) == |Covered(kept, table.Keys)|
    decreases |table|
  {
    if table == map[] {
      assert Covered(kept, table.Keys) == {};
    } else {
      var k :| k in table && SumEvents(table) == table[k].events + SumEvents(table - {k});
      SumIsCovered(kept, table - {k});
      assert (table - {k}).Keys == table.Keys - {k};
      CoveredSplits(kept, table.Keys, k);
    }
  }

  lemma CoveredSplits(kept: set<EventRow>, keys: set<RepoDay>, k: RepoDay)
    requires k in keys
    ensures |Covered(kept, keys)| == |Group(kept, k)| + |Covered(kept, keys - {k})|
  {
    assert Covered(kept, keys) == Group(kept, k) + Covered(kept, keys - {k});
    assert Group(kept, k) !! Covered(kept, keys - {k});
  }

  function OfDay(table: RepoTable, day: int): RepoTable {
    map k | k in table && k.day == day :: table[k]
  }

  /** The rows a table leaves out: those of repository-days below its floor. */
  function Below(all: RepoTable, table: RepoTable): RepoTable {
    all - table.Keys
  }

  lemma DaySplits(kept: set<EventRow>, day: int, above: set<RepoDay>, below: set<RepoDay>)
    requires above !! below
    requires forall k :: k in above + below <==> k.day == day && Group(kept, k) != {}
    ensures |OnDay(kept, day)| == |Covered(kept, above)| + |Covered(kept, below)| + |WithoutRepo(OnDay(kept, day))|
  {
    var whole, a, b := OnDay(kept, day), Covered(kept, above), Covered(kept, below);
    var none := WithoutRepo(whole);
    forall r | r in whole
      ensures r in a + b + none
    {
      if r.repo.Some? {
        assert r in Group(kept, RepoDay(r.day, r.repo.value));
      }
    }
    assert forall r :: r in a + b ==> r in whole;
    assert whole == a + b + none;
    assert a !! b && (a + b) !! none;
  }

  /**
   Conservation, at every floor: what the kept repositories account for, what those below the
   floor account for, and the events without a repository make up the ecosystem's day. all is
   the table at a floor that leaves nothing out.
   */
  lemma NothingIsLost(
    kept: set<EventRow>, floor: int, table: RepoTable, all: RepoTable, eco: map<int, Totals>, day: int)
    requires IsRepoTable(kept, floor, table) && IsRepoTable(kept, 1, all)
    requires IsEcosystemTable(kept, eco) && day in eco
    ensures eco[day].events == SumEvents(OfDay(table, day)) + SumEvents(OfDay(Below(all, table), day))
                             + eco[day].eventsWithoutRepo
  {
    var above, below := OfDay(table, day), OfDay(Below(all, table), day);
    forall k: RepoDay
      ensures k in above.Keys + below.Keys <==> k.day == day && Group(kept, k) != {}
    {
      AllKeys(kept, floor, table, all, k);
    }
    SumIsCovered(kept, above);
    SumIsCovered(kept, below);
    DaySplits(kept, day, above.Keys, below.Keys);
  }

  lemma AllKeys(kept: set<EventRow>, floor: int, table: RepoTable, all: RepoTable, k: RepoDay)
    requires IsRepoTable(kept, floor, table) && IsRepoTable(kept, 1, all)
    ensures k in table || k in Below(all, table) <==> Group(kept, k) != {}
  {
    NonEmptySize(Group(kept, k));
  }

  lemma NonEmptySize(s: set<EventRow>)
    ensures s != {} <==> |s| >= 1
  {
    if s != {} {
      var x :| x in s;
      assert |s| == |s - {x}| + 1;
    }
  }

  /** The table at a higher floor is the one at the lower floor, filtered on events. */
  function Raised(table: RepoTable, floor: int): RepoTable {
    map k | k in table && table[k].events >= floor :: table[k].(minEvents := floor)
  }

  lemma RaisedIsTable(kept: set<EventRow>, lo: int, hi: int, table: RepoTable)
    requires lo <= hi && IsRepoTable(kept, lo, table)
    ensures IsRepoTable(kept, hi, Raised(table, hi))
  {
    forall k: RepoDay
      ensures k in Raised(table, hi) <==> Group(kept, k) != {} && |Group(kept, k)| >= hi
    {
      assert k in table ==> IsRepoRow(Group(kept, k), lo, table[k]);
    }
    forall k | k in Raised(table, hi)
      ensures IsRepoRow(Group(kept, k), hi, Raised(table, hi)[k])
    {
      RowAt(kept, lo, table, k);
    }
  }

  /** A floor can be raised from what was kept, and every answer at the higher floor arises so. */
  lemma RaisingTheFloor(kept: set<EventRow>, lo: int, hi: int, table: RepoTable, higher: RepoTable)
    requires lo <= hi && IsRepoTable(kept, lo, table)
    requires NoNameTies(kept, hi) && IsRepoTable(kept, hi, higher)
    ensures higher == Raised(table, hi)
  {
    RaisedIsTable(kept, lo, hi, table);
    RepoTableIsDetermined(kept, hi, higher, Raised(table, hi));
  }

  ghost function {:induction false} LongestId(rows: set<EventRow>): (n: nat)
    ensures forall r :: r in rows ==> |r.id| <= n
  {
    if rows == {} then 0
    else
      var r :| r in rows;
      var rest := LongestId(rows - {r});
      assert forall o :: o in rows ==> o == r || o in rows - {r};
      if |r.id| > rest then |r.id| else rest
  }

  /** n rows like r, under ids of lengths base + 1 .. base + n. */
  ghost function {:induction false} Copies(r: EventRow, base: nat, n: nat): (rows: set<EventRow>)
    ensures |rows| == n && OnePerId(rows)
    ensures forall o :: o in rows ==> o == r.(id := o.id) && base < |o.id| <= base + n
  {
    if n == 0 then {}
    else
      var more := r.(id := seq(base + n, _ => 'x'));
      Copies(r, base, n - 1) + {more}
  }

  /** Below the floor a repository leaves no trace: adding it changes no answer at that floor. */
  lemma BelowTheFloor(kept: set<EventRow>, more: set<EventRow>, k: RepoDay, floor: int, t: RepoTable)
    requires forall j :: j != k ==> Group(more, j) == Group(kept, j)
    requires |Group(kept, k)| < floor && |Group(more, k)| < floor
    ensures IsRepoTable(kept, floor, t) <==> IsRepoTable(more, floor, t)
  {
    forall j: RepoDay
      ensures j in t && IsRepoRow(Group(kept, j), floor, t[j]) && |Group(kept, j)| >= floor
              <==> j in t && IsRepoRow(Group(more, j), floor, t[j]) && |Group(more, j)| >= floor
      ensures Group(kept, j) != {} && |Group(kept, j)| >= floor
              <==> Group(more, j) != {} && |Group(more, j)| >= floor
    {
    }
  }

  lemma GroupsWith(kept: set<EventRow>, c: set<EventRow>, k: RepoDay, j: RepoDay)
    requires forall o :: o in c ==> o.day == k.day && o.repo == Some(k.repo)
    ensures Group(kept + c, j) == if j == k then Group(kept, k) + c else Group(kept, j)
  {
  }

  /**
   A floor cannot be lowered: whatever the day, and for any two floors, another day has the very
   same table at the higher floor and a different one at the lower, so no function of the kept
   table finds the rows that were never written.
   */
  lemma LoweringLosesRows(kept: set<EventRow>, r: EventRow, lo: int, hi: int) returns (more: set<EventRow>)
    requires 1 <= lo < hi
    requires r.repo.Some? && Group(kept, RepoDay(r.day, r.repo.value)) == {}
    ensures kept <= more && (OnePerId(kept) ==> OnePerId(more))
    ensures forall t :: IsRepoTable(kept, hi, t) <==> IsRepoTable(more, hi, t)
    ensures forall t :: !(IsRepoTable(kept, lo, t) && IsRepoTable(more, lo, t))
  {
    var k := RepoDay(r.day, r.repo.value);
    var c := Copies(r, LongestId(kept), lo);
    more := kept + c;
    forall j: RepoDay
      ensures Group(more, j) == if j == k then c else Group(kept, j)
    {
      GroupsWith(kept, c, k, j);
    }
    forall t
      ensures IsRepoTable(kept, hi, t) <==> IsRepoTable(more, hi, t)
    {
      BelowTheFloor(kept, more, k, hi, t);
    }
    forall t | IsRepoTable(more, lo, t)
      ensures !IsRepoTable(kept, lo, t)
    {
      NonEmptySize(c);
      assert k in t;
    }
  }

  // ---- bounds on every row -----------------------------------------------------------------------

  lemma {:induction false} FewerActors(group: set<EventRow>)
    ensures |Actors(group)| <= |group|
    decreases |group|
  {
    if group == {} {
      assert Actors(group) == {};
    } else {
      var r :| r in group;
      FewerActors(group - {r});
      TimesGrow(group - {r}, r);
      assert group - {r} + {r} == group;
    }
  }

  function SumTo(counts: seq<nat>, n: nat): nat
    requires n <= |counts|
  {
    if n == 0 then 0 else SumTo(counts, n - 1) + counts[n - 1]
  }

  function OfFirstKinds(group: set<EventRow>, n: nat): set<EventRow>
    requires n <= |BREAKOUT_EVENT_TYPES|
  {
    set r | r in group && r.kind in BREAKOUT_EVENT_TYPES[..n]
  }

  lemma {:induction false} BreakoutsAreDisjoint(group: set<EventRow>, n: nat)
    requires n <= |BREAKOUT_EVENT_TYPES|
    ensures SumTo(Breakouts(group), n) == |OfFirstKinds(group, n)|
  {
    if n == 0 {
      assert OfFirstKinds(group, 0) == {};
    } else {
      BreakoutsAreDisjoint(group, n - 1);
      var kind := BREAKOUT_EVENT_TYPES[n - 1];
      assert BREAKOUT_EVENT_TYPES[..n] == BREAKOUT_EVENT_TYPES[..n - 1] + [kind];
      assert OfFirstKinds(group, n) == OfFirstKinds(group, n - 1) + OfKind(group, kind);
      KindsDiffer(n);
      assert OfFirstKinds(group, n - 1) !! OfKind(group, kind);
    }
  }

  lemma KindsDiffer(n: nat)
    requires 0 < n <= |BREAKOUT_EVENT_TYPES|
    ensures BREAKOUT_EVENT_TYPES[n - 1] !in BREAKOUT_EVENT_TYPES[..n - 1]
  {
    assert "PushEvent"[0] == 'P' && "WatchEvent"[0] == 'W' && "ForkEvent"[0] == 'F';
    assert "IssuesEvent"[0] == 'I' && "PullRequestEvent"[1] == 'u' && "PushEvent"[2] == 's';
    assert "PullRequestEvent"[2] == 'l' && "ReleaseEvent"[0] == 'R';
  }

  /** On every row, actors cannot exceed events, and no event is broken out twice. */
  lemma RowBounds(kept: set<EventRow>, floor: int, table: RepoTable, k: RepoDay)
    requires IsRepoTable(kept, floor, table) && k in table
    ensures |table[k].breakouts| == |BREAKOUT_EVENT_TYPES|
    ensures table[k].actors <= table[k].events && table[k].events >= 1
    ensures SumTo(table[k].breakouts, |BREAKOUT_EVENT_TYPES|) <= table[k].events
    ensures table[k].firstAt <= table[k].lastAt
  {
    var group := Group(kept, k);
    FewerActors(group);
    NonEmptySize(group);
    BreakoutsAreDisjoint(group, |BREAKOUT_EVENT_TYPES|);
    Dedup.SubsetSize(OfFirstKinds(group, |BREAKOUT_EVENT_TYPES|), group);
  }

  /**
   The ecosystem row keeps the same bounds: actors, events without a repository and the six
   breakouts are each at most the events, and the repositories at most the events that have one.
   */
  lemma TotalsBounds(kept: set<EventRow>, table: map<int, Totals>, day: int)
    requires IsEcosystemTable(kept, table) && day in table
    ensures |table[day].breakouts| == |BREAKOUT_EVENT_TYPES|
    ensures table[day].actors <= table[day].events && table[day].events >= 1
    ensures table[day].repos + table[day].eventsWithoutRepo <= table[day].events
    ensures SumTo(table[day].breakouts, |BREAKOUT_EVENT_TYPES|) <= table[day].events
    ensures 1 <= table[day].hoursPresent <= table[day].events
    ensures table[day].firstAt <= table[day].lastAt
  {
    var group := OnDay(kept, day);
    assert AreTotals(group, table[day]);
    SomeRowOnDay(kept, day);
    FewerActors(group);
    FewerRepos(group);
    FewerHours(group);
    NonEmptySize(group);
    BreakoutsAreDisjoint(group, |BREAKOUT_EVENT_TYPES|);
    Dedup.SubsetSize(OfFirstKinds(group, |BREAKOUT_EVENT_TYPES|), group);
  }

  lemma {:induction false} FewerRepos(group: set<EventRow>)
    ensures |Repos(group)| + |WithoutRepo(group)| <= |group|
    decreases |group|
  {
    if group == {} {
      assert Repos(group) == {} && WithoutRepo(group) == {};
    } else {
      var r :| r in group;
      FewerRepos(group - {r});
      RepoTaken(group, r);
      RepolessTaken(group, r);
    }
  }

  lemma RepolessTaken(group: set<EventRow>, r: EventRow)
    requires r in group
    ensures |WithoutRepo(group)| == |WithoutRepo(group - {r})| + (if r.repo.None? then 1 else 0)
  {
    assert WithoutRepo(group) == WithoutRepo(group - {r}) + (if r.repo.None? then {r} else {});
  }

  lemma RepoTaken(group: set<EventRow>, r: EventRow)
    requires r in group
    ensures Repos(group) == Repos(group - {r}) + (if r.repo.Some? then {r.repo.value} else {})
  {
    forall x | x in Repos(group)
      ensures x in Repos(group - {r}) || r.repo == Some(x)
    {
      var o :| o in group && o.repo == Some(x);
      assert o == r || o in group - {r};
    }
  }

  lemma {:induction false} FewerHours(group: set<EventRow>)
    ensures |HoursIn(group)| <= |group|
    ensures group != {} ==> HoursIn(group) != {}
    decreases |group|
  {
    if group == {} {
      assert HoursIn(group) == {};
    } else {
      var r :| r in group;
      FewerHours(group - {r});
      assert r.hr in HoursIn(group);
      assert HoursIn(group) == HoursIn(group - {r}) + {r.hr} by {
        forall x | x in HoursIn(group)
          ensures x in HoursIn(group - {r}) || x == r.hr
        {
          var o :| o in group && o.hr == x;
          assert o == r || o in group - {r};
        }
      }
    }
  }

  // ---- landing a day -----------------------------------------------------------------------------

  /** One result row under the day it is of. */
  datatype Dated<T> = Dated(day: int, value: T)

  function DaysOf<T>(table: seq<Dated<T>>): set<int> {
    set i | 0 <= i < |table| :: table[i].day
  }

  lemma SomeDay<T>(table: seq<Dated<T>>)
    ensures table != [] ==> DaysOf(table) != {}
  {
    assert table != [] ==> table[0].day in DaysOf(table);
  }

  lemma DaysOfIs<T>(table: seq<Dated<T>>, day: int)
    requires table != [] && DaysOf(table) != {}
    ensures |DaysOf(table)| == 1 && Least(DaysOf(table)) == day
            <==> forall i :: 0 <= i < |table| ==> table[i].day == day
  {
    var found := DaysOf(table);
    assert forall i :: 0 <= i < |table| ==> table[i].day in found;
    var least := Least(found);
    assert |found| == |found - {least}| + 1;
    if |found| == 1 {
      assert found == {least};
    }
    if forall i :: 0 <= i < |table| ==> table[i].day == day {
      assert found == {day};
    }
  }

  /** The file one day's table is published as: staged, checked to be that day's, then renamed. */
  class HistoryFile<T> {
    var current: Option<seq<Dated<T>>>
    var part: Option<seq<Dated<T>>>

    constructor ()
      ensures current == None && part == None
    {
      current, part := None, None;
    }

    /** A table with a row of any other day is refused and leaves the previous file in place. */
    method WriteChecked(table: seq<Dated<T>>, day: int) returns (r: Result<nat, string>)
      modifies this
      ensures part == None
      ensures r.Ok? <==> forall i :: 0 <= i < |table| ==> table[i].day == day
      ensures r.Ok? ==> r.value == |table| && current == Some(table)
      ensures r.Err? ==> current == old(current)
    {
      part := Some(table);
      var found := DaysOf(part.value);
      SomeDay(table);
      if table != [] {
        DaysOfIs(table, day);
      }
      if table != [] && (|found| != 1 || Least(found) != day) {
        part := None;
        return Err("the staged aggregate holds another day");
      }
      current := part;
      part := None;
      return Ok(|table|);
    }
  }

  // ---- the two files of a day ---------------------------------------------------------------

  datatype RepoLine = RepoLine(repo: int, row: RepoRow)

  type EcosystemFile = seq<Dated<Totals>>
  type RepoFile = seq<Dated<RepoLine>>

  /** The file lists the table, a line for each of its rows. */
  ghost predicate ListsEcosystem(file: EcosystemFile, table: map<int, Totals>) {
    forall d :: d in file <==> d.day in table && table[d.day] == d.value
  }

  ghost predicate ListsRepos(file: RepoFile, table: RepoTable) {
    forall d :: d in file <==> RepoDay(d.day, d.value.repo) in table
                               && table[RepoDay(d.day, d.value.repo)] == d.value.row
  }

  predicate OfOneDay<T>(table: seq<Dated<T>>, day: int) {
    forall i | 0 <= i < |table| :: table[i].day == day
  }

  /** The day column is the date of the creation time, as the lake writes it. */
  ghost predicate DatedByTime(rows: seq<EventRow>) {
    forall r :: r in rows ==> r.day == r.at / 86400
  }

  /** Both files of one day, as a later reader finds them. */
  datatype DayFiles = DayFiles(ecosystem: Option<EcosystemFile>, repos: Option<RepoFile>)

  /** Where the process was stopped for good, if it was. */
  datatype Stopped = BeforeFirst | BetweenRenames | NotStopped

  /** The two files are checked and renamed one after the other; a refusal raises and ends it. */
  function Published(
    files: DayFiles, ecosystem: EcosystemFile, repos: RepoFile, day: int, stopped: Stopped): DayFiles
  {
    if stopped.BeforeFirst? || !OfOneDay(ecosystem, day) then files
    else if stopped.BetweenRenames? || !OfOneDay(repos, day) then DayFiles(Some(ecosystem), files.repos)
    else DayFiles(Some(ecosystem), Some(repos))
  }

  method PublishDay(
    ecosystemFile: HistoryFile<Totals>, repoFile: HistoryFile<RepoLine>,
    ecosystem: EcosystemFile, repos: RepoFile, day: int, stopped: Stopped)
    returns (r: Result<(nat, nat), string>)
    requires ecosystemFile as object != repoFile as object
    modifies ecosystemFile, repoFile
    ensures DayFiles(ecosystemFile.current, repoFile.current)
         == Published(old(DayFiles(ecosystemFile.current, repoFile.current)), ecosystem, repos, day, stopped)
    ensures r.Ok? <==> stopped.NotStopped? && OfOneDay(ecosystem, day) && OfOneDay(repos, day)
    ensures r.Ok? ==> r.value == (|ecosystem|, |repos|)
  {
    if stopped.BeforeFirst? {
      return Err("stopped");
    }
    var first := ecosystemFile.WriteChecked(ecosystem, day);
    if first.Err? {
      return Err(first.error);
    }
    if stopped.BetweenRenames? {
      return Err("stopped");
    }
    var second := repoFile.WriteChecked(repos, day);
    if second.Err? {
      return Err(second.error);
    }
    return Ok((first.value, second.value));
  }

  /** The rows of any two answers to the dedup are of the same days. */
  lemma DedupsAgreeOnDays(rows: seq<EventRow>, a: set<EventRow>, b: set<EventRow>)
    requires DatedByTime(rows) && IsDeduped(rows, a) && IsDeduped(rows, b)
    ensures Days(a) <= Days(b)
  {
    forall day | day in Days(a)
      ensures day in Days(b)
    {
      var r :| r in a && r.day == day;
      assert IsEarliest(r, rows) && HasId(b, r.id);
      var o :| o in b && o.id == r.id;
      assert IsEarliest(o, rows);
      assert o.at == r.at;
    }
  }

  /**
   A day whose ecosystem file passes its check has a repository file that passes too, even where
   the two queries, which dedup the rows separately, kept different copies.
   */
  lemma RepoFilePassesToo(
    rows: seq<EventRow>, keptA: set<EventRow>, keptB: set<EventRow>, eco: map<int, Totals>, repo: RepoTable,
    floor: int, ecosystem: EcosystemFile, repos: RepoFile, day: int)
    requires DatedByTime(rows) && IsDeduped(rows, keptA) && IsDeduped(rows, keptB)
    requires IsEcosystemTable(keptA, eco) && IsRepoTable(keptB, floor, repo)
    requires ListsEcosystem(ecosystem, eco) && ListsRepos(repos, repo)
    requires OfOneDay(ecosystem, day)
    ensures OfOneDay(repos, day)
  {
    DedupsAgreeOnDays(rows, keptB, keptA);
    OneDayOnly(ecosystem, eco, day);
    RepoLinesAreDated(keptB, floor, repo, repos, day);
  }

  lemma RepoLinesAreDated(kept: set<EventRow>, floor: int, table: RepoTable, file: RepoFile, day: int)
    requires IsRepoTable(kept, floor, table) && ListsRepos(file, table) && Days(kept) <= {day}
    ensures OfOneDay(file, day)
  {
    forall i | 0 <= i < |file|
      ensures file[i].day == day
    {
      assert file[i] in file;
      RepoDayHasRows(kept, floor, table, RepoDay(file[i].day, file[i].value.repo));
    }
  }

  lemma OneDayOnly(file: EcosystemFile, table: map<int, Totals>, day: int)
    requires ListsEcosystem(file, table) && OfOneDay(file, day)
    ensures table.Keys <= {day}
  {
    forall d | d in table
      ensures d == day
    {
      assert Dated(d, table[d]) in file;
    }
  }

  lemma RepoDayHasRows(kept: set<EventRow>, floor: int, table: RepoTable, k: RepoDay)
    requires IsRepoTable(kept, floor, table) && k in table
    ensures k.day in Days(kept)
  {
    assert Group(kept, k) != {};
    var r :| r in Group(kept, k);
    assert r in kept && r.day == k.day;
  }

  /**
   The two files of a day change together, exactly when the process is not stopped between the
   two renames of a day that passes its check: then the ecosystem file is the new one and the
   repository file still the previous one, until the day is published again.
   */
  lemma FilesChangeTogether(
    rows: seq<EventRow>, keptA: set<EventRow>, keptB: set<EventRow>, eco: map<int, Totals>, repo: RepoTable,
    floor: int, ecosystem: EcosystemFile, repos: RepoFile, day: int, files: DayFiles, stopped: Stopped)
    requires DatedByTime(rows) && IsDeduped(rows, keptA) && IsDeduped(rows, keptB)
    requires IsEcosystemTable(keptA, eco) && IsRepoTable(keptB, floor, repo)
    requires ListsEcosystem(ecosystem, eco) && ListsRepos(repos, repo)
    requires files.ecosystem != Some(ecosystem) && files.repos != Some(repos)
    ensures var after, both := Published(files, ecosystem, repos, day, stopped), DayFiles(Some(ecosystem), Some(repos));
            after == files || after == both <==> !(stopped.BetweenRenames? && OfOneDay(ecosystem, day))
    ensures var after := Published(files, ecosystem, repos, day, stopped);
            stopped.BetweenRenames? && OfOneDay(ecosystem, day) ==>
              && after == DayFiles(Some(ecosystem), files.repos)
              && Published(after, ecosystem, repos, day, NotStopped) == DayFiles(Some(ecosystem), Some(repos))
  {
    if OfOneDay(ecosystem, day) {
      RepoFilePassesToo(rows, keptA, keptB, eco, repo, floor, ecosystem, repos, day);
    }
  }

  /**
   What a published ecosystem day says: when every surviving row is of that day, its one row
   counts every distinct id that was read, however many files repeat it.
   */
  lemma PublishedDayCountsEveryId(
    rows: seq<EventRow>, kept: set<EventRow>, eco: map<int, Totals>, day: int)
    requires IsDeduped(rows, kept) && IsEcosystemTable(kept, eco)
    requires eco.Keys == {day}
    ensures eco[day].events == |Ids(rows)|
  {
    DedupCountsIds(rows, kept);
    forall r | r in kept
      ensures r in OnDay(kept, day)
    {
      assert r.day in Days(kept);
    }
    assert OnDay(kept, day) == kept;
  }
}
