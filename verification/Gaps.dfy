/**
 The verdicts on a history of days: ScanHistory is a function of the rows and the date it is run
 as of, and the lemmas characterise its missing days, its health and when it reads as stalled.
 */
module Gaps {
  import opened Wrappers
  import opened Hours

  const HOURS_PER_DAY := 24

  /** One row of the per-day aggregate. */
  datatype DayRow = DayRow(day: int, hoursPresent: nat, events: nat)

  datatype PartialDay = PartialDay(day: int, hours: nat)

  datatype HistoryReport = HistoryReport(
    asOf: int, expectedLatest: int, firstDay: Option<int>, latestDay: Option<int>,
    daysScanned: nat, missingDays: seq<int>, partialDays: seq<PartialDay>)
  {
    predicate Empty() {
      daysScanned == 0
    }

    function StaleByDays(): nat {
      if latestDay.None? then 0
      else if expectedLatest > latestDay.value then expectedLatest - latestDay.value
      else 0
    }

    predicate Stalled() {
      Empty() || StaleByDays() > 0
    }

    predicate Holed() {
      missingDays != []
    }

    predicate Healthy() {
      !Stalled() && !Holed()
    }
  }

  function DaysIn(rows: seq<DayRow>): set<int> {
    set r | r in rows :: r.day
  }

  /** The days of lo .. hi - 1 that are not present, in order. */
  function Absent(present: set<int>, lo: int, hi: int): seq<int>
    decreases hi - lo
  {
    if hi <= lo then []
    else Absent(present, lo, hi - 1) + (if hi - 1 in present then [] else [hi - 1])
  }

  /** The short days as the rows come, before they are sorted. */
  function ShortDays(rows: seq<DayRow>): seq<PartialDay> {
    if rows == [] then []
    else
      var last := rows[|rows| - 1];
      ShortDays(rows[..|rows| - 1])
      + (if last.hoursPresent < HOURS_PER_DAY then [PartialDay(last.day, last.hoursPresent)] else [])
  }

  predicate NotAfter(a: PartialDay, b: PartialDay) {
    a.day < b.day || (a.day == b.day && a.hours <= b.hours)
  }

  function Insert(d: PartialDay, s: seq<PartialDay>): seq<PartialDay> {
    if s == [] then [d]
    else if NotAfter(d, s[0]) then [d] + s
    else [s[0]] + Insert(d, s[1..])
  }

  /** sorted(): by day, then by hours. */
  function SortDays(s: seq<PartialDay>): seq<PartialDay> {
    if s == [] then [] else Insert(s[|s| - 1], SortDays(s[..|s| - 1]))
  }

  function Partial(rows: seq<DayRow>): seq<PartialDay> {
    SortDays(ShortDays(rows))
  }

  /** rows are read ORDER BY day. */
  function ScanHistory(rows: seq<DayRow>, asOf: int, graceDays: int): HistoryReport {
    var expected := asOf - (1 + graceDays);
    var present := DaysIn(rows);
    if present == {} then HistoryReport(asOf, expected, None, None, |rows|, [], Partial(rows))
    else
      var first, latest := Least(present), Greatest(present);
      HistoryReport(asOf, expected, Some(first), Some(latest), |rows|,
                    Absent(present, first, latest + 1), Partial(rows))
  }

  lemma {:induction false} AbsentIs(present: set<int>, lo: int, hi: int)
    ensures Increasing(Absent(present, lo, hi))
    ensures forall d :: d in Absent(present, lo, hi) <==> lo <= d < hi && d !in present
    decreases hi - lo
  {
    if lo < hi {
      AbsentIs(present, lo, hi - 1);
      var before := Absent(present, lo, hi - 1);
      assert forall i :: 0 <= i < |before| ==> before[i] in before;
    }
  }

  lemma {:induction false} AbsentCount(present: set<int>, lo: int, hi: int)
    requires lo <= hi
    ensures |Absent(present, lo, hi)| + |set d | d in present && lo <= d < hi| == hi - lo
    decreases hi - lo
  {
    if lo == hi {
      assert (set d | d in present && lo <= d < hi) == {};
    } else {
      AbsentCount(present, lo, hi - 1);
      var below, upto := set d | d in present && lo <= d < hi - 1, set d | d in present && lo <= d < hi;
      assert upto == if hi - 1 in present then below + {hi - 1} else below;
    }
  }

  lemma NoRowsNoDays(rows: seq<DayRow>)
    ensures rows == [] <==> DaysIn(rows) == {}
  {
    if rows != [] {
      assert rows[0].day in DaysIn(rows);
    }
  }

  /**
   The missing days are exactly the absent days between the first and the last present one,
   in order, and together with the present days they fill the span.
   */
  lemma MissingDaysAreExact(rows: seq<DayRow>, asOf: int, graceDays: int)
    requires rows != []
    ensures var r := ScanHistory(rows, asOf, graceDays);
            var present := DaysIn(rows);
            && r.firstDay.Some? && r.latestDay.Some?
            && IsLeast(r.firstDay.value, present)
            && r.latestDay.value in present && (forall d :: d in present ==> d <= r.latestDay.value)
            && Increasing(r.missingDays)
            && (forall d :: d in r.missingDays <==> r.firstDay.value <= d <= r.latestDay.value && d !in present)
            && |present| + |r.missingDays| == r.latestDay.value - r.firstDay.value + 1
  {
    NoRowsNoDays(rows);
    var present := DaysIn(rows);
    var first, latest := Least(present), Greatest(present);
    AbsentIs(present, first, latest + 1);
    AbsentCount(present, first, latest + 1);
    assert present == set d | d in present && first <= d < latest + 1;
  }

  /** Healthy exactly when the days present are one unbroken interval reaching recently enough. */
  lemma HealthyMeansUnbroken(rows: seq<DayRow>, asOf: int, graceDays: int)
    ensures ScanHistory(rows, asOf, graceDays).Healthy()
            <==> exists first, latest :: Unbroken(rows, first, latest) && latest >= asOf - (1 + graceDays)
    ensures rows == [] ==> ScanHistory(rows, asOf, graceDays).StaleByDays() == 0
  {
    var r := ScanHistory(rows, asOf, graceDays);
    NoRowsNoDays(rows);
    if rows != [] {
      MissingDaysAreExact(rows, asOf, graceDays);
      var first, latest := r.firstDay.value, r.latestDay.value;
      HeadIsIn(r.missingDays);
      if r.missingDays == [] {
        assert Unbroken(rows, first, latest);
      }
      forall f, l | Unbroken(rows, f, l)
        ensures f == first && l == latest && r.missingDays == []
      {
        assert first in DaysIn(rows) && latest in DaysIn(rows);
        assert f in DaysIn(rows) && l in DaysIn(rows);
      }
    } else {
      forall f, l
        ensures !Unbroken(rows, f, l)
      {
        assert f !in DaysIn(rows);
      }
    }
  }

  /** The days of the rows are first .. latest, all of them. */
  ghost predicate Unbroken(rows: seq<DayRow>, first: int, latest: int) {
    first <= latest && forall d :: d in DaysIn(rows) <==> first <= d <= latest
  }

  /**
   A history that stops at day d is stale by the days from there to the one before as_of and the
   grace, and reads as stalled from exactly d + grace + 2 onward.
   */
  lemma StalledFrom(rows: seq<DayRow>, asOf: int, graceDays: int, d: int)
    requires d in DaysIn(rows) && forall e :: e in DaysIn(rows) ==> e <= d
    ensures ScanHistory(rows, asOf, graceDays).Stalled() <==> asOf >= d + graceDays + 2
    ensures ScanHistory(rows, asOf, graceDays).Stalled() ==>
              d + ScanHistory(rows, asOf, graceDays).StaleByDays() + graceDays + 1 == asOf
  {
    NoRowsNoDays(rows);
    MissingDaysAreExact(rows, asOf, graceDays);
  }

  /** Adding later days never closes a hole: what was missing stays missing, in the same place. */
  lemma HolesNeverClose(rows: seq<DayRow>, later: seq<DayRow>, asOf: int, graceDays: int)
    requires rows != []
    requires forall r, l :: r in rows && l in later ==> r.day < l.day
    ensures ScanHistory(rows, asOf, graceDays).missingDays
         <= ScanHistory(rows + later, asOf, graceDays).missingDays
  {
    NoRowsNoDays(rows);
    NoRowsNoDays(rows + later);
    LaterDays(rows, later, Greatest(DaysIn(rows)));
    AbsentOfMore(DaysIn(rows), DaysIn(rows + later));
  }

  lemma AbsentOfMore(before: set<int>, after: set<int>)
    requires before != {} && after != {} && before <= after
    requires forall d :: d in after && d !in before ==> d > Greatest(before)
    ensures Absent(before, Least(before), Greatest(before) + 1) <= Absent(after, Least(after), Greatest(after) + 1)
  {
    LeastOfMore(before, after, Greatest(before));
    AbsentUpTo(before, after, Least(before), Greatest(before), Greatest(after));
  }

  lemma AbsentUpTo(before: set<int>, after: set<int>, first: int, latest: int, last: int)
    requires before <= after && IsLeast(first, before) && IsGreatest(latest, before) && IsGreatest(last, after)
    requires forall d :: d in after && d !in before ==> d > latest
    ensures Absent(before, first, latest + 1) <= Absent(after, first, last + 1)
  {
    assert latest in after;
    AbsentPrefix(before, after, first, latest + 1, last + 1);
  }

  lemma LaterDays(rows: seq<DayRow>, later: seq<DayRow>, latest: int)
    requires latest in DaysIn(rows)
    requires forall r, l :: r in rows && l in later ==> r.day < l.day
    ensures DaysIn(rows) <= DaysIn(rows + later)
    ensures forall d :: d in DaysIn(rows + later) && d !in DaysIn(rows) ==> d > latest
  {
    var r :| r in rows && r.day == latest;
    assert forall x :: x in rows + later <==> x in rows || x in later;
  }

  lemma LeastOfMore(before: set<int>, after: set<int>, latest: int)
    requires before != {} && before <= after
    requires forall d :: d in before ==> d <= latest
    requires forall d :: d in after && d !in before ==> d > latest
    ensures Least(after) == Least(before)
  {
    assert Least(before) in after;
  }

  lemma {:induction false} AbsentPrefix(a: set<int>, b: set<int>, lo: int, mid: int, hi: int)
    requires lo <= mid <= hi
    requires forall d :: lo <= d < mid ==> (d in a <==> d in b)
    ensures Absent(a, lo, mid) <= Absent(b, lo, hi)
    decreases hi - lo
  {
    if mid < hi {
      AbsentPrefix(a, b, lo, mid, hi - 1);
    } else if lo < mid {
      AbsentPrefix(a, b, lo, mid - 1, mid - 1);
      AbsentSame(a, b, lo, mid);
    }
  }

  lemma {:induction false} AbsentSame(a: set<int>, b: set<int>, lo: int, hi: int)
    requires forall d :: lo <= d < hi ==> (d in a <==> d in b)
    ensures Absent(a, lo, hi) == Absent(b, lo, hi)
    decreases hi - lo
  {
    if lo < hi {
      AbsentSame(a, b, lo, hi - 1);
    }
  }

  ghost predicate InOrder(s: seq<PartialDay>) {
    forall i, j :: 0 <= i < j < |s| ==> s[i].day < s[j].day || (s[i].day == s[j].day && s[i].hours <= s[j].hours)
  }

  ghost predicate AllFrom(d: PartialDay, s: seq<PartialDay>) {
    forall i :: 0 <= i < |s| ==> NotAfter(d, s[i])
  }

  lemma ConsInOrder(d: PartialDay, s: seq<PartialDay>)
    requires InOrder(s) && AllFrom(d, s)
    ensures InOrder([d] + s)
  {
  }

  lemma TailInOrder(s: seq<PartialDay>)
    requires InOrder(s) && s != []
    ensures InOrder(s[1..]) && AllFrom(s[0], s[1..])
  {
  }

  lemma EarlierStill(d: PartialDay, s: seq<PartialDay>)
    requires InOrder(s) && s != [] && NotAfter(d, s[0])
    ensures AllFrom(d, s)
  {
    forall i | 0 <= i < |s|
      ensures NotAfter(d, s[i])
    {
      assert i == 0 || NotAfter(s[0], s[i]);
    }
  }

  lemma {:induction false} InsertAllFrom(least: PartialDay, d: PartialDay, s: seq<PartialDay>)
    requires AllFrom(least, s) && NotAfter(least, d)
    ensures AllFrom(least, Insert(d, s))
  {
    if s != [] && !NotAfter(d, s[0]) {
      InsertAllFrom(least, d, s[1..]);
    }
  }

  lemma {:induction false} InsertInOrder(d: PartialDay, s: seq<PartialDay>)
    requires InOrder(s)
    ensures InOrder(Insert(d, s))
  {
    if s != [] {
      TailInOrder(s);
      if NotAfter(d, s[0]) {
        EarlierStill(d, s);
        ConsInOrder(d, s);
      } else {
        InsertInOrder(d, s[1..]);
        InsertAllFrom(s[0], d, s[1..]);
        ConsInOrder(s[0], Insert(d, s[1..]));
      }
    }
  }

  lemma {:induction false} InsertKeeps(d: PartialDay, s: seq<PartialDay>)
    ensures multiset(Insert(d, s)) == multiset(s) + multiset{d}
  {
    if s != [] {
      assert s == [s[0]] + s[1..];
      if !NotAfter(d, s[0]) {
        InsertKeeps(d, s[1..]);
      }
    }
  }

  lemma {:induction false} SortDaysIs(s: seq<PartialDay>)
    ensures InOrder(SortDays(s)) && multiset(SortDays(s)) == multiset(s)
  {
    if s != [] {
      SortDaysIs(s[..|s| - 1]);
      InsertInOrder(s[|s| - 1], SortDays(s[..|s| - 1]));
      InsertKeeps(s[|s| - 1], SortDays(s[..|s| - 1]));
      assert s == s[..|s| - 1] + [s[|s| - 1]];
    }
  }

  lemma {:induction false} ShortDaysAre(rows: seq<DayRow>)
    ensures forall d :: d in ShortDays(rows) <==> d.hours < HOURS_PER_DAY && HasRow(rows, d)
  {
    if rows != [] {
      var less, last := rows[..|rows| - 1], rows[|rows| - 1];
      ShortDaysAre(less);
      assert rows == less + [last];
      assert forall d :: HasRow(rows, d) <==> HasRow(less, d) || d == PartialDay(last.day, last.hoursPresent) by {
        RowsGrow(less, last);
      }
    }
  }

  ghost predicate HasRow(rows: seq<DayRow>, d: PartialDay) {
    exists r :: r in rows && r.day == d.day && r.hoursPresent == d.hours
  }

  lemma RowsGrow(less: seq<DayRow>, last: DayRow)
    ensures forall d :: HasRow(less + [last], d) <==> HasRow(less, d) || d == PartialDay(last.day, last.hoursPresent)
  {
    forall d
      ensures HasRow(less, d) || d == PartialDay(last.day, last.hoursPresent) ==> HasRow(less + [last], d)
    {
      if HasRow(less, d) {
        var r :| r in less && r.day == d.day && r.hoursPresent == d.hours;
        assert r in less + [last];
      } else {
        assert last in less + [last];
      }
    }
  }

  /**
   The partial days of a report are the days with fewer hours than a day has, each as often as it
   is listed, sorted by day and then by hours; the rest of it is what it was scanned with.
   */
  lemma PartialIs(rows: seq<DayRow>, asOf: int, graceDays: int)
    ensures var r := ScanHistory(rows, asOf, graceDays);
            && InOrder(r.partialDays) && multiset(r.partialDays) == multiset(ShortDays(rows))
            && (forall d :: d in r.partialDays <==> d.hours < 24 && HasRow(rows, d))
            && r.daysScanned == |rows| && r.asOf == asOf && r.expectedLatest == asOf - graceDays - 1
  {
    SortDaysIs(ShortDays(rows));
    ShortDaysAre(rows);
    assert forall d :: d in Partial(rows) <==> d in multiset(Partial(rows));
    assert forall d :: d in ShortDays(rows) <==> d in multiset(ShortDays(rows));
  }
}
