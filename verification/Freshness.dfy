/**
 The freshness verdict as a comparison of two maps from days to hour counts, one of the lake's
 files and one of what each mart day was built from, and what it implies once Verify ties a third
 record, the ledger, to the files.
 */
module Freshness {
  import opened Wrappers
  import opened Hours
  import opened Ledger
  import opened Verify
  import Dedup

  datatype Drift = Current | Unbuilt | Behind | Surplus

  datatype DayDrift = DayDrift(day: int, lakeHours: nat, martHours: Option<nat>)
  {
    function Kind(): Drift {
      if martHours.None? then Unbuilt
      else if martHours.value < lakeHours then Behind
      else if martHours.value > lakeHours then Drift.Surplus
      else Current
    }

    predicate Stale() {
      Kind() in {Unbuilt, Behind}
    }

    /** Lake hours the marts were not built from. */
    function Short(): int {
      lakeHours - (if martHours.Some? then martHours.value else 0)
    }
  }

  datatype FreshnessReport = FreshnessReport(built: bool, days: seq<DayDrift>)
  {
    function StaleDays(): seq<DayDrift> {
      Select(days, (d: DayDrift) => d.Stale())
    }

    function DriftDays(): seq<DayDrift> {
      Select(days, (d: DayDrift) => !d.Kind().Current?)
    }

    function CurrentDays(): seq<DayDrift> {
      Select(days, (d: DayDrift) => d.Kind().Current?)
    }

    function SurplusDays(): seq<DayDrift> {
      Select(days, (d: DayDrift) => d.Kind().Surplus?)
    }

    function HoursBehind(): int {
      TotalShort(StaleDays())
    }

    predicate Ok() {
      StaleDays() == []
    }
  }

  function Select<T>(s: seq<T>, keep: T -> bool): seq<T> {
    if s == [] then []
    else Select(s[..|s| - 1], keep) + (if keep(s[|s| - 1]) then [s[|s| - 1]] else [])
  }

  lemma {:induction false} SelectIs<T>(s: seq<T>, keep: T -> bool)
    ensures forall x :: x in Select(s, keep) <==> x in s && keep(x)
  {
    if s != [] {
      SelectIs(s[..|s| - 1], keep);
      assert s == s[..|s| - 1] + [s[|s| - 1]];
    }
  }

  /** Oldest day first, none twice. */
  ghost predicate DayByDay(days: seq<DayDrift>) {
    forall i, j :: 0 <= i < j < |days| ==> days[i].day < days[j].day
  }

  lemma {:induction false} SelectKeepsOrder(days: seq<DayDrift>, keep: DayDrift -> bool)
    requires DayByDay(days)
    ensures DayByDay(Select(days, keep))
  {
    if days != [] {
      var before := days[..|days| - 1];
      SelectKeepsOrder(before, keep);
      SelectIs(before, keep);
      assert forall i :: 0 <= i < |Select(before, keep)| ==> Select(before, keep)[i] in before;
    }
  }

  function TotalShort(days: seq<DayDrift>): int {
    if days == [] then 0 else TotalShort(days[..|days| - 1]) + days[|days| - 1].Short()
  }

  // ---- the two records ------------------------------------------------------------------

  /** lake_hours_by_day: how many hour files the lake holds of one day. */
  function HoursOn(hours: set<Hour>, day: int): nat {
    |OnDay(hours, day)|
  }

  function OnDay(hours: set<Hour>, day: int): set<Hour> {
    set h | h in hours && DayOf(h) == day
  }

  /** A day's count is of the files among its 24 consecutive hours. */
  lemma HoursOnMeans(hours: set<Hour>, day: int)
    ensures HoursOn(hours, day) == |set h | h in hours && day * 24 <= h < day * 24 + 24|
  {
    forall h
      ensures DayOf(h) == day <==> day * 24 <= h < day * 24 + 24
    {
      HourMeans(h, day);
    }
    assert OnDay(hours, day) == set h | h in hours && day * 24 <= h < day * 24 + 24;
  }

  function DaysOf(hours: set<Hour>): set<int> {
    set h | h in hours :: DayOf(h)
  }

  function DriftOf(files: set<Hour>, marts: map<int, nat>, day: int): DayDrift {
    DayDrift(day, HoursOn(files, day), if day in marts then Some(marts[day]) else None)
  }

  /** The report over the union of the days of both records, in increasing order. */
  function MartsFreshness(files: set<Hour>, hasMarts: bool, marts: map<int, nat>): FreshnessReport {
    var built := if hasMarts then marts else map[];
    var days := Sorted(DaysOf(files) + built.Keys);
    FreshnessReport(hasMarts, DriftsOf(files, built, days))
  }

  function Built(hasMarts: bool, marts: map<int, nat>, day: int): nat {
    if hasMarts && day in marts then marts[day] else 0
  }

  lemma LakeDayHasHours(files: set<Hour>, day: int)
    ensures day in DaysOf(files) <==> HoursOn(files, day) > 0
  {
    if day in DaysOf(files) {
      var h :| h in files && DayOf(h) == day;
      assert h in OnDay(files, day);
    } else {
      assert OnDay(files, day) == {};
    }
  }

  function DriftsOf(files: set<Hour>, built: map<int, nat>, days: seq<int>): seq<DayDrift> {
    seq(|days|, i requires 0 <= i < |days| => DriftOf(files, built, days[i]))
  }

  lemma DriftsAre(files: set<Hour>, built: map<int, nat>, days: seq<int>, day: int)
    ensures DriftOf(files, built, day) in DriftsOf(files, built, days) <==> day in days
    ensures forall d :: d in DriftsOf(files, built, days) ==> d == DriftOf(files, built, d.day) && d.day in days
  {
    var drifts := DriftsOf(files, built, days);
    assert forall i :: 0 <= i < |days| ==> drifts[i] == DriftOf(files, built, days[i]) && days[i] in days;
    if day in days {
      var i :| 0 <= i < |days| && days[i] == day;
      assert drifts[i] == DriftOf(files, built, day);
    }
  }

  /** The report speaks of every day either record knows, and of each as both records have it. */
  lemma ReportDays(files: set<Hour>, hasMarts: bool, marts: map<int, nat>, day: int)
    ensures var built := if hasMarts then marts else map[];
            && (DriftOf(files, built, day) in MartsFreshness(files, hasMarts, marts).days
                <==> day in DaysOf(files) || day in built)
            && (forall d :: d in MartsFreshness(files, hasMarts, marts).days ==> d == DriftOf(files, built, d.day))
            && DayByDay(MartsFreshness(files, hasMarts, marts).days)
  {
    var built := if hasMarts then marts else map[];
    DriftsAre(files, built, Sorted(DaysOf(files) + built.Keys), day);
  }

  /** A day of the report is stale exactly when the lake holds more of it than the marts. */
  lemma StaleMeans(files: set<Hour>, hasMarts: bool, marts: map<int, nat>, day: int)
    ensures var built := if hasMarts then marts else map[];
            DriftOf(files, built, day) in MartsFreshness(files, hasMarts, marts).StaleDays()
            <==> HoursOn(files, day) > Built(hasMarts, marts, day)
  {
    var report := MartsFreshness(files, hasMarts, marts);
    SelectIs(report.days, (d: DayDrift) => d.Stale());
    ReportDays(files, hasMarts, marts, day);
    LakeDayHasHours(files, day);
  }

  /** Ok exactly when no day of the lake exceeds its mart. */
  lemma OkMeansMartsKeptUp(files: set<Hour>, hasMarts: bool, marts: map<int, nat>)
    ensures MartsFreshness(files, hasMarts, marts).Ok()
            <==> forall day :: HoursOn(files, day) <= Built(hasMarts, marts, day)
  {
    var report := MartsFreshness(files, hasMarts, marts);
    var stale := report.StaleDays();
    if stale == [] {
      forall day
        ensures HoursOn(files, day) <= Built(hasMarts, marts, day)
      {
        StaleMeans(files, hasMarts, marts, day);
      }
    } else {
      var d := stale[0];
      SelectIs(report.days, (x: DayDrift) => x.Stale());
      ReportDays(files, hasMarts, marts, d.day);
      StaleMeans(files, hasMarts, marts, d.day);
    }
  }

  lemma {:induction false} TotalShortPositive(days: seq<DayDrift>)
    requires forall d :: d in days ==> d.Short() >= 1
    ensures TotalShort(days) >= |days|
  {
    if days != [] {
      assert days[|days| - 1] in days;
      assert forall d :: d in days[..|days| - 1] ==> d in days;
      TotalShortPositive(days[..|days| - 1]);
    }
  }

  /** Ok exactly when a rebuild would add no hour; otherwise at least one per stale day. */
  lemma OkMeansNothingBehind(files: set<Hour>, hasMarts: bool, marts: map<int, nat>)
    ensures var report := MartsFreshness(files, hasMarts, marts);
            && (report.Ok() <==> report.HoursBehind() == 0)
            && report.HoursBehind() >= |report.StaleDays()|
  {
    var report := MartsFreshness(files, hasMarts, marts);
    SelectIs(report.days, (d: DayDrift) => d.Stale());
    forall d | d in report.StaleDays()
      ensures d.Short() >= 1
    {
      StaleMeans(files, hasMarts, marts, d.day);
      ReportDays(files, hasMarts, marts, d.day);
    }
    TotalShortPositive(report.StaleDays());
  }

  lemma {:induction false} KindsSplit(days: seq<DayDrift>)
    ensures |days| == |Select(days, (d: DayDrift) => d.Kind().Current?)|
                    + |Select(days, (d: DayDrift) => d.Stale())|
                    + |Select(days, (d: DayDrift) => d.Kind().Surplus?)|
    ensures |Select(days, (d: DayDrift) => !d.Kind().Current?)|
         == |Select(days, (d: DayDrift) => d.Stale())| + |Select(days, (d: DayDrift) => d.Kind().Surplus?)|
  {
    if days != [] {
      KindsSplit(days[..|days| - 1]);
    }
  }

  /**
   Every day of a report is current, stale or surplus, and only one of them: current when the marts
   were built from just the hours the lake has of it, stale when from fewer or from none, surplus
   when from more.
   */
  lemma DaysSplit(report: FreshnessReport)
    ensures |report.days| == |report.CurrentDays()| + |report.StaleDays()| + |report.SurplusDays()|
    ensures |report.DriftDays()| == |report.StaleDays()| + |report.SurplusDays()|
    ensures forall d :: d in report.CurrentDays() <==> d in report.days && d.martHours == Some(d.lakeHours)
    ensures forall d :: d in report.DriftDays() <==> d in report.days && d.martHours != Some(d.lakeHours)
    ensures forall d :: d in report.StaleDays() <==>
              d in report.days && (d.martHours.None? || d.martHours.value < d.lakeHours)
    ensures forall d :: d in report.SurplusDays() <==>
              d in report.days && d.martHours.Some? && d.martHours.value > d.lakeHours
    ensures forall d :: d in report.StaleDays() ==> d.Kind() == if d.martHours.None? then Unbuilt else Behind
  {
    KindsSplit(report.days);
    SelectIs(report.days, (d: DayDrift) => d.Kind().Current?);
    SelectIs(report.days, (d: DayDrift) => !d.Kind().Current?);
    SelectIs(report.days, (d: DayDrift) => d.Stale());
    SelectIs(report.days, (d: DayDrift) => d.Kind().Surplus?);
  }

  /** The days of each kind come oldest first. */
  lemma KindsInOrder(report: FreshnessReport)
    requires DayByDay(report.days)
    ensures DayByDay(report.CurrentDays()) && DayByDay(report.DriftDays())
    ensures DayByDay(report.StaleDays()) && DayByDay(report.SurplusDays())
  {
    SelectKeepsOrder(report.days, (d: DayDrift) => d.Kind().Current?);
    SelectKeepsOrder(report.days, (d: DayDrift) => !d.Kind().Current?);
    SelectKeepsOrder(report.days, (d: DayDrift) => d.Stale());
    SelectKeepsOrder(report.days, (d: DayDrift) => d.Kind().Surplus?);
  }

  // ---- every lake hour is behind or built from ------------------------------------------------

  ghost function LakeHours(days: seq<DayDrift>): nat {
    if days == [] then 0 else LakeHours(days[..|days| - 1]) + days[|days| - 1].lakeHours
  }

  /** The lake hours the marts were built from: of each day the smaller of its two counts. */
  ghost function BuiltFrom(days: seq<DayDrift>): nat {
    if days == [] then 0
    else
      var d := days[|days| - 1];
      BuiltFrom(days[..|days| - 1])
      + (if d.martHours.None? then 0 else if d.martHours.value < d.lakeHours then d.martHours.value else d.lakeHours)
  }

  lemma {:induction false} ShortOrBuiltFrom(days: seq<DayDrift>)
    ensures TotalShort(Select(days, (d: DayDrift) => d.Stale())) + BuiltFrom(days) == LakeHours(days)
  {
    if days != [] {
      var before, last := days[..|days| - 1], days[|days| - 1];
      ShortOrBuiltFrom(before);
      OneMoreShort(Select(before, (d: DayDrift) => d.Stale()), last);
      assert last.Stale() <==> last.martHours.None? || last.martHours.value < last.lakeHours;
    }
  }

  lemma OneMoreShort(days: seq<DayDrift>, d: DayDrift)
    ensures TotalShort(days + [d]) == TotalShort(days) + d.Short()
    ensures TotalShort(days + []) == TotalShort(days)
  {
    assert (days + [d])[..|days|] == days;
    assert days + [] == days;
  }

  ghost function OnDays(files: set<Hour>, days: seq<int>): set<Hour> {
    set h | h in files && DayOf(h) in days
  }

  lemma {:induction false} LakeHoursAre(files: set<Hour>, built: map<int, nat>, days: seq<int>)
    requires Increasing(days)
    ensures LakeHours(DriftsOf(files, built, days)) == |OnDays(files, days)|
  {
    if days == [] {
      assert OnDays(files, days) == {};
    } else {
      var before, day := days[..|days| - 1], days[|days| - 1];
      LakeHoursAre(files, built, before);
      assert DriftsOf(files, built, days)[..|days| - 1] == DriftsOf(files, built, before);
      assert day !in before;
      OneMoreDay(files, before, day);
      assert days == before + [day];
    }
  }

  lemma OneMoreDay(files: set<Hour>, before: seq<int>, day: int)
    requires day !in before
    ensures |OnDays(files, before + [day])| == |OnDays(files, before)| + HoursOn(files, day)
  {
    assert OnDays(files, before + [day]) == OnDays(files, before) + OnDay(files, day);
    assert OnDays(files, before) !! OnDay(files, day);
  }

  /** Every hour in the lake is one the marts were built from or one they are behind by. */
  lemma HoursBehindMeans(files: set<Hour>, hasMarts: bool, marts: map<int, nat>)
    ensures var report := MartsFreshness(files, hasMarts, marts);
            report.HoursBehind() + BuiltFrom(report.days) == |files|
  {
    var built := if hasMarts then marts else map[];
    var days := Sorted(DaysOf(files) + built.Keys);
    ShortOrBuiltFrom(DriftsOf(files, built, days));
    LakeHoursAre(files, built, days);
    assert OnDays(files, days) == files;
  }

  // ---- composed with verify ------------------------------------------------------------------

  lemma FewerHours(a: set<Hour>, b: set<Hour>, day: int)
    requires a <= b
    ensures HoursOn(a, day) <= HoursOn(b, day)
  {
    Dedup.SubsetSize(OnDay(a, day), OnDay(b, day));
  }

  /** When every claim is backed, the ledger counts no more hours of any day than the lake holds. */
  lemma LedgerWithinLake(rows: Rows, files: Files, counts: bool, listing: seq<Hour>, day: int)
    requires OnlyUnbacked(FindingsOf(rows, files, counts, listing)) == []
    ensures HoursOn(IngestedSet(rows), day) <= HoursOn(files.Keys, day)
  {
    OkMeansEveryClaimHolds(rows, files, counts, listing);
    forall h | h in IngestedSet(rows)
      ensures h in files
    {
      assert IngestedAt(rows, h) && ClaimHolds(h, rows[h], files, counts);
    }
    FewerHours(IngestedSet(rows), files.Keys, day);
  }

  /** When verify finds nothing at all, the ledger and the lake count every day alike. */
  lemma LedgerEqualsLake(rows: Rows, files: Files, counts: bool, listing: seq<Hour>, day: int)
    requires Lists(listing, files.Keys)
    requires FindingsOf(rows, files, counts, listing) == []
    ensures HoursOn(IngestedSet(rows), day) == HoursOn(files.Keys, day)
  {
    LedgerWithinLake(rows, files, counts, listing, day);
    FindingsAreExact(rows, files, counts, listing);
    forall h | h in files.Keys
      ensures h in IngestedSet(rows)
    {
      assert Finding(h, Unrecorded) !in FindingsOf(rows, files, counts, listing);
    }
    FewerHours(files.Keys, IngestedSet(rows), day);
  }

  /**
   So when verify is ok, a day the ledger has ahead of the marts is a day the files have ahead
   of them: the file check cannot be green while the ledger-based panel is red.
   */
  lemma PanelStaleMeansFilesStale(
    rows: Rows, files: Files, counts: bool, listing: seq<Hour>, hasMarts: bool, marts: map<int, nat>, day: int)
    requires OnlyUnbacked(FindingsOf(rows, files, counts, listing)) == []
    requires HoursOn(IngestedSet(rows), day) > Built(hasMarts, marts, day)
    ensures !MartsFreshness(files.Keys, hasMarts, marts).Ok()
  {
    LedgerWithinLake(rows, files, counts, listing, day);
    OkMeansMartsKeptUp(files.Keys, hasMarts, marts);
  }

  /** And when verify finds nothing, the panel and the file check agree outright. */
  lemma PanelAgrees(
    rows: Rows, files: Files, counts: bool, listing: seq<Hour>, hasMarts: bool, marts: map<int, nat>)
    requires Lists(listing, files.Keys)
    requires FindingsOf(rows, files, counts, listing) == []
    ensures MartsFreshness(files.Keys, hasMarts, marts).Ok()
            <==> MartsFreshness(IngestedSet(rows), hasMarts, marts).Ok()
  {
    forall day
      ensures HoursOn(IngestedSet(rows), day) == HoursOn(files.Keys, day)
    {
      LedgerEqualsLake(rows, files, counts, listing, day);
    }
    SameCountsSameVerdict(files.Keys, IngestedSet(rows), hasMarts, marts);
  }

  lemma SameCountsSameVerdict(a: set<Hour>, b: set<Hour>, hasMarts: bool, marts: map<int, nat>)
    requires forall day :: HoursOn(b, day) == HoursOn(a, day)
    ensures MartsFreshness(a, hasMarts, marts).Ok() <==> MartsFreshness(b, hasMarts, marts).Ok()
  {
    OkMeansMartsKeptUp(a, hasMarts, marts);
    OkMeansMartsKeptUp(b, hasMarts, marts);
  }
}
