/**
 The comparison of the ledger's ingested rows with the lake's files, as a list of findings, and
 the proof that the list is sound and complete in both directions.
 */
module Verify {
  import opened Wrappers
  import opened Hours
  import opened Ledger
  import opened Archive
  import opened Lake
  import Dedup

  datatype Problem = Absent | Size | Count | Unrecorded

  datatype Finding = Finding(hour: Hour, problem: Problem)

  /** Whether the finding makes a ledger claim untrue. */
  predicate Unbacked(f: Finding) {
    f.problem.Absent? || f.problem.Size? || f.problem.Count?
  }

  datatype VerifyReport = VerifyReport(
    claimed: nat, agreed: nat, unsized: nat, counted: bool, findings: seq<Finding>)
  {
    function UnbackedFindings(): seq<Finding> {
      OnlyUnbacked(findings)
    }

    predicate Ok() {
      UnbackedFindings() == []
    }
  }

  function OnlyUnbacked(findings: seq<Finding>): seq<Finding> {
    if findings == [] then []
    else
      OnlyUnbacked(findings[..|findings| - 1])
      + (if Unbacked(findings[|findings| - 1]) then [findings[|findings| - 1]] else [])
  }

  type Files = map<Hour, LakeFile>

  // ---- what the files hold ------------------------------------------------------------

  /** Rows of one file that carry hour h inside it. */
  function RowsOf(stamps: seq<Stamp>, h: Hour): nat {
    if stamps == [] then 0
    else RowsOf(stamps[..|stamps| - 1], h) + (if stamps[|stamps| - 1] == Some(h) then 1 else 0)
  }

  function RowsAcross(files: Files, order: seq<Hour>, h: Hour): nat {
    if order == [] then 0
    else
      var k := order[|order| - 1];
      RowsAcross(files, order[..|order| - 1], h) + (if k in files then RowsOf(files[k].stamps, h) else 0)
  }

  /** LAKE_COUNTS: rows of hour h over every file of the lake, by the columns inside the files. */
  function LakeCount(files: Files, h: Hour): nat {
    RowsAcross(files, Sorted(files.Keys), h)
  }

  lemma {:induction false} RowsOfOwn(stamps: seq<Stamp>, k: Hour, h: Hour)
    requires OnlyHolds(stamps, k)
    ensures RowsOf(stamps, h) == if k == h then |stamps| else 0
  {
    if stamps != [] {
      RowsOfOwn(stamps[..|stamps| - 1], k, h);
    }
  }

  lemma {:induction false} RowsOfIs(stamps: seq<Stamp>, h: Hour)
    ensures RowsOf(stamps, h) == multiset(stamps)[Some(h)]
  {
    if stamps != [] {
      RowsOfIs(stamps[..|stamps| - 1], h);
      assert stamps == stamps[..|stamps| - 1] + [stamps[|stamps| - 1]];
    }
  }

  /** Every row of every file in the list, wherever it is filed. */
  ghost function AllRows(files: Files, order: seq<Hour>): multiset<Stamp> {
    if order == [] then multiset{}
    else
      var k := order[|order| - 1];
      AllRows(files, order[..|order| - 1]) + (if k in files then multiset(files[k].stamps) else multiset{})
  }

  lemma {:induction false} RowsAcrossIs(files: Files, order: seq<Hour>, h: Hour)
    ensures RowsAcross(files, order, h) == AllRows(files, order)[Some(h)]
  {
    if order != [] {
      var k := order[|order| - 1];
      RowsAcrossIs(files, order[..|order| - 1], h);
      if k in files {
        RowsOfIs(files[k].stamps, h);
      }
    }
  }

  /** The lake-wide count of an hour: how often it is written inside the files, each read once. */
  lemma LakeCountMeans(files: Files, h: Hour) returns (order: seq<Hour>)
    ensures Dedup.NoRepeats(order) && Lists(order, files.Keys)
    ensures LakeCount(files, h) == AllRows(files, order)[Some(h)]
  {
    order := Sorted(files.Keys);
    RowsAcrossIs(files, order, h);
  }

  ghost predicate CorrectlyFiled(files: Files) {
    forall k :: k in files ==> OnlyHolds(files[k].stamps, k)
  }

  lemma {:induction false} RowsAcrossOwn(files: Files, order: seq<Hour>, h: Hour)
    requires CorrectlyFiled(files) && Dedup.NoRepeats(order)
    ensures RowsAcross(files, order, h) == if h in order && h in files then |files[h].stamps| else 0
  {
    if order != [] {
      var before, k := order[..|order| - 1], order[|order| - 1];
      RowsAcrossOwn(files, before, h);
      assert order == before + [k];
      if k in files {
        RowsOfOwn(files[k].stamps, k, h);
      }
    }
  }

  /** In a correctly filed lake the lake-wide count of an hour is the size of its own file. */
  lemma LakeCountOwn(files: Files, h: Hour)
    requires CorrectlyFiled(files)
    ensures LakeCount(files, h) == if h in files then |files[h].stamps| else 0
  {
    RowsAcrossOwn(files, Sorted(files.Keys), h);
  }

  // ---- one claim --------------------------------------------------------------------------

  /** The finding of one claimed hour, if any: absence, then size, then count. */
  function Check(h: Hour, row: Row, files: Files, counts: bool): Option<Problem> {
    if h !in files then Some(Absent)
    else if row.bytes.Some? && row.bytes.value != files[h].size then Some(Size)
    else if counts && LakeCount(files, h) == 0 then Some(Count)
    else if counts && Some(LakeCount(files, h)) != row.events then Some(Count)
    else None
  }

  /** What a claim needs: a file, of the recorded size, holding a recorded number of rows that is not none. */
  ghost predicate ClaimHolds(h: Hour, row: Row, files: Files, counts: bool) {
    && h in files
    && (row.bytes.Some? ==> files[h].size == row.bytes.value)
    && (counts ==> row.events == Some(LakeCount(files, h)) && row.events != Some(0))
  }

  function CheckAt(rows: Rows, files: Files, counts: bool, h: Hour): Option<Problem> {
    if h in rows then Check(h, rows[h], files, counts) else None
  }

  function ClaimFindings(rows: Rows, files: Files, counts: bool, claims: seq<Hour>): seq<Finding> {
    if claims == [] then []
    else
      var h := claims[|claims| - 1];
      var problem := CheckAt(rows, files, counts, h);
      ClaimFindings(rows, files, counts, claims[..|claims| - 1])
      + (if problem.Some? then [Finding(h, problem.value)] else [])
  }

  function SurplusFindings(rows: Rows, listing: seq<Hour>): seq<Finding> {
    if listing == [] then []
    else
      var h := listing[|listing| - 1];
      SurplusFindings(rows, listing[..|listing| - 1])
      + (if IngestedAt(rows, h) then [] else [Finding(h, Unrecorded)])
  }

  function Claims(rows: Rows): seq<Hour> {
    Sorted(IngestedSet(rows))
  }

  /** The findings of a whole check; listing is the order the directory walk meets the files in. */
  function FindingsOf(rows: Rows, files: Files, counts: bool, listing: seq<Hour>): seq<Finding> {
    ClaimFindings(rows, files, counts, Claims(rows)) + SurplusFindings(rows, listing)
  }

  function HoursOf(findings: seq<Finding>): seq<Hour> {
    seq(|findings|, i requires 0 <= i < |findings| => findings[i].hour)
  }

  lemma {:induction false} ClaimFindingsAre(rows: Rows, files: Files, counts: bool, claims: seq<Hour>)
    ensures forall x :: x in ClaimFindings(rows, files, counts, claims)
                        <==> x.hour in claims && CheckAt(rows, files, counts, x.hour) == Some(x.problem)
  {
    if claims != [] {
      ClaimFindingsAre(rows, files, counts, claims[..|claims| - 1]);
      assert claims == claims[..|claims| - 1] + [claims[|claims| - 1]];
    }
  }

  lemma {:induction false} ClaimFindingsIncrease(rows: Rows, files: Files, counts: bool, claims: seq<Hour>)
    requires Increasing(claims)
    ensures Increasing(HoursOf(ClaimFindings(rows, files, counts, claims)))
  {
    if claims != [] {
      var before, h := claims[..|claims| - 1], claims[|claims| - 1];
      ClaimFindingsIncrease(rows, files, counts, before);
      ClaimFindingsAre(rows, files, counts, before);
      var f := ClaimFindings(rows, files, counts, before);
      forall i | 0 <= i < |f|
        ensures HoursOf(f)[i] < h
      {
        assert f[i] in f;
      }
      var problem := CheckAt(rows, files, counts, h);
      if problem.Some? {
        HoursOfAppend(f, Finding(h, problem.value));
        assert ClaimFindings(rows, files, counts, claims) == f + [Finding(h, problem.value)];
      } else {
        assert ClaimFindings(rows, files, counts, claims) == f;
      }
    }
  }

  lemma HoursOfAppend(f: seq<Finding>, x: Finding)
    ensures HoursOf(f + [x]) == HoursOf(f) + [x.hour]
  {
  }

  lemma InHoursOf(f: seq<Finding>, h: Hour)
    ensures h in HoursOf(f) <==> exists x :: x in f && x.hour == h
  {
    assert forall i :: 0 <= i < |f| ==> HoursOf(f)[i] == f[i].hour && f[i] in f;
  }

  lemma ClaimFindingsUnbacked(rows: Rows, files: Files, counts: bool, claims: seq<Hour>)
    ensures forall x :: x in ClaimFindings(rows, files, counts, claims) ==> Unbacked(x)
  {
    ClaimFindingsAre(rows, files, counts, claims);
  }

  lemma {:induction false} SurplusFindingsAre(rows: Rows, listing: seq<Hour>)
    ensures forall x :: x in SurplusFindings(rows, listing)
                        <==> x.problem == Unrecorded && x.hour in listing && !IngestedAt(rows, x.hour)
  {
    if listing != [] {
      SurplusFindingsAre(rows, listing[..|listing| - 1]);
      assert listing == listing[..|listing| - 1] + [listing[|listing| - 1]];
    }
  }

  lemma {:induction false} AllUnbacked(a: seq<Finding>)
    requires forall x :: x in a ==> Unbacked(x)
    ensures OnlyUnbacked(a) == a
  {
    if a != [] {
      assert a == a[..|a| - 1] + [a[|a| - 1]];
      AllUnbacked(a[..|a| - 1]);
    }
  }

  lemma {:induction false} NoneUnbackedAfter(a: seq<Finding>, b: seq<Finding>)
    requires forall x :: x in b ==> !Unbacked(x)
    ensures OnlyUnbacked(a + b) == OnlyUnbacked(a)
  {
    if b == [] {
      assert a + b == a;
    } else {
      var less := b[..|b| - 1];
      assert b == less + [b[|b| - 1]];
      assert (a + b)[..|a + b| - 1] == a + less;
      NoneUnbackedAfter(a, less);
    }
  }

  lemma UnbackedAreClaimFindings(rows: Rows, files: Files, counts: bool, listing: seq<Hour>)
    ensures OnlyUnbacked(FindingsOf(rows, files, counts, listing))
         == ClaimFindings(rows, files, counts, Claims(rows))
  {
    ClaimFindingsUnbacked(rows, files, counts, Claims(rows));
    SurplusFindingsAre(rows, listing);
    NoneUnbackedAfter(ClaimFindings(rows, files, counts, Claims(rows)), SurplusFindings(rows, listing));
    AllUnbacked(ClaimFindings(rows, files, counts, Claims(rows)));
  }

  lemma CheckIsClaimHolds(h: Hour, row: Row, files: Files, counts: bool)
    ensures Check(h, row, files, counts).None? <==> ClaimHolds(h, row, files, counts)
  {
  }

  /** An hour is found unbacked exactly when it is claimed and the claim does not hold. */
  lemma UnbackedHours(rows: Rows, files: Files, counts: bool, listing: seq<Hour>, h: Hour)
    ensures h in HoursOf(OnlyUnbacked(FindingsOf(rows, files, counts, listing)))
            <==> IngestedAt(rows, h) && !ClaimHolds(h, rows[h], files, counts)
  {
    var f := ClaimFindings(rows, files, counts, Claims(rows));
    UnbackedAreClaimFindings(rows, files, counts, listing);
    ClaimFindingsAre(rows, files, counts, Claims(rows));
    var c := CheckAt(rows, files, counts, h);
    if h in rows {
      CheckIsClaimHolds(h, rows[h], files, counts);
    }
    InHoursOf(f, h);
    assert c.Some? && IngestedAt(rows, h) ==> Finding(h, c.value) in f;
  }

  /** Sound and complete: no unbacked finding exactly when every ingested claim holds. */
  lemma OkMeansEveryClaimHolds(rows: Rows, files: Files, counts: bool, listing: seq<Hour>)
    ensures OnlyUnbacked(FindingsOf(rows, files, counts, listing)) == []
            <==> forall h :: IngestedAt(rows, h) ==> ClaimHolds(h, rows[h], files, counts)
  {
    var f := OnlyUnbacked(FindingsOf(rows, files, counts, listing));
    if f == [] {
      forall h | IngestedAt(rows, h)
        ensures ClaimHolds(h, rows[h], files, counts)
      {
        UnbackedHours(rows, files, counts, listing, h);
      }
    } else {
      UnbackedHours(rows, files, counts, listing, HoursOf(f)[0]);
    }
  }

  ghost predicate SizeHolds(row: Row, file: LakeFile) {
    row.bytes.Some? ==> file.size == row.bytes.value
  }

  /** What each problem says of a claimed hour; only one of them can hold. */
  ghost predicate IsProblem(h: Hour, row: Row, files: Files, counts: bool, p: Problem) {
    match p
    case Absent => h !in files
    case Size => h in files && !SizeHolds(row, files[h])
    case Count =>
      && counts && h in files && SizeHolds(row, files[h])
      && (LakeCount(files, h) == 0 || row.events != Some(LakeCount(files, h)))
    case Unrecorded => false
  }

  lemma CheckFinds(h: Hour, row: Row, files: Files, counts: bool, p: Problem)
    ensures Check(h, row, files, counts) == Some(p) <==> IsProblem(h, row, files, counts, p)
  {
  }

  /** What the loop over the claims finds of each hour. */
  lemma ClaimsAreChecked(rows: Rows, files: Files, counts: bool)
    ensures forall h, p :: Finding(h, p) in ClaimFindings(rows, files, counts, Claims(rows))
                           <==> IngestedAt(rows, h) && IsProblem(h, rows[h], files, counts, p)
  {
    ClaimFindingsAre(rows, files, counts, Claims(rows));
    forall h, p
      ensures h in Claims(rows) && CheckAt(rows, files, counts, h) == Some(p)
              <==> IngestedAt(rows, h) && IsProblem(h, rows[h], files, counts, p)
    {
      if IngestedAt(rows, h) {
        CheckFinds(h, rows[h], files, counts, p);
      }
    }
  }

  /**
   Which problem is found of an hour: absent, when it is claimed and has no file; size, when its
   file is there and not of the size recorded; count, with counts on, when the file passes both
   and the lake-wide count is none or not the one recorded; unrecorded, when the walk meets it and
   nobody claims it.
   */
  ghost predicate FoundExactly(
    findings: seq<Finding>, rows: Rows, files: Files, counts: bool, listing: seq<Hour>, h: Hour) {
    && (Finding(h, Absent) in findings <==> IngestedAt(rows, h) && h !in files)
    && (Finding(h, Size) in findings <==> IngestedAt(rows, h) && h in files && !SizeHolds(rows[h], files[h]))
    && (Finding(h, Count) in findings <==>
          && counts && IngestedAt(rows, h) && h in files && SizeHolds(rows[h], files[h])
          && (LakeCount(files, h) == 0 || rows[h].events != Some(LakeCount(files, h))))
    && (Finding(h, Unrecorded) in findings <==> h in listing && !IngestedAt(rows, h))
  }

  lemma ProblemsAreExact(rows: Rows, files: Files, counts: bool, listing: seq<Hour>)
    ensures forall h :: FoundExactly(FindingsOf(rows, files, counts, listing), rows, files, counts, listing, h)
  {
    ClaimsAreChecked(rows, files, counts);
    SurplusFindingsAre(rows, listing);
  }

  /** One finding at most per claimed hour, and the surplus is exactly the files nobody claims. */
  lemma FindingsAreExact(rows: Rows, files: Files, counts: bool, listing: seq<Hour>)
    requires Lists(listing, files.Keys)
    ensures var f := FindingsOf(rows, files, counts, listing);
            && Increasing(HoursOf(OnlyUnbacked(f)))
            && (forall h :: Finding(h, Unrecorded) in f <==> h in files && !IngestedAt(rows, h))
            && (forall x :: x in f && Unbacked(x) ==> IngestedAt(rows, x.hour))
  {
    UnbackedAreClaimFindings(rows, files, counts, listing);
    ClaimFindingsAre(rows, files, counts, Claims(rows));
    ClaimFindingsIncrease(rows, files, counts, Claims(rows));
    ClaimFindingsUnbacked(rows, files, counts, Claims(rows));
    SurplusFindingsAre(rows, listing);
  }

  // ---- the routine ---------------------------------------------------------------------------

  predicate UnsizedAt(rows: Rows, files: Files, counts: bool, h: Hour) {
    h in rows && rows[h].bytes.None? && CheckAt(rows, files, counts, h).None?
  }

  function UnsizedTest(rows: Rows, files: Files, counts: bool): Hour -> bool {
    h => UnsizedAt(rows, files, counts, h)
  }

  function CountWhere(hours: seq<Hour>, test: Hour -> bool): nat {
    if hours == [] then 0
    else CountWhere(hours[..|hours| - 1], test) + (if test(hours[|hours| - 1]) then 1 else 0)
  }

  ghost function Where(hours: seq<Hour>, test: Hour -> bool): set<Hour> {
    set h | h in hours && test(h)
  }

  lemma {:induction false} CountWhereIs(hours: seq<Hour>, test: Hour -> bool)
    requires Increasing(hours)
    ensures CountWhere(hours, test) == |Where(hours, test)|
  {
    if hours == [] {
    } else {
      var before, h := hours[..|hours| - 1], hours[|hours| - 1];
      CountWhereIs(before, test);
      assert hours == before + [h] && h !in before;
      assert Where(hours, test) == Where(before, test) + (if test(h) then {h} else {});
    }
  }

  /** The claims that hold with no size recorded to hold them to. */
  ghost function UnsizedClaims(rows: Rows, files: Files, counts: bool): set<Hour> {
    set h | h in rows && IngestedAt(rows, h) && rows[h].bytes.None? && ClaimHolds(h, rows[h], files, counts)
  }

  lemma UnsizedCount(rows: Rows, files: Files, counts: bool)
    ensures CountWhere(Claims(rows), UnsizedTest(rows, files, counts)) == |UnsizedClaims(rows, files, counts)|
  {
    CountWhereIs(Claims(rows), UnsizedTest(rows, files, counts));
    forall h
      ensures h in Claims(rows) && UnsizedAt(rows, files, counts, h) <==> h in UnsizedClaims(rows, files, counts)
    {
      if IngestedAt(rows, h) {
        CheckIsClaimHolds(h, rows[h], files, counts);
      }
    }
    assert Where(Claims(rows), UnsizedTest(rows, files, counts)) == UnsizedClaims(rows, files, counts);
  }

  lemma ClaimAt(rows: Rows, i: nat)
    requires i < |Claims(rows)|
    ensures IngestedAt(rows, Claims(rows)[i])
  {
    assert Claims(rows)[i] in Claims(rows);
  }

  method VerifyLake(ledger: ArchiveHours, lake: LakeDir, checkCounts: bool, listing: seq<Hour>)
    returns (report: VerifyReport)
    ensures report.findings == FindingsOf(ledger.rows, lake.files, checkCounts, listing)
    ensures forall h :: FoundExactly(report.findings, ledger.rows, lake.files, checkCounts, listing, h)
    ensures report.counted == checkCounts
    ensures report.claimed == |IngestedSet(ledger.rows)|
    ensures report.agreed + |report.UnbackedFindings()| == report.claimed
    ensures report.unsized == |UnsizedClaims(ledger.rows, lake.files, checkCounts)|
    ensures report.Ok() <==>
              forall h :: IngestedAt(ledger.rows, h) ==> ClaimHolds(h, ledger.rows[h], lake.files, checkCounts)
  {
    var findings, agreed, unsized := CheckClaims(ledger, lake, checkCounts);
    var surplus := Surplus(ledger, listing);
    UnbackedAreClaimFindings(ledger.rows, lake.files, checkCounts, listing);
    ProblemsAreExact(ledger.rows, lake.files, checkCounts, listing);
    UnsizedCount(ledger.rows, lake.files, checkCounts);
    OkMeansEveryClaimHolds(ledger.rows, lake.files, checkCounts, listing);
    report := VerifyReport(|Claims(ledger.rows)|, agreed, unsized, checkCounts, findings + surplus);
  }

  /** Every claim against its file, oldest first. */
  method CheckClaims(ledger: ArchiveHours, lake: LakeDir, checkCounts: bool)
    returns (findings: seq<Finding>, agreed: nat, unsized: nat)
    ensures findings == ClaimFindings(ledger.rows, lake.files, checkCounts, Claims(ledger.rows))
    ensures forall h, p :: Finding(h, p) in findings
                           <==> IngestedAt(ledger.rows, h) && IsProblem(h, ledger.rows[h], lake.files, checkCounts, p)
    ensures agreed + |findings| == |Claims(ledger.rows)|
    ensures unsized == CountWhere(Claims(ledger.rows), UnsizedTest(ledger.rows, lake.files, checkCounts))
  {
    var claims := Claims(ledger.rows);
    findings, agreed, unsized := [], 0, 0;
    for i := 0 to |claims|
      invariant findings == ClaimFindings(ledger.rows, lake.files, checkCounts, claims[..i])
      invariant agreed + |findings| == i
      invariant unsized == CountWhere(claims[..i], UnsizedTest(ledger.rows, lake.files, checkCounts))
    {
      assert claims[..i + 1][..i] == claims[..i];
      ClaimAt(ledger.rows, i);
      var claim := ledger.rows[claims[i]];
      var problem := Check(claims[i], claim, lake.files, checkCounts);
      if problem.Some? {
        findings := findings + [Finding(claims[i], problem.value)];
        continue;
      }
      if claim.bytes.None? {
        unsized := unsized + 1;
      }
      agreed := agreed + 1;
    }
    assert claims[..|claims|] == claims;
    ClaimsAreChecked(ledger.rows, lake.files, checkCounts);
  }

  /** The other direction: files no ingested row claims. */
  method Surplus(ledger: ArchiveHours, listing: seq<Hour>) returns (surplus: seq<Finding>)
    ensures surplus == SurplusFindings(ledger.rows, listing)
  {
    surplus := [];
    for i := 0 to |listing|
      invariant surplus == SurplusFindings(ledger.rows, listing[..i])
    {
      assert listing[..i + 1][..i] == listing[..i];
      if !IngestedAt(ledger.rows, listing[i]) {
        surplus := surplus + [Finding(listing[i], Unrecorded)];
      }
    }
    assert listing[..|listing|] == listing;
  }
}
