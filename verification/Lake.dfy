/** The lake as two maps over hours, final files and staged parts, and what may cross from one to the other. */
module Lake {
  import opened Wrappers
  import opened Hours
  import opened Archive

  datatype LakeFile = LakeFile(stamps: seq<Stamp>, size: nat)

  datatype Mismatch =
    | Untrustworthy(detail: string)
    | SpansPartitions(count: nat)
    | HoldsOther(found: Stamp)

  datatype Written = Written(events: nat, bytes: nat)

  function StampsIn(stamps: seq<Stamp>): set<Stamp> {
    set s | s in stamps
  }

  /** GROUP BY dt, hr over the staged file: no group, one group of hour h, or a mismatch. */
  function VerifyHour(stamps: seq<Stamp>, h: Hour): Result<nat, Mismatch> {
    var groups := StampsIn(stamps);
    if groups == {} then Ok(0)
    else if |groups| > 1 then Err(SpansPartitions(|groups|))
    else if stamps[0] != Some(h) then Err(HoldsOther(stamps[0]))
    else Ok(|stamps|)
  }

  ghost predicate OnlyHolds(stamps: seq<Stamp>, h: Hour) {
    forall i :: 0 <= i < |stamps| ==> stamps[i] == Some(h)
  }

  lemma VerifyHourGroups(stamps: seq<Stamp>)
    ensures stamps == [] <==> StampsIn(stamps) == {}
    ensures stamps != [] && |StampsIn(stamps)| <= 1 ==> StampsIn(stamps) == {stamps[0]}
  {
    if stamps != [] {
      assert stamps[0] in StampsIn(stamps);
      assert |StampsIn(stamps)| == |StampsIn(stamps) - {stamps[0]}| + 1;
    }
  }

  /** The check passes exactly when every row belongs to the hour, and then counts them all. */
  lemma VerifyHourMeans(stamps: seq<Stamp>, h: Hour)
    ensures VerifyHour(stamps, h).Ok? <==> OnlyHolds(stamps, h)
    ensures VerifyHour(stamps, h).Ok? ==> VerifyHour(stamps, h).value == |stamps|
  {
    VerifyHourGroups(stamps);
    forall i | 0 <= i < |stamps|
      ensures stamps[i] in StampsIn(stamps)
    {
    }
    if OnlyHolds(stamps, h) && stamps != [] {
      assert StampsIn(stamps) == {Some(h)};
    }
  }

  /** Converting a source into the file of hour h, or refusing to. */
  function Convert(source: Source, h: Hour): Result<LakeFile, Mismatch> {
    match source
    case Garbled(detail) => Err(Untrustworthy(detail))
    case Readable(stamps, bytes) =>
      match VerifyHour(stamps, h)
      case Err(e) => Err(e)
      case Ok(_) => Ok(LakeFile(stamps, bytes))
  }

  function MismatchDetail(e: Mismatch): string {
    match e
    case Untrustworthy(detail) => detail
    case SpansPartitions(_) => "spans partitions"
    case HoldsOther(_) => "contains another hour"
  }

  class LakeDir {
    var files: map<Hour, LakeFile>
    var parts: map<Hour, LakeFile>

    constructor ()
      ensures files == map[] && parts == map[]
    {
      files := map[];
      parts := map[];
    }

    /** Stage, check, replace: the partition holds the previous whole hour or this one. */
    method WriteHour(source: Source, h: Hour) returns (r: Result<Written, Mismatch>)
      modifies this
      ensures parts == old(parts) - {h}
      ensures Convert(source, h).Err? ==> r == Err(Convert(source, h).error) && files == old(files)
      ensures Convert(source, h).Ok? ==>
        var file := Convert(source, h).value;
        r == Ok(Written(|file.stamps|, file.size)) && files == old(files)[h := file]
    {
      VerifyHourMeansWhenReadable(source, h);
      match source {
        case Garbled(detail) =>
          parts := parts - {h};
          return Err(Untrustworthy(detail));
        case Readable(stamps, bytes) =>
          parts := parts[h := LakeFile(stamps, bytes)];
          var checked := VerifyHour(parts[h].stamps, h);
          if checked.Err? {
            parts := parts - {h};
            assert parts == old(parts) - {h};
            return Err(checked.error);
          }
          var size := parts[h].size;
          files := files[h := parts[h]];
          parts := parts - {h};
          assert parts == old(parts) - {h};
          return Ok(Written(checked.value, size));
      }
    }
  }

  lemma VerifyHourMeansWhenReadable(source: Source, h: Hour)
    ensures source.Readable? && VerifyHour(source.stamps, h).Ok?
            ==> VerifyHour(source.stamps, h).value == |source.stamps|
  {
    if source.Readable? {
      VerifyHourMeans(source.stamps, h);
    }
  }
}
