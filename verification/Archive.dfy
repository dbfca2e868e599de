/** The downloaded archive hours: a part file renamed into place when it is complete. */
module Archive {
  import opened Wrappers
  import opened Hours

  /** The (dt, hr) columns of one row, or None for a row with no creation time. */
  type Stamp = Option<Hour>

  /** One compressed source file: its rows as they will convert, or bytes that will not convert. */
  datatype Source =
    | Readable(stamps: seq<Stamp>, parquetBytes: nat)
    | Garbled(detail: string)

  /** What asking the publisher for one hour came to: a body, a refusing status, or a failed exchange. */
  datatype Answer =
    | Body(source: Source)
    | HttpStatus(code: int)
    | NoResponse(kind: string)

  const NOT_FOUND := 404

  class ArchiveDir {
    var files: map<Hour, Source>
    var parts: map<Hour, Source>

    constructor ()
      ensures files == map[] && parts == map[]
    {
      files := map[];
      parts := map[];
    }

    /** Skips the network when the file is there; otherwise a complete body, or nothing, lands. */
    method DownloadHour(h: Hour, answer: Answer) returns (r: Result<Source, Answer>)
      modifies this
      ensures h in old(files) ==> r == Ok(old(files)[h]) && unchanged(this)
      ensures h !in old(files) && answer.Body? ==> r == Ok(answer.source) && files == old(files)[h := answer.source]
      ensures h !in old(files) && !answer.Body? ==> r == Err(answer) && files == old(files)
      ensures h !in old(files) ==> parts == old(parts) - {h}
    {
      if h in files {
        return Ok(files[h]);
      }
      match answer {
        case Body(source) =>
          parts := parts[h := source];
          files := files[h := parts[h]];
          parts := parts - {h};
          assert parts == old(parts) - {h};
          return Ok(source);
        case _ =>
          parts := parts - {h};
          return Err(answer);
      }
    }

    /** Delete a converted source; a filesystem that refuses leaves it there. */
    method DiscardSource(h: Hour, refused: bool)
      modifies this`files
      ensures files == if refused then old(files) else old(files) - {h}
    {
      if !refused {
        files := files - {h};
      }
    }
  }
}
