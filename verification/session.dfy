/** The process-wide state of the service: the global `df` and the two handlers that change it. */
module App {
  import opened Outcomes
  import opened Tables
  import opened Cleaning

  /** The body of a successful upload reply: the column names and the first rows. */
  datatype UploadReply = UploadReply(columns: seq<string>, data: seq<Record>)

  class Session {
    /** The global `df`: no table until the first successful upload. */
    var df: Option<Table>

    ghost predicate Valid()
      reads this
    {
      df.Some? ==> WellFormed(df.value)
    }

    constructor ()
      ensures Valid() && df == None
    {
      df := None;
    }

    /** `upload_csv`. `parsed` is what `pd.read_csv` made of the request's file, or `None` when
        the request had no file or the reader raised; then the table held is left as it was. */
    method Upload(parsed: Option<Table>) returns (r: Result<UploadReply>)
      requires Valid()
      requires parsed.Some? ==> WellFormed(parsed.value)
      modifies this
      ensures Valid()
      ensures parsed.None? ==> df == old(df) && r == Err(UploadFailed)
      ensures parsed.Some? ==>
        df == parsed && r == Ok(UploadReply(ColumnNames(parsed.value), Preview(parsed.value)))
    {
      if parsed.None? {
        return Err(UploadFailed);
      }
      df := parsed;
      r := Ok(UploadReply(ColumnNames(parsed.value), Preview(parsed.value)));
    }

    /** `clean_data`. Each stage is assigned to `df` as soon as it is done, so a failure in the
        zero-replacement loop leaves `df` trimmed, filled, and with the listed columns before
        the failing one already rewritten. */
    method Clean() returns (r: Result<seq<Record>>)
      requires Valid()
      modifies this
      ensures Valid()
      ensures old(df).None? ==> df == None && r == Err(NoDataUploaded)
      ensures old(df).Some? ==>
        var p := ZeroPass(FillMissing(TrimTable(old(df).value)), ZeroReplaceCols);
        && df == Some(p.table)
        && r == if p.failedAt.Some? then Err(CleaningFailed(p.failedAt.value)) else Ok(Preview(p.table))
      ensures old(df).Some? ==> (r.Ok? <==> CleanTable(old(df).value).Ok?)
      ensures r.Ok? ==> df == Some(CleanTable(old(df).value).value)
    {
      if df.None? {
        return Err(NoDataUploaded);
      }
      var trimmed := TrimTable(df.value);
      TrimTableSpec(df.value);
      SameShapeKeepsWellFormed(df.value, trimmed);
      df := Some(trimmed);

      var filled := FillMissing(trimmed);
      FillMissingSpec(trimmed);
      SameShapeKeepsWellFormed(trimmed, filled);
      df := Some(filled);

      var i := 0;
      while i < |ZeroReplaceCols|
        invariant 0 <= i <= |ZeroReplaceCols|
        invariant df.Some? && WellFormed(df.value)
        invariant ZeroPass(df.value, ZeroReplaceCols[i..]) == ZeroPass(filled, ZeroReplaceCols)
      {
        var col := ZeroReplaceCols[i];
        assert ZeroReplaceCols[i..][1..] == ZeroReplaceCols[i + 1..];
        var k := IndexOf(ColumnNames(df.value), col);
        if k.Some? {
          var c := df.value.columns[k.value];
          if !IsNumeric(c) {
            // `df[col].mean()` raises on a text column
            return Err(CleaningFailed(col));
          }
          ReplaceOneKeepsKinds(df.value, k.value);
          df := Some(SetColumn(df.value, k.value, ReplaceZeroColumn(c)));
        }
        i := i + 1;
      }
      r := Ok(Preview(df.value));
    }
  }
}
