/** The data frame held by the service: named columns of cells, and its row preview. */
module Tables {
  import opened Outcomes

  /** One cell as the CSV reader produces it: a number, a piece of text, or missing (NaN). */
  datatype Cell = Num(x: real) | Str(s: string) | Missing

  datatype Column = Column(name: string, cells: seq<Cell>)

  /** Columns in the order the file gave them. */
  datatype Table = Table(columns: seq<Column>)

  /** One entry of a `to_dict(orient='records')` row: column name and cell. */
  datatype Field = Field(column: string, value: Cell)

  type Record = seq<Field>

  /** Number of rows shown by the upload and clean replies (`df.head(10)`). */
  const PreviewRows: nat := 10

  function RowCount(t: Table): nat {
    if |t.columns| == 0 then 0 else |t.columns[0].cells|
  }

  function ColumnNames(t: Table): seq<string> {
    seq(|t.columns|, k requires 0 <= k < |t.columns| => t.columns[k].name)
  }

  /** What `pd.read_csv` guarantees: equally long columns with distinct names. */
  predicate WellFormed(t: Table) {
    && (forall k :: 0 <= k < |t.columns| ==> |t.columns[k].cells| == RowCount(t))
    && (forall i, j :: 0 <= i < j < |t.columns| ==> t.columns[i].name != t.columns[j].name)
  }

  /** Two tables with the same column names, in the same order, and the same column lengths. */
  predicate SameShape(a: Table, b: Table) {
    && |a.columns| == |b.columns|
    && forall k :: 0 <= k < |a.columns| ==>
         a.columns[k].name == b.columns[k].name && |a.columns[k].cells| == |b.columns[k].cells|
  }

  lemma SameShapeKeepsWellFormed(a: Table, b: Table)
    requires WellFormed(a) && SameShape(a, b)
    ensures WellFormed(b)
    ensures ColumnNames(b) == ColumnNames(a)
    ensures RowCount(b) == RowCount(a)
  {
  }

  /** Position of `name` in `names`, as `col in df.columns` followed by `df[col]` finds it. */
  function IndexOf(names: seq<string>, name: string): (r: Option<nat>)
    ensures r.None? <==> name !in names
    ensures r.Some? ==> r.value < |names| && names[r.value] == name
    ensures r.Some? ==> forall i :: 0 <= i < r.value ==> names[i] != name
  {
    if names == [] then None
    else if names[0] == name then Some(0)
    else match IndexOf(names[1..], name)
      case None => None
      case Some(k) => Some(k + 1)
  }

  function SetColumn(t: Table, k: nat, c: Column): Table
    requires k < |t.columns|
  {
    Table(t.columns[k := c])
  }

  /** `df.head(n)`: every column cut to its first n cells. */
  function Head(t: Table, n: nat): Table {
    Table(seq(|t.columns|, k requires 0 <= k < |t.columns| =>
      var c := t.columns[k];
      Column(c.name, c.cells[..if n < |c.cells| then n else |c.cells|])))
  }

  /** `to_dict(orient='records')`: one record per row, fields in column order. */
  function Records(t: Table): seq<Record>
    requires WellFormed(t)
  {
    seq(RowCount(t), i requires 0 <= i < RowCount(t) =>
      seq(|t.columns|, k requires 0 <= k < |t.columns| =>
        Field(t.columns[k].name, t.columns[k].cells[i])))
  }

  /** The `data` part of a reply: the first ten rows of the table as records. */
  function Preview(t: Table): (r: seq<Record>)
    requires WellFormed(t)
    ensures |r| == if RowCount(t) < PreviewRows then RowCount(t) else PreviewRows
    ensures forall i :: 0 <= i < |r| ==> |r[i]| == |t.columns|
    ensures forall i, k :: 0 <= i < |r| && 0 <= k < |t.columns| ==>
      r[i][k] == Field(t.columns[k].name, t.columns[k].cells[i])
  {
    var h := Head(t, PreviewRows);
    assert WellFormed(h) by {
      if |t.columns| > 0 {
        assert RowCount(h) == |h.columns[0].cells|;
      }
    }
    Records(h)
  }
}
