/** The `/clean` transformation of backend/app.py: trim text cells, fill gaps in numeric
    columns with the column mean, then replace zeros in the listed clinical columns with the
    column mean. */
module Cleaning {
  import opened Outcomes
  import opened Tables
  import opened Strings

  /** The columns in which a zero stands for a missing measurement, in loop order. */
  const ZeroReplaceCols: seq<string> := ["Glucose", "BloodPressure", "BMI", "Insulin", "SkinThickness"]

  /** A column pandas treats as numeric: no text cell (an all-missing column parses as float). */
  predicate IsNumeric(c: Column) {
    forall i :: 0 <= i < |c.cells| ==> !c.cells[i].Str?
  }

  // ---------------------------------------------------------------------------------------
  // Stage 1: every text cell loses its edge whitespace; numbers and gaps pass through

  function TrimCell(c: Cell): Cell {
    if c.Str? then Str(Strip(c.s)) else c
  }

  function TrimColumn(c: Column): Column {
    Column(c.name, seq(|c.cells|, i requires 0 <= i < |c.cells| => TrimCell(c.cells[i])))
  }

  function TrimTable(t: Table): Table {
    Table(seq(|t.columns|, k requires 0 <= k < |t.columns| => TrimColumn(t.columns[k])))
  }

  // ---------------------------------------------------------------------------------------
  // The column mean, taken over the numbers only: gaps are skipped

  function Sum(cs: seq<Cell>): real {
    if cs == [] then 0.0 else (if cs[0].Num? then cs[0].x else 0.0) + Sum(cs[1..])
  }

  /** Number of cells that hold a number. */
  function Count(cs: seq<Cell>): nat {
    if cs == [] then 0 else (if cs[0].Num? then 1 else 0) + Count(cs[1..])
  }

  /** Number of missing cells. */
  function Gaps(cs: seq<Cell>): nat {
    if cs == [] then 0 else (if cs[0].Missing? then 1 else 0) + Gaps(cs[1..])
  }

  lemma {:induction false} CountPositive(cs: seq<Cell>)
    ensures Count(cs) > 0 <==> exists i :: 0 <= i < |cs| && cs[i].Num?
  {
    if cs != [] {
      CountPositive(cs[1..]);
      if cs[0].Num? {
        assert cs[0].Num?;
      } else {
        assert forall i :: 1 <= i < |cs| ==> cs[i] == cs[1..][i - 1];
      }
    }
  }

  /** The mean of the numbers in `cs`, as a cell: missing (NaN) when there is no number. */
  function MeanCell(cs: seq<Cell>): (m: Cell)
    ensures !m.Str?
    ensures m.Num? <==> exists i :: 0 <= i < |cs| && cs[i].Num?
    ensures m.Num? ==> m.x * (Count(cs) as real) == Sum(cs)
  {
    CountPositive(cs);
    if Count(cs) == 0 then Missing else Num(Sum(cs) / (Count(cs) as real))
  }

  // ---------------------------------------------------------------------------------------
  // Stage 2: in every numeric column, gaps become the mean of that column's numbers

  function FillCell(c: Cell, v: Cell): Cell {
    if c.Missing? then v else c
  }

  function FillCells(cs: seq<Cell>, v: Cell): seq<Cell> {
    seq(|cs|, i requires 0 <= i < |cs| => FillCell(cs[i], v))
  }

  function FillColumn(c: Column): Column {
    Column(c.name, FillCells(c.cells, MeanCell(c.cells)))
  }

  /** Only numeric columns have a mean; text columns keep their gaps. */
  function FillMissing(t: Table): Table {
    Table(seq(|t.columns|, k requires 0 <= k < |t.columns| =>
      var c := t.columns[k]; if IsNumeric(c) then FillColumn(c) else c))
  }

  // ---------------------------------------------------------------------------------------
  // Stage 3: for each listed column present, zeros become the column mean (zeros counted in)

  function ReplaceZeroCell(c: Cell, v: Cell): Cell {
    if c == Num(0.0) then v else c
  }

  function ReplaceZeroColumn(c: Column): Column {
    var v := MeanCell(c.cells);
    Column(c.name, seq(|c.cells|, i requires 0 <= i < |c.cells| => ReplaceZeroCell(c.cells[i], v)))
  }

  /** One turn of the loop: `None` when `Series.mean` raises on a text column. */
  function ZeroStep(t: Table, name: string): Option<Table> {
    match IndexOf(ColumnNames(t), name)
    case None => Some(t)
    case Some(k) =>
      if IsNumeric(t.columns[k]) then Some(SetColumn(t, k, ReplaceZeroColumn(t.columns[k])))
      else None
  }

  /** Where the loop stopped: the table as it stands, and the column it raised on, if any. */
  datatype ZeroPassResult = ZeroPassResult(table: Table, failedAt: Option<string>)

  /** The whole loop over `names`. The assignments made before a failing column stay made. */
  function ZeroPass(t: Table, names: seq<string>): ZeroPassResult
    decreases names
  {
    if names == [] then ZeroPassResult(t, None)
    else match ZeroStep(t, names[0])
      case None => ZeroPassResult(t, Some(names[0]))
      case Some(t') => ZeroPass(t', names[1..])
  }

  /** The pipeline as a whole, on success. */
  function CleanTable(t: Table): Result<Table> {
    var p := ZeroPass(FillMissing(TrimTable(t)), ZeroReplaceCols);
    if p.failedAt.Some? then Err(CleaningFailed(p.failedAt.value)) else Ok(p.table)
  }

  // =======================================================================================
  // Stage 1 properties

  /** Every text cell of `t` is free of edge whitespace. */
  predicate Trimmed(t: Table) {
    forall k, i :: 0 <= k < |t.columns| && 0 <= i < |t.columns[k].cells| && t.columns[k].cells[i].Str? ==>
      NoEdgeSpace(t.columns[k].cells[i].s)
  }

  /** `d` is what trimming may make of `c`: a text cell stays text, loses only whitespace at its
      two ends and keeps none there; any other cell is kept as it is. */
  ghost predicate TrimmedFrom(c: Cell, d: Cell) {
    && (c.Str? <==> d.Str?)
    && (c.Str? ==> var j := StripStart(c.s);
                   && NoEdgeSpace(d.s) && j + |d.s| <= |c.s| && d.s == c.s[j..j + |d.s|]
                   && AllSpace(c.s[..j]) && AllSpace(c.s[j + |d.s|..]))
    && (!c.Str? ==> d == c)
  }

  lemma TrimCellSpec(c: Cell)
    ensures TrimmedFrom(c, TrimCell(c))
  {
    if c.Str? {
      StripIsInfix(c.s);
    }
  }

  /** Trimming keeps the shape and trims every cell as `TrimmedFrom` says. */
  lemma TrimTableSpec(t: Table)
    ensures SameShape(t, TrimTable(t)) && Trimmed(TrimTable(t))
    ensures forall k, i :: 0 <= k < |t.columns| && 0 <= i < |t.columns[k].cells| ==>
      TrimmedFrom(t.columns[k].cells[i], TrimTable(t).columns[k].cells[i])
  {
    forall k, i | 0 <= k < |t.columns| && 0 <= i < |t.columns[k].cells|
      ensures TrimmedFrom(t.columns[k].cells[i], TrimTable(t).columns[k].cells[i])
    {
      TrimCellSpec(t.columns[k].cells[i]);
    }
  }

  /** Trimming a table whose text is already trimmed changes nothing. */
  lemma TrimKeepsTrimmed(t: Table)
    requires Trimmed(t)
    ensures TrimTable(t) == t
  {
    forall k | 0 <= k < |t.columns|
      ensures TrimColumn(t.columns[k]) == t.columns[k]
    {
      var c := t.columns[k];
      forall i | 0 <= i < |c.cells|
        ensures TrimCell(c.cells[i]) == c.cells[i]
      {
        if c.cells[i].Str? { StripKeepsStripped(c.cells[i].s); }
      }
    }
  }

  lemma TrimTableIdempotent(t: Table)
    ensures TrimTable(TrimTable(t)) == TrimTable(t)
  {
    TrimTableSpec(t);
    TrimKeepsTrimmed(TrimTable(t));
  }

  /** A column without text is not touched by trimming. */
  lemma TrimNumericColumn(c: Column)
    requires IsNumeric(c)
    ensures TrimColumn(c) == c
  {
    assert TrimColumn(c).cells == c.cells;
  }

  // =======================================================================================
  // Stage 2 properties

  /** Filling changes only gaps in numeric columns and keeps the shape; a gap becomes the mean
      of the column's numbers; a numeric column with at least one number has no gap left, and
      one without any number stays as it was. */
  lemma FillMissingSpec(t: Table)
    ensures SameShape(t, FillMissing(t))
    ensures forall k :: 0 <= k < |t.columns| && !IsNumeric(t.columns[k]) ==>
      FillMissing(t).columns[k] == t.columns[k]
    ensures forall k, i :: 0 <= k < |t.columns| && 0 <= i < |t.columns[k].cells| ==>
      var c, d := t.columns[k].cells[i], FillMissing(t).columns[k].cells[i];
      && (!c.Missing? ==> d == c)
      && (c.Missing? && IsNumeric(t.columns[k]) ==> d == MeanCell(t.columns[k].cells))
    ensures forall k :: 0 <= k < |t.columns| && IsNumeric(t.columns[k]) ==>
      var c, d := t.columns[k], FillMissing(t).columns[k];
      && ((exists i :: 0 <= i < |c.cells| && c.cells[i].Num?) ==>
            forall i :: 0 <= i < |d.cells| ==> d.cells[i].Num?)
      && ((forall i :: 0 <= i < |c.cells| ==> !c.cells[i].Num?) ==> d == c)
  {
    forall k | 0 <= k < |t.columns| && IsNumeric(t.columns[k])
      ensures var c, d := t.columns[k], FillMissing(t).columns[k];
        (forall i :: 0 <= i < |c.cells| ==> !c.cells[i].Num?) ==> d == c
    {
      var c := t.columns[k];
      if forall i :: 0 <= i < |c.cells| ==> !c.cells[i].Num? {
        assert FillColumn(c).cells == c.cells;
      }
    }
  }

  lemma {:induction false} FillCount(cs: seq<Cell>, x: real)
    ensures Count(FillCells(cs, Num(x))) == Count(cs) + Gaps(cs)
  {
    if cs != [] {
      assert FillCells(cs, Num(x))[1..] == FillCells(cs[1..], Num(x));
      FillCount(cs[1..], x);
    }
  }

  /** `n` copies of `x` added up. */
  function Repeated(n: nat, x: real): real {
    if n == 0 then 0.0 else x + Repeated(n - 1, x)
  }

  lemma {:induction false} RepeatedIsProduct(n: nat, x: real)
    ensures Repeated(n, x) == (n as real) * x
  {
    if n > 0 {
      RepeatedIsProduct(n - 1, x);
      assert (n as real) * x == x + ((n - 1) as real) * x;
    }
  }

  lemma {:induction false} FillSum(cs: seq<Cell>, x: real)
    ensures Sum(FillCells(cs, Num(x))) == Sum(cs) + Repeated(Gaps(cs), x)
  {
    if cs != [] {
      assert FillCells(cs, Num(x))[1..] == FillCells(cs[1..], Num(x));
      FillSum(cs[1..], x);
    }
  }

  /** A total of `n + g` values, `n` of which average to `x` and `g` of which equal `x`,
      still averages to `x`. */
  lemma MeanOfPadded(sum: real, n: real, g: real, x: real, sum': real, n': real)
    requires n > 0.0 && g >= 0.0 && x * n == sum
    requires sum' == sum + g * x && n' == n + g
    ensures sum' / n' == x
  {
    assert sum' == x * n';
  }

  /** The mean of a column with a number, after its gaps are filled with `x`. */
  lemma FillMean(cs: seq<Cell>, x: real)
    requires Count(cs) > 0 && x * (Count(cs) as real) == Sum(cs)
    ensures Count(FillCells(cs, Num(x))) > 0
    ensures Sum(FillCells(cs, Num(x))) / (Count(FillCells(cs, Num(x))) as real) == x
  {
    var f := FillCells(cs, Num(x));
    var g := Gaps(cs);
    FillSum(cs, x);
    FillCount(cs, x);
    RepeatedIsProduct(g, x);
    MeanOfPadded(Sum(cs), Count(cs) as real, g as real, x, Sum(f), Count(f) as real);
  }

  /** Filling gaps with the mean does not move the mean. */
  lemma FillPreservesMean(cs: seq<Cell>)
    ensures MeanCell(FillCells(cs, MeanCell(cs))) == MeanCell(cs)
  {
    var m := MeanCell(cs);
    CountPositive(cs);
    if m.Missing? {
      assert FillCells(cs, m) == cs;
    } else {
      FillMean(cs, m.x);
    }
  }

  // =======================================================================================
  // Stage 3 properties

  /** Zero replacement changes only the zeros, and each becomes the mean of the column's
      numbers with the zeros counted in. */
  lemma ReplaceZeroColumnSpec(c: Column)
    ensures ReplaceZeroColumn(c).name == c.name && |ReplaceZeroColumn(c).cells| == |c.cells|
    ensures IsNumeric(ReplaceZeroColumn(c)) == IsNumeric(c)
    ensures forall i :: 0 <= i < |c.cells| ==>
      ReplaceZeroColumn(c).cells[i] == if c.cells[i] == Num(0.0) then MeanCell(c.cells) else c.cells[i]
  {
    var r := ReplaceZeroColumn(c);
    assert forall i :: 0 <= i < |c.cells| ==> (r.cells[i].Str? <==> c.cells[i].Str?);
  }

  /** Replacing zeros a second time changes nothing: either the mean was itself zero, so
      nothing changed, or no zero is left. */
  /** A zero survives replacement only when the mean it would be replaced by is itself zero,
      and then the column is unchanged. */
  lemma ReplaceZeroLeavesNoZero(c: Column)
    ensures MeanCell(c.cells) != Num(0.0) ==>
      forall i :: 0 <= i < |c.cells| ==> ReplaceZeroColumn(c).cells[i] != Num(0.0)
    ensures MeanCell(c.cells) == Num(0.0) ==> ReplaceZeroColumn(c) == c
  {
    if MeanCell(c.cells) == Num(0.0) {
      assert ReplaceZeroColumn(c).cells == c.cells;
    }
  }

  lemma ReplaceZeroIdempotent(c: Column)
    ensures ReplaceZeroColumn(ReplaceZeroColumn(c)) == ReplaceZeroColumn(c)
  {
    var r := ReplaceZeroColumn(c);
    ReplaceZeroLeavesNoZero(c);
    if MeanCell(c.cells) != Num(0.0) {
      assert ReplaceZeroColumn(r).cells == r.cells;
    }
  }

  /** A column name whose `df[col].mean()` raises: present, and holding text. */
  predicate BadName(t: Table, name: string) {
    match IndexOf(ColumnNames(t), name)
    case None => false
    case Some(k) => !IsNumeric(t.columns[k])
  }

  /** The loop stops first at position j of `names`. */
  predicate FirstBadAt(t: Table, names: seq<string>, j: nat) {
    j < |names| && BadName(t, names[j]) && forall i :: 0 <= i < j ==> !BadName(t, names[i])
  }

  /** Every numeric column named in `names` has its zeros replaced; all else is as it was. */
  function ReplaceListed(t: Table, names: seq<string>): Table {
    Table(seq(|t.columns|, k requires 0 <= k < |t.columns| =>
      var c := t.columns[k];
      if c.name in names && IsNumeric(c) then ReplaceZeroColumn(c) else c))
  }

  /** Same shape, and every column numeric exactly when its partner is. */
  predicate SameKinds(a: Table, b: Table) {
    SameShape(a, b) && forall k :: 0 <= k < |a.columns| ==> IsNumeric(a.columns[k]) == IsNumeric(b.columns[k])
  }

  lemma SameKindsBadName(a: Table, b: Table, name: string)
    requires SameKinds(a, b)
    ensures BadName(a, name) == BadName(b, name)
  {
    assert ColumnNames(a) == ColumnNames(b);
  }

  lemma ReplaceListedKinds(t: Table, names: seq<string>)
    ensures SameKinds(t, ReplaceListed(t, names))
  {
  }

  lemma IndexOfName(t: Table, k: nat)
    requires WellFormed(t) && k < |t.columns|
    ensures IndexOf(ColumnNames(t), t.columns[k].name) == Some(k)
  {
    var names := ColumnNames(t);
    assert names[k] == t.columns[k].name;
  }

  lemma ReplaceListedNone(t: Table)
    ensures ReplaceListed(t, []) == t
  {
    assert ReplaceListed(t, []).columns == t.columns;
  }

  lemma ReplaceListedAbsent(t: Table, name: string, names: seq<string>)
    requires name !in ColumnNames(t)
    ensures ReplaceListed(t, [name] + names) == ReplaceListed(t, names)
  {
    forall k | 0 <= k < |t.columns|
      ensures (t.columns[k].name in [name] + names) == (t.columns[k].name in names)
    {
      assert ColumnNames(t)[k] == t.columns[k].name;
    }
    assert ReplaceListed(t, [name] + names).columns == ReplaceListed(t, names).columns;
  }

  lemma ReplaceListedStep(t: Table, k: nat, names: seq<string>)
    requires WellFormed(t) && k < |t.columns| && IsNumeric(t.columns[k])
    ensures ReplaceListed(SetColumn(t, k, ReplaceZeroColumn(t.columns[k])), names)
         == ReplaceListed(t, [t.columns[k].name] + names)
  {
    var c := t.columns[k];
    var a := ReplaceListed(SetColumn(t, k, ReplaceZeroColumn(c)), names);
    var b := ReplaceListed(t, [c.name] + names);
    ReplaceZeroIdempotent(c);
    assert a.columns[k] == b.columns[k];
    assert a.columns == b.columns;
  }

  /** What the loop over `names`, started on `t`, leaves behind as `p`: it fails exactly when
      some listed column holds text, stopping at the first such name in list order; a column
      named before that name has had its zeros replaced, and everything else is untouched. */
  ghost predicate ZeroPassMeets(t: Table, names: seq<string>, p: ZeroPassResult) {
    && (p.failedAt.None? <==> forall n :: n in names ==> !BadName(t, n))
    && (p.failedAt.None? ==> p.table == ReplaceListed(t, names))
    && (p.failedAt.Some? ==> exists j: nat :: FirstBadAt(t, names, j) && p.failedAt.value == names[j]
                                               && p.table == ReplaceListed(t, names[..j]))
  }

  lemma ZeroPassMeetsAbsentFail(t: Table, name: string, names: seq<string>, p: ZeroPassResult, j: nat)
    requires name !in ColumnNames(t)
    requires FirstBadAt(t, names, j) && p.failedAt == Some(names[j]) && p.table == ReplaceListed(t, names[..j])
    ensures ZeroPassMeets(t, [name] + names, p)
  {
    var all := [name] + names;
    assert !BadName(t, name);
    assert FirstBadAt(t, all, j + 1) by {
      assert all[j + 1] == names[j];
      forall i | 0 <= i < j + 1 ensures !BadName(t, all[i]) {
        if i > 0 { assert all[i] == names[i - 1]; }
      }
    }
    assert all[..j + 1] == [name] + names[..j];
    ReplaceListedAbsent(t, name, names[..j]);
    ZeroPassMeetsFailure(t, all, p, j + 1);
  }

  lemma ZeroPassMeetsAbsent(t: Table, name: string, names: seq<string>, p: ZeroPassResult)
    requires name !in ColumnNames(t) && ZeroPassMeets(t, names, p)
    ensures ZeroPassMeets(t, [name] + names, p)
  {
    if p.failedAt.Some? {
      var j: nat :| FirstBadAt(t, names, j) && p.failedAt.value == names[j] && p.table == ReplaceListed(t, names[..j]);
      ZeroPassMeetsAbsentFail(t, name, names, p, j);
    } else {
      assert !BadName(t, name);
      ReplaceListedAbsent(t, name, names);
    }
  }

  lemma ZeroPassMeetsBad(t: Table, name: string, names: seq<string>)
    requires BadName(t, name)
    ensures ZeroPassMeets(t, [name] + names, ZeroPassResult(t, Some(name)))
  {
    assert FirstBadAt(t, [name] + names, 0);
    assert ([name] + names)[..0] == [];
    ReplaceListedNone(t);
  }

  /** Replacing the zeros of one numeric column keeps the shape, the column kinds and so
      which names make the loop fail. */
  lemma ReplaceOneKeepsKinds(t: Table, k: nat)
    requires WellFormed(t) && k < |t.columns| && IsNumeric(t.columns[k])
    ensures var t' := SetColumn(t, k, ReplaceZeroColumn(t.columns[k]));
      && SameKinds(t, t') && WellFormed(t')
      && !BadName(t, t.columns[k].name)
  {
    var t' := SetColumn(t, k, ReplaceZeroColumn(t.columns[k]));
    ReplaceZeroColumnSpec(t.columns[k]);
    assert SameKinds(t, t');
    SameShapeKeepsWellFormed(t, t');
    IndexOfName(t, k);
  }

  lemma ZeroPassMeetsFailure(t: Table, names: seq<string>, p: ZeroPassResult, j: nat)
    requires FirstBadAt(t, names, j) && p.failedAt == Some(names[j])
    requires p.table == ReplaceListed(t, names[..j])
    ensures ZeroPassMeets(t, names, p)
  {
    assert names[j] in names;
  }

  lemma FirstBadShift(t: Table, t': Table, name: string, names: seq<string>, j: nat)
    requires SameKinds(t, t') && !BadName(t, name) && FirstBadAt(t', names, j)
    ensures FirstBadAt(t, [name] + names, j + 1)
  {
    var all := [name] + names;
    SameKindsBadName(t, t', names[j]);
    assert all[j + 1] == names[j];
    forall i | 0 <= i < j + 1 ensures !BadName(t, all[i]) {
      if i > 0 {
        assert all[i] == names[i - 1];
        SameKindsBadName(t, t', names[i - 1]);
      }
    }
  }

  lemma ZeroPassMeetsReplacedFail(t: Table, k: nat, names: seq<string>, p: ZeroPassResult, j: nat)
    requires WellFormed(t) && k < |t.columns| && IsNumeric(t.columns[k])
    requires var t' := SetColumn(t, k, ReplaceZeroColumn(t.columns[k]));
      FirstBadAt(t', names, j) && p.failedAt == Some(names[j]) && p.table == ReplaceListed(t', names[..j])
    ensures ZeroPassMeets(t, [t.columns[k].name] + names, p)
  {
    var name := t.columns[k].name;
    var t' := SetColumn(t, k, ReplaceZeroColumn(t.columns[k]));
    ReplaceOneKeepsKinds(t, k);
    var all := [name] + names;
    FirstBadShift(t, t', name, names, j);
    assert all[..j + 1] == [name] + names[..j];
    ReplaceListedStep(t, k, names[..j]);
    ZeroPassMeetsFailure(t, all, p, j + 1);
  }

  lemma ZeroPassMeetsReplaced(t: Table, k: nat, names: seq<string>, p: ZeroPassResult)
    requires WellFormed(t) && k < |t.columns| && IsNumeric(t.columns[k])
    requires ZeroPassMeets(SetColumn(t, k, ReplaceZeroColumn(t.columns[k])), names, p)
    ensures ZeroPassMeets(t, [t.columns[k].name] + names, p)
  {
    var t' := SetColumn(t, k, ReplaceZeroColumn(t.columns[k]));
    if p.failedAt.Some? {
      var j: nat :| FirstBadAt(t', names, j) && p.failedAt.value == names[j] && p.table == ReplaceListed(t', names[..j]);
      ZeroPassMeetsReplacedFail(t, k, names, p, j);
    } else {
      ReplaceOneKeepsKinds(t, k);
      forall m ensures BadName(t', m) == BadName(t, m) { SameKindsBadName(t, t', m); }
      ReplaceListedStep(t, k, names);
    }
  }

  /** The loop over `names` as a whole meets `ZeroPassMeets`. */
  lemma {:induction false} ZeroPassSpec(t: Table, names: seq<string>)
    requires WellFormed(t)
    ensures ZeroPassMeets(t, names, ZeroPass(t, names))
    decreases names
  {
    if names == [] {
      ReplaceListedNone(t);
    } else {
      var n, rest := names[0], names[1..];
      assert names == [n] + rest;
      match IndexOf(ColumnNames(t), n)
      case None =>
        ZeroPassSpec(t, rest);
        ZeroPassMeetsAbsent(t, n, rest, ZeroPass(t, rest));
      case Some(k) =>
        if !IsNumeric(t.columns[k]) {
          ZeroPassMeetsBad(t, n, rest);
        } else {
          var t' := SetColumn(t, k, ReplaceZeroColumn(t.columns[k]));
          ReplaceZeroColumnSpec(t.columns[k]);
          assert SameShape(t, t');
          SameShapeKeepsWellFormed(t, t');
          ZeroPassSpec(t', rest);
          ZeroPassMeetsReplaced(t, k, rest, ZeroPass(t', rest));
        }
    }
  }

  /** Whether or not the loop fails, a column not named in `names` keeps every cell,
      zeros included, and the table keeps its shape. */
  lemma ZeroPassLeavesUnlisted(t: Table, names: seq<string>)
    requires WellFormed(t)
    ensures SameKinds(t, ZeroPass(t, names).table)
    ensures forall k :: 0 <= k < |t.columns| && t.columns[k].name !in names ==>
      ZeroPass(t, names).table.columns[k] == t.columns[k]
  {
    ZeroPassSpec(t, names);
    var p := ZeroPass(t, names);
    if p.failedAt.Some? {
      var j: nat :| FirstBadAt(t, names, j) && p.table == ReplaceListed(t, names[..j]);
      ReplaceListedKinds(t, names[..j]);
      forall k | 0 <= k < |t.columns| && t.columns[k].name !in names
        ensures p.table.columns[k] == t.columns[k]
      {
        assert t.columns[k].name !in names[..j];
      }
    } else {
      ReplaceListedKinds(t, names);
    }
  }

  // =======================================================================================
  // The pipeline as a whole

  /** What the three stages do to one column taken alone. */
  function CleanColumn(c: Column): Column {
    if !IsNumeric(c) then TrimColumn(c)
    else if c.name in ZeroReplaceCols then ReplaceZeroColumn(FillColumn(c))
    else FillColumn(c)
  }

  lemma TrimColumnKind(c: Column)
    ensures IsNumeric(TrimColumn(c)) == IsNumeric(c)
  {
    var d := TrimColumn(c);
    assert forall i :: 0 <= i < |c.cells| ==> (d.cells[i].Str? <==> c.cells[i].Str?);
  }

  lemma FillColumnKind(c: Column)
    requires IsNumeric(c)
    ensures IsNumeric(FillColumn(c))
  {
  }

  /** After trimming and filling, each column is its filled self if numeric and its trimmed
      self otherwise, and no column changed kind. */
  lemma FirstStages(t: Table)
    ensures var t2 := FillMissing(TrimTable(t));
      && SameKinds(t, t2)
      && forall k :: 0 <= k < |t.columns| ==>
           t2.columns[k] == if IsNumeric(t.columns[k]) then FillColumn(t.columns[k]) else TrimColumn(t.columns[k])
  {
    var t1 := TrimTable(t);
    forall k | 0 <= k < |t.columns|
      ensures IsNumeric(t1.columns[k]) == IsNumeric(t.columns[k])
      ensures IsNumeric(t.columns[k]) ==> t1.columns[k] == t.columns[k] && IsNumeric(FillColumn(t.columns[k]))
    {
      TrimColumnKind(t.columns[k]);
      if IsNumeric(t.columns[k]) {
        TrimNumericColumn(t.columns[k]);
        FillColumnKind(t.columns[k]);
      }
    }
  }

  /** Cleaning fails exactly when a listed column is present and holds text, and then names
      the first such column in list order. On success the table keeps its shape and every
      column is cleaned on its own, as `CleanColumn` says. */
  lemma CleanTableSpec(t: Table)
    requires WellFormed(t)
    ensures CleanTable(t).Err? <==> exists n :: n in ZeroReplaceCols && BadName(t, n)
    ensures CleanTable(t).Err? ==>
      exists j: nat :: FirstBadAt(t, ZeroReplaceCols, j)
                       && CleanTable(t).error == CleaningFailed(ZeroReplaceCols[j])
    ensures CleanTable(t).Ok? ==>
      var r := CleanTable(t).value;
      && WellFormed(r) && SameShape(t, r)
      && ColumnNames(r) == ColumnNames(t) && RowCount(r) == RowCount(t)
      && forall k :: 0 <= k < |t.columns| ==> r.columns[k] == CleanColumn(t.columns[k])
  {
    var t2 := FillMissing(TrimTable(t));
    FirstStages(t);
    SameShapeKeepsWellFormed(t, t2);
    ZeroPassSpec(t2, ZeroReplaceCols);
    forall n ensures BadName(t2, n) == BadName(t, n) { SameKindsBadName(t, t2, n); }
    var p := ZeroPass(t2, ZeroReplaceCols);
    if p.failedAt.Some? {
      var j: nat :| FirstBadAt(t2, ZeroReplaceCols, j) && p.failedAt.value == ZeroReplaceCols[j];
      assert FirstBadAt(t, ZeroReplaceCols, j);
    } else {
      var r := p.table;
      forall k | 0 <= k < |t.columns|
        ensures r.columns[k] == CleanColumn(t.columns[k])
      {
        var c := t.columns[k];
        if c.name in ZeroReplaceCols {
          IndexOfName(t, k);
        }
      }
      ReplaceListedKinds(t2, ZeroReplaceCols);
      SameShapeKeepsWellFormed(t, r);
    }
  }

  /** In a listed numeric column, every gap and every zero becomes the mean of the column's
      numbers as uploaded, zeros counted in; every other cell is kept. */
  lemma CleanListedColumn(c: Column)
    requires IsNumeric(c) && c.name in ZeroReplaceCols
    ensures |CleanColumn(c).cells| == |c.cells|
    ensures forall i :: 0 <= i < |c.cells| ==>
      CleanColumn(c).cells[i] ==
        if c.cells[i].Missing? || c.cells[i] == Num(0.0) then MeanCell(c.cells) else c.cells[i]
  {
    FillPreservesMean(c.cells);
  }

  /** A sequence of cells with no gap left, unless it holds no number at all. */
  predicate Settled(cs: seq<Cell>) {
    || (forall i :: 0 <= i < |cs| ==> !cs[i].Missing?)
    || (forall i :: 0 <= i < |cs| ==> !cs[i].Num?)
  }

  lemma FillSettles(c: Column)
    ensures Settled(FillColumn(c).cells)
  {
  }

  lemma FillKeepsSettled(c: Column)
    requires Settled(c.cells)
    ensures FillColumn(c) == c
  {
    assert FillColumn(c).cells == c.cells;
  }

  lemma ReplaceZeroKeepsSettled(c: Column)
    requires Settled(c.cells)
    ensures Settled(ReplaceZeroColumn(c).cells)
  {
    var r := ReplaceZeroColumn(c);
    if !(forall i :: 0 <= i < |c.cells| ==> !c.cells[i].Num?) {
      assert forall i :: 0 <= i < |r.cells| ==> !r.cells[i].Missing?;
    }
  }

  lemma TrimColumnIdempotent(c: Column)
    ensures TrimColumn(TrimColumn(c)) == TrimColumn(c)
  {
    var d := TrimColumn(c);
    forall i | 0 <= i < |c.cells| ensures TrimCell(d.cells[i]) == d.cells[i] {
      if c.cells[i].Str? { StripIdempotent(c.cells[i].s); }
    }
    assert TrimColumn(d).cells == d.cells;
  }

  lemma {:induction false} CleanColumnIdempotent(c: Column)
    ensures CleanColumn(c).name == c.name
    ensures IsNumeric(CleanColumn(c)) == IsNumeric(c)
    ensures CleanColumn(CleanColumn(c)) == CleanColumn(c)
  {
    if !IsNumeric(c) {
      TrimColumnKind(c);
      TrimColumnIdempotent(c);
    } else {
      var f := FillColumn(c);
      FillColumnKind(c);
      FillSettles(c);
      if c.name in ZeroReplaceCols {
        var d := ReplaceZeroColumn(f);
        ReplaceZeroColumnSpec(f);
        ReplaceZeroKeepsSettled(f);
        FillKeepsSettled(d);
        ReplaceZeroIdempotent(f);
      } else {
        FillKeepsSettled(f);
      }
    }
  }

  /** When every listed column present holds no text, cleaning succeeds, and cleaning the
      result again succeeds and changes nothing. */
  lemma CleanIdempotent(t: Table)
    requires WellFormed(t)
    requires forall k :: 0 <= k < |t.columns| && t.columns[k].name in ZeroReplaceCols ==>
      IsNumeric(t.columns[k])
    ensures CleanTable(t).Ok? && CleanTable(CleanTable(t).value) == CleanTable(t)
  {
    CleanTableSpec(t);
    forall n | n in ZeroReplaceCols ensures !BadName(t, n) {
      var i := IndexOf(ColumnNames(t), n);
      if i.Some? {
        assert t.columns[i.value].name == n;
      }
    }
    var u := CleanTable(t).value;
    assert SameKinds(t, u) by {
      forall k | 0 <= k < |t.columns| ensures IsNumeric(u.columns[k]) == IsNumeric(t.columns[k]) {
        CleanColumnIdempotent(t.columns[k]);
      }
    }
    forall n ensures BadName(u, n) == BadName(t, n) { SameKindsBadName(t, u, n); }
    CleanTableSpec(u);
    var v := CleanTable(u).value;
    forall k | 0 <= k < |u.columns| ensures v.columns[k] == u.columns[k] {
      CleanColumnIdempotent(t.columns[k]);
    }
    assert v.columns == u.columns;
  }

  lemma ExampleMean()
    ensures MeanCell([Num(0.0), Num(80.0), Num(90.0), Num(0.0)]) == Num(42.5)
  {
    var cs := [Num(0.0), Num(80.0), Num(90.0), Num(0.0)];
    assert cs[1..] == [Num(80.0), Num(90.0), Num(0.0)];
    assert cs[1..][1..] == [Num(90.0), Num(0.0)];
    assert cs[1..][1..][1..] == [Num(0.0)];
    assert Count(cs) == 4 && Sum(cs) == 170.0;
  }

  lemma ExampleAccepted(c: Column)
    requires IsNumeric(c) && c.name == "Glucose"
    ensures CleanTable(Table([c])).Ok?
    ensures CleanTable(Table([c])).value.columns == [CleanColumn(c)]
  {
    var t := Table([c]);
    assert ColumnNames(t) == ["Glucose"];
    forall n | n in ZeroReplaceCols ensures !BadName(t, n) {
      if n == "Glucose" {
        IndexOfName(t, 0);
      } else {
        assert n !in ColumnNames(t);
      }
    }
    CleanTableSpec(t);
  }

  lemma ExampleColumn()
    ensures CleanColumn(Column("Glucose", [Num(0.0), Num(80.0), Num(90.0), Num(0.0)]))
         == Column("Glucose", [Num(42.5), Num(80.0), Num(90.0), Num(42.5)])
  {
    var c := Column("Glucose", [Num(0.0), Num(80.0), Num(90.0), Num(0.0)]);
    ExampleMean();
    assert IsNumeric(c) && c.name in ZeroReplaceCols;
    CleanListedColumn(c);
    var d := CleanColumn(c);
    assert d.name == "Glucose";
    assert d.cells[0] == Num(42.5) && d.cells[1] == Num(80.0);
    assert d.cells[2] == Num(90.0) && d.cells[3] == Num(42.5);
    assert d.cells == [Num(42.5), Num(80.0), Num(90.0), Num(42.5)];
  }

  /** A listed column [0, 80, 90, 0]: the zeros are averaged into the mean that replaces them,
      giving 42.5, because the gap-filling stage runs before zero replacement. */
  lemma ZerosAveragedIn()
    ensures CleanTable(Table([Column("Glucose", [Num(0.0), Num(80.0), Num(90.0), Num(0.0)])]))
         == Ok(Table([Column("Glucose", [Num(42.5), Num(80.0), Num(90.0), Num(42.5)])]))
  {
    var c := Column("Glucose", [Num(0.0), Num(80.0), Num(90.0), Num(0.0)]);
    assert IsNumeric(c);
    ExampleAccepted(c);
    ExampleColumn();
    var r := CleanTable(Table([c]));
    assert r.value == Table(r.value.columns);
  }

  lemma PartialFirstStages()
    ensures var t := Table([Column("Glucose", [Num(0.0), Num(2.0)]), Column("BMI", [Str("x"), Str("y")])]);
      FillMissing(TrimTable(t)) == t
  {
    var g := Column("Glucose", [Num(0.0), Num(2.0)]);
    var b := Column("BMI", [Str("x"), Str("y")]);
    var t := Table([g, b]);
    assert NoEdgeSpace(b.cells[0].s) && NoEdgeSpace(b.cells[1].s);
    assert Trimmed(t);
    TrimKeepsTrimmed(t);
    FillKeepsSettled(g);
    assert b.cells[0].Str?;
    assert FillMissing(t).columns == t.columns;
  }

  lemma PartialGlucoseStep()
    ensures var b := Column("BMI", [Str("x"), Str("y")]);
      ZeroStep(Table([Column("Glucose", [Num(0.0), Num(2.0)]), b]), "Glucose")
        == Some(Table([Column("Glucose", [Num(1.0), Num(2.0)]), b]))
  {
    var g := Column("Glucose", [Num(0.0), Num(2.0)]);
    var b := Column("BMI", [Str("x"), Str("y")]);
    var t := Table([g, b]);
    IndexOfName(t, 0);
    assert IsNumeric(g);
    assert g.cells[1..] == [Num(2.0)];
    assert MeanCell(g.cells) == Num(1.0);
    assert ReplaceZeroColumn(g) == Column("Glucose", [Num(1.0), Num(2.0)]);
    assert SetColumn(t, 0, ReplaceZeroColumn(g)) == Table([Column("Glucose", [Num(1.0), Num(2.0)]), b]);
  }

  lemma PartialLaterSteps()
    ensures var t3 := Table([Column("Glucose", [Num(1.0), Num(2.0)]), Column("BMI", [Str("x"), Str("y")])]);
      ZeroPass(t3, ZeroReplaceCols[1..]) == ZeroPassResult(t3, Some("BMI"))
  {
    var t3 := Table([Column("Glucose", [Num(1.0), Num(2.0)]), Column("BMI", [Str("x"), Str("y")])]);
    var z := ZeroReplaceCols;
    assert z[1..][1..] == z[2..];
    assert ColumnNames(t3) == ["Glucose", "BMI"];
    assert ZeroStep(t3, "BloodPressure") == Some(t3);
    IndexOfName(t3, 1);
    assert t3.columns[1].cells[0].Str?;
    assert ZeroStep(t3, "BMI") == None;
    assert ZeroPass(t3, z[2..]) == ZeroPassResult(t3, Some("BMI"));
  }

  /** A failing clean is not rolled back: the loop stops at the text column "BMI", but the
      zeros of "Glucose", visited first, have already been replaced by the mean 1.0. */
  lemma FailedCleanKeepsEarlierColumns()
    ensures
      var t := Table([Column("Glucose", [Num(0.0), Num(2.0)]), Column("BMI", [Str("x"), Str("y")])]);
      ZeroPass(FillMissing(TrimTable(t)), ZeroReplaceCols)
        == ZeroPassResult(Table([Column("Glucose", [Num(1.0), Num(2.0)]), Column("BMI", [Str("x"), Str("y")])]),
                          Some("BMI"))
  {
    PartialFirstStages();
    PartialGlucoseStep();
    PartialLaterSteps();
  }
}
