/** The one-off preparation of the non-timber price table (price_preprocess.py): attach the
    GEP identifiers to every price row by a left merge on the ISO3 code, drop and rename so
    that the label column carries the original code, drop the country name, and move the
    three identifier columns to the front. The filter that would remove rows whose yearly
    prices are all zero is disabled in the source, so no row is removed. */
module PricePreprocess {
  import opened Wrappers
  import opened Tables

  const Iso3: string := "iso3"
  const CountryName: string := "country_name"

  /** The columns taken from the GEP table, in the order they are selected. */
  const GepColumns: seq<string> := [LabelColumn, NameColumn, IdColumn]

  /** The identifier columns that lead the output. */
  const IdColumns: seq<string> := [IdColumn, LabelColumn, NameColumn]
  const IdColumnSet: set<string> := {IdColumn, LabelColumn, NameColumn}

  // ---------------------------------------------------------------------------------------
  // Column lists

  /** The columns of `cols` not in `drop`, in their order. */
  function Without(cols: seq<string>, drop: set<string>): seq<string> {
    if cols == [] then []
    else (if cols[0] in drop then [] else [cols[0]]) + Without(cols[1..], drop)
  }

  /** The kept columns are exactly the columns not dropped. */
  lemma {:induction false} WithoutMembers(cols: seq<string>, drop: set<string>)
    ensures forall c :: c in Without(cols, drop) <==> c in cols && c !in drop
  {
    if cols != [] {
      WithoutMembers(cols[1..], drop);
      assert cols == [cols[0]] + cols[1..];
    }
  }

  /** The column list with `from` renamed to `to`. */
  function RenameIn(cols: seq<string>, from: string, to: string): (r: seq<string>)
    ensures |r| == |cols|
    ensures forall i :: 0 <= i < |cols| ==> r[i] == if cols[i] == from then to else cols[i]
  {
    if cols == [] then []
    else [if cols[0] == from then to else cols[0]] + RenameIn(cols[1..], from, to)
  }

  // ---------------------------------------------------------------------------------------
  // The pandas operations the script uses

  /** The rows of `rows` whose `keyCol` cell equals `key`, in order. Two missing keys are
      equal, as in a pandas merge. A row that matches appears as often as in `rows`, so a
      key carried by k right-hand rows gives k matches. */
  function MatchesOf(key: Cell, rows: seq<Row>, keyCol: string): (ms: seq<Row>)
    ensures forall m :: m in ms ==> m in rows && Get(m, keyCol) == key
    ensures forall r :: r in rows && Get(r, keyCol) == key ==> r in ms
    ensures forall m :: multiset(ms)[m] == if Get(m, keyCol) == key then multiset(rows)[m] else 0
  {
    if rows == [] then []
    else
      assert rows == [rows[0]] + rows[1..];
      (if Get(rows[0], keyCol) == key then [rows[0]] else []) + MatchesOf(key, rows[1..], keyCol)
  }

  /** The right-hand part of a left row that found no match. */
  function MissingCells(cols: seq<string>): Row {
    map c | c in cols :: Missing
  }

  /** What one left row becomes in a left merge: one row per match, in the right table's
      order, or one row with missing right-hand cells when nothing matches. */
  function MergeBlock(l: Row, ms: seq<Row>, rightCols: seq<string>): seq<Row> {
    if ms == [] then [l + MissingCells(rightCols)]
    else seq(|ms|, i requires 0 <= i < |ms| => l + ms[i])
  }

  function LeftMergeRows(left: seq<Row>, right: seq<Row>, leftKey: string, rightKey: string,
                         rightCols: seq<string>): seq<Row>
  {
    if left == [] then []
    else MergeBlock(left[0], MatchesOf(Get(left[0], leftKey), right, rightKey), rightCols)
         + LeftMergeRows(left[1..], right, leftKey, rightKey, rightCols)
  }

  /** `left.merge(right, left_on=leftKey, right_on=rightKey, how='left')`, for tables whose
      column names do not overlap. */
  function LeftMerge(left: Table, right: Table, leftKey: string, rightKey: string): Table {
    Table(left.columns + right.columns,
          LeftMergeRows(left.rows, right.rows, leftKey, rightKey, right.columns))
  }

  function DropRow(r: Row, c: string): Row {
    r - {c}
  }

  /** `t.drop(c, axis=1)`: a KeyError when the column is absent. */
  function Drop(t: Table, c: string): (r: Result<Table, Error>)
    ensures r.Err? <==> c !in t.columns
    ensures r.Err? ==> r.error == ColumnsNotFound([c])
    ensures r.Ok? ==> r.value.columns == Without(t.columns, {c}) && |r.value.rows| == |t.rows|
    ensures r.Ok? ==> forall i :: 0 <= i < |t.rows| ==> r.value.rows[i] == DropRow(t.rows[i], c)
  {
    if c !in t.columns then Err(ColumnsNotFound([c]))
    else Ok(Table(Without(t.columns, {c}),
                  seq(|t.rows|, i requires 0 <= i < |t.rows| => DropRow(t.rows[i], c))))
  }

  function RenameRow(r: Row, from: string, to: string): Row {
    if from in r then (r - {from})[to := r[from]] else r
  }

  /** `t.rename(columns={from: to})`: a name that is not a column is ignored. */
  function Rename(t: Table, from: string, to: string): (r: Table)
    ensures r.columns == RenameIn(t.columns, from, to) && |r.rows| == |t.rows|
    ensures forall i :: 0 <= i < |t.rows| ==> r.rows[i] == RenameRow(t.rows[i], from, to)
  {
    Table(RenameIn(t.columns, from, to),
          seq(|t.rows|, i requires 0 <= i < |t.rows| => RenameRow(t.rows[i], from, to)))
  }

  /** The whole script on the two tables as read: the price table and the GEP table. The
      source merges a price table that has none of the GEP identifier columns; pandas would
      otherwise suffix the clashing names. */
  function Preprocess(prices: Table, gep: Table): Result<Table, Error>
    requires forall c :: c in GepColumns ==> c !in prices.columns
  {
    var ids :- SelectColumns(gep, GepColumns);
    if Iso3 !in prices.columns then Err(ColumnsNotFound([Iso3]))
    else
      var merged := LeftMerge(prices, ids, Iso3, LabelColumn);
      var dropped :- Drop(merged, LabelColumn);
      var renamed := Rename(dropped, Iso3, LabelColumn);
      var named :- Drop(renamed, CountryName);
      SelectColumns(named, IdColumns + Without(named.columns, IdColumnSet))
  }

  // ---------------------------------------------------------------------------------------
  // What the output should be, stated row by row

  /** The output columns: the identifiers, then every price column except the code and the
      country name, in their original order. */
  function OutputColumns(priceColumns: seq<string>): seq<string> {
    IdColumns + Without(priceColumns, {Iso3, CountryName})
  }

  /** The output row made from price row `l` and GEP row `g` (the empty map when `l` matched
      nothing): the label is the price row's code, id and name come from the GEP row, every
      other column from the price row. */
  function ShapeRow(l: Row, g: Row, cols: seq<string>): (r: Row)
    ensures r.Keys == set c | c in cols
  {
    map c | c in cols ::
      if c == LabelColumn then Get(l, Iso3)
      else if c == IdColumn || c == NameColumn then Get(g, c)
      else Get(l, c)
  }

  /** The output rows for one price row. */
  function ExpectedBlock(l: Row, gepRows: seq<Row>, cols: seq<string>): seq<Row> {
    var ms := MatchesOf(Get(l, Iso3), gepRows, LabelColumn);
    if ms == [] then [ShapeRow(l, map[], cols)]
    else seq(|ms|, i requires 0 <= i < |ms| => ShapeRow(l, ms[i], cols))
  }

  function ExpectedRows(left: seq<Row>, gepRows: seq<Row>, cols: seq<string>): seq<Row> {
    if left == [] then []
    else ExpectedBlock(left[0], gepRows, cols) + ExpectedRows(left[1..], gepRows, cols)
  }

  /** The number of output rows a price row yields: its GEP matches, but at least one. */
  function BlockSize(l: Row, gepRows: seq<Row>): nat {
    var k := |MatchesOf(Get(l, Iso3), gepRows, LabelColumn)|;
    if k == 0 then 1 else k
  }

  function ExpectedCount(left: seq<Row>, gepRows: seq<Row>): nat {
    if left == [] then 0 else BlockSize(left[0], gepRows) + ExpectedCount(left[1..], gepRows)
  }

  // ---------------------------------------------------------------------------------------
  // Column lemmas

  lemma {:induction false} WithoutAppend(a: seq<string>, b: seq<string>, drop: set<string>)
    ensures Without(a + b, drop) == Without(a, drop) + Without(b, drop)
  {
    if a == [] {
      assert a + b == b;
    } else {
      var head: seq<string> := if a[0] in drop then [] else [a[0]];
      var x, y := Without(a[1..], drop), Without(b, drop);
      assert a + b != [] && (a + b)[0] == a[0];
      assert (a + b)[1..] == a[1..] + b;
      WithoutAppend(a[1..], b, drop);
      assert Without(a + b, drop) == head + (x + y);
      assert Without(a, drop) == head + x;
      assert head + (x + y) == (head + x) + y;
    }
  }

  lemma WithoutNothing(a: seq<string>, drop: set<string>)
    requires forall c :: c in a ==> c !in drop
    ensures Without(a, drop) == a
  {
  }

  lemma RenameInAppend(a: seq<string>, b: seq<string>, from: string, to: string)
    ensures RenameIn(a + b, from, to) == RenameIn(a, from, to) + RenameIn(b, from, to)
  {
  }

  /** Renaming the code to the label and then dropping the name and the identifiers leaves
      the price columns without the code and the name. */
  lemma {:induction false} OtherColumns(p: seq<string>)
    requires forall c :: c in IdColumns ==> c !in p
    ensures Without(Without(RenameIn(p, Iso3, LabelColumn), {CountryName}), IdColumnSet)
            == Without(p, {Iso3, CountryName})
  {
    if p != [] {
      OtherColumns(p[1..]);
      var ids := IdColumnSet;
      assert RenameIn(p, Iso3, LabelColumn)[1..] == RenameIn(p[1..], Iso3, LabelColumn);
      assert LabelColumn in ids;
      var w := Without(RenameIn(p, Iso3, LabelColumn), {CountryName});
      if p[0] == CountryName {
        assert w == Without(RenameIn(p[1..], Iso3, LabelColumn), {CountryName});
      } else {
        assert w == [RenameIn(p, Iso3, LabelColumn)[0]] + Without(RenameIn(p[1..], Iso3, LabelColumn), {CountryName});
        assert w[1..] == Without(RenameIn(p[1..], Iso3, LabelColumn), {CountryName});
        assert p[0] in p;
      }
    }
  }

  lemma DistinctWithout(a: seq<string>, drop: set<string>)
    requires Distinct(a)
    ensures Distinct(Without(a, drop))
  {
    if a != [] {
      DistinctWithout(a[1..], drop);
      WithoutMembers(a[1..], drop);
      assert forall i :: 0 < i < |a| ==> a[i] in a[1..];
    }
  }

  lemma NamesDiffer()
    ensures LabelColumn != IdColumn && LabelColumn != NameColumn && IdColumn != NameColumn
    ensures CountryName !in IdColumns && Iso3 !in IdColumns && CountryName != Iso3
  {
    assert |LabelColumn| == 15 && |IdColumn| == 12 && |NameColumn| == 14;
    assert |Iso3| == 4 && |CountryName| == 12 && CountryName[0] != IdColumn[0];
  }

  lemma OutputColumnsDistinct(p: seq<string>)
    requires Distinct(p)
    requires forall c :: c in IdColumns ==> c !in p
    ensures Distinct(OutputColumns(p))
  {
    NamesDiffer();
    DistinctWithout(p, {Iso3, CountryName});
    WithoutMembers(p, {Iso3, CountryName});
    var w := Without(p, {Iso3, CountryName});
    var out := OutputColumns(p);
    forall i, j | 0 <= i < j < |out|
      ensures out[i] != out[j]
    {
      if 3 <= i {
        assert out[i] == w[i - 3] && out[j] == w[j - 3];
      } else if 3 <= j {
        assert out[j] == w[j - 3];
        assert out[j] in w;
        assert out[i] in IdColumns;
      }
    }
  }

  /** The column list just before the final selection. */
  lemma NamedColumns(p: seq<string>)
    requires forall c :: c in GepColumns ==> c !in p
    ensures Without(p + GepColumns, {LabelColumn}) == p + [NameColumn, IdColumn]
    ensures RenameIn(p + [NameColumn, IdColumn], Iso3, LabelColumn)
            == RenameIn(p, Iso3, LabelColumn) + [NameColumn, IdColumn]
    ensures Without(RenameIn(p, Iso3, LabelColumn) + [NameColumn, IdColumn], {CountryName})
            == Without(RenameIn(p, Iso3, LabelColumn), {CountryName}) + [NameColumn, IdColumn]
  {
    NamesDiffer();
    var ni := [NameColumn, IdColumn];
    WithoutAppend(p, GepColumns, {LabelColumn});
    WithoutNothing(p, {LabelColumn});
    assert GepColumns == [LabelColumn] + ni;
    WithoutAppend([LabelColumn], ni, {LabelColumn});
    WithoutNothing(ni, {LabelColumn});
    assert [LabelColumn][1..] == [];
    assert Without([LabelColumn], {LabelColumn}) == [];
    assert Without(GepColumns, {LabelColumn}) == ni;
    RenameInAppend(p, ni, Iso3, LabelColumn);
    WithoutAppend(RenameIn(p, Iso3, LabelColumn), ni, {CountryName});
    WithoutNothing(ni, {CountryName});
  }

  lemma NameAndIdAreIds()
    ensures Without([NameColumn, IdColumn], IdColumnSet) == []
  {
    assert NameColumn in IdColumnSet && IdColumn in IdColumnSet;
    assert [NameColumn, IdColumn][1..] == [IdColumn];
    assert [IdColumn][1..] == [];
    assert Without([IdColumn], IdColumnSet) == [];
    assert Without([NameColumn, IdColumn], IdColumnSet) == Without([IdColumn], IdColumnSet);
  }

  /** The final selection asks for the output columns. */
  lemma SelectedColumnsOrder(p: seq<string>)
    requires forall c :: c in GepColumns ==> c !in p
    ensures var named := Without(RenameIn(p, Iso3, LabelColumn), {CountryName}) + [NameColumn, IdColumn];
      IdColumns + Without(named, IdColumnSet) == OutputColumns(p)
  {
    var front := Without(RenameIn(p, Iso3, LabelColumn), {CountryName});
    var ni := [NameColumn, IdColumn];
    WithoutAppend(front, ni, IdColumnSet);
    NameAndIdAreIds();
    OtherColumns(p);
    assert Without(front + ni, IdColumnSet) == Without(p, {Iso3, CountryName}) + [];
  }

  /** A column other than the code and the label is in the renamed list iff it was before. */
  lemma RenameKeeps(p: seq<string>, c: string)
    requires c != Iso3 && c != LabelColumn
    ensures c in RenameIn(p, Iso3, LabelColumn) <==> c in p
  {
    var renamed := RenameIn(p, Iso3, LabelColumn);
    if c in p {
      var k :| 0 <= k < |p| && p[k] == c;
      assert renamed[k] == c;
    }
  }

  /** The final selection finds every column it asks for. */
  lemma SelectedColumnsPresent(p: seq<string>)
    requires forall c :: c in GepColumns ==> c !in p
    requires Iso3 in p
    ensures var named := Without(RenameIn(p, Iso3, LabelColumn), {CountryName}) + [NameColumn, IdColumn];
      forall c :: c in OutputColumns(p) ==> c in named
  {
    NamesDiffer();
    var renamed := RenameIn(p, Iso3, LabelColumn);
    var front := Without(renamed, {CountryName});
    var named := front + [NameColumn, IdColumn];
    WithoutMembers(p, {Iso3, CountryName});
    WithoutMembers(renamed, {CountryName});
    forall c | c in OutputColumns(p) ensures c in named {
      if c == LabelColumn {
        var k :| 0 <= k < |p| && p[k] == Iso3;
        assert renamed[k] == LabelColumn;
        assert LabelColumn in front;
      } else if c !in IdColumns {
        assert c in Without(p, {Iso3, CountryName});
        RenameKeeps(p, c);
        assert c in front;
      }
    }
  }

  // ---------------------------------------------------------------------------------------
  // Row lemmas

  /** The composed row transformation of the script after the merge. */
  function FinalRow(r: Row, cols: seq<string>): Row {
    Restrict(DropRow(RenameRow(DropRow(r, LabelColumn), Iso3, LabelColumn), CountryName), cols)
  }

  function MapFinal(rows: seq<Row>, cols: seq<string>): (r: seq<Row>)
    ensures |r| == |rows|
    ensures forall i :: 0 <= i < |rows| ==> r[i] == FinalRow(rows[i], cols)
  {
    if rows == [] then [] else [FinalRow(rows[0], cols)] + MapFinal(rows[1..], cols)
  }

  lemma MapFinalAppend(a: seq<Row>, b: seq<Row>, cols: seq<string>)
    ensures MapFinal(a + b, cols) == MapFinal(a, cols) + MapFinal(b, cols)
  {
    var x := MapFinal(a + b, cols);
    var y := MapFinal(a, cols) + MapFinal(b, cols);
    assert |x| == |y|;
    forall i | 0 <= i < |x| ensures x[i] == y[i] {
      if i < |a| {
        assert (a + b)[i] == a[i] && y[i] == MapFinal(a, cols)[i];
      } else {
        assert (a + b)[i] == b[i - |a|] && y[i] == MapFinal(b, cols)[i - |a|];
      }
    }
  }

  function RestrictRows(rows: seq<Row>, cols: seq<string>): (r: seq<Row>)
    ensures |r| == |rows|
    ensures forall i :: 0 <= i < |rows| ==> r[i] == Restrict(rows[i], cols)
  {
    if rows == [] then [] else [Restrict(rows[0], cols)] + RestrictRows(rows[1..], cols)
  }

  lemma {:induction false} MatchesOfRestricted(key: Cell, rows: seq<Row>)
    ensures MatchesOf(key, RestrictRows(rows, GepColumns), LabelColumn)
            == RestrictRows(MatchesOf(key, rows, LabelColumn), GepColumns)
  {
    if rows != [] {
      MatchesOfRestricted(key, rows[1..]);
      var rs := RestrictRows(rows, GepColumns);
      assert rs[1..] == RestrictRows(rows[1..], GepColumns);
      assert Get(rs[0], LabelColumn) == Get(rows[0], LabelColumn);
      var rest := MatchesOf(key, rows[1..], LabelColumn);
      if Get(rows[0], LabelColumn) == key {
        assert MatchesOf(key, rows, LabelColumn) == [rows[0]] + rest;
        assert RestrictRows([rows[0]] + rest, GepColumns)[1..] == RestrictRows(rest, GepColumns);
      } else {
        assert MatchesOf(key, rows, LabelColumn) == rest;
      }
    }
  }

  /** One merged row, transformed, is the shaped row. */
  lemma FinalRowShape(l: Row, g: Row, p: seq<string>)
    requires l.Keys == set c | c in p
    requires forall c :: c in GepColumns ==> c !in p
    requires g.Keys == set c | c in GepColumns
    ensures FinalRow(l + g, OutputColumns(p)) == ShapeRow(l, g, OutputColumns(p))
  {
    NamesDiffer();
    var cols := OutputColumns(p);
    var a := FinalRow(l + g, cols);
    var b := ShapeRow(l, g, cols);
    var r1 := DropRow(l + g, LabelColumn);
    var r2 := RenameRow(r1, Iso3, LabelColumn);
    var r3 := DropRow(r2, CountryName);
    WithoutMembers(p, {Iso3, CountryName});
    forall c | c in cols ensures a[c] == b[c] {
      assert a[c] == Get(r3, c);
      if c == LabelColumn {
        if Iso3 in l {
          assert r2[LabelColumn] == l[Iso3];
        } else {
          assert LabelColumn !in r1;
          assert Iso3 !in r1;
        }
      } else if c == IdColumn || c == NameColumn {
        assert Get(r3, c) == Get(g, c);
      } else {
        assert c != Iso3 && c != CountryName;
        assert Get(r3, c) == Get(l, c);
      }
    }
    assert a.Keys == b.Keys;
  }

  /** A shaped row depends on the GEP row only through its id and name. */
  lemma ShapeRowUsesIds(l: Row, g: Row, h: Row, cols: seq<string>)
    requires Get(g, IdColumn) == Get(h, IdColumn) && Get(g, NameColumn) == Get(h, NameColumn)
    ensures ShapeRow(l, g, cols) == ShapeRow(l, h, cols)
  {
    var a := ShapeRow(l, g, cols);
    var b := ShapeRow(l, h, cols);
    forall c | c in cols ensures a[c] == b[c] {
    }
    assert a.Keys == b.Keys;
  }

  lemma BlockShapeUnmatched(l: Row, gepRows: seq<Row>, p: seq<string>)
    requires l.Keys == set c | c in p
    requires forall c :: c in GepColumns ==> c !in p
    requires MatchesOf(Get(l, Iso3), gepRows, LabelColumn) == []
    ensures MapFinal(MergeBlock(l, [], GepColumns), OutputColumns(p))
            == ExpectedBlock(l, gepRows, OutputColumns(p))
  {
    FinalRowShape(l, MissingCells(GepColumns), p);
    ShapeRowUsesIds(l, MissingCells(GepColumns), map[], OutputColumns(p));
  }

  lemma BlockShapeMatched(l: Row, gepRows: seq<Row>, p: seq<string>)
    requires l.Keys == set c | c in p
    requires forall c :: c in GepColumns ==> c !in p
    requires MatchesOf(Get(l, Iso3), gepRows, LabelColumn) != []
    ensures var ms := MatchesOf(Get(l, Iso3), gepRows, LabelColumn);
      MapFinal(MergeBlock(l, RestrictRows(ms, GepColumns), GepColumns), OutputColumns(p))
      == ExpectedBlock(l, gepRows, OutputColumns(p))
  {
    var cols := OutputColumns(p);
    var ms := MatchesOf(Get(l, Iso3), gepRows, LabelColumn);
    var block := MergeBlock(l, RestrictRows(ms, GepColumns), GepColumns);
    var want := ExpectedBlock(l, gepRows, cols);
    forall i | 0 <= i < |ms| ensures MapFinal(block, cols)[i] == want[i] {
      assert block[i] == l + Restrict(ms[i], GepColumns);
      FinalRowShape(l, Restrict(ms[i], GepColumns), p);
      ShapeRowUsesIds(l, Restrict(ms[i], GepColumns), ms[i], cols);
    }
  }

  lemma BlockShape(l: Row, gepRows: seq<Row>, p: seq<string>)
    requires l.Keys == set c | c in p
    requires forall c :: c in GepColumns ==> c !in p
    ensures MapFinal(MergeBlock(l, MatchesOf(Get(l, Iso3), RestrictRows(gepRows, GepColumns), LabelColumn), GepColumns),
                     OutputColumns(p))
            == ExpectedBlock(l, gepRows, OutputColumns(p))
  {
    MatchesOfRestricted(Get(l, Iso3), gepRows);
    if MatchesOf(Get(l, Iso3), gepRows, LabelColumn) == [] {
      BlockShapeUnmatched(l, gepRows, p);
    } else {
      BlockShapeMatched(l, gepRows, p);
    }
  }

  lemma {:induction false} MergedRowsShape(left: seq<Row>, gepRows: seq<Row>, p: seq<string>)
    requires forall l :: l in left ==> l.Keys == set c | c in p
    requires forall c :: c in GepColumns ==> c !in p
    ensures MapFinal(LeftMergeRows(left, RestrictRows(gepRows, GepColumns), Iso3, LabelColumn, GepColumns),
                     OutputColumns(p))
            == ExpectedRows(left, gepRows, OutputColumns(p))
  {
    if left != [] {
      var rs := RestrictRows(gepRows, GepColumns);
      MergedRowsShape(left[1..], gepRows, p);
      BlockShape(left[0], gepRows, p);
      MapFinalAppend(MergeBlock(left[0], MatchesOf(Get(left[0], Iso3), rs, LabelColumn), GepColumns),
                     LeftMergeRows(left[1..], rs, Iso3, LabelColumn, GepColumns), OutputColumns(p));
    }
  }

  /** The rows after the merge, through drop, rename, drop and the final selection. */
  lemma StepsAreFinalRow(merged: Table, cols: seq<string>)
    requires LabelColumn in merged.columns
    requires CountryName in Rename(Drop(merged, LabelColumn).value, Iso3, LabelColumn).columns
    requires forall c :: c in cols ==>
      c in Drop(Rename(Drop(merged, LabelColumn).value, Iso3, LabelColumn), CountryName).value.columns
    ensures SelectColumns(Drop(Rename(Drop(merged, LabelColumn).value, Iso3, LabelColumn), CountryName).value, cols)
            == Ok(Table(cols, MapFinal(merged.rows, cols)))
  {
    var dropped := Drop(merged, LabelColumn).value;
    var renamed := Rename(dropped, Iso3, LabelColumn);
    var named := Drop(renamed, CountryName).value;
    var out := SelectColumns(named, cols);
    assert out.Ok?;
    var rows := out.value.rows;
    var want := MapFinal(merged.rows, cols);
    assert |rows| == |want|;
    forall i | 0 <= i < |merged.rows| ensures rows[i] == want[i] {
      assert dropped.rows[i] == DropRow(merged.rows[i], LabelColumn);
      assert renamed.rows[i] == RenameRow(dropped.rows[i], Iso3, LabelColumn);
      assert named.rows[i] == DropRow(renamed.rows[i], CountryName);
      assert rows[i] == Restrict(named.rows[i], cols);
    }
    assert rows == want;
  }

  // ---------------------------------------------------------------------------------------
  // The script's contract

  /** The script fails exactly when a GEP identifier column, the price code or the country
      name is absent, with the error of the first failing step; otherwise its output has the
      identifier columns first and then the remaining price columns, and its rows are, for
      every price row in order, one shaped row per matching GEP row (one with missing id and
      name when there is none). */
  lemma PreprocessResult(prices: Table, gep: Table)
    requires WellFormed(prices)
    requires forall c :: c in GepColumns ==> c !in prices.columns
    ensures var r := Preprocess(prices, gep);
      && (r.Ok? <==> (forall c :: c in GepColumns ==> c in gep.columns)
                     && Iso3 in prices.columns && CountryName in prices.columns)
      && (MissingColumns(gep.columns, GepColumns) != [] ==>
            r == Err(ColumnsNotFound(MissingColumns(gep.columns, GepColumns))))
      && (MissingColumns(gep.columns, GepColumns) == [] && Iso3 !in prices.columns ==>
            r == Err(ColumnsNotFound([Iso3])))
      && (MissingColumns(gep.columns, GepColumns) == [] && Iso3 in prices.columns
          && CountryName !in prices.columns ==>
            r == Err(ColumnsNotFound([CountryName])))
      && (r.Ok? ==> r.value == Table(OutputColumns(prices.columns),
                                     ExpectedRows(prices.rows, gep.rows, OutputColumns(prices.columns))))
  {
    if SelectColumns(gep, GepColumns).Ok? && Iso3 in prices.columns {
      if CountryName in prices.columns {
        PreprocessOk(prices, gep);
      } else {
        PreprocessNoName(prices, gep);
      }
    }
  }

  /** The steps up to the second drop, when the GEP columns and the code are present. */
  lemma MergedColumns(prices: Table, gep: Table)
    requires forall c :: c in GepColumns ==> c !in prices.columns
    requires SelectColumns(gep, GepColumns).Ok? && Iso3 in prices.columns
    ensures var merged := LeftMerge(prices, SelectColumns(gep, GepColumns).value, Iso3, LabelColumn);
      && Drop(merged, LabelColumn).Ok?
      && Rename(Drop(merged, LabelColumn).value, Iso3, LabelColumn).columns
         == RenameIn(prices.columns, Iso3, LabelColumn) + [NameColumn, IdColumn]
  {
    NamedColumns(prices.columns);
  }

  lemma PreprocessNoName(prices: Table, gep: Table)
    requires forall c :: c in GepColumns ==> c !in prices.columns
    requires SelectColumns(gep, GepColumns).Ok? && Iso3 in prices.columns
    requires CountryName !in prices.columns
    ensures Preprocess(prices, gep) == Err(ColumnsNotFound([CountryName]))
  {
    MergedColumns(prices, gep);
    NamesDiffer();
    RenameKeeps(prices.columns, CountryName);
  }

  lemma PreprocessOk(prices: Table, gep: Table)
    requires WellFormed(prices)
    requires forall c :: c in GepColumns ==> c !in prices.columns
    requires SelectColumns(gep, GepColumns).Ok? && Iso3 in prices.columns
    requires CountryName in prices.columns
    ensures Preprocess(prices, gep)
            == Ok(Table(OutputColumns(prices.columns),
                        ExpectedRows(prices.rows, gep.rows, OutputColumns(prices.columns))))
  {
    var p := prices.columns;
    var ids := SelectColumns(gep, GepColumns).value;
    assert ids.rows == RestrictRows(gep.rows, GepColumns);
    var merged := LeftMerge(prices, ids, Iso3, LabelColumn);
    MergedColumns(prices, gep);
    NamedColumns(p);
    NamesDiffer();
    RenameKeeps(p, CountryName);
    SelectedColumnsOrder(p);
    SelectedColumnsPresent(p);
    StepsAreFinalRow(merged, OutputColumns(p));
    MergedRowsShape(prices.rows, gep.rows, p);
  }

  /** The output has one row per GEP match of each price row, and at least one: a left merge
      removes no price row. */
  lemma {:induction false} ExpectedRowsCount(left: seq<Row>, gepRows: seq<Row>, cols: seq<string>)
    ensures |ExpectedRows(left, gepRows, cols)| == ExpectedCount(left, gepRows)
    ensures ExpectedCount(left, gepRows) >= |left|
  {
    if left != [] {
      ExpectedRowsCount(left[1..], gepRows, cols);
    }
  }

  /** Output row `o` carries price row `l`: exactly the output columns, the code as the
      label, and every other non-identifier cell unchanged. */
  predicate CarriesPriceRow(o: Row, l: Row, cols: seq<string>) {
    && o.Keys == (set c | c in cols)
    && Get(o, LabelColumn) == (if LabelColumn in cols then Get(l, Iso3) else Missing)
    && (forall c :: c in cols && c !in IdColumns ==> o[c] == Get(l, c))
  }

  /** The first row of a price row's block carries it. */
  lemma BlockCarriesPriceRow(l: Row, gepRows: seq<Row>, cols: seq<string>)
    ensures ExpectedBlock(l, gepRows, cols) != []
    ensures CarriesPriceRow(ExpectedBlock(l, gepRows, cols)[0], l, cols)
  {
    NamesDiffer();
  }

  /** Every price row reaches the output with its code as the label and all its other kept
      columns unchanged; in particular a row whose yearly prices are all zero is kept, the
      filter for such rows being disabled. */
  lemma {:induction false} EveryPriceRowKept(left: seq<Row>, gepRows: seq<Row>, cols: seq<string>, l: Row)
    requires l in left
    ensures exists o :: o in ExpectedRows(left, gepRows, cols) && CarriesPriceRow(o, l, cols)
  {
    if l == left[0] {
      BlockCarriesPriceRow(l, gepRows, cols);
      var o := ExpectedBlock(l, gepRows, cols)[0];
      assert o in ExpectedRows(left, gepRows, cols);
    } else {
      EveryPriceRowKept(left[1..], gepRows, cols, l);
      var o :| o in ExpectedRows(left[1..], gepRows, cols) && CarriesPriceRow(o, l, cols);
      assert o in ExpectedRows(left, gepRows, cols);
    }
  }

  /** A price row with a GEP match gets that row's id and name, once per match. */
  lemma MatchedRowGetsIds(l: Row, gepRows: seq<Row>, cols: seq<string>, g: Row)
    requires g in gepRows && Get(g, LabelColumn) == Get(l, Iso3)
    requires IdColumn in cols && NameColumn in cols
    ensures exists o :: o in ExpectedBlock(l, gepRows, cols) && o[IdColumn] == Get(g, IdColumn)
                        && o[NameColumn] == Get(g, NameColumn)
  {
    NamesDiffer();
    var ms := MatchesOf(Get(l, Iso3), gepRows, LabelColumn);
    assert g in ms;
    var i :| 0 <= i < |ms| && ms[i] == g;
    var o := ShapeRow(l, g, cols);
    assert ExpectedBlock(l, gepRows, cols)[i] == o;
    assert o[IdColumn] == Get(g, IdColumn);
  }

  lemma {:induction false} ExpectedRowsKeys(left: seq<Row>, gepRows: seq<Row>, cols: seq<string>)
    ensures forall o :: o in ExpectedRows(left, gepRows, cols) ==> o.Keys == set c | c in cols
  {
    if left != [] {
      ExpectedRowsKeys(left[1..], gepRows, cols);
    }
  }

  /** The output is a well-formed table whose columns are the identifiers followed by the
      kept price columns, and which has no country-name or code column. */
  lemma PreprocessWellFormed(prices: Table, gep: Table)
    requires WellFormed(prices)
    requires forall c :: c in GepColumns ==> c !in prices.columns
    requires Preprocess(prices, gep).Ok?
    ensures var t := Preprocess(prices, gep).value;
      WellFormed(t) && t.columns[..3] == IdColumns && CountryName !in t.columns
      && Iso3 !in t.columns && |t.rows| >= |prices.rows|
  {
    NamesDiffer();
    PreprocessResult(prices, gep);
    WithoutMembers(prices.columns, {Iso3, CountryName});
    var cols := OutputColumns(prices.columns);
    OutputColumnsDistinct(prices.columns);
    ExpectedRowsCount(prices.rows, gep.rows, cols);
    ExpectedRowsKeys(prices.rows, gep.rows, cols);
  }
}
