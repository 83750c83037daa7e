/**
  The viewer-side reshaping of the three released tables it reads back: the
  deciles table gets a display label and its displayed scale, the measures
  table is split into one table per stratification dimension, and the top
  codes table is ranked from 1.
*/
module Reshape {
  import opened Wrappers
  import opened Text
  import opened Rows
  import opened Deciles

  // ---------------------------------------------------------------------------
  // Deciles: label, rescale, keep the shown bands.

  datatype Label = Percentile | Decile | Median

  datatype LabelledDecile = LabelledDecile(date: Date, percentile: int, value: real, band: Label)

  /** Every multiple of 10 other than 0 and 100, including those below 0 and above 100. */
  predicate IsDecile(p: int) {
    p != 0 && p != 100 && p % 10 == 0
  }

  /**
    The label the three successive writes leave: Percentile everywhere, then
    Decile on the deciles, then Median on 50 (which is also a decile).
  */
  function LabelOf(p: int): (l: Label)
    ensures l == Median <==> p == 50
    ensures l == Decile <==> IsDecile(p) && p != 50
    ensures l == Percentile <==> !IsDecile(p)
  {
    if p == 50 then Median else if IsDecile(p) then Decile else Percentile
  }

  /** Values are shown divided by 10, except for the HbA1c mean-tests measure. */
  function ShownValue(v: real, scaleDown: bool): real {
    if scaleDown then v / 10.0 else v
  }

  function ScalesDown(url: string): bool {
    !Contains(url, "hba1c_diab_mean_tests")
  }

  /** Every row with its label and its shown value, before the filter. */
  function Labelled(table: seq<DecileRow>, scaleDown: bool): (r: seq<LabelledDecile>)
    ensures |r| == |table|
  {
    seq(|table|, k requires 0 <= k < |table| =>
      LabelledDecile(table[k].date, table[k].percentile, ShownValue(table[k].value, scaleDown),
                     LabelOf(table[k].percentile)))
  }

  /** The rows not labelled Percentile, in order. */
  function KeepShown(rows: seq<LabelledDecile>): (r: seq<LabelledDecile>)
    ensures |r| <= |rows|
  {
    if rows == [] then []
    else (if rows[0].band != Percentile then [rows[0]] else []) + KeepShown(rows[1..])
  }

  function ShownDeciles(table: seq<DecileRow>, scaleDown: bool): seq<LabelledDecile> {
    KeepShown(Labelled(table, scaleDown))
  }

  /** The deciles table as read back: three label writes, the rescale, the filter. */
  method GetDecilesTable(table: seq<DecileRow>, url: string) returns (shown: seq<LabelledDecile>)
    ensures shown == ShownDeciles(table, ScalesDown(url))
  {
    var labelled := LabelRows(table);
    var scaled := labelled;
    if ScalesDown(url) {
      scaled := DivideValues(labelled);
    }
    assert scaled == Labelled(table, ScalesDown(url));
    shown := KeepShown(scaled);
  }

  /** Three passes: every row labelled Percentile, then Decile where the percentile is a decile, then Median at 50. */
  method LabelRows(table: seq<DecileRow>) returns (labelled: seq<LabelledDecile>)
    ensures labelled == Labelled(table, false)
  {
    var a := new LabelledDecile[|table|];
    forall k | 0 <= k < a.Length {
      a[k] := LabelledDecile(table[k].date, table[k].percentile, table[k].value, Percentile);
    }
    forall k | 0 <= k < a.Length && IsDecile(a[k].percentile) {
      a[k] := a[k].(band := Decile);
    }
    forall k | 0 <= k < a.Length && a[k].percentile == 50 {
      a[k] := a[k].(band := Median);
    }
    labelled := a[..];
    assert forall k :: 0 <= k < |table| ==> labelled[k] == Labelled(table, false)[k];
  }

  /** Every value divided by 10. */
  method DivideValues(rows: seq<LabelledDecile>) returns (scaled: seq<LabelledDecile>)
    ensures |scaled| == |rows|
    ensures forall k :: 0 <= k < |rows| ==> scaled[k] == rows[k].(value := rows[k].value / 10.0)
  {
    var a := new LabelledDecile[|rows|];
    forall k | 0 <= k < a.Length {
      a[k] := rows[k].(value := rows[k].value / 10.0);
    }
    scaled := a[..];
  }

  lemma {:induction false} KeepShownConcat(a: seq<LabelledDecile>, b: seq<LabelledDecile>)
    ensures KeepShown(a + b) == KeepShown(a) + KeepShown(b)
  {
    if a != [] {
      assert (a + b)[1..] == a[1..] + b;
      KeepShownConcat(a[1..], b);
    } else {
      assert a + b == b;
    }
  }

  /** The filter keeps a row exactly when its label is not Percentile. */
  lemma {:induction false} KeepShownMembership(rows: seq<LabelledDecile>, x: LabelledDecile)
    ensures x in KeepShown(rows) <==> x in rows && x.band != Percentile
  {
    if rows != [] {
      KeepShownMembership(rows[1..], x);
      assert rows == [rows[0]] + rows[1..];
    }
  }

  /**
    A shown row is an input row with a decile percentile, labelled Median
    exactly at 50, its value divided by 10 unless the measure is exempt;
    every input row with a decile percentile is shown; and the rows keep their
    input order, the filter distributing over concatenation.
  */
  lemma ShownDecilesMembership(table: seq<DecileRow>, scaleDown: bool, x: LabelledDecile)
    ensures x in ShownDeciles(table, scaleDown) <==>
      exists k :: 0 <= k < |table| && IsDecile(table[k].percentile)
        && x == LabelledDecile(table[k].date, table[k].percentile, ShownValue(table[k].value, scaleDown),
                               LabelOf(table[k].percentile))
  {
    var l := Labelled(table, scaleDown);
    KeepShownMembership(l, x);
    if x in l {
      var k :| 0 <= k < |l| && l[k] == x;
    }
    if exists k :: 0 <= k < |table| && IsDecile(table[k].percentile)
        && x == LabelledDecile(table[k].date, table[k].percentile, ShownValue(table[k].value, scaleDown),
                               LabelOf(table[k].percentile)) {
      var k :| 0 <= k < |table| && IsDecile(table[k].percentile)
        && x == LabelledDecile(table[k].date, table[k].percentile, ShownValue(table[k].value, scaleDown),
                               LabelOf(table[k].percentile));
      assert l[k] == x;
    }
  }

  lemma ShownDecilesConcat(a: seq<DecileRow>, b: seq<DecileRow>, scaleDown: bool)
    ensures ShownDeciles(a + b, scaleDown) == ShownDeciles(a, scaleDown) + ShownDeciles(b, scaleDown)
  {
    assert Labelled(a + b, scaleDown) == Labelled(a, scaleDown) + Labelled(b, scaleDown);
    KeepShownConcat(Labelled(a, scaleDown), Labelled(b, scaleDown));
  }

  /** No row labelled Percentile survives. */
  lemma NoPercentileShown(table: seq<DecileRow>, scaleDown: bool)
    ensures forall x :: x in ShownDeciles(table, scaleDown) ==> x.band != Percentile
  {
    forall x | x in ShownDeciles(table, scaleDown) ensures x.band != Percentile {
      KeepShownMembership(Labelled(table, scaleDown), x);
    }
  }

  // ---------------------------------------------------------------------------
  // The measures table, split by dimension.

  /** One cell of a stratification column as read from CSV. */
  datatype Cell = Null | Num(x: real) | Str(s: string)

  /**
    One row of the measures table: the five fixed columns and the cells of the
    remaining columns, keyed by column name.
  */
  datatype MeasuresRow = MeasuresRow(
    measure: string,
    intervalStart: Date,
    ratio: Option<real>,
    numerator: Option<real>,
    denominator: Option<real>,
    cells: map<string, Cell>)

  /** The columns outside `measure, interval_start, ratio, numerator, denominator`, and the rows. */
  datatype MeasuresTable = MeasuresTable(dimensions: set<string>, rows: seq<MeasuresRow>)

  const FixedHeaders: set<string> := {"measure", "interval_start", "ratio", "numerator", "denominator"}

  /** Every row has a cell in every dimension column, and no dimension is a fixed header. */
  ghost predicate WellFormed(t: MeasuresTable) {
    && t.dimensions !! FixedHeaders
    && forall i :: 0 <= i < |t.rows| ==> t.rows[i].cells.Keys == t.dimensions
  }

  /** One row of a dimension table: the five fixed columns and the dimension's column. */
  datatype DimensionRow = DimensionRow(
    measure: string,
    intervalStart: Date,
    ratio: Option<real>,
    numerator: Option<real>,
    denominator: Option<real>,
    value: Cell)

  /** The ethnicity codes 1 to 5 replaced by their names; other values pass through. */
  function EthnicityLabel(c: Cell): (r: Cell)
    ensures c == Num(1.0) ==> r == Str("White")
    ensures c == Num(2.0) ==> r == Str("Mixed")
    ensures c == Num(3.0) ==> r == Str("Asian or Asian British")
    ensures c == Num(4.0) ==> r == Str("Black or Black British")
    ensures c == Num(5.0) ==> r == Str("Chinese or Other Ethnic Groups")
    ensures c !in {Num(1.0), Num(2.0), Num(3.0), Num(4.0), Num(5.0)} ==> r == c
  {
    match c
    case Num(x) =>
      if x == 1.0 then Str("White")
      else if x == 2.0 then Str("Mixed")
      else if x == 3.0 then Str("Asian or Asian British")
      else if x == 4.0 then Str("Black or Black British")
      else if x == 5.0 then Str("Chinese or Other Ethnic Groups")
      else c
    case _ => c
  }

  function Percentage(ratio: Option<real>): Option<real> {
    match ratio
    case Some(v) => Some(v * 100.0)
    case None => None
  }

  /** A row as it appears in the table of `dim`. */
  function DimensionRowOf(r: MeasuresRow, dim: string): DimensionRow
    requires dim in r.cells
  {
    DimensionRow(r.measure, r.intervalStart, Percentage(r.ratio), r.numerator, r.denominator,
                 if dim == "ethnicity" then EthnicityLabel(r.cells[dim]) else r.cells[dim])
  }

  /** The rows where `dim` is not null, cut down to the columns of its table. */
  function SelectRows(rows: seq<MeasuresRow>, dim: string): (r: seq<DimensionRow>)
    requires forall i :: 0 <= i < |rows| ==> dim in rows[i].cells
    ensures |r| <= |rows|
  {
    if rows == [] then []
    else
      (if rows[0].cells[dim] != Null
       then [DimensionRow(rows[0].measure, rows[0].intervalStart, rows[0].ratio, rows[0].numerator,
                          rows[0].denominator, rows[0].cells[dim])]
       else [])
      + SelectRows(rows[1..], dim)
  }

  /** The table of one dimension after the ratio and ethnicity rewrites. */
  function DimensionTable(rows: seq<MeasuresRow>, dim: string): (r: seq<DimensionRow>)
    requires forall i :: 0 <= i < |rows| ==> dim in rows[i].cells
  {
    if rows == [] then []
    else (if rows[0].cells[dim] != Null then [DimensionRowOf(rows[0], dim)] else [])
         + DimensionTable(rows[1..], dim)
  }

  /** The dimension tables, by column name, as `_get_measures_tables` yields them. */
  ghost function DimensionTables(t: MeasuresTable): map<string, seq<DimensionRow>>
    requires WellFormed(t)
  {
    map dim | dim in t.dimensions :: DimensionTable(t.rows, dim)
  }

  /** Rewrites the selected rows as the loop body does: ratio times 100, then the ethnicity labels. */
  method RewriteRows(selected: seq<DimensionRow>, dim: string) returns (table: seq<DimensionRow>)
    ensures |table| == |selected|
    ensures forall k :: 0 <= k < |selected| ==>
      table[k] == selected[k].(ratio := Percentage(selected[k].ratio),
                               value := if dim == "ethnicity" then EthnicityLabel(selected[k].value)
                                        else selected[k].value)
  {
    var a := new DimensionRow[|selected|];
    forall k | 0 <= k < a.Length {
      a[k] := selected[k].(ratio := Percentage(selected[k].ratio));
    }
    if dim == "ethnicity" {
      forall k | 0 <= k < a.Length {
        a[k] := a[k].(value := EthnicityLabel(a[k].value));
      }
    }
    table := a[..];
  }

  /** Selecting and then rewriting is the dimension table. */
  lemma {:induction false} RewriteSelected(rows: seq<MeasuresRow>, dim: string, table: seq<DimensionRow>)
    requires forall i :: 0 <= i < |rows| ==> dim in rows[i].cells
    requires |table| == |SelectRows(rows, dim)|
    requires forall k :: 0 <= k < |table| ==>
      var s := SelectRows(rows, dim)[k];
      table[k] == s.(ratio := Percentage(s.ratio),
                     value := if dim == "ethnicity" then EthnicityLabel(s.value) else s.value)
    ensures table == DimensionTable(rows, dim)
  {
    if rows != [] {
      var head := if rows[0].cells[dim] != Null then 1 else 0;
      var sel := SelectRows(rows, dim);
      var rest := SelectRows(rows[1..], dim);
      assert sel[head..] == rest;
      var tail := table[head..];
      forall k | 0 <= k < |tail|
        ensures var s := rest[k];
          tail[k] == s.(ratio := Percentage(s.ratio),
                        value := if dim == "ethnicity" then EthnicityLabel(s.value) else s.value)
      {
        assert tail[k] == table[k + head] && sel[k + head] == rest[k];
      }
      RewriteSelected(rows[1..], dim, tail);
      if head == 1 {
        assert table[0] == DimensionRowOf(rows[0], dim);
        assert table == [table[0]] + tail;
      } else {
        assert table == tail;
      }
    }
  }

  /** One table per dimension column, built by the loop over `measures_headers`. */
  method GetMeasuresTables(t: MeasuresTable) returns (tables: map<string, seq<DimensionRow>>)
    requires WellFormed(t)
    ensures tables == DimensionTables(t)
  {
    tables := map[];
    var remaining := t.dimensions;
    while remaining != {}
      invariant remaining <= t.dimensions
      invariant tables.Keys == t.dimensions - remaining
      invariant forall dim :: dim in tables ==> tables[dim] == DimensionTable(t.rows, dim)
      decreases |remaining|
    {
      var dim :| dim in remaining;
      var selected := SelectRows(t.rows, dim);
      var table := RewriteRows(selected, dim);
      RewriteSelected(t.rows, dim, table);
      tables := tables[dim := table];
      remaining := remaining - {dim};
    }
  }

  lemma {:induction false} DimensionTableConcat(a: seq<MeasuresRow>, b: seq<MeasuresRow>, dim: string)
    requires forall i :: 0 <= i < |a| ==> dim in a[i].cells
    requires forall i :: 0 <= i < |b| ==> dim in b[i].cells
    ensures DimensionTable(a + b, dim) == DimensionTable(a, dim) + DimensionTable(b, dim)
  {
    if a != [] {
      assert (a + b)[1..] == a[1..] + b;
      DimensionTableConcat(a[1..], b, dim);
    } else {
      assert a + b == b;
    }
  }

  /**
    A dimension table holds exactly the rows whose cell in that column is not
    null, with ratio times 100, the other fixed columns unchanged and the
    column's value relabelled only for ethnicity.
  */
  lemma {:induction false} DimensionTableMembership(rows: seq<MeasuresRow>, dim: string, d: DimensionRow)
    requires forall i :: 0 <= i < |rows| ==> dim in rows[i].cells
    ensures d in DimensionTable(rows, dim) <==>
      exists i :: 0 <= i < |rows| && rows[i].cells[dim] != Null && d == DimensionRowOf(rows[i], dim)
  {
    if rows != [] {
      DimensionTableMembership(rows[1..], dim, d);
      if exists i :: 0 <= i < |rows[1..]| && rows[1..][i].cells[dim] != Null && d == DimensionRowOf(rows[1..][i], dim) {
        var i :| 0 <= i < |rows[1..]| && rows[1..][i].cells[dim] != Null && d == DimensionRowOf(rows[1..][i], dim);
        assert rows[i + 1] == rows[1..][i];
      }
      if exists i :: 0 <= i < |rows| && rows[i].cells[dim] != Null && d == DimensionRowOf(rows[i], dim) {
        var i :| 0 <= i < |rows| && rows[i].cells[dim] != Null && d == DimensionRowOf(rows[i], dim);
        if i > 0 {
          assert rows[1..][i - 1] == rows[i];
        }
      }
    }
  }

  // ---------------------------------------------------------------------------
  // Top codes, ranked from 1.

  datatype Ranked<T> = Ranked(rank: nat, row: T)

  function Unranked<T>(ranked: seq<Ranked<T>>): (r: seq<T>)
    ensures |r| == |ranked|
  {
    seq(|ranked|, k requires 0 <= k < |ranked| => ranked[k].row)
  }

  /**
    The index replaced by the ranks 1 to n: the rows and their order
    are kept and the ranks run 1, 2, ..., n.
  */
  function RankRows<T>(rows: seq<T>): (r: seq<Ranked<T>>)
    ensures |r| == |rows|
    ensures Unranked(r) == rows
    ensures forall k :: 0 <= k < |r| ==> r[k].rank == k + 1
  {
    seq(|rows|, k requires 0 <= k < |rows| => Ranked(k + 1, rows[k]))
  }
}
