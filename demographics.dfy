/**
  `get_demographic_table`: the rows of the demographic strata, without the
  IMD rows whose IMD is "unknown", projected onto the nine released columns.
*/
module Demographics {
  import opened Wrappers
  import opened Text
  import opened Rows

  const DemographicStrata: seq<string> := ["by_IMD", "by_ethnicity", "by_sex", "by_region"]

  /** A row of the released demographic table. */
  datatype DemographicRow = DemographicRow(
    measure: string,
    intervalStart: Date,
    ratio: Option<real>,
    numerator: nat,
    denominator: nat,
    imd: Option<string>,
    ethnicity: Option<int>,
    sex: Option<string>,
    region: Option<string>)

  /** A missing IMD reads as "", so it is never "unknown". */
  predicate IsUnknownImd(imd: Option<string>) {
    Lower(Strip(imd.GetOr(""))) == "unknown"
  }

  /** The IMD rule is scoped to the IMD stratum. */
  predicate IsUnknownImdRow(row: MeasurementRow) {
    row.measure == "by_IMD" && IsUnknownImd(row.imd)
  }

  /** The rows the released table keeps. */
  predicate Retained(row: MeasurementRow) {
    row.measure in DemographicStrata && !IsUnknownImdRow(row)
  }

  function Project(row: MeasurementRow): DemographicRow {
    DemographicRow(row.measure, row.intervalStart, row.ratio, row.numerator, row.denominator,
                   row.imd, row.ethnicity, row.sex, row.region)
  }

  /** The rows whose measure is one of the four demographic strata, in input order. */
  function SelectStrata(rows: seq<MeasurementRow>): (r: seq<MeasurementRow>)
    ensures |r| <= |rows|
    ensures forall x :: x in r ==> x in rows && x.measure in DemographicStrata
    ensures forall x :: x in rows && x.measure in DemographicStrata ==> x in r
  {
    if rows == [] then []
    else (if rows[0].measure in DemographicStrata then [rows[0]] else []) + SelectStrata(rows[1..])
  }

  /** The rows other than IMD-stratum rows whose IMD reads "unknown", in input order. */
  function DropUnknownImd(rows: seq<MeasurementRow>): (r: seq<MeasurementRow>)
    ensures |r| <= |rows|
    ensures forall x :: x in r ==> x in rows && !IsUnknownImdRow(x)
    ensures forall x :: x in rows && !IsUnknownImdRow(x) ==> x in r
  {
    if rows == [] then []
    else (if IsUnknownImdRow(rows[0]) then [] else [rows[0]]) + DropUnknownImd(rows[1..])
  }

  /** The column selection of the nine released columns. */
  function ProjectColumns(rows: seq<MeasurementRow>): (r: seq<DemographicRow>)
    ensures |r| == |rows|
    ensures forall i :: 0 <= i < |rows| ==> r[i] == Project(rows[i])
  {
    if rows == [] then [] else [Project(rows[0])] + ProjectColumns(rows[1..])
  }

  function GetDemographicTable(rows: seq<MeasurementRow>): seq<DemographicRow> {
    ProjectColumns(DropUnknownImd(SelectStrata(rows)))
  }

  lemma {:induction false} SelectStrataConcat(a: seq<MeasurementRow>, b: seq<MeasurementRow>)
    ensures SelectStrata(a + b) == SelectStrata(a) + SelectStrata(b)
  {
    if a != [] {
      assert (a + b)[1..] == a[1..] + b;
      SelectStrataConcat(a[1..], b);
    } else {
      assert a + b == b;
    }
  }

  lemma {:induction false} DropUnknownImdConcat(a: seq<MeasurementRow>, b: seq<MeasurementRow>)
    ensures DropUnknownImd(a + b) == DropUnknownImd(a) + DropUnknownImd(b)
  {
    if a != [] {
      assert (a + b)[1..] == a[1..] + b;
      DropUnknownImdConcat(a[1..], b);
    } else {
      assert a + b == b;
    }
  }

  lemma {:induction false} ProjectColumnsConcat(a: seq<MeasurementRow>, b: seq<MeasurementRow>)
    ensures ProjectColumns(a + b) == ProjectColumns(a) + ProjectColumns(b)
  {
    if a != [] {
      assert (a + b)[1..] == a[1..] + b;
      ProjectColumnsConcat(a[1..], b);
    } else {
      assert a + b == b;
    }
  }

  /** Order is kept: the table of a concatenation is the concatenation of the tables. */
  lemma DemographicTableConcat(a: seq<MeasurementRow>, b: seq<MeasurementRow>)
    ensures GetDemographicTable(a + b) == GetDemographicTable(a) + GetDemographicTable(b)
  {
    SelectStrataConcat(a, b);
    DropUnknownImdConcat(SelectStrata(a), SelectStrata(b));
    ProjectColumnsConcat(DropUnknownImd(SelectStrata(a)), DropUnknownImd(SelectStrata(b)));
  }

  /** Each row on its own is kept, projected, exactly when it is retained. */
  lemma DemographicTableSingleton(row: MeasurementRow)
    ensures GetDemographicTable([row]) == if Retained(row) then [Project(row)] else []
  {
    assert [row][1..] == [];
  }

  /** A released row is the projection of a retained input row, and every retained row is released. */
  lemma DemographicTableMembership(rows: seq<MeasurementRow>, d: DemographicRow)
    ensures d in GetDemographicTable(rows) <==> exists row :: row in rows && Retained(row) && Project(row) == d
  {
    var kept := DropUnknownImd(SelectStrata(rows));
    if d in GetDemographicTable(rows) {
      var i :| 0 <= i < |kept| && Project(kept[i]) == d;
      assert kept[i] in kept;
    }
    if exists row :: row in rows && Retained(row) && Project(row) == d {
      var row :| row in rows && Retained(row) && Project(row) == d;
      assert row in SelectStrata(rows);
      assert row in kept;
      var i :| 0 <= i < |kept| && kept[i] == row;
      assert GetDemographicTable(rows)[i] == d;
    }
  }

  /** No released row is outside the four strata, and no released IMD row is "unknown". */
  lemma DemographicTableOnlyStrata(rows: seq<MeasurementRow>)
    ensures forall d :: d in GetDemographicTable(rows) ==>
      d.measure in DemographicStrata && !(d.measure == "by_IMD" && IsUnknownImd(d.imd))
  {
    forall d | d in GetDemographicTable(rows)
      ensures d.measure in DemographicStrata && !(d.measure == "by_IMD" && IsUnknownImd(d.imd))
    {
      DemographicTableMembership(rows, d);
    }
  }

  lemma StripSpaces()
    ensures Strip(" Unknown\t") == "Unknown"
  {
    var s := " Unknown\t";
    assert IsSpace(s[0]) && !IsSpace(s[1]);
    assert StripLeft(s) == StripLeft(s[1..]) == s[1..];
    var t := s[1..];
    assert IsSpace(t[|t| - 1]) && !IsSpace(t[|t| - 2]);
    assert StripRight(t) == StripRight(t[..|t| - 1]) == t[..|t| - 1];
    assert t[..|t| - 1] == "Unknown";
  }

  lemma LowerUnknown()
    ensures Lower("Unknown") == "unknown"
  {
    var s, r := "Unknown", Lower("Unknown");
    assert LowerChar(s[0]) == 'u';
    forall i | 1 <= i < 7 ensures r[i] == s[i] {
      assert LowerChar(s[i]) == s[i];
    }
  }

  lemma UnknownWithSpaces()
    ensures IsUnknownImd(Some(" Unknown\t"))
  {
    StripSpaces();
    LowerUnknown();
  }

  /** The IMD rule looks at trimmed, lower-cased text: " Unknown\t" under by_IMD is dropped. */
  lemma UnknownImdRowDropped(row: MeasurementRow)
    requires row.measure == "by_IMD" && row.imd == Some(" Unknown\t")
    ensures GetDemographicTable([row]) == []
  {
    DemographicTableSingleton(row);
    UnknownWithSpaces();
  }

  /** The same IMD text under another stratum is kept. */
  lemma UnknownImdKeptOutsideImdStratum(row: MeasurementRow)
    requires row.measure in ["by_ethnicity", "by_sex", "by_region"]
    ensures GetDemographicTable([row]) == [Project(row)]
  {
    DemographicTableSingleton(row);
  }
}
