/**
  The event-count and top-codes aggregation of the measures output: the
  total number of events, the events in the latest period, and the codes
  ranked by their events with their code-list description and their share of
  all events.
*/
module EventCodes {
  import opened Wrappers
  import opened Text
  import opened Rows
  import opened Grouping
  import opened Arithmetic

  // ---------------------------------------------------------------------------
  // Which column holds the events.

  datatype EventsColumn = Numerator | Denominator

  /** Mean measures count their events in the denominator, all others in the numerator. */
  function EventsColumnFor(test: string): (c: EventsColumn)
    ensures c == Denominator <==> Contains(test, "mean")
  {
    if Contains(test, "mean") then Denominator else Numerator
  }

  function EventsIn(row: MeasurementRow, col: EventsColumn): nat {
    match col
    case Numerator => row.numerator
    case Denominator => row.denominator
  }

  // ---------------------------------------------------------------------------
  // The events series: the chosen count column summed per code and date.

  datatype CodeDate = CodeDate(code: string, date: Date)

  function CodeOf(k: CodeDate): string { k.code }

  function DateOf(k: CodeDate): Date { k.date }

  function EventEntries(rows: seq<MeasurementRow>, col: EventsColumn): (r: seq<Entry<CodeDate>>)
    ensures |r| == |rows|
  {
    seq(|rows|, i requires 0 <= i < |rows| =>
      Entry(CodeDate(rows[i].snomedctCode, rows[i].intervalStart), EventsIn(rows[i], col)))
  }

  /**
    The reference the aggregation is judged against: the events column summed
    over the input rows whose code and date satisfy `p`, with no grouping.
  */
  function EventsWhere(rows: seq<MeasurementRow>, col: EventsColumn, p: CodeDate -> bool): nat {
    SumWhere(EventEntries(rows, col), p)
  }

  function Events(rows: seq<MeasurementRow>, col: EventsColumn): seq<Group<CodeDate>> {
    GroupSum(EventEntries(rows, col))
  }

  /** The event counts summed per date, over all codes. */
  function DateTotals(events: seq<Group<CodeDate>>): seq<Group<Date>> {
    GroupSum(Regroup(events, DateOf))
  }

  /** The event counts summed per code, over all dates. */
  function CodeTotals(events: seq<Group<CodeDate>>): seq<Group<string>> {
    GroupSum(Regroup(events, CodeOf))
  }

  /** The first row after sorting the date totals by date, descending. */
  function LatestPeriod(gs: seq<Group<Date>>): (g: Group<Date>)
    requires gs != []
    ensures g in gs
    ensures forall h :: h in gs ==> h.key <= g.key
  {
    if |gs| == 1 then gs[0]
    else
      var rest := LatestPeriod(gs[1..]);
      assert forall h :: h in gs ==> h == gs[0] || h in gs[1..];
      if gs[0].key >= rest.key then gs[0] else rest
  }

  // ---------------------------------------------------------------------------
  // The event counts table.

  datatype EventCounts = EventCounts(totalEvents: nat, eventsInLatestPeriod: nat)

  function EventCountsOf(rows: seq<MeasurementRow>, col: EventsColumn): EventCounts {
    var events := Events(rows, col);
    if events == [] then EventCounts(0, 0)
    else
      var dates := DateTotals(events);
      EventCounts(SumTotals(events), if dates == [] then 0 else LatestPeriod(dates).total)
  }

  // ---------------------------------------------------------------------------
  // Codes sorted by events, descending; equal counts keep their order.

  ghost predicate NonIncreasing(gs: seq<Group<string>>) {
    forall i, j :: 0 <= i < j < |gs| ==> gs[i].total >= gs[j].total
  }

  function InsertByEvents(g: Group<string>, s: seq<Group<string>>): (r: seq<Group<string>>)
    ensures multiset(r) == multiset(s) + multiset{g}
    ensures forall x :: x in r <==> x == g || x in s
  {
    if s == [] || g.total >= s[0].total then [g] + s
    else
      assert s == [s[0]] + s[1..];
      [s[0]] + InsertByEvents(g, s[1..])
  }

  lemma {:induction false} InsertByEventsNonIncreasing(g: Group<string>, s: seq<Group<string>>)
    requires NonIncreasing(s)
    ensures NonIncreasing(InsertByEvents(g, s))
  {
    if s != [] && g.total < s[0].total {
      InsertByEventsNonIncreasing(g, s[1..]);
      var rest := InsertByEvents(g, s[1..]);
      var r := [s[0]] + rest;
      assert s == [s[0]] + s[1..];
      forall i, j | 0 <= i < j < |r| ensures r[i].total >= r[j].total {
        if i > 0 {
          assert r[i] == rest[i - 1] && r[j] == rest[j - 1];
        } else {
          assert r[j] in rest;
          if r[j] != g {
            var k :| 0 <= k < |s[1..]| && s[1..][k] == r[j];
            assert s[k + 1] == r[j];
          }
        }
      }
    }
  }

  lemma {:induction false} InsertByEventsDistinct(g: Group<string>, s: seq<Group<string>>)
    requires DistinctKeys(s)
    requires forall i :: 0 <= i < |s| ==> s[i].key != g.key
    ensures DistinctKeys(InsertByEvents(g, s))
  {
    if s != [] && g.total < s[0].total {
      DistinctKeysTail(s);
      assert forall i :: 0 <= i < |s[1..]| ==> s[1..][i] == s[i + 1];
      InsertByEventsDistinct(g, s[1..]);
      var rest := InsertByEvents(g, s[1..]);
      var r := [s[0]] + rest;
      forall j | 0 < j < |r| ensures r[0].key != r[j].key {
        assert r[j] == rest[j - 1];
        assert r[j] in rest;
        if r[j] != g {
          var k :| 0 <= k < |s[1..]| && s[1..][k] == r[j];
          assert s[k + 1] == r[j];
        }
      }
      forall i, j | 0 < i < j < |r| ensures r[i].key != r[j].key {
        assert r[i] == rest[i - 1] && r[j] == rest[j - 1];
      }
    }
  }

  /** The code totals in descending order of events. */
  function SortByEvents(s: seq<Group<string>>): (r: seq<Group<string>>)
    ensures NonIncreasing(r)
    ensures multiset(r) == multiset(s)
    ensures forall x :: x in r <==> x in s
  {
    if s == [] then []
    else
      assert s == [s[0]] + s[1..];
      InsertByEventsNonIncreasing(s[0], SortByEvents(s[1..]));
      InsertByEvents(s[0], SortByEvents(s[1..]))
  }

  lemma {:induction false} SortByEventsDistinct(s: seq<Group<string>>)
    requires DistinctKeys(s)
    ensures DistinctKeys(SortByEvents(s))
  {
    if s != [] {
      DistinctKeysTail(s);
      SortByEventsDistinct(s[1..]);
      var sorted := SortByEvents(s[1..]);
      forall i | 0 <= i < |sorted| ensures sorted[i].key != s[0].key {
        assert sorted[i] in s[1..];
        var k :| 0 <= k < |s[1..]| && s[1..][k] == sorted[i];
        assert s[k + 1] == sorted[i];
      }
      assert s == [s[0]] + s[1..];
      InsertByEventsDistinct(s[0], sorted);
    }
  }

  // ---------------------------------------------------------------------------
  // The left join with the code list on the code: every row kept, one row per matching entry.

  datatype CodeListEntry = CodeListEntry(code: string, description: string)

  /** The descriptions the code list holds for `code`, in code-list order. */
  function Descriptions(codelist: seq<CodeListEntry>, code: string): (r: seq<string>)
    ensures |r| <= |codelist|
  {
    if codelist == [] then []
    else (if codelist[0].code == code then [codelist[0].description] else [])
         + Descriptions(codelist[1..], code)
  }

  datatype JoinedRow = JoinedRow(code: string, events: nat, description: Option<string>)

  /** `row` is `g` joined with one of its code-list entries, or with none when it has none. */
  ghost predicate JoinedFrom(row: JoinedRow, g: Group<string>, codelist: seq<CodeListEntry>) {
    var ds := Descriptions(codelist, g.key);
    && row.code == g.key
    && row.events == g.total
    && (row.description == None <==> ds == [])
    && (row.description.Some? ==> row.description.value in ds)
  }

  /** One left row joined: a row per matching entry, or one row without a description. */
  function JoinOne(g: Group<string>, codelist: seq<CodeListEntry>): (r: seq<JoinedRow>)
    ensures r != []
    ensures |r| == if Descriptions(codelist, g.key) == [] then 1 else |Descriptions(codelist, g.key)|
    ensures forall k :: 0 <= k < |r| ==> JoinedFrom(r[k], g, codelist)
    ensures var ds := Descriptions(codelist, g.key);
      ds != [] ==> forall k :: 0 <= k < |ds| ==> r[k] == JoinedRow(g.key, g.total, Some(ds[k]))
  {
    var ds := Descriptions(codelist, g.key);
    if ds == [] then [JoinedRow(g.key, g.total, None)]
    else seq(|ds|, k requires 0 <= k < |ds| => JoinedRow(g.key, g.total, Some(ds[k])))
  }

  function LeftJoin(gs: seq<Group<string>>, codelist: seq<CodeListEntry>): (r: seq<JoinedRow>)
    ensures |r| >= |gs|
  {
    if gs == [] then [] else JoinOne(gs[0], codelist) + LeftJoin(gs[1..], codelist)
  }

  // ---------------------------------------------------------------------------
  // Proportions and the two clamp rules.

  /**
    The rendered "Proportion of codes (%)": a percentage to two decimals, held
    as whole hundredths of a percent; `nan` when there are no events at all;
    and the two replacement texts "< 0.005" and "> 99.995".
  */
  datatype Proportion = Percent(hundredths: nat) | NotANumber | BelowHalfHundredth | AboveAlmostAll

  /** The percentage of events in total, rounded to two decimals, half up. */
  function ProportionOf(events: nat, total: nat): (p: Proportion)
    ensures p == NotANumber <==> total == 0
    ensures total > 0 ==>
      (p.Percent? && 2 * total * p.hundredths <= 20000 * events + total < 2 * total * (p.hundredths + 1))
  {
    if total == 0 then NotANumber
    else
      var h := (20000 * events + total) / (2 * total);
      DivBounds(20000 * events + total, 2 * total);
      Percent(h)
  }

  lemma DivBounds(a: nat, b: nat)
    requires b > 0
    ensures b * (a / b) <= a < b * (a / b + 1)
  {
  }

  /** With more than one row, 0.00 reads "< 0.005" and 100.00 reads "> 99.995". */
  function Clamped(p: Proportion, n: nat): Proportion {
    if n > 1 && p == Percent(0) then BelowHalfHundredth
    else if n > 1 && p == Percent(10000) then AboveAlmostAll
    else p
  }

  function JoinedTotal(joined: seq<JoinedRow>): nat {
    if joined == [] then 0 else joined[0].events + JoinedTotal(joined[1..])
  }

  datatype CodeRow = CodeRow(code: string, events: nat, description: Option<string>, proportion: Proportion)

  /** The code table after the proportion column and both clamp passes. */
  function CodeTable(joined: seq<JoinedRow>): (r: seq<CodeRow>)
    ensures |r| == |joined|
  {
    var total := JoinedTotal(joined);
    seq(|joined|, k requires 0 <= k < |joined| =>
      CodeRow(joined[k].code, joined[k].events, joined[k].description,
              Clamped(ProportionOf(joined[k].events, total), |joined|)))
  }

  function CodeTableOf(rows: seq<MeasurementRow>, codelist: seq<CodeListEntry>, col: EventsColumn): seq<CodeRow> {
    var events := Events(rows, col);
    if events == [] then [] else CodeTable(LeftJoin(SortByEvents(CodeTotals(events)), codelist))
  }

  function Min(a: int, b: int): int { if a <= b then a else b }

  /** The first five rows, or all of them when there are fewer. */
  function Top5(table: seq<CodeRow>): (r: seq<CodeRow>)
    ensures |r| <= 5 && r <= table
    ensures |table| >= 5 ==> |r| == 5
    ensures |table| < 5 ==> r == table
  {
    table[..Min(5, |table|)]
  }

  // ---------------------------------------------------------------------------
  // The aggregation as the script performs it.

  /**
    Fills the two output tables: the event counts cell by cell, the code table
    by writing the proportion column and then overwriting it in two clamp
    passes when there is more than one row, before keeping its first five rows.
  */
  method GetEventCountsAndTop5CodesTables(rows: seq<MeasurementRow>, codelist: seq<CodeListEntry>, test: string)
    returns (eventCounts: EventCounts, top5: seq<CodeRow>)
    ensures eventCounts == EventCountsOf(rows, EventsColumnFor(test))
    ensures top5 == Top5(CodeTableOf(rows, codelist, EventsColumnFor(test)))
  {
    var col := EventsColumnFor(test);
    var events := Events(rows, col);
    eventCounts := EventCounts(0, 0);
    var codeTable: seq<CodeRow> := [];
    if events != [] {
      eventCounts := eventCounts.(totalEvents := SumTotals(events));
      var dates := DateTotals(events);
      if dates != [] {
        eventCounts := eventCounts.(eventsInLatestPeriod := LatestPeriod(dates).total);
      } else {
        eventCounts := eventCounts.(eventsInLatestPeriod := 0);
      }
      var joined := LeftJoin(SortByEvents(CodeTotals(events)), codelist);
      codeTable := FillProportions(joined);
    } else {
      eventCounts := eventCounts.(totalEvents := 0, eventsInLatestPeriod := 0);
    }
    top5 := codeTable[..Min(5, |codeTable|)];
  }

  /** Writes the proportion column, then applies the two clamp passes. */
  method FillProportions(joined: seq<JoinedRow>) returns (table: seq<CodeRow>)
    ensures table == CodeTable(joined)
  {
    var total := JoinedTotal(joined);
    var a := new CodeRow[|joined|];
    forall k | 0 <= k < a.Length {
      a[k] := CodeRow(joined[k].code, joined[k].events, joined[k].description, ProportionOf(joined[k].events, total));
    }
    if a.Length > 1 {
      forall k | 0 <= k < a.Length && a[k].proportion == Percent(0) {
        a[k] := a[k].(proportion := BelowHalfHundredth);
      }
      forall k | 0 <= k < a.Length && a[k].proportion == Percent(10000) {
        a[k] := a[k].(proportion := AboveAlmostAll);
      }
    }
    table := a[..];
    assert forall k :: 0 <= k < |table| ==> table[k] == CodeTable(joined)[k];
  }

  // ---------------------------------------------------------------------------
  // The code list and the join.

  ghost predicate UniqueCodes(codelist: seq<CodeListEntry>) {
    forall i, j :: 0 <= i < j < |codelist| ==> codelist[i].code != codelist[j].code
  }

  lemma {:induction false} DescriptionsMembership(codelist: seq<CodeListEntry>, code: string, d: string)
    ensures d in Descriptions(codelist, code) <==> CodeListEntry(code, d) in codelist
  {
    if codelist != [] {
      DescriptionsMembership(codelist[1..], code, d);
      assert codelist == [codelist[0]] + codelist[1..];
    }
  }

  lemma {:induction false} DescriptionsEmpty(codelist: seq<CodeListEntry>, code: string)
    ensures Descriptions(codelist, code) == [] <==> forall e :: e in codelist ==> e.code != code
  {
    if codelist != [] {
      DescriptionsEmpty(codelist[1..], code);
      assert codelist == [codelist[0]] + codelist[1..];
    }
  }

  lemma {:induction false} DescriptionsUnique(codelist: seq<CodeListEntry>, code: string)
    requires UniqueCodes(codelist)
    ensures |Descriptions(codelist, code)| <= 1
  {
    if codelist != [] {
      var tail := codelist[1..];
      assert UniqueCodes(tail) by {
        forall i, j | 0 <= i < j < |tail| ensures tail[i].code != tail[j].code {
          assert tail[i] == codelist[i + 1] && tail[j] == codelist[j + 1];
        }
      }
      DescriptionsUnique(tail, code);
      if codelist[0].code == code {
        forall e | e in tail ensures e.code != code {
          var i :| 0 <= i < |tail| && tail[i] == e;
          assert codelist[i + 1] == e;
        }
        DescriptionsEmpty(tail, code);
      }
    }
  }

  /** Every joined row comes from one of the left rows. */
  lemma {:induction false} LeftJoinRows(gs: seq<Group<string>>, codelist: seq<CodeListEntry>, k: nat)
    requires k < |LeftJoin(gs, codelist)|
    ensures exists m :: 0 <= m < |gs| && JoinedFrom(LeftJoin(gs, codelist)[k], gs[m], codelist)
  {
    var first := JoinOne(gs[0], codelist);
    if k < |first| {
      assert LeftJoin(gs, codelist)[k] == first[k];
      assert JoinedFrom(LeftJoin(gs, codelist)[k], gs[0], codelist);
    } else {
      LeftJoinRows(gs[1..], codelist, k - |first|);
      var m :| 0 <= m < |gs[1..]| && JoinedFrom(LeftJoin(gs[1..], codelist)[k - |first|], gs[1..][m], codelist);
      assert LeftJoin(gs, codelist)[k] == LeftJoin(gs[1..], codelist)[k - |first|];
      assert gs[1..][m] == gs[m + 1];
    }
  }

  /** No left row is dropped by the join. */
  lemma {:induction false} LeftJoinKeeps(gs: seq<Group<string>>, codelist: seq<CodeListEntry>, m: nat)
    requires m < |gs|
    ensures exists k :: 0 <= k < |LeftJoin(gs, codelist)| && JoinedFrom(LeftJoin(gs, codelist)[k], gs[m], codelist)
  {
    var first := JoinOne(gs[0], codelist);
    var r := LeftJoin(gs, codelist);
    var rest := LeftJoin(gs[1..], codelist);
    assert r == first + rest;
    if m == 0 {
      assert JoinedFrom(first[0], gs[0], codelist);
      assert r[0] == first[0];
    } else {
      assert gs[1..][m - 1] == gs[m];
      LeftJoinKeeps(gs[1..], codelist, m - 1);
      var k :| 0 <= k < |rest| && JoinedFrom(rest[k], gs[m], codelist);
      assert r[|first| + k] == rest[k];
      assert JoinedFrom(r[|first| + k], gs[m], codelist);
    }
  }

  /** The join keeps the descending order of the events. */
  lemma {:induction false} LeftJoinNonIncreasing(gs: seq<Group<string>>, codelist: seq<CodeListEntry>)
    requires NonIncreasing(gs)
    ensures forall i, j :: 0 <= i < j < |LeftJoin(gs, codelist)| ==>
      LeftJoin(gs, codelist)[i].events >= LeftJoin(gs, codelist)[j].events
  {
    if gs != [] {
      var first := JoinOne(gs[0], codelist);
      var rest := LeftJoin(gs[1..], codelist);
      var r := LeftJoin(gs, codelist);
      assert NonIncreasing(gs[1..]) by {
        forall i, j | 0 <= i < j < |gs[1..]| ensures gs[1..][i].total >= gs[1..][j].total {
          assert gs[1..][i] == gs[i + 1] && gs[1..][j] == gs[j + 1];
        }
      }
      LeftJoinNonIncreasing(gs[1..], codelist);
      forall i, j | 0 <= i < j < |r| ensures r[i].events >= r[j].events {
        if j >= |first| {
          assert r[j] == rest[j - |first|];
          LeftJoinRows(gs[1..], codelist, j - |first|);
          var m :| 0 <= m < |gs[1..]| && JoinedFrom(rest[j - |first|], gs[1..][m], codelist);
          assert gs[1..][m] == gs[m + 1];
          if i >= |first| {
            assert r[i] == rest[i - |first|];
          } else {
            assert r[i] == first[i];
          }
        } else {
          assert r[i] == first[i] && r[j] == first[j];
        }
      }
    }
  }

  /** With one entry per code in the code list, the join matches row for row. */
  lemma {:induction false} LeftJoinUnique(gs: seq<Group<string>>, codelist: seq<CodeListEntry>)
    requires UniqueCodes(codelist)
    ensures |LeftJoin(gs, codelist)| == |gs|
    ensures forall m :: 0 <= m < |gs| ==> JoinedFrom(LeftJoin(gs, codelist)[m], gs[m], codelist)
    ensures JoinedTotal(LeftJoin(gs, codelist)) == SumTotals(gs)
  {
    if gs != [] {
      LeftJoinUnique(gs[1..], codelist);
      DescriptionsUnique(codelist, gs[0].key);
      var first := JoinOne(gs[0], codelist);
      var rest := LeftJoin(gs[1..], codelist);
      assert |first| == 1;
      assert LeftJoin(gs, codelist)[1..] == rest;
      forall m | 0 < m < |gs| ensures JoinedFrom(LeftJoin(gs, codelist)[m], gs[m], codelist) {
        assert LeftJoin(gs, codelist)[m] == rest[m - 1] && gs[m] == gs[1..][m - 1];
      }
    }
  }

  // ---------------------------------------------------------------------------
  // What the two tables promise, stated on the input rows.

  /** The latest `interval_start` among the rows. */
  function LatestDate(rows: seq<MeasurementRow>): (d: Date)
    requires rows != []
    ensures exists i :: 0 <= i < |rows| && rows[i].intervalStart == d
    ensures forall i :: 0 <= i < |rows| ==> rows[i].intervalStart <= d
  {
    if |rows| == 1 then rows[0].intervalStart
    else
      var rest := LatestDate(rows[1..]);
      assert forall i :: 1 <= i < |rows| ==> rows[i] == rows[1..][i - 1];
      if rows[0].intervalStart >= rest then rows[0].intervalStart else rest
  }

  /** Without rows both counts are 0 and the code table is empty; with rows it is not. */
  lemma EmptyInput(rows: seq<MeasurementRow>, codelist: seq<CodeListEntry>, col: EventsColumn)
    ensures rows == [] ==> EventCountsOf(rows, col) == EventCounts(0, 0)
    ensures CodeTableOf(rows, codelist, col) == [] <==> rows == []
  {
    GroupSumNonEmpty(EventEntries(rows, col));
    var events := Events(rows, col);
    if events != [] {
      GroupSumNonEmpty(Regroup(events, CodeOf));
      var sorted := SortByEvents(CodeTotals(events));
      assert |sorted| == |CodeTotals(events)| by {
        assert |multiset(sorted)| == |multiset(CodeTotals(events))|;
      }
    }
  }

  /** `total_events` is the events column summed over all rows. */
  lemma TotalEventsIsSum(rows: seq<MeasurementRow>, col: EventsColumn)
    ensures EventCountsOf(rows, col).totalEvents == EventsWhere(rows, col, _ => true)
  {
    var es := EventEntries(rows, col);
    GroupSumNonEmpty(es);
    SumTotalsIsSumWhere(GroupSum(es), _ => true);
    GroupSumWhere(es, _ => true);
  }

  /** The first date total after sorting by date, descending, is that of the latest row date. */
  lemma LatestPeriodIsLatestDate(rows: seq<MeasurementRow>, col: EventsColumn)
    requires rows != []
    ensures DateTotals(Events(rows, col)) != []
    ensures LatestPeriod(DateTotals(Events(rows, col))).key == LatestDate(rows)
  {
    var es := EventEntries(rows, col);
    var dates := GroupSum(Regroup(GroupSum(es), DateOf));
    GroupSumNonEmpty(es);
    GroupSumNonEmpty(Regroup(GroupSum(es), DateOf));
    var g := LatestPeriod(dates);
    var d := LatestDate(rows);
    assert g.key <= d by {
      var j :| 0 <= j < |dates| && dates[j] == g;
      RegroupKeys(es, DateOf, g.key);
      var i :| 0 <= i < |es| && DateOf(es[i].key) == g.key;
      assert rows[i].intervalStart == g.key;
    }
    assert d <= g.key by {
      var i :| 0 <= i < |rows| && rows[i].intervalStart == d;
      assert DateOf(es[i].key) == d;
      RegroupKeys(es, DateOf, d);
      var m :| 0 <= m < |dates| && dates[m].key == d;
      assert dates[m] in dates;
    }
  }

  /** `events_in_latest_period` is the events column summed over the rows of the latest date. */
  lemma LatestEventsIsSum(rows: seq<MeasurementRow>, col: EventsColumn)
    requires rows != []
    ensures var d := LatestDate(rows);
      EventCountsOf(rows, col).eventsInLatestPeriod == EventsWhere(rows, col, k => DateOf(k) == d)
  {
    var es := EventEntries(rows, col);
    GroupSumNonEmpty(es);
    LatestPeriodIsLatestDate(rows, col);
    var dates := GroupSum(Regroup(GroupSum(es), DateOf));
    var g := LatestPeriod(dates);
    var j :| 0 <= j < |dates| && dates[j] == g;
    var d := LatestDate(rows);
    RegroupTotal(es, DateOf, j, d, k => DateOf(k) == d);
    assert Events(rows, col) == GroupSum(es) != [];
    assert DateTotals(Events(rows, col)) == dates;
    assert EventCountsOf(rows, col).eventsInLatestPeriod == g.total;
  }

  /** With non-negative counts the latest period never exceeds the total. */
  lemma LatestAtMostTotal(rows: seq<MeasurementRow>, col: EventsColumn)
    ensures EventCountsOf(rows, col).eventsInLatestPeriod <= EventCountsOf(rows, col).totalEvents
  {
    EmptyInput(rows, [], col);
    if rows != [] {
      var d := LatestDate(rows);
      LatestEventsIsSum(rows, col);
      TotalEventsIsSum(rows, col);
      SumWhereMono(EventEntries(rows, col), k => DateOf(k) == d, _ => true);
    }
  }

  /** The events column choice: the denominator exactly for mean tests. */
  lemma EventsColumnChoice(rows: seq<MeasurementRow>, test: string)
    ensures Contains(test, "mean") ==>
      EventCountsOf(rows, EventsColumnFor(test)).totalEvents == EventsWhere(rows, Denominator, _ => true)
    ensures !Contains(test, "mean") ==>
      EventCountsOf(rows, EventsColumnFor(test)).totalEvents == EventsWhere(rows, Numerator, _ => true)
  {
    TotalEventsIsSum(rows, EventsColumnFor(test));
  }

  // ---------------------------------------------------------------------------
  // The code table.

  lemma {:induction false} InsertByEventsSumTotals(g: Group<string>, s: seq<Group<string>>)
    ensures SumTotals(InsertByEvents(g, s)) == g.total + SumTotals(s)
  {
    if s != [] && g.total < s[0].total {
      InsertByEventsSumTotals(g, s[1..]);
    }
  }

  lemma {:induction false} SortByEventsSumTotals(s: seq<Group<string>>)
    ensures SumTotals(SortByEvents(s)) == SumTotals(s)
  {
    if s != [] {
      SortByEventsSumTotals(s[1..]);
      InsertByEventsSumTotals(s[0], SortByEvents(s[1..]));
    }
  }

  /**
    Every row of the code table names a code of the input, carries that
    code's events summed over all rows and periods, and has a description
    exactly when the code list holds the code, taken from an entry for it.
  */
  lemma CodeTableRow(rows: seq<MeasurementRow>, codelist: seq<CodeListEntry>, col: EventsColumn, k: nat)
    requires k < |CodeTableOf(rows, codelist, col)|
    ensures var r := CodeTableOf(rows, codelist, col)[k];
      var c := r.code;
      && (exists i :: 0 <= i < |rows| && rows[i].snomedctCode == c)
      && r.events == EventsWhere(rows, col, x => CodeOf(x) == c)
      && (r.description == None <==> forall e :: e in codelist ==> e.code != c)
      && (r.description.Some? ==> CodeListEntry(c, r.description.value) in codelist)
  {
    var es := EventEntries(rows, col);
    var totals := GroupSum(Regroup(GroupSum(es), CodeOf));
    var sorted := SortByEvents(totals);
    var joined := LeftJoin(sorted, codelist);
    assert Events(rows, col) != [];
    assert CodeTableOf(rows, codelist, col) == CodeTable(joined);
    var r := CodeTableOf(rows, codelist, col)[k];
    var c := r.code;
    LeftJoinRows(sorted, codelist, k);
    var m :| 0 <= m < |sorted| && JoinedFrom(joined[k], sorted[m], codelist);
    assert sorted[m] in totals;
    var i :| 0 <= i < |totals| && totals[i] == sorted[m];
    RegroupTotal(es, CodeOf, i, c, x => CodeOf(x) == c);
    RegroupKeys(es, CodeOf, c);
    var j :| 0 <= j < |es| && CodeOf(es[j].key) == c;
    assert rows[j].snomedctCode == c;
    DescriptionsEmpty(codelist, c);
    if r.description.Some? {
      DescriptionsMembership(codelist, c, r.description.value);
    }
  }

  /** No code of the input is lost on the way to the code table. */
  lemma NoCodeDropped(rows: seq<MeasurementRow>, codelist: seq<CodeListEntry>, col: EventsColumn, i: nat)
    requires i < |rows|
    ensures exists k :: (0 <= k < |CodeTableOf(rows, codelist, col)|
      && CodeTableOf(rows, codelist, col)[k].code == rows[i].snomedctCode)
  {
    var es := EventEntries(rows, col);
    GroupSumNonEmpty(es);
    var totals := GroupSum(Regroup(GroupSum(es), CodeOf));
    var sorted := SortByEvents(totals);
    var joined := LeftJoin(sorted, codelist);
    assert CodeTableOf(rows, codelist, col) == CodeTable(joined);
    var c := rows[i].snomedctCode;
    assert CodeOf(es[i].key) == c;
    RegroupKeys(es, CodeOf, c);
    var j :| 0 <= j < |totals| && totals[j].key == c;
    assert totals[j] in multiset(sorted);
    var m :| 0 <= m < |sorted| && sorted[m] == totals[j];
    LeftJoinKeeps(sorted, codelist, m);
    var k :| 0 <= k < |joined| && JoinedFrom(joined[k], sorted[m], codelist);
    assert CodeTable(joined)[k].code == c;
  }

  /** Events never increase down the code table. */
  lemma CodeTableNonIncreasing(rows: seq<MeasurementRow>, codelist: seq<CodeListEntry>, col: EventsColumn)
    ensures var t := CodeTableOf(rows, codelist, col);
      forall i, j :: 0 <= i < j < |t| ==> t[i].events >= t[j].events
  {
    var events := Events(rows, col);
    if events != [] {
      var joined := LeftJoin(SortByEvents(CodeTotals(events)), codelist);
      LeftJoinNonIncreasing(SortByEvents(CodeTotals(events)), codelist);
      var t := CodeTable(joined);
      assert CodeTableOf(rows, codelist, col) == t;
      forall i, j | 0 <= i < j < |t| ensures t[i].events >= t[j].events {
        assert t[i].events == joined[i].events && t[j].events == joined[j].events;
        assert joined[i].events >= joined[j].events;
      }
    }
  }

  /**
    When the code list holds each code once, the code table has one row per
    code and each proportion is a share of `total_events`.
  */
  lemma OneRowPerCode(rows: seq<MeasurementRow>, codelist: seq<CodeListEntry>, col: EventsColumn)
    requires UniqueCodes(codelist)
    ensures var t := CodeTableOf(rows, codelist, col);
      forall i, j :: 0 <= i < j < |t| ==> t[i].code != t[j].code
    ensures var t := CodeTableOf(rows, codelist, col);
      forall k :: 0 <= k < |t| ==>
        t[k].proportion == Clamped(ProportionOf(t[k].events, EventCountsOf(rows, col).totalEvents), |t|)
  {
    var events := Events(rows, col);
    if events != [] {
      var totals := CodeTotals(events);
      var sorted := SortByEvents(totals);
      var joined := LeftJoin(sorted, codelist);
      SortByEventsDistinct(totals);
      LeftJoinUnique(sorted, codelist);
      SortByEventsSumTotals(totals);
      RegroupSumTotals(events, CodeOf);
      var t := CodeTable(joined);
      forall i, j | 0 <= i < j < |t| ensures t[i].code != t[j].code {
        assert t[i].code == sorted[i].key && t[j].code == sorted[j].key;
      }
    }
  }

  lemma JoinedEventsAtMostTotal(joined: seq<JoinedRow>, k: nat)
    requires k < |joined|
    ensures joined[k].events <= JoinedTotal(joined)
  {
    if k > 0 {
      JoinedEventsAtMostTotal(joined[1..], k - 1);
    }
  }

  /** The whole-hundredths proportion and the thresholds of its two extreme values. */
  lemma HundredthsBounds(e: nat, t: nat)
    requires 0 < t && e <= t
    ensures var h := ProportionOf(e, t).hundredths;
      && h <= 10000
      && (h == 0 <==> 20000 * e < t)
      && (h == 10000 <==> 19999 * t <= 20000 * e)
  {
    var h := ProportionOf(e, t).hundredths;
    if h > 10000 {
      MulMonotone(10001, h, 2 * t);
    }
    if h > 0 {
      MulMonotone(1, h, 2 * t);
    }
    if h < 10000 {
      MulMonotone(h + 1, 10000, 2 * t);
    }
  }

  /**
    The proportion column: `nan` without events; with one row never clamped;
    with more rows "< 0.005" exactly below half a hundredth of a percent and
    "> 99.995" exactly from 99.995 percent up; every other value is the
    rounded percentage, strictly between 0.00 and 100.00 when there are
    several rows.
  */
  lemma ProportionRules(joined: seq<JoinedRow>, k: nat)
    requires k < |joined|
    ensures var t := JoinedTotal(joined);
      var e := joined[k].events;
      var p := CodeTable(joined)[k].proportion;
      && (t == 0 ==> p == NotANumber)
      && (|joined| == 1 ==> p == ProportionOf(e, t))
      && (|joined| > 1 && t > 0 ==> (p == BelowHalfHundredth <==> 20000 * e < t))
      && (|joined| > 1 && t > 0 ==> (p == AboveAlmostAll <==> 19999 * t <= 20000 * e))
      && (p.Percent? ==> p == ProportionOf(e, t) && p.hundredths <= 10000)
      && (p.Percent? && |joined| > 1 ==> 0 < p.hundredths < 10000)
  {
    var t := JoinedTotal(joined);
    var e := joined[k].events;
    JoinedEventsAtMostTotal(joined, k);
    if t > 0 {
      HundredthsBounds(e, t);
    }
  }

  /** The sum of the rounded shares of the joined rows, in hundredths, against the total `t`. */
  function SharesSum(joined: seq<JoinedRow>, t: nat): nat
    requires t > 0
  {
    if joined == [] then 0
    else ProportionOf(joined[0].events, t).hundredths + SharesSum(joined[1..], t)
  }

  /** A share's rounding bound, with each product written as `t` times a single term. */
  lemma ShareBounds(e: nat, t: nat)
    requires t > 0
    ensures 2 * (t * ProportionOf(e, t).hundredths) <= 20000 * e + t
    ensures 20000 * e + t < 2 * (t * ProportionOf(e, t).hundredths) + 2 * t
  {
    var h := ProportionOf(e, t).hundredths;
    assert 2 * t * h == 2 * (t * h);
    assert 2 * t * (h + 1) == 2 * (t * h) + 2 * t;
  }

  /** Each share is within half a hundredth of its exact value, so their sum is within half a hundredth per row. */
  lemma {:induction false} SharesSumBounds(joined: seq<JoinedRow>, t: nat)
    requires t > 0
    ensures 2 * (t * SharesSum(joined, t)) <= 20000 * JoinedTotal(joined) + t * |joined|
    ensures joined != [] ==>
      20000 * JoinedTotal(joined) + t * |joined| < 2 * (t * SharesSum(joined, t)) + 2 * (t * |joined|)
  {
    if joined != [] {
      var rest := joined[1..];
      SharesSumBounds(rest, t);
      var h := ProportionOf(joined[0].events, t).hundredths;
      ShareBounds(joined[0].events, t);
      MulDistributes(t, h, SharesSum(rest, t));
      MulDistributes(t, 1, |rest|);
    }
  }

  /**
    The shares of a table with events add up to 100 %, up to half a
    hundredth of a percent of rounding per row.
  */
  lemma SharesSumToHundred(joined: seq<JoinedRow>)
    requires JoinedTotal(joined) > 0
    ensures 20000 - |joined| < 2 * SharesSum(joined, JoinedTotal(joined)) <= 20000 + |joined|
  {
    var t := JoinedTotal(joined);
    var n := |joined|;
    var sum := SharesSum(joined, t);
    SharesSumBounds(joined, t);
    MulDistributes(t, sum, sum);
    MulDistributes(t, 20000, n);
    MulCancel(2 * sum, 20000 + n, t);
    MulDistributes(t, 20000 - n, n);
    MulDistributes(t, 2 * sum, 2 * n);
    MulDistributes(t, n, n);
    MulCancelStrict(20000 - n, 2 * sum, t);
  }
}
