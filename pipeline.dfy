/**
  Properties of the whole path from measurement rows to what the viewer
  shows: the released deciles table read back by the viewer, and the
  released top codes table ranked for display.
*/
module Pipeline {
  import opened Wrappers
  import opened Rows
  import opened Deciles
  import opened EventCodes
  import opened Reshape

  /** The filter keeps a table none of whose rows is labelled Percentile. */
  lemma {:induction false} KeepShownAll(rows: seq<LabelledDecile>)
    requires forall k :: 0 <= k < |rows| ==> rows[k].band != Percentile
    ensures KeepShown(rows) == rows
  {
    if rows != [] {
      KeepShownAll(rows[1..]);
    }
  }

  lemma DecileMultiple(j: nat)
    requires j < 9
    ensures IsDecile(10 * (j + 1))
  {
    assert 10 * (j + 1) == 10 * j + 10;
  }

  /**
    Every row of a released deciles table survives the viewer's filter, in
    its order, labelled Median at percentile 50 and Decile elsewhere.
  */
  lemma ReleasedDecilesAllShown(rows: seq<MeasurementRow>, isMean: bool, scaleDown: bool)
    ensures |ShownDeciles(DecilesOf(rows, isMean), scaleDown)| == |DecilesOf(rows, isMean)|
    ensures forall k :: 0 <= k < |DecilesOf(rows, isMean)| ==>
      ShownDeciles(DecilesOf(rows, isMean), scaleDown)[k]
      == LabelledDecile(DecilesOf(rows, isMean)[k].date, DecilesOf(rows, isMean)[k].percentile,
                        ShownValue(DecilesOf(rows, isMean)[k].value, scaleDown),
                        if DecilesOf(rows, isMean)[k].percentile == 50 then Median else Decile)
  {
    var t := DecilesOf(rows, isMean);
    var l := Labelled(t, scaleDown);
    forall k | 0 <= k < |t| ensures IsDecile(t[k].percentile) {
      var i, j := k / 9, k % 9;
      assert 9 * i + j == k;
      DecilesShape(rows, isMean, i, j);
      DecileMultiple(j);
    }
    KeepShownAll(l);
  }

  /**
    The displayed top codes: at most five rows, ranked 1, 2, ... in the
    order of the released table, which is by non-increasing event count.
  */
  lemma RankedTopCodes(rows: seq<MeasurementRow>, codelist: seq<CodeListEntry>, col: EventsColumn)
    ensures |RankRows(Top5(CodeTableOf(rows, codelist, col)))| == Min(5, |CodeTableOf(rows, codelist, col)|)
    ensures forall k :: 0 <= k < |RankRows(Top5(CodeTableOf(rows, codelist, col)))| ==>
      && RankRows(Top5(CodeTableOf(rows, codelist, col)))[k].rank == k + 1
      && RankRows(Top5(CodeTableOf(rows, codelist, col)))[k].row == CodeTableOf(rows, codelist, col)[k]
    ensures forall i, j :: 0 <= i < j < |RankRows(Top5(CodeTableOf(rows, codelist, col)))| ==>
      RankRows(Top5(CodeTableOf(rows, codelist, col)))[i].row.events
      >= RankRows(Top5(CodeTableOf(rows, codelist, col)))[j].row.events
  {
    var t := CodeTableOf(rows, codelist, col);
    var ranked := RankRows(Top5(t));
    CodeTableNonIncreasing(rows, codelist, col);
    forall k | 0 <= k < |ranked| ensures ranked[k].row == t[k] {
      assert ranked[k].row == Unranked(ranked)[k];
    }
  }

  // ---------------------------------------------------------------------------
  // A worked example: three practices over two periods.

  /** With three observations the median is the middle one once they are put in order. */
  lemma MedianOfThree(s: seq<real>)
    requires |s| == 3
    ensures |Sort(s)| == 3
    ensures Quantile(s, 50) == Sort(s)[1]
  {
    assert |Sort(s)| == |multiset(Sort(s))| == |multiset(s)| == 3;
    assert NearestRankIndex(50, 3) == 1;
  }

  /** Ratios arriving out of order: 0.05, 0.01, 0.02 have median 0.02. */
  lemma MedianOfUnordered()
    ensures Quantile([0.05, 0.01, 0.02], 50) == 0.02
  {
    var s := [0.05, 0.01, 0.02];
    var t := [0.01, 0.02, 0.05];
    assert s == [0.05] + [0.01] + [0.02] && t == [0.01] + [0.02] + [0.05];
    assert multiset(t) == multiset(s);
    SortIsOrderedRearrangement(s, t);
    MedianOfThree(s);
  }

  function PracticeRow(d: Date, ratio: real, practice: int): MeasurementRow {
    MeasurementRow("by_practice", d, 1, 1, Some(ratio), "", Some(practice), None, None, None, None)
  }

  function ExampleRows(): seq<MeasurementRow> {
    [PracticeRow(1, 0.01, 1), PracticeRow(1, 0.02, 2), PracticeRow(1, 0.05, 3),
     PracticeRow(2, 0.03, 1), PracticeRow(2, 0.04, 2), PracticeRow(2, 0.06, 3)]
  }

  function ExampleObservations(): seq<Observation> {
    [Observation(1, 0.01, Some(1)), Observation(1, 0.02, Some(2)), Observation(1, 0.05, Some(3)),
     Observation(2, 0.03, Some(1)), Observation(2, 0.04, Some(2)), Observation(2, 0.06, Some(3))]
  }

  lemma ExampleObserved()
    ensures Observations(ExampleRows()) == ExampleObservations()
  {
    var rows := ExampleRows();
    var obs := ExampleObservations();
    assert Observations(rows[5..]) == obs[5..];
    assert Observations(rows[4..]) == obs[4..];
    assert Observations(rows[3..]) == obs[3..];
    assert Observations(rows[2..]) == obs[2..];
    assert Observations(rows[1..]) == obs[1..];
  }

  lemma ExamplePeriods()
    ensures Periods(ExampleObservations()) == [1, 2]
  {
    var obs := ExampleObservations();
    assert obs[5..][1..] == [];
    assert Periods(obs[5..]) == [2];
    assert obs[4..][1..] == obs[5..];
    assert Periods(obs[4..]) == [2];
    assert obs[3..][1..] == obs[4..];
    assert Periods(obs[3..]) == [2];
    assert obs[2..][1..] == obs[3..];
    assert Periods(obs[2..]) == [1, 2];
    assert obs[1..][1..] == obs[2..];
    assert Periods(obs[1..]) == [1, 2];
  }

  lemma ExampleRatios()
    ensures RatiosIn(ExampleObservations(), 1) == [0.01, 0.02, 0.05]
    ensures RatiosIn(ExampleObservations(), 2) == [0.03, 0.04, 0.06]
  {
    var obs := ExampleObservations();
    assert obs[5..][1..] == [];
    assert RatiosIn(obs[5..], 1) == [] && RatiosIn(obs[5..], 2) == [0.06];
    assert obs[4..][1..] == obs[5..];
    assert RatiosIn(obs[4..], 1) == [] && RatiosIn(obs[4..], 2) == [0.04, 0.06];
    assert obs[3..][1..] == obs[4..];
    assert RatiosIn(obs[3..], 1) == [] && RatiosIn(obs[3..], 2) == [0.03, 0.04, 0.06];
    assert obs[2..][1..] == obs[3..];
    assert RatiosIn(obs[2..], 1) == [0.05];
    assert obs[1..][1..] == obs[2..];
    assert RatiosIn(obs[1..], 1) == [0.02, 0.05];
  }

  /** Each period's sample, in order, with its middle value. */
  lemma ExampleSample(i: nat)
    requires i < 2
    ensures |RatiosIn(ExampleObservations(), i + 1)| == 3
    ensures Sorted(RatiosIn(ExampleObservations(), i + 1))
    ensures RatiosIn(ExampleObservations(), i + 1)[1] == if i == 0 then 0.02 else 0.04
  {
    ExampleRatios();
  }

  /**
    In a period with three observations, in whatever row order, the released
    median is the middle one in order, per 1000 for a rate and as it is for a mean.
  */
  lemma MedianOfThreePractices(rows: seq<MeasurementRow>, isMean: bool, i: nat)
    requires i < |Periods(Observations(rows))|
    requires |RatiosIn(Observations(rows), Periods(Observations(rows))[i])| == 3
    ensures 9 * i + 4 < |DecilesOf(rows, isMean)|
    ensures |Sort(RatiosIn(Observations(rows), Periods(Observations(rows))[i]))| == 3
    ensures DecilesOf(rows, isMean)[9 * i + 4]
         == DecileRow(Periods(Observations(rows))[i], 50,
                      Rescaled(Sort(RatiosIn(Observations(rows), Periods(Observations(rows))[i]))[1], isMean))
  {
    MedianOfThree(RatiosIn(Observations(rows), Periods(Observations(rows))[i]));
    PercentileStep(4);
    DecilesOfAt(rows, isMean, i, 4);
  }

  /** The medians of the two periods are 0.02 and 0.04, released as 20 and 40 per 1000. */
  lemma ExampleMedian(isMean: bool, i: nat)
    requires i < 2
    ensures |DecilesOf(ExampleRows(), isMean)| == 18
    ensures DecilesOf(ExampleRows(), isMean)[9 * i + 4]
         == DecileRow(i + 1, 50, Rescaled(if i == 0 then 0.02 else 0.04, isMean))
  {
    ExampleObserved();
    ExamplePeriods();
    ExampleSample(i);
    var obs := Observations(ExampleRows());
    assert Periods(obs)[i] == i + 1;
    var s := RatiosIn(obs, Periods(obs)[i]);
    assert s == RatiosIn(ExampleObservations(), i + 1);
    SortSorted(s);
    MedianOfThreePractices(ExampleRows(), isMean, i);
  }
}
