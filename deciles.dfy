/**
  `get_deciles_table`: the practice-level ratio distribution of each period,
  summarised by its nearest-rank percentiles 10, 20, ..., 90, and the number of
  distinct practices behind each period.
*/
module Deciles {
  import opened Wrappers
  import opened Text
  import opened Rows
  import opened Arithmetic

  const Percentiles: seq<int> := [10, 20, 30, 40, 50, 60, 70, 80, 90]

  /** A row of the released deciles table. */
  datatype DecileRow = DecileRow(date: Date, percentile: int, value: real)

  /** A row of the released practice-count table. */
  datatype PracticeCount = PracticeCount(intervalStart: Date, nPractices: nat)

  /** A `by_practice` row with a defined ratio, reduced to the three columns the deciles use. */
  datatype Observation = Observation(intervalStart: Date, ratio: real, practice: Option<int>)

  /** The rows that feed the distribution: practice rows whose ratio is defined. */
  predicate IsObservation(row: MeasurementRow) {
    row.measure == "by_practice" && row.ratio.Some?
  }

  function Observe(row: MeasurementRow): Observation
    requires IsObservation(row)
  {
    Observation(row.intervalStart, row.ratio.value, row.practice)
  }

  /** Selection of the practice rows, then removal of the rows whose ratio is missing. */
  function Observations(rows: seq<MeasurementRow>): (r: seq<Observation>)
    ensures |r| <= |rows|
  {
    if rows == [] then []
    else if IsObservation(rows[0]) then [Observe(rows[0])] + Observations(rows[1..])
    else Observations(rows[1..])
  }

  /** An observation comes from a retained row, and every retained row is observed. */
  lemma {:induction false} ObservationsMembership(rows: seq<MeasurementRow>, o: Observation)
    ensures o in Observations(rows) <==> exists row :: row in rows && IsObservation(row) && Observe(row) == o
  {
    if rows != [] {
      ObservationsMembership(rows[1..], o);
      assert forall row :: row in rows <==> row == rows[0] || row in rows[1..];
    }
  }

  /** Selection keeps each row's place and multiplicity: the observations of joined tables are joined. */
  lemma {:induction false} ObservationsConcat(a: seq<MeasurementRow>, b: seq<MeasurementRow>)
    ensures Observations(a + b) == Observations(a) + Observations(b)
  {
    if a != [] {
      assert (a + b)[0] == a[0] && (a + b)[1..] == a[1..] + b;
      ObservationsConcat(a[1..], b);
    } else {
      assert a + b == b;
    }
  }

  // ---------------------------------------------------------------------------
  // The periods: the distinct interval starts, ascending, as grouping by date gives them.

  predicate StrictlyIncreasing(s: seq<Date>) {
    forall i, j :: 0 <= i < j < |s| ==> s[i] < s[j]
  }

  function InsertDate(d: Date, s: seq<Date>): (r: seq<Date>)
    requires StrictlyIncreasing(s)
    ensures StrictlyIncreasing(r)
    ensures forall x :: x in r <==> x == d || x in s
  {
    if s == [] then [d]
    else if d < s[0] then [d] + s
    else if d == s[0] then s
    else
      assert s == [s[0]] + s[1..];
      IncreasingAfterHead(s, d, InsertDate(d, s[1..]));
      [s[0]] + InsertDate(d, s[1..])
  }

  /** A list of later dates, drawn from the tail and a date above the head, can follow the head. */
  lemma IncreasingAfterHead(s: seq<Date>, d: Date, rest: seq<Date>)
    requires StrictlyIncreasing(s) && s != [] && s[0] < d
    requires StrictlyIncreasing(rest)
    requires forall x :: x in rest <==> x == d || x in s[1..]
    ensures StrictlyIncreasing([s[0]] + rest)
  {
    var r := [s[0]] + rest;
    forall i, j | 0 <= i < j < |r| ensures r[i] < r[j] {
      assert r[j] == rest[j - 1] && r[j] in rest;
      if i == 0 && r[j] != d {
        var k :| 0 <= k < |s[1..]| && s[1..][k] == r[j];
        assert s[k + 1] == r[j];
      } else if i > 0 {
        assert r[i] == rest[i - 1];
      }
    }
  }

  function Periods(obs: seq<Observation>): (r: seq<Date>)
    ensures StrictlyIncreasing(r)
  {
    if obs == [] then [] else InsertDate(obs[0].intervalStart, Periods(obs[1..]))
  }

  /** The periods are exactly the observed dates. */
  lemma {:induction false} PeriodsMembership(obs: seq<Observation>, d: Date)
    ensures d in Periods(obs) <==> exists o :: o in obs && o.intervalStart == d
  {
    if obs != [] {
      PeriodsMembership(obs[1..], d);
      assert forall o :: o in obs <==> o == obs[0] || o in obs[1..];
    }
  }

  /** The ratios observed in period `d`, in row order. */
  function RatiosIn(obs: seq<Observation>, d: Date): (r: seq<real>)
    ensures |r| <= |obs|
  {
    if obs == [] then []
    else if obs[0].intervalStart == d then [obs[0].ratio] + RatiosIn(obs[1..], d)
    else RatiosIn(obs[1..], d)
  }

  lemma {:induction false} RatiosInMembership(obs: seq<Observation>, d: Date, x: real)
    ensures x in RatiosIn(obs, d) <==> exists o :: o in obs && o.intervalStart == d && o.ratio == x
  {
    if obs != [] {
      RatiosInMembership(obs[1..], d, x);
      assert forall o :: o in obs <==> o == obs[0] || o in obs[1..];
    }
  }

  /** A period's sample of joined observations is the two samples joined, repeats included. */
  lemma {:induction false} RatiosInConcat(a: seq<Observation>, b: seq<Observation>, d: Date)
    ensures RatiosIn(a + b, d) == RatiosIn(a, d) + RatiosIn(b, d)
  {
    if a != [] {
      assert (a + b)[0] == a[0] && (a + b)[1..] == a[1..] + b;
      RatiosInConcat(a[1..], b, d);
    } else {
      assert a + b == b;
    }
  }

  /** A single row adds its ratio once to the sample of its own period, and nothing elsewhere. */
  lemma RatiosOfOneRow(row: MeasurementRow, d: Date)
    ensures RatiosIn(Observations([row]), d)
         == if IsObservation(row) && row.intervalStart == d then [row.ratio.value] else []
  {
    assert [row][1..] == [];
  }

  // ---------------------------------------------------------------------------
  // Nearest-rank percentiles.

  predicate Sorted(s: seq<real>) {
    forall i, j :: 0 <= i < j < |s| ==> s[i] <= s[j]
  }

  function Insert(x: real, s: seq<real>): (r: seq<real>)
    ensures multiset(r) == multiset(s) + multiset{x}
  {
    if s == [] || x <= s[0] then [x] + s
    else
      assert s == [s[0]] + s[1..];
      [s[0]] + Insert(x, s[1..])
  }

  lemma {:induction false} InsertSorted(x: real, s: seq<real>)
    requires Sorted(s)
    ensures Sorted(Insert(x, s))
  {
    if s != [] && x > s[0] {
      InsertSorted(x, s[1..]);
      var rest := Insert(x, s[1..]);
      var r := [s[0]] + rest;
      assert s == [s[0]] + s[1..];
      forall i, j | 0 <= i < j < |r| ensures r[i] <= r[j] {
        if i > 0 {
          assert r[i] == rest[i - 1] && r[j] == rest[j - 1];
        } else {
          assert r[j] in multiset(rest);
          if r[j] != x {
            assert r[j] in multiset(s[1..]);
            var k :| 0 <= k < |s[1..]| && s[1..][k] == r[j];
            assert s[k + 1] == r[j];
          }
        }
      }
    }
  }

  function Sort(s: seq<real>): (r: seq<real>)
    ensures Sorted(r)
    ensures multiset(r) == multiset(s)
  {
    if s == [] then []
    else
      assert s == [s[0]] + s[1..];
      InsertSorted(s[0], Sort(s[1..]));
      Insert(s[0], Sort(s[1..]))
  }

  /**
    The index, into the sorted `n` observations, that nearest-rank
    interpolation picks for percentile `p`: the fractional rank is
    p/100 * (n - 1); its fraction above one half rounds up, below one half
    down, and exactly one half rounds up only above the median
    (`pos` and `frac` are 100 times the rank and its fraction).
  */
  function NearestRankIndex(p: int, n: nat): (k: nat)
    requires 0 <= p <= 100 && n > 0
    ensures k < n
  {
    var pos := p * (n - 1);
    MulMonotone(p, 100, n - 1);
    var lower, frac := pos / 100, pos % 100;
    if 2 * frac > 100 || (2 * frac == 100 && p > 50) then lower + 1 else lower
  }

  /** Rounding half up above the median and half down otherwise, as one division. */
  lemma NearestRankIndexClosedForm(p: int, n: nat)
    requires 0 <= p <= 100 && n > 0
    ensures NearestRankIndex(p, n) == (p * (n - 1) + (if p > 50 then 50 else 49)) / 100
  {
    var pos := p * (n - 1);
    var lower, frac := pos / 100, pos % 100;
    assert pos == 100 * lower + frac && 0 <= frac < 100;
  }

  lemma NearestRankIndexMonotone(p1: int, p2: int, n: nat)
    requires 0 <= p1 <= p2 <= 100 && n > 0
    ensures NearestRankIndex(p1, n) <= NearestRankIndex(p2, n)
  {
    NearestRankIndexClosedForm(p1, n);
    NearestRankIndexClosedForm(p2, n);
    MulMonotone(p1, p2, n - 1);
  }

  /** Sorting a sample that is already in order changes nothing. */
  lemma {:induction false} SortSorted(s: seq<real>)
    requires Sorted(s)
    ensures Sort(s) == s
  {
    if s != [] {
      SortSorted(s[1..]);
      assert s == [s[0]] + s[1..];
    }
  }

  /** The head of a sample in order is at most each of its values. */
  lemma HeadIsLeast(a: seq<real>, x: real)
    requires Sorted(a) && x in multiset(a)
    ensures a[0] <= x
  {
    var i :| 0 <= i < |a| && a[i] == x;
  }

  /** Two samples in order with the same values, counted with multiplicity, are the same sequence. */
  lemma {:induction false} SortedUnique(a: seq<real>, b: seq<real>)
    requires Sorted(a) && Sorted(b) && multiset(a) == multiset(b)
    ensures a == b
  {
    assert |b| == |multiset(b)| == |multiset(a)| == |a|;
    if a != [] {
      HeadIsLeast(a, b[0]);
      HeadIsLeast(b, a[0]);
      var x := a[0];
      assert b[0] == x;
      assert a == [x] + a[1..] && b == [x] + b[1..];
      assert multiset(a[1..]) == multiset(a) - multiset{x};
      assert multiset(b[1..]) == multiset(b) - multiset{x};
      SortedUnique(a[1..], b[1..]);
    }
  }

  /** Sorting gives the one ordered rearrangement of a sample. */
  lemma SortIsOrderedRearrangement(s: seq<real>, t: seq<real>)
    requires Sorted(t) && multiset(t) == multiset(s)
    ensures Sort(s) == t
  {
    SortedUnique(Sort(s), t);
  }

  /** The `p`-th percentile of a non-empty sample: the observation at the nearest rank. */
  function Quantile(s: seq<real>, p: int): real
    requires s != [] && 0 <= p <= 100
  {
    var sorted := Sort(s);
    assert |sorted| == |multiset(sorted)| == |multiset(s)| == |s|;
    sorted[NearestRankIndex(p, |s|)]
  }

  /** A percentile is one of the observed values, never an interpolation between two. */
  lemma QuantileObserved(s: seq<real>, p: int)
    requires s != [] && 0 <= p <= 100
    ensures Quantile(s, p) in s
  {
    var sorted := Sort(s);
    assert |sorted| == |multiset(sorted)| == |multiset(s)| == |s|;
    var k := NearestRankIndex(p, |s|);
    assert sorted[k] in multiset(sorted);
  }

  /** A higher percentile is never a smaller value. */
  lemma QuantileMonotone(s: seq<real>, p1: int, p2: int)
    requires s != [] && 0 <= p1 <= p2 <= 100
    ensures Quantile(s, p1) <= Quantile(s, p2)
  {
    var sorted := Sort(s);
    assert |sorted| == |multiset(sorted)| == |multiset(s)| == |s|;
    NearestRankIndexMonotone(p1, p2, |s|);
  }

  lemma PercentileStep(j: nat)
    requires j < 9
    ensures Percentiles[j] == 10 * (j + 1)
  {
  }

  /**
    The groupby-quantile table before any rescaling: period-major, nine rows
    per period, row `9 * i + j` holding percentile `Percentiles[j]` of period
    `periods[i]`.
  */
  function QuantileTable(obs: seq<Observation>, periods: seq<Date>): (r: seq<DecileRow>)
    requires forall d :: d in periods ==> RatiosIn(obs, d) != []
  {
    seq(9 * |periods|, k requires 0 <= k < 9 * |periods| =>
      DecileRow(periods[k / 9], Percentiles[k % 9], Quantile(RatiosIn(obs, periods[k / 9]), Percentiles[k % 9])))
  }

  lemma QuantileTableAt(obs: seq<Observation>, periods: seq<Date>, i: nat, j: nat)
    requires forall d :: d in periods ==> RatiosIn(obs, d) != []
    requires i < |periods| && j < 9
    ensures |QuantileTable(obs, periods)| == 9 * |periods|
    ensures QuantileTable(obs, periods)[9 * i + j]
         == DecileRow(periods[i], Percentiles[j], Quantile(RatiosIn(obs, periods[i]), Percentiles[j]))
  {
    DivModNine(i, j, |periods|);
  }

  /** Row `9 * i + j` of a table with nine rows per period lies in the table and names period `i` and percentile `j`. */
  lemma DivModNine(i: nat, j: nat, n: nat)
    requires i < n && j < 9
    ensures 9 * i + j < 9 * n
    ensures (9 * i + j) / 9 == i && (9 * i + j) % 9 == j
  {
  }

  // ---------------------------------------------------------------------------
  // Practices per period: the number of distinct known practices in each period.

  /** The distinct known values of a column. */
  function KnownValues(xs: seq<Option<int>>): set<int> {
    set x | x in xs && x.Some? :: x.value
  }

  /** `nunique`: missing values are not counted, repeated values once. */
  function CountDistinct(xs: seq<Option<int>>): (n: nat)
    ensures n == |KnownValues(xs)|
  {
    if xs == [] then 0
    else
      var init, last := xs[..|xs| - 1], xs[|xs| - 1];
      var n := CountDistinct(init);
      assert xs == init + [last];
      if last.None? || last in init then
        assert KnownValues(xs) == KnownValues(init);
        n
      else
        assert KnownValues(xs) == KnownValues(init) + {last.value};
        assert last.value !in KnownValues(init);
        n + 1
  }

  function PracticesIn(obs: seq<Observation>, d: Date): (r: seq<Option<int>>)
    ensures |r| <= |obs|
  {
    if obs == [] then []
    else if obs[0].intervalStart == d then [obs[0].practice] + PracticesIn(obs[1..], d)
    else PracticesIn(obs[1..], d)
  }

  lemma {:induction false} PracticesInMembership(obs: seq<Observation>, d: Date, x: Option<int>)
    ensures x in PracticesIn(obs, d) <==> exists o :: o in obs && o.intervalStart == d && o.practice == x
  {
    if obs != [] {
      PracticesInMembership(obs[1..], d, x);
      assert forall o :: o in obs <==> o == obs[0] || o in obs[1..];
    }
  }

  function PracticeCounts(obs: seq<Observation>, periods: seq<Date>): (r: seq<PracticeCount>)
    ensures |r| == |periods|
    ensures forall i :: 0 <= i < |periods| ==>
      r[i] == PracticeCount(periods[i], CountDistinct(PracticesIn(obs, periods[i])))
  {
    if periods == [] then []
    else [PracticeCount(periods[0], CountDistinct(PracticesIn(obs, periods[0])))]
         + PracticeCounts(obs, periods[1..])
  }

  // ---------------------------------------------------------------------------
  // The released tables.

  /**
    Rates are released per 1000 patients; a mean is released as it is.
    `isMean` is whether the variant's name contains "mean".
  */
  function Rescaled(v: real, isMean: bool): real {
    if isMean then v else v * 1000.0
  }

  lemma PeriodsHaveRatios(obs: seq<Observation>)
    ensures forall d :: d in Periods(obs) ==> RatiosIn(obs, d) != []
  {
    forall d | d in Periods(obs) ensures RatiosIn(obs, d) != [] {
      PeriodsMembership(obs, d);
      var o :| o in obs && o.intervalStart == d;
      RatiosInMembership(obs, d, o.ratio);
    }
  }

  function ScaleValues(table: seq<DecileRow>, factor: real): (r: seq<DecileRow>)
    ensures |r| == |table|
  {
    seq(|table|, k requires 0 <= k < |table| => table[k].(value := table[k].value * factor))
  }

  lemma RescaledMonotone(a: real, b: real, isMean: bool)
    requires a <= b
    ensures Rescaled(a, isMean) <= Rescaled(b, isMean)
  {
  }

  /** The deciles table as released; `isMean` as for `Rescaled`. */
  function DecilesOf(rows: seq<MeasurementRow>, isMean: bool): (r: seq<DecileRow>)
    ensures |r| == 9 * |Periods(Observations(rows))|
  {
    var obs := Observations(rows);
    var periods := Periods(obs);
    PeriodsHaveRatios(obs);
    seq(9 * |periods|, k requires 0 <= k < 9 * |periods| =>
      DecileRow(periods[k / 9], Percentiles[k % 9],
                Rescaled(Quantile(RatiosIn(obs, periods[k / 9]), Percentiles[k % 9]), isMean)))
  }

  lemma DecilesOfAt(rows: seq<MeasurementRow>, isMean: bool, i: nat, j: nat)
    requires i < |Periods(Observations(rows))| && j < 9
    ensures 9 * i + j < |DecilesOf(rows, isMean)|
    ensures
      var obs := Observations(rows);
      var d := Periods(obs)[i];
      && RatiosIn(obs, d) != []
      && DecilesOf(rows, isMean)[9 * i + j]
         == DecileRow(d, Percentiles[j], Rescaled(Quantile(RatiosIn(obs, d), Percentiles[j]), isMean))
  {
    var obs := Observations(rows);
    var periods := Periods(obs);
    PeriodsHaveRatios(obs);
    DecilesOfScaled(rows, isMean);
    QuantileTableAt(obs, periods, i, j);
  }

  /** The released table is the unscaled table, multiplied by 1000 unless the test is a mean. */
  lemma DecilesOfScaled(rows: seq<MeasurementRow>, isMean: bool)
    ensures (
      var obs := Observations(rows);
      PeriodsHaveRatios(obs);
      var table := QuantileTable(obs, Periods(obs));
      DecilesOf(rows, isMean) == if isMean then table else ScaleValues(table, 1000.0))
  {
    var obs := Observations(rows);
    PeriodsHaveRatios(obs);
    var table := QuantileTable(obs, Periods(obs));
    var r := DecilesOf(rows, isMean);
    var t := if isMean then table else ScaleValues(table, 1000.0);
    assert |r| == |t|;
    forall k | 0 <= k < |r|
      ensures r[k] == t[k]
    {
    }
  }

  function PracticeCountsOf(rows: seq<MeasurementRow>): seq<PracticeCount> {
    var obs := Observations(rows);
    PracticeCounts(obs, Periods(obs))
  }

  /**
    `get_deciles_table(df)`. The quantile table is built whole; the per-1000
    rescaling then overwrites the value column in place.
  */
  method GetDecilesTable(rows: seq<MeasurementRow>, test: string)
    returns (deciles: seq<DecileRow>, practiceCounts: seq<PracticeCount>)
    ensures deciles == DecilesOf(rows, Contains(test, "mean"))
    ensures practiceCounts == PracticeCountsOf(rows)
  {
    var obs := Observations(rows);
    var periods := Periods(obs);
    practiceCounts := PracticeCounts(obs, periods);
    PeriodsHaveRatios(obs);
    var table := QuantileTable(obs, periods);
    var isMean := Contains(test, "mean");
    deciles := ScaleUnlessMean(table, isMean);
    DecilesOfScaled(rows, isMean);
  }

  /** Multiplies every value of a copy of the quantile table by 1000, in place, unless the test is a mean. */
  method ScaleUnlessMean(table: seq<DecileRow>, isMean: bool) returns (scaled: seq<DecileRow>)
    ensures scaled == if isMean then table else ScaleValues(table, 1000.0)
  {
    var quantiles := new DecileRow[|table|];
    forall k | 0 <= k < quantiles.Length {
      quantiles[k] := table[k];
    }
    if !isMean {
      forall k | 0 <= k < quantiles.Length {
        quantiles[k] := quantiles[k].(value := quantiles[k].value * 1000.0);
      }
      assert quantiles[..] == ScaleValues(table, 1000.0);
    } else {
      assert quantiles[..] == table;
    }
    scaled := quantiles[..];
  }

  // ---------------------------------------------------------------------------
  // What the released tables promise, stated on the input rows.

  /** The periods are the dates of the retained rows, ascending and without repeats. */
  lemma PeriodsAreObservedDates(rows: seq<MeasurementRow>, d: Date)
    ensures StrictlyIncreasing(Periods(Observations(rows)))
    ensures d in Periods(Observations(rows))
        <==> exists row :: row in rows && IsObservation(row) && row.intervalStart == d
  {
    var obs := Observations(rows);
    PeriodsMembership(obs, d);
    if d in Periods(obs) {
      var o :| o in obs && o.intervalStart == d;
      ObservationsMembership(rows, o);
    }
    if exists row :: row in rows && IsObservation(row) && row.intervalStart == d {
      var row :| row in rows && IsObservation(row) && row.intervalStart == d;
      ObservationsMembership(rows, Observe(row));
    }
  }

  /** Each period yields nine rows, for the percentiles 10, 20, ..., 90 in order. */
  lemma DecilesShape(rows: seq<MeasurementRow>, isMean: bool, i: nat, j: nat)
    requires i < |Periods(Observations(rows))| && j < 9
    ensures |DecilesOf(rows, isMean)| == 9 * |Periods(Observations(rows))|
    ensures DecilesOf(rows, isMean)[9 * i + j].date == Periods(Observations(rows))[i]
    ensures DecilesOf(rows, isMean)[9 * i + j].percentile == 10 * (j + 1)
  {
    DecilesOfAt(rows, isMean, i, j);
  }

  /** A ratio observed in period `d` comes from a retained row of that period. */
  lemma ObservedRatioRow(rows: seq<MeasurementRow>, d: Date, q: real) returns (row: MeasurementRow)
    requires q in RatiosIn(Observations(rows), d)
    ensures row in rows && IsObservation(row) && row.intervalStart == d && row.ratio == Some(q)
  {
    var obs := Observations(rows);
    RatiosInMembership(obs, d, q);
    var o :| o in obs && o.intervalStart == d && o.ratio == q;
    ObservationsMembership(rows, o);
    row :| row in rows && IsObservation(row) && Observe(row) == o;
  }

  /**
    Every released value is an observed ratio of its period, times 1000
    unless the variant's name contains "mean".
  */
  lemma DecileValueObserved(rows: seq<MeasurementRow>, isMean: bool, i: nat, j: nat)
    requires i < |Periods(Observations(rows))| && j < 9
    ensures 9 * i + j < |DecilesOf(rows, isMean)|
    ensures exists row :: (row in rows && IsObservation(row)
      && row.intervalStart == Periods(Observations(rows))[i]
      && DecilesOf(rows, isMean)[9 * i + j].value == Rescaled(row.ratio.value, isMean))
  {
    DecilesOfAt(rows, isMean, i, j);
    var obs := Observations(rows);
    var d := Periods(obs)[i];
    var s := RatiosIn(obs, d);
    var q := Quantile(s, Percentiles[j]);
    QuantileObserved(s, Percentiles[j]);
    var row := ObservedRatioRow(rows, d, q);
    var v := DecilesOf(rows, isMean)[9 * i + j].value;
    assert v == Rescaled(row.ratio.value, isMean);
  }

  /** Within a period the values never decrease as the percentile rises. */
  lemma DecilesNonDecreasing(rows: seq<MeasurementRow>, isMean: bool, i: nat, j1: nat, j2: nat)
    requires i < |Periods(Observations(rows))| && j1 <= j2 < 9
    ensures 9 * i + j2 < |DecilesOf(rows, isMean)|
    ensures DecilesOf(rows, isMean)[9 * i + j1].value <= DecilesOf(rows, isMean)[9 * i + j2].value
  {
    DecilesOfAt(rows, isMean, i, j1);
    DecilesOfAt(rows, isMean, i, j2);
    var obs := Observations(rows);
    var s := RatiosIn(obs, Periods(obs)[i]);
    PercentileStep(j1);
    PercentileStep(j2);
    QuantileMonotone(s, Percentiles[j1], Percentiles[j2]);
    RescaledMonotone(Quantile(s, Percentiles[j1]), Quantile(s, Percentiles[j2]), isMean);
  }

  /** The distinct practices behind a period's distribution. */
  function PracticeSet(rows: seq<MeasurementRow>, d: Date): set<int> {
    set row | row in rows && IsObservation(row) && row.intervalStart == d && row.practice.Some?
      :: row.practice.value
  }

  /** The practice count of a period is the number of distinct practices among its retained rows. */
  lemma PracticeCountIsDistinctPractices(rows: seq<MeasurementRow>, i: nat)
    requires i < |Periods(Observations(rows))|
    ensures |PracticeCountsOf(rows)| == |Periods(Observations(rows))|
    ensures PracticeCountsOf(rows)[i]
         == PracticeCount(Periods(Observations(rows))[i], |PracticeSet(rows, Periods(Observations(rows))[i])|)
  {
    var obs := Observations(rows);
    var d := Periods(obs)[i];
    var xs := PracticesIn(obs, d);
    forall v | v in KnownValues(xs) ensures v in PracticeSet(rows, d) {
      PracticesInMembership(obs, d, Some(v));
      var o :| o in obs && o.intervalStart == d && o.practice == Some(v);
      ObservationsMembership(rows, o);
      var row :| row in rows && IsObservation(row) && Observe(row) == o;
    }
    forall v | v in PracticeSet(rows, d) ensures v in KnownValues(xs) {
      var row :| row in rows && IsObservation(row) && row.intervalStart == d && row.practice == Some(v);
      ObservationsMembership(rows, Observe(row));
      PracticesInMembership(obs, d, Some(v));
    }
    assert KnownValues(xs) == PracticeSet(rows, d);
  }
}
