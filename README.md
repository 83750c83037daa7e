# open-pathology: release tables and their viewer, in Dafny

open-pathology publishes, for each pathology test measure, a small set of
disclosure-safe tables computed from the rounded and redacted measures
output of an OpenSAFELY study, and a viewer that reads those tables back
and shows them. This project models both halves and proves what each
promises.

- **Release side** (`analysis/write_processed_csv_files.py`):
  - the demographic table: the rows of the four demographic strata, without
    the IMD-stratum rows whose IMD is "unknown", projected to nine columns;
  - the deciles table: for each period, the nearest-rank percentiles
    10, 20, ..., 90 of the practice-level ratios, per 1000 unless the test is a
    mean, and the number of distinct practices per period;
  - the event counts (total, and in the latest period) and the top five codes
    by events, with their code-list description and their share of all
    events, including the two clamp rules for extreme shares.
- **Viewer side** (`app/measures.py`):
  - the deciles table read back: labelled Percentile, Decile or Median,
    divided by 10 except for the HbA1c mean-tests measure, rows still labelled
    Percentile dropped;
  - the measures table split into one table per stratification column, with
    the ratio as a percentage and the ethnicity codes named;
  - the top codes table ranked from 1;
  - the `Measure` record and the repository that builds a measure once per
    name and keeps it.

Files and modules:

- `wrappers.dfy` (`Wrappers`): `Option` and `Result`.
- `text.dfy` (`Text`): substring test, and Python's `strip` and `lower` as far as the IMD rule needs.
- `rows.dfy` (`Rows`): one row of the measures output.
- `demographics.dfy` (`Demographics`): `get_demographic_table`.
- `deciles.dfy` (`Deciles`): `get_deciles_table`.
- `grouping.dfy` (`Grouping`): a pandas `groupby(...).sum()` on keyed amounts.
- `event_codes.dfy` (`EventCodes`): `get_event_counts_and_top_5_codes_tables`.
- `reshape.dfy` (`Reshape`): `_get_deciles_table`, `_get_measures_tables`, `_get_top_5_codes_table`.
- `repository.dfy` (`Repository`): `Measure`, `OSJobsRepository`.
- `pipeline.dfy` (`Pipeline`): properties that span both halves, and a worked example.
- `arithmetic.dfy` (`Arithmetic`): facts about multiplication used by the percentile and share proofs.

How the model is built:

- The five operations that fill their output tables step by step are methods.
  - `EventCodes.GetEventCountsAndTop5CodesTables` writes its counts cell by cell.
  - `EventCodes.FillProportions` writes the proportion column and then applies the two clamp passes.
  - `Deciles.GetDecilesTable` overwrites the value column.
  - `Reshape.GetDecilesTable` makes three label writes and then divides the values.
  - `Reshape.GetMeasuresTables` loops over the dimension columns.
  - Each of these methods is proved equal to a specification function, and the properties are proved about that function.
- `OSJobsRepository` is a class. Its cache is a `map` field that `Get` updates.
- Fetching a table is a lookup in a `Store` of already-parsed tables. The measures catalog is a map from a measure's name to its record.

Where the code and its description differ, the model follows the code:

- **Which variant is a mean.** The code tests whether the test name (or the deciles URL) contains `"mean"` (or `"hba1c_diab_mean_tests"`). The description calls this a per-measure setting. The model uses the same substring tests as the code.
- **Shares after the code-list join.** The code joins the code list before it sums the events for the share denominator. Repeated codes in the code list therefore repeat rows and inflate that sum. The model keeps this: the denominator is `JoinedTotal` over the joined rows. `EventCodes.OneRowPerCode` proves that, when the code list has no repeated code, the denominator is the total events.
- **Deciles outside 10 to 90.** The description expects only the percentiles 10 to 90. The code's decile test accepts every multiple of 10 other than 0 and 100, so a table holding 110 or -10 keeps those rows as deciles. `Reshape.IsDecile` follows the code.

## Model

| member | source | states |
|---|---|---|
| Text.ContainsIff | analysis/write_processed_csv_files.py:97 | `"mean" in test` holds exactly when the text occurs at some position |
| Text.StripLeft | analysis/write_processed_csv_files.py:37 | `lstrip`: the result is a suffix, it does not start with whitespace, and only whitespace was removed |
| Text.StripRight | analysis/write_processed_csv_files.py:37 | `rstrip`: the result is a prefix, it does not end with whitespace, and only whitespace was removed |
| Text.Lower | analysis/write_processed_csv_files.py:37 | `lower` works character by character: A-Z and the Kelvin sign are lowered; other characters are kept |
| Demographics.SelectStrata | analysis/write_processed_csv_files.py:28-31 | keeps exactly the input rows whose measure is one of the four demographic strata |
| Demographics.DropUnknownImd | analysis/write_processed_csv_files.py:33-39 | keeps exactly the rows that are not IMD-stratum rows with an "unknown" IMD |
| Demographics.ProjectColumns | analysis/write_processed_csv_files.py:41-53 | one output row per input row, each projected to the nine released columns |
| Demographics.DemographicTableConcat | analysis/write_processed_csv_files.py:19-54 | the table of concatenated inputs is the concatenation of their tables, so input order is kept |
| Demographics.DemographicTableSingleton | analysis/write_processed_csv_files.py:19-54 | a single row is released, projected, exactly when it is retained |
| Demographics.DemographicTableMembership | analysis/write_processed_csv_files.py:19-54 | a row is released exactly when it is the projection of a retained input row |
| Demographics.DemographicTableOnlyStrata | analysis/write_processed_csv_files.py:28-39 | every released row belongs to a demographic stratum, and none is an IMD-stratum row with an "unknown" IMD |
| Demographics.StripSpaces | analysis/write_processed_csv_files.py:37 | `strip` removes the leading space and trailing tab of " Unknown\t" and nothing else |
| Demographics.LowerUnknown | analysis/write_processed_csv_files.py:37 | `lower` turns "Unknown" into "unknown" |
| Demographics.UnknownWithSpaces | analysis/write_processed_csv_files.py:37 | " Unknown\t" counts as unknown after strip and lower-case |
| Demographics.UnknownImdRowDropped | analysis/write_processed_csv_files.py:33-39 | an IMD-stratum row with IMD " Unknown\t" is not released |
| Demographics.UnknownImdKeptOutsideImdStratum | analysis/write_processed_csv_files.py:33-39 | a row of any other demographic stratum is released whatever its IMD text |
| Deciles.ObservationsMembership | analysis/write_processed_csv_files.py:70-76 | the deciles read exactly the `by_practice` rows with a defined ratio |
| Deciles.ObservationsConcat | analysis/write_processed_csv_files.py:70-76 | the observations of two joined tables are their observations joined, so row order and repeats are kept |
| Deciles.InsertDate | analysis/write_processed_csv_files.py:80-86 | adding a date to an ascending list of distinct dates keeps it ascending and distinct, and adds that date and no other |
| Deciles.PeriodsMembership | analysis/write_processed_csv_files.py:80-86 | the grouped periods are exactly the observed dates |
| Deciles.RatiosInMembership | analysis/write_processed_csv_files.py:86 | a period's sample holds exactly the ratios observed in that period |
| Deciles.RatiosInConcat | analysis/write_processed_csv_files.py:86 | a period's sample of two joined tables is the two samples joined, repeated ratios included |
| Deciles.RatiosOfOneRow | analysis/write_processed_csv_files.py:70-86 | one row adds its ratio exactly once to its own period's sample when it is a `by_practice` row with a ratio, and nothing otherwise |
| Deciles.Sort | analysis/write_processed_csv_files.py:87 | the sorted sample is in order and is a permutation of the sample |
| Deciles.SortSorted | analysis/write_processed_csv_files.py:87 | sorting a sample that is already in order leaves it unchanged |
| Deciles.SortedUnique | analysis/write_processed_csv_files.py:87 | two ordered samples holding the same values with the same multiplicities are equal |
| Deciles.SortIsOrderedRearrangement | analysis/write_processed_csv_files.py:87 | the sorted sample is the one ordered rearrangement of the sample, whatever its row order |
| Deciles.NearestRankIndex | analysis/write_processed_csv_files.py:87 | the nearest rank always lies in the sample |
| Deciles.NearestRankIndexClosedForm | analysis/write_processed_csv_files.py:87 | nearest rank rounds p(n-1)/100 half up above the median and half down at or below it |
| Deciles.NearestRankIndexMonotone | analysis/write_processed_csv_files.py:87 | a higher percentile never has a lower rank |
| Deciles.QuantileObserved | analysis/write_processed_csv_files.py:87 | a percentile is one of the observed ratios, never an interpolation |
| Deciles.QuantileMonotone | analysis/write_processed_csv_files.py:87 | a higher percentile is never a smaller value |
| Deciles.QuantileTableAt | analysis/write_processed_csv_files.py:85-94 | row 9i+j of the quantile table is period i, percentile 10(j+1), with that period's percentile value |
| Deciles.CountDistinct | analysis/write_processed_csv_files.py:81 | `nunique` is the number of distinct known values |
| Deciles.PracticesInMembership | analysis/write_processed_csv_files.py:80 | a period's practice column holds exactly the practices observed in that period |
| Deciles.PracticeCounts | analysis/write_processed_csv_files.py:79-83 | one count per period, in period order, each the distinct practices of that period |
| Deciles.RescaledMonotone | analysis/write_processed_csv_files.py:97-98 | rescaling keeps the order of values |
| Deciles.DecilesOf | analysis/write_processed_csv_files.py:66-98 | nine rows per period that has observations |
| Deciles.DecilesOfAt | analysis/write_processed_csv_files.py:66-98 | row 9i+j is period i and percentile 10(j+1), with that period's nearest-rank value, times 1000 unless a mean |
| Deciles.DecilesOfScaled | analysis/write_processed_csv_files.py:85-98 | the released table is the quantile table, times 1000 exactly when the test is not a mean |
| Deciles.GetDecilesTable | analysis/write_processed_csv_files.py:57-100 | the method returns the specified deciles (mean exactly when the test contains "mean") and the practice counts |
| Deciles.ScaleUnlessMean | analysis/write_processed_csv_files.py:97-98 | the in-place overwrite multiplies by 1000 exactly when not a mean |
| Deciles.PeriodsAreObservedDates | analysis/write_processed_csv_files.py:70-89 | the periods are strictly increasing and are exactly the dates of retained rows |
| Deciles.DecilesShape | analysis/write_processed_csv_files.py:66-94 | exactly nine rows per period, with integer percentiles 10, 20, ..., 90 |
| Deciles.ObservedRatioRow | analysis/write_processed_csv_files.py:70-76 | every ratio in a period's sample comes from a retained row of that period |
| Deciles.DecileValueObserved | analysis/write_processed_csv_files.py:70-98 | every released value is the rescaled ratio of some retained row of its period |
| Deciles.DecilesNonDecreasing | analysis/write_processed_csv_files.py:85-98 | within a period, the values do not decrease as the percentile rises |
| Deciles.PracticeCountIsDistinctPractices | analysis/write_processed_csv_files.py:79-83 | a period's count is the number of distinct practices among its retained rows |
| Grouping.AddToKeys | analysis/write_processed_csv_files.py:129-130 | adding an amount leaves the keys as they were plus the added key |
| Grouping.AddToDistinct | analysis/write_processed_csv_files.py:129-130 | adding an amount keeps every group's key distinct |
| Grouping.AddToSumWhere | analysis/write_processed_csv_files.py:129-130 | adding an amount to a key adds it to every selective sum that selects the key, and to no other |
| Grouping.GroupSum | analysis/write_processed_csv_files.py:129-130 | `groupby().sum()` gives one group per key, and no more groups than entries |
| Grouping.GroupSumWhere | analysis/write_processed_csv_files.py:129-130 | grouping preserves every selective sum of the amounts |
| Grouping.GroupSumKeys | analysis/write_processed_csv_files.py:129-130 | the groups' keys are exactly the entries' keys |
| Grouping.GroupSumNonEmpty | analysis/write_processed_csv_files.py:143 | the grouped series is empty exactly when the input is empty |
| Grouping.RegroupSumWhere | analysis/write_processed_csv_files.py:147-156 | a selective sum over re-keyed groups is the matching sum over the original groups |
| Grouping.RegroupKeys | analysis/write_processed_csv_files.py:147-156 | the regrouped keys are exactly the images of the entries' keys |
| Grouping.RegroupTotal | analysis/write_processed_csv_files.py:147-156 | a regrouped total is the sum of the entries whose key maps to that group |
| Grouping.RegroupSumTotals | analysis/write_processed_csv_files.py:145-164 | regrouping preserves the sum of all totals |
| Grouping.TotalOfKey | analysis/write_processed_csv_files.py:147 | with distinct keys, the total selected by one key is that key's group total |
| Grouping.NoTotalOfKey | analysis/write_processed_csv_files.py:147 | a key with no group selects a total of zero |
| EventCodes.EventsColumnFor | analysis/write_processed_csv_files.py:122-126 | the events are the denominator exactly when the test contains "mean" |
| EventCodes.LatestPeriod | analysis/write_processed_csv_files.py:147-150 | the first group after a descending date sort is a group with the latest date |
| EventCodes.InsertByEvents | analysis/write_processed_csv_files.py:158 | inserting keeps every element and adds exactly the new one |
| EventCodes.InsertByEventsNonIncreasing | analysis/write_processed_csv_files.py:158 | inserting into a descending list keeps it descending |
| EventCodes.SortByEvents | analysis/write_processed_csv_files.py:158 | the descending sort is a permutation with non-increasing events |
| EventCodes.SortByEventsDistinct | analysis/write_processed_csv_files.py:156-158 | sorting keeps one row per code |
| EventCodes.SortByEventsSumTotals | analysis/write_processed_csv_files.py:158-164 | sorting does not change the sum of events |
| EventCodes.DescriptionsMembership | analysis/write_processed_csv_files.py:160 | the descriptions a code matches are exactly its code-list entries |
| EventCodes.DescriptionsEmpty | analysis/write_processed_csv_files.py:160 | a code matches no description exactly when it is not in the code list |
| EventCodes.DescriptionsUnique | analysis/write_processed_csv_files.py:160 | with no repeated code in the code list, a code matches at most one description |
| EventCodes.JoinOne | analysis/write_processed_csv_files.py:160 | a left row yields one joined row per match, the k-th carrying the k-th matching description in code-list order, or one row with no description |
| EventCodes.LeftJoinRows | analysis/write_processed_csv_files.py:160 | every joined row comes from some left row, with its code, its events and a matching or missing description |
| EventCodes.LeftJoinKeeps | analysis/write_processed_csv_files.py:160 | every left row appears in the join |
| EventCodes.LeftJoinNonIncreasing | analysis/write_processed_csv_files.py:158-160 | the join keeps the descending order of events |
| EventCodes.LeftJoinUnique | analysis/write_processed_csv_files.py:160-164 | with no repeated code in the code list, the join is row for row and keeps the events total |
| EventCodes.ProportionOf | analysis/write_processed_csv_files.py:164-167 | the share is `nan` exactly when the total is zero, and otherwise the percentage rounded to hundredths |
| EventCodes.HundredthsBounds | analysis/write_processed_csv_files.py:164-179 | a share is at most 100.00; it is 0.00 exactly below half a hundredth of a percent, and 100.00 exactly from 99.995 percent up |
| EventCodes.ProportionRules | analysis/write_processed_csv_files.py:164-179 | `nan` without events; never clamped with one row; with several rows "< 0.005" and "> 99.995" replace exactly the two extremes |
| EventCodes.SharesSumBounds | analysis/write_processed_csv_files.py:164-167 | the rounded shares sum to within half a hundredth per row of the exact sum of the shares |
| EventCodes.SharesSumToHundred | analysis/write_processed_csv_files.py:164-167 | when there are events, the rounded shares add up to 100 % within half a hundredth of a percent per row |
| EventCodes.CodeTable | analysis/write_processed_csv_files.py:163-179 | the proportion column has one value per joined row |
| EventCodes.FillProportions | analysis/write_processed_csv_files.py:164-179 | the proportion writes and both clamp passes yield the specified code table |
| EventCodes.Top5 | analysis/write_processed_csv_files.py:184 | `iloc[:5]` is a prefix of at most five rows: all rows when there are fewer |
| EventCodes.GetEventCountsAndTop5CodesTables | analysis/write_processed_csv_files.py:103-184 | the counts are the specified counts for the chosen events column, and the top codes are the first five rows of the code table |
| EventCodes.LatestDate | analysis/write_processed_csv_files.py:147-150 | the latest date is some row's date and no row is later |
| EventCodes.EmptyInput | analysis/write_processed_csv_files.py:143-182 | no rows give counts (0, 0), and the code table is empty exactly when there are no rows |
| EventCodes.TotalEventsIsSum | analysis/write_processed_csv_files.py:145 | `total_events` is the sum of the events column over all rows |
| EventCodes.LatestPeriodIsLatestDate | analysis/write_processed_csv_files.py:147-150 | the first period after the descending sort is the latest date of any row |
| EventCodes.LatestEventsIsSum | analysis/write_processed_csv_files.py:147-152 | `events_in_latest_period` is the sum of the events over the rows of the latest date |
| EventCodes.LatestAtMostTotal | analysis/write_processed_csv_files.py:145-152 | the latest period never has more events than the total |
| EventCodes.EventsColumnChoice | analysis/write_processed_csv_files.py:122-145 | the total sums the denominator for a mean test and the numerator otherwise |
| EventCodes.CodeTableRow | analysis/write_processed_csv_files.py:155-161 | each row's code occurs in the input, its events are that code's sum, and its description is missing exactly when the code is not in the code list |
| EventCodes.NoCodeDropped | analysis/write_processed_csv_files.py:155-161 | every code in the input has a row in the code table |
| EventCodes.CodeTableNonIncreasing | analysis/write_processed_csv_files.py:155-161 | events do not increase down the code table |
| EventCodes.OneRowPerCode | analysis/write_processed_csv_files.py:155-179 | with no repeated code in the code list there is one row per code, and each share is the clamped share of all events |
| EventCodes.JoinedEventsAtMostTotal | analysis/write_processed_csv_files.py:164 | no row has more events than the share denominator |
| Reshape.LabelOf | app/measures.py:179-186 | Median exactly at 50; Decile at every other multiple of 10 except 0 and 100, including those below 0 and above 100; Percentile everywhere else |
| Reshape.Labelled | app/measures.py:179-190 | one labelled row per input row |
| Reshape.KeepShown | app/measures.py:193 | the filter never adds rows |
| Reshape.LabelRows | app/measures.py:179-186 | the three successive label writes give each row the label of its percentile |
| Reshape.DivideValues | app/measures.py:189-190 | every value is divided by 10, and the rest of the row is unchanged |
| Reshape.GetDecilesTable | app/measures.py:176-195 | the read-back table is the labelled table, divided by 10 unless the URL names the HbA1c mean-tests measure, with the Percentile rows dropped |
| Reshape.KeepShownConcat | app/measures.py:193 | the filter distributes over concatenation, so row order is kept |
| Reshape.KeepShownMembership | app/measures.py:193 | a row survives exactly when it was present and is not labelled Percentile |
| Reshape.ShownDecilesMembership | app/measures.py:176-195 | a shown row is exactly the labelled, rescaled form of an input row whose percentile is a decile |
| Reshape.ShownDecilesConcat | app/measures.py:176-195 | the reshape distributes over concatenation, so input order is kept |
| Reshape.NoPercentileShown | app/measures.py:193 | no shown row is labelled Percentile |
| Reshape.EthnicityLabel | app/measures.py:213-223 | codes 1 to 5 are replaced by their names, and every other value is kept |
| Reshape.SelectRows | app/measures.py:206-208 | selecting the non-null rows never adds rows |
| Reshape.RewriteRows | app/measures.py:211-223 | the ratio becomes a percentage, and the ethnicity column alone is renamed |
| Reshape.RewriteSelected | app/measures.py:206-223 | selecting, then rewriting, gives the dimension table |
| Reshape.GetMeasuresTables | app/measures.py:198-225 | one table per non-fixed column: its non-null rows, the ratio times 100, and ethnicity named |
| Reshape.DimensionTableConcat | app/measures.py:206-208 | a dimension table distributes over concatenation, so row order is kept |
| Reshape.DimensionTableMembership | app/measures.py:206-223 | a dimension row is exactly the rewritten form of an input row that is not null in that column |
| Reshape.Unranked | app/measures.py:170-172 | dropping the ranks gives one row per ranked row |
| Reshape.RankRows | app/measures.py:165-173 | ranking keeps the rows and their order, with ranks 1 to n |
| Repository.Fetch | app/measures.py:134-138 | a fetch succeeds exactly when the address is in the store, and otherwise fails naming that address |
| Repository.OSJobsRepository.constructor | app/measures.py:114-117 | the repository starts with the catalog and an empty cache |
| Repository.OSJobsRepository.Get | app/measures.py:119-124 | returns the constructed measure; a cached name returns the cached value and changes nothing; a miss caches exactly that name; a failed construction caches nothing |
| Repository.OSJobsRepository.Construct | app/measures.py:126-153 | builds the measure from the record's texts, the total events, the ranked top codes, the reshaped deciles and the dimension tables |
| Repository.OSJobsRepository.List | app/measures.py:155-157 | the names listed are exactly those that `get` does not reject as unknown |
| Repository.NoMeasuresTablesUrl | app/measures.py:137-140 | a record without a measures-tables address gives an empty mapping, and does not depend on any measures table |
| Repository.ConstructedFields | app/measures.py:142-153 | a built measure carries its name, its record's explanation, design, caveats, code-list address and chart units, the total events of its counts table, and no Percentile row |
| Pipeline.KeepShownAll | app/measures.py:193 | the filter keeps a table that has no Percentile row |
| Pipeline.ReleasedDecilesAllShown | app/measures.py:176-195 | every released deciles row is shown, in order: Median at percentile 50 and Decile everywhere else |
| Pipeline.RankedTopCodes | app/measures.py:165-173 | the shown top codes are at most five, ranked 1, 2, ..., in order of non-increasing events |
| Pipeline.MedianOfThree | analysis/write_processed_csv_files.py:87 | the median of three values is the middle one once they are sorted |
| Pipeline.MedianOfUnordered | analysis/write_processed_csv_files.py:87 | ratios arriving as 0.05, 0.01, 0.02 have median 0.02 |
| Pipeline.MedianOfThreePractices | analysis/write_processed_csv_files.py:85-98 | in a period with three ratios, in any row order, the released median is the middle ratio in sorted order, rescaled |
| Pipeline.ExampleMedian | analysis/write_processed_csv_files.py:57-100 | with 2 periods and 3 practices, ratios {0.01, 0.02, 0.05} and {0.03, 0.04, 0.06} give medians 0.02 and 0.04, times 1000 for a rate |

## Left out

- Command-line options, `main`, the CSV and feather reading and writing, file naming and the code-list path: input and output, outside the computation.
- Simulated data with `np.random.randint`: it is random.
- Logging: it has no effect on the results.
- The YAML catalog file: the catalog is the map of records given to the constructor.
- Fetching over the network: a failed fetch is modelled as an address missing from the store.
- `Measure.__repr__`, `Measure.deciles_chart` and `Measure.measure_chart`: they only render.
- `Measure.change_in_median`: a floating-point percentage change indexed by date text.
- `app/open_pathology.py` is not part of this model: it is the user interface and its process-wide cache.
- Floating-point arithmetic: ratios and values are exact reals.
  - Python's round-half-to-even in `round(..., 2)` is not modelled.
  - The floating-point position `q * (n - 1)` and its fraction are not modelled.
- EventCodes.ProportionOf: states the share as whole hundredths, rounded half up. The text rendering of that share is not modelled. The clamp tests work on the value: 0.00 and 100.00.
- Deciles.NearestRankIndex: uses a chosen tie rule, the one pandas 1.x's grouped quantile applies; no pandas version is pinned, and later versions break exact-half ties differently. The higher rank is taken only when the fraction exceeds one half, or when it is exactly one half above the median. The rule uses exact arithmetic, so it can differ where the floating-point fraction is off by one unit.
- EventCodes.SortByEvents: codes with equal events keep the order in which they were first seen. pandas' default sort does not promise any order among ties. Only the non-increasing order is claimed.
- Grouping.GroupSum: groups appear in first-seen key order, not pandas' sorted key order. Only the codes' order after the events sort is observable, and only among ties.
- Counts are natural numbers. Missing or negative counts are not modelled. Missing codes are not modelled either; `groupby` would drop them.
- A column missing from an input table is not modelled; in the source it raises `KeyError`. A counts table without a `count` column is not modelled either.
- Repository.OSJobsRepository.Construct: parsing the released CSV tables back is not modelled. The store holds the parsed values, and each value is taken to be exactly what the release side wrote.
- A catalog with two records of the same name is not modelled: the catalog is a map.
- Text.Lower: lower-cases A-Z and the Kelvin sign only: these are all the characters whose lower-case form can spell "unknown". Other characters are left unchanged.
- Repository.OSJobsRepository.List: returns the catalog's names as a set. The source returns them in catalog order, the order the measure selector shows them in.
