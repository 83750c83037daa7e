/** The canonical per-period measurement table both aggregations read. */
module Rows {
  import opened Wrappers

  /** `interval_start`, the first day of a period, as a day number. */
  type Date = int

  /**
    One row of the rounded and redacted measures output. `numerator` and
    `denominator` are event counts; `ratio` is missing when the denominator is
    zero or the row was suppressed. The stratification columns are filled only
    for the rows whose `measure` selects them.
  */
  datatype MeasurementRow = MeasurementRow(
    measure: string,
    intervalStart: Date,
    numerator: nat,
    denominator: nat,
    ratio: Option<real>,
    snomedctCode: string,
    practice: Option<int>,
    imd: Option<string>,
    ethnicity: Option<int>,
    sex: Option<string>,
    region: Option<string>)
}
