/**
  The viewer's repository of measures. A catalog record names, for each
  measure, its texts and the addresses of its four released tables;
  a measure is built from those tables the first time it is asked for and
  kept for later requests.
*/
module Repository {
  import opened Wrappers
  import opened Deciles
  import opened EventCodes
  import opened Reshape

  /** One entry of the measures catalog, keyed by the measure's name. */
  datatype CatalogRecord = CatalogRecord(
    explanation: string,
    design: string,
    caveats: string,
    codelistUrl: string,
    chartUnits: string,
    countsTableUrl: string,
    top5CodesTableUrl: string,
    decilesTableUrl: string,
    measuresTablesUrl: Option<string>)

  /**
    What fetching and parsing each address yields; an address missing from
    its map is a fetch that fails.
  */
  datatype Store = Store(
    counts: map<string, EventCounts>,
    top5Codes: map<string, seq<CodeRow>>,
    deciles: map<string, seq<DecileRow>>,
    measures: map<string, MeasuresTable>)

  /** A parsed measures table always has every column in every row. */
  ghost predicate ValidStore(store: Store) {
    forall u :: u in store.measures ==> WellFormed(store.measures[u])
  }

  datatype Measure = Measure(
    name: string,
    explanation: string,
    design: string,
    caveats: string,
    codelistUrl: string,
    totalEvents: nat,
    top5CodesTable: seq<Ranked<CodeRow>>,
    decilesTable: seq<LabelledDecile>,
    chartUnits: string,
    measuresTables: map<string, seq<DimensionRow>>)

  datatype RepositoryError = UnknownMeasure(name: string) | FetchFailed(url: string)

  function Fetch<T>(tables: map<string, T>, url: string): (r: Result<T, RepositoryError>)
    ensures r.Success? <==> url in tables
    ensures r.Success? ==> r.value == tables[url]
    ensures r.Failure? ==> r.error == FetchFailed(url)
  {
    if url in tables then Success(tables[url]) else Failure(FetchFailed(url))
  }

  /** The dimension tables, or none when the record has no measures-tables address. */
  ghost function MeasuresTablesFor(record: CatalogRecord, store: Store): Result<map<string, seq<DimensionRow>>, RepositoryError>
    requires ValidStore(store)
  {
    match record.measuresTablesUrl
    case None => Success(map[])
    case Some(url) =>
      var t :- Fetch(store.measures, url);
      Success(DimensionTables(t))
  }

  /**
    The measure `_construct` builds: the record's texts, `total_events` from
    the counts table, the ranked top codes, the reshaped deciles and the
    dimension tables, fetched in that order; the first failure is the result.
  */
  ghost function Constructed(name: string, records: map<string, CatalogRecord>, store: Store): Result<Measure, RepositoryError>
    requires ValidStore(store)
  {
    if name !in records then Failure(UnknownMeasure(name))
    else
      var record := records[name];
      var counts :- Fetch(store.counts, record.countsTableUrl);
      var top5 :- Fetch(store.top5Codes, record.top5CodesTableUrl);
      var deciles :- Fetch(store.deciles, record.decilesTableUrl);
      var tables :- MeasuresTablesFor(record, store);
      Success(Measure(name, record.explanation, record.design, record.caveats, record.codelistUrl,
                      counts.totalEvents, RankRows(top5),
                      ShownDeciles(deciles, ScalesDown(record.decilesTableUrl)),
                      record.chartUnits, tables))
  }

  class OSJobsRepository {
    const records: map<string, CatalogRecord>
    const store: Store
    var measures: map<string, Measure>

    /** Every cached measure is the one its record constructs. */
    ghost predicate Valid()
      reads this
    {
      && ValidStore(store)
      && forall n :: n in measures ==> Constructed(n, records, store) == Success(measures[n])
    }

    constructor(records: map<string, CatalogRecord>, store: Store)
      requires ValidStore(store)
      ensures Valid()
      ensures this.records == records && this.store == store
      ensures measures == map[]
    {
      this.records := records;
      this.store := store;
      measures := map[];
    }

    /**
      Returns the cached measure, or constructs and caches it on the first
      request; a failed construction caches nothing.
    */
    method Get(name: string) returns (r: Result<Measure, RepositoryError>)
      requires Valid()
      modifies this
      ensures Valid()
      ensures r == Constructed(name, records, store)
      ensures name in old(measures) ==> r == Success(old(measures)[name]) && measures == old(measures)
      ensures name !in old(measures) && r.Success? ==> measures == old(measures)[name := r.value]
      ensures r.Failure? ==> measures == old(measures)
    {
      if name !in measures {
        var constructed := Construct(name);
        if constructed.Failure? {
          r := constructed;
          return;
        }
        measures := measures[name := constructed.value];
      }
      r := Success(measures[name]);
    }

    /** `_construct`: fetches the four tables and reshapes them. */
    method Construct(name: string) returns (r: Result<Measure, RepositoryError>)
      requires ValidStore(store)
      ensures r == Constructed(name, records, store)
    {
      if name !in records {
        return Failure(UnknownMeasure(name));
      }
      var record := records[name];
      var counts :- Fetch(store.counts, record.countsTableUrl);
      var top5 :- Fetch(store.top5Codes, record.top5CodesTableUrl);
      var decilesCsv :- Fetch(store.deciles, record.decilesTableUrl);
      var deciles := Reshape.GetDecilesTable(decilesCsv, record.decilesTableUrl);
      var tables: map<string, seq<DimensionRow>> := map[];
      if record.measuresTablesUrl.Some? {
        var t :- Fetch(store.measures, record.measuresTablesUrl.value);
        tables := GetMeasuresTables(t);
      }
      r := Success(Measure(name, record.explanation, record.design, record.caveats, record.codelistUrl,
                           counts.totalEvents, RankRows(top5), deciles, record.chartUnits, tables));
    }

    /** The names of all catalogued measures: exactly those `Get` does not reject as unknown. */
    function List(): (names: set<string>)
      requires ValidStore(store)
      reads this
      ensures forall n :: n in names <==> Constructed(n, records, store) != Failure(UnknownMeasure(n))
    {
      records.Keys
    }
  }

  // ---------------------------------------------------------------------------
  // Properties of construction.

  /**
    A record without a measures-tables address gives an empty mapping, and its
    measure does not depend on what any measures-tables address would yield.
  */
  lemma NoMeasuresTablesUrl(name: string, records: map<string, CatalogRecord>, store: Store, other: map<string, MeasuresTable>)
    requires ValidStore(store) && ValidStore(store.(measures := other))
    requires name in records && records[name].measuresTablesUrl == None
    ensures Constructed(name, records, store).Success? ==> Constructed(name, records, store).value.measuresTables == map[]
    ensures Constructed(name, records, store) == Constructed(name, records, store.(measures := other))
  {
  }

  /** A constructed measure carries its own name, its record's texts and its counts table's total. */
  lemma ConstructedFields(name: string, records: map<string, CatalogRecord>, store: Store)
    requires ValidStore(store)
    requires Constructed(name, records, store).Success?
    ensures var m := Constructed(name, records, store).value;
      && name in records
      && m.name == name
      && m.explanation == records[name].explanation
      && m.design == records[name].design
      && m.caveats == records[name].caveats
      && m.codelistUrl == records[name].codelistUrl
      && m.chartUnits == records[name].chartUnits
      && records[name].countsTableUrl in store.counts
      && m.totalEvents == store.counts[records[name].countsTableUrl].totalEvents
      && records[name].decilesTableUrl in store.deciles
      && forall x :: x in m.decilesTable ==> x.band != Percentile
  {
    var record := records[name];
    NoPercentileShown(store.deciles[record.decilesTableUrl], ScalesDown(record.decilesTableUrl));
  }
}
