/** The BLS employment transform: from a LAUS API response to the canonical
    wide employment records of one configured metro inside a date window.

    Errors are raised in the order the transform checks them; the first one
    met ends the run. Data points are read series by series and point by
    point, so "first" is in that order. */
module EmploymentTransform {

  import opened Results
  import opened Text
  import opened Calendar
  import opened Metros
  import opened LausSeriesId
  import opened EmploymentPivot

  /** One element of a series' `data` list. `value` is the outcome of
      `float(value.replace(",", ""))`: `None` when that conversion fails. */
  datatype RawPoint = RawPoint(year: string, period: string, value: Option<real>)

  /** One element of `Results.series`; an absent `data` list is empty. */
  datatype RawSeries = RawSeries(seriesId: Option<string>, data: seq<RawPoint>)

  /** The parsed JSON document. `message` is absent or a list of texts; an
      absent `Results` or `series` is an empty series list. */
  datatype RawResponse = RawResponse(status: Option<string>, message: Option<seq<string>>, series: seq<RawSeries>)

  datatype TransformError =
    | RawFileMissing
    | UnknownMetro(name: string, available: seq<string>)
    | InvalidDateFormat
    | InvalidWindow
    | ApiFailure(message: string)
    | MessageMissing
    | NoSeries
    | InvalidYear(yearText: string)
    | InvalidPeriod(period: string)
    | InvalidDate(year: int, month: int)
    | NoData

  /** How a point whose period starts with "M" is treated: as the code does
      it, or with the BLS annual average "M13" skipped as its comment says. */
  datatype PeriodRule = AsWritten | SkipAnnualAverages

  const RequestSucceeded: string := "REQUEST_SUCCEEDED"
  const UnknownError: string := "Unknown error"
  const AnnualAverage: string := "M13"
  const MetroRegionType: string := "metro"
  const BlsDataSource: string := "BLS LAUS"

  /** One canonical employment row. */
  datatype EmploymentRecord = EmploymentRecord(
    regionId: string,
    regionName: string,
    regionType: string,
    period: string,
    periodMonth: Date,
    year: int,
    month: int,
    laborForce: Option<real>,
    employed: Option<real>,
    unemployed: Option<real>,
    unemploymentRate: Option<real>,
    dataSource: string,
    lastUpdated: string)

  /** The column of a record that a measure fills. */
  function Column(rec: EmploymentRecord, m: Measure): Option<real> {
    match m
    case UnemploymentRate => rec.unemploymentRate
    case Unemployed => rec.unemployed
    case Employed => rec.employed
    case LaborForce => rec.laborForce
  }

  /** `f"{year}-{month:02d}"`. */
  function PeriodText(ym: YearMonth): string
    requires 0 <= ym.month < 100
  {
    IntToDecimal(ym.year) + "-" + ZeroPad2(ym.month)
  }

  /** Whether a point is dropped by the period guard before its month is read. */
  predicate SkippedPeriod(rule: PeriodRule, period: string) {
    !StartsWith(period, "M") || (rule == SkipAnnualAverages && period == AnnualAverage)
  }

  /** One data point: a fatal error, nothing (skipped or outside the window),
      or one observation for the series' measure. The checks run in the
      source's order: year, period guard, month, value, date, window. */
  function ParsePoint(rule: PeriodRule, p: RawPoint, m: Measure, start: Date, end: Date): (r: Result<Option<Obs>, TransformError>)
    ensures r.Ok? && r.value.Some? ==>
              && r.value.value.measure == m
              && p.value == Some(r.value.value.value)
              && TimestampMonth(r.value.value.ym)
              && InWindow(r.value.value.ym, start, end)
              && DecimalToInt(p.year) == Some(r.value.value.ym.year)
              && !SkippedPeriod(rule, p.period)
              && DecimalToInt(p.period[1..]) == Some(r.value.value.ym.month)
    ensures r.Err? ==> r.error.InvalidYear? || r.error.InvalidPeriod? || r.error.InvalidDate?
    ensures SkippedPeriod(rule, p.period) && DecimalToInt(p.year).Some? ==> r == Ok(None)
  {
    match DecimalToInt(p.year)
    case None => Err(InvalidYear(p.year))
    case Some(year) =>
      if SkippedPeriod(rule, p.period) then Ok(None)
      else
        match DecimalToInt(p.period[1..])
        case None => Err(InvalidPeriod(p.period))
        case Some(month) =>
          if p.value.None? then Ok(None)
          else
            var ym := YearMonth(year, month);
            if !TimestampMonth(ym) then Err(InvalidDate(year, month))
            else if InWindow(ym, start, end) then Ok(Some(Obs(ym, m, p.value.value)))
            else Ok(None)
  }

  function OptionToSeq(o: Option<Obs>): seq<Obs> {
    if o.Some? then [o.value] else []
  }

  /** The observations of one series' points, in order; the first failing
      point's error otherwise. */
  function PointsObs(rule: PeriodRule, pts: seq<RawPoint>, m: Measure, start: Date, end: Date): (r: Result<seq<Obs>, TransformError>)
    ensures r.Ok? ==> |r.value| <= |pts|
    ensures r.Ok? ==> forall i :: 0 <= i < |r.value| ==>
              r.value[i].measure == m && TimestampMonth(r.value[i].ym) && InWindow(r.value[i].ym, start, end)
  {
    if pts == [] then Ok([])
    else
      var head :- ParsePoint(rule, pts[0], m, start, end);
      var rest :- PointsObs(rule, pts[1..], m, start, end);
      Ok(OptionToSeq(head) + rest)
  }

  /** The measure of a series the transform reads, or `None` for a series it
      skips: no identifier, no data, an identifier without the LAUS prefix,
      another metro's code, or an unknown measure code. */
  function SeriesMeasure(s: RawSeries, metroCode: string): (r: Option<Measure>)
    ensures r.Some? ==>
              && s.seriesId.Some? && s.data != []
              && ParseSeriesId(s.seriesId.value).Ok?
              && ParseSeriesId(s.seriesId.value).value.metroCode == metroCode
              && MeasureCode(r.value) == ParseSeriesId(s.seriesId.value).value.measureCode
  {
    if s.seriesId.None? || s.seriesId.value == [] || s.data == [] then None
    else
      match ParseSeriesId(s.seriesId.value)
      case Err(_) => None
      case Ok(key) => if key.metroCode != metroCode then None else MeasureOfCode(key.measureCode)
  }

  /** The observations one series contributes. */
  function SeriesContribution(rule: PeriodRule, s: RawSeries, metroCode: string, start: Date, end: Date): Result<seq<Obs>, TransformError> {
    match SeriesMeasure(s, metroCode)
    case None => Ok([])
    case Some(m) => PointsObs(rule, s.data, m, start, end)
  }

  /** All retained observations, series by series. */
  function SeriesObs(rule: PeriodRule, series: seq<RawSeries>, metroCode: string, start: Date, end: Date): (r: Result<seq<Obs>, TransformError>)
    ensures r.Ok? ==> forall i :: 0 <= i < |r.value| ==>
              TimestampMonth(r.value[i].ym) && InWindow(r.value[i].ym, start, end)
  {
    if series == [] then Ok([])
    else
      var head :- SeriesContribution(rule, series[0], metroCode, start, end);
      var rest :- SeriesObs(rule, series[1..], metroCode, start, end);
      var r := head + rest;
      assert forall i :: |head| <= i < |r| ==> r[i] == rest[i - |head|];
      Ok(r)
  }

  /** The canonical record of one merged row. */
  function ToRecord(row: Row, metroCode: string, metroArea: string, now: string): EmploymentRecord
    requires 0 <= row.ym.month < 100
  {
    EmploymentRecord(
      metroCode, metroArea, MetroRegionType, PeriodText(row.ym), FirstOfMonth(row.ym),
      row.ym.year, row.ym.month,
      row.cells.laborForce, row.cells.employed, row.cells.unemployed, row.cells.unemploymentRate,
      BlsDataSource, now)
  }

  predicate MonthsValid(rows: seq<Row>) {
    forall i :: 0 <= i < |rows| ==> TimestampMonth(rows[i].ym)
  }

  function Emit(rows: seq<Row>, metroCode: string, metroArea: string, now: string): (recs: seq<EmploymentRecord>)
    requires MonthsValid(rows)
    ensures |recs| == |rows|
    ensures forall i :: 0 <= i < |rows| ==> recs[i] == ToRecord(rows[i], metroCode, metroArea, now)
  {
    seq(|rows|, i requires 0 <= i < |rows| => ToRecord(rows[i], metroCode, metroArea, now))
  }

  /** A month the merge has a row for is the month of some observation. */
  lemma RowMonthObserved(obs: seq<Obs>, ym: YearMonth)
    requires forall i :: 0 <= i < |obs| ==> TimestampMonth(obs[i].ym)
    requires Find(Pivot(obs), ym).Some?
    ensures TimestampMonth(ym)
  {
    PivotKeys(obs, ym);
    var j :| 0 <= j < |obs| && obs[j].ym == ym;
  }

  /** Every row the merge builds comes from some observation, so its month is
      a representable calendar month; sorting keeps that. */
  lemma PivotMonthsValid(obs: seq<Obs>)
    requires forall i :: 0 <= i < |obs| ==> TimestampMonth(obs[i].ym)
    ensures MonthsValid(Pivot(obs))
    ensures MonthsValid(SortRows(Pivot(obs)))
  {
    var rows := Pivot(obs);
    var sorted := SortRows(rows);
    forall i | 0 <= i < |rows| {
      RowMonthObserved(obs, rows[i].ym);
    }
    forall i | 0 <= i < |sorted| {
      RowMonthObserved(obs, sorted[i].ym);
    }
  }

  /** The checks before the merge and the reading loop: the retained
      observations of the requested metro inside the window, in reading
      order, or the first error. */
  function Retained(rule: PeriodRule, rawExists: bool, response: RawResponse, metroArea: string,
                    startDate: Option<Date>, endDate: Option<Date>): (r: Result<seq<Obs>, TransformError>)
    ensures r.Ok? ==> rawExists && LookupMetro(metroArea).Some?
    ensures r.Ok? ==> startDate.Some? && endDate.Some? && !Before(endDate.value, startDate.value)
    ensures r.Ok? ==> response.status == Some(RequestSucceeded) && response.series != []
    ensures r.Ok? ==> forall i :: 0 <= i < |r.value| ==>
              TimestampMonth(r.value[i].ym) && InWindow(r.value[i].ym, startDate.value, endDate.value)
  {
    if !rawExists then Err(RawFileMissing)
    else if LookupMetro(metroArea).None? then Err(UnknownMetro(metroArea, MetroNames()))
    else if startDate.None? || endDate.None? then Err(InvalidDateFormat)
    else if Before(endDate.value, startDate.value) then Err(InvalidWindow)
    else if response.status != Some(RequestSucceeded) then
      if response.message.None? then Err(ApiFailure(UnknownError))
      else if response.message.value == [] then Err(MessageMissing)
      else Err(ApiFailure(response.message.value[0]))
    else if response.series == [] then Err(NoSeries)
    else SeriesObs(rule, response.series, LookupMetro(metroArea).value.fullCode, startDate.value, endDate.value)
  }

  /** The merge, the empty-result check, the metadata columns and the sort:
      "no data" exactly when nothing was retained, otherwise at most one
      record per observation, each carrying the run's metadata and a month
      the timestamp conversion accepts. */
  function Assemble(obs: seq<Obs>, metroCode: string, metroArea: string, now: string): (r: Result<seq<EmploymentRecord>, TransformError>)
    requires forall i :: 0 <= i < |obs| ==> TimestampMonth(obs[i].ym)
    ensures r.Err? <==> obs == []
    ensures r.Err? ==> r.error == NoData
    ensures r.Ok? ==> 0 < |r.value| <= |obs|
    ensures r.Ok? ==> forall i :: 0 <= i < |r.value| ==> RunMetadata(r.value[i], metroCode, metroArea, now)
  {
    var rows := Pivot(obs);
    if rows == [] then Err(NoData)
    else
      PivotMonthsValid(obs);
      Ok(Emit(SortRows(rows), metroCode, metroArea, now))
  }

  /** The columns every record of one run shares, and a month the timestamp
      conversion accepts. */
  predicate RunMetadata(rec: EmploymentRecord, metroCode: string, metroArea: string, now: string) {
    && rec.regionId == metroCode
    && rec.regionName == metroArea
    && rec.regionType == MetroRegionType
    && rec.dataSource == BlsDataSource
    && rec.lastUpdated == now
    && TimestampMonth(YearMonth(rec.year, rec.month))
  }

  /** `transform_employment_bls_to_canonical` up to the Parquet write.
      `rawExists` is whether the raw file is on disk, `startDate`/`endDate`
      are the parsed window (`None` when the text does not parse), and `now`
      is the run's ISO timestamp. A run succeeds only past every check, with
      a non-empty table for the requested metro; it ends in "no data"
      exactly when every check passes and nothing is retained. */
  function TransformWith(rule: PeriodRule, rawExists: bool, response: RawResponse, metroArea: string,
                         startDate: Option<Date>, endDate: Option<Date>, now: string): (r: Result<seq<EmploymentRecord>, TransformError>)
    ensures r.Ok? ==> && rawExists && LookupMetro(metroArea).Some? && startDate.Some? && endDate.Some?
                      && !Before(endDate.value, startDate.value) && response.status == Some(RequestSucceeded)
    ensures r.Ok? ==> r.value != [] && forall i :: 0 <= i < |r.value| ==>
              RunMetadata(r.value[i], LookupMetro(metroArea).value.fullCode, metroArea, now)
    ensures Retained(rule, rawExists, response, metroArea, startDate, endDate) == Ok([]) <==> r == Err(NoData) && Retained(rule, rawExists, response, metroArea, startDate, endDate).Ok?
  {
    var obs :- Retained(rule, rawExists, response, metroArea, startDate, endDate);
    Assemble(obs, LookupMetro(metroArea).value.fullCode, metroArea, now)
  }

  /* The two period rules disagree only on runs the code aborts. */

  lemma ThirteenParses()
    ensures DecimalToInt(AnnualAverage[1..]) == Some(13)
  {
    assert AnnualAverage[1..] == "13";
    assert IsDecimal("13");
    assert "13"[..1] == "1";
    assert DecimalToNat("1") == 1 by {
      assert "1"[..0] == [];
    }
  }

  lemma PointRulesAgreeOnSuccess(p: RawPoint, m: Measure, start: Date, end: Date)
    ensures ParsePoint(AsWritten, p, m, start, end).Ok? ==>
              ParsePoint(SkipAnnualAverages, p, m, start, end) == ParsePoint(AsWritten, p, m, start, end)
  {
    ThirteenParses();
  }

  lemma {:induction false} PointsRulesAgreeOnSuccess(pts: seq<RawPoint>, m: Measure, start: Date, end: Date)
    ensures PointsObs(AsWritten, pts, m, start, end).Ok? ==>
              PointsObs(SkipAnnualAverages, pts, m, start, end) == PointsObs(AsWritten, pts, m, start, end)
    decreases |pts|
  {
    if pts != [] {
      PointRulesAgreeOnSuccess(pts[0], m, start, end);
      PointsRulesAgreeOnSuccess(pts[1..], m, start, end);
    }
  }

  lemma {:induction false} SeriesRulesAgreeOnSuccess(series: seq<RawSeries>, code: string, start: Date, end: Date)
    ensures SeriesObs(AsWritten, series, code, start, end).Ok? ==>
              SeriesObs(SkipAnnualAverages, series, code, start, end) == SeriesObs(AsWritten, series, code, start, end)
    decreases |series|
  {
    if series != [] {
      var m := SeriesMeasure(series[0], code);
      if m.Some? {
        PointsRulesAgreeOnSuccess(series[0].data, m.value, start, end);
      }
      SeriesRulesAgreeOnSuccess(series[1..], code, start, end);
    }
  }

  lemma RetainedRulesAgreeOnSuccess(rawExists: bool, response: RawResponse, metroArea: string,
                                    startDate: Option<Date>, endDate: Option<Date>)
    ensures Retained(AsWritten, rawExists, response, metroArea, startDate, endDate).Ok? ==>
              Retained(SkipAnnualAverages, rawExists, response, metroArea, startDate, endDate)
              == Retained(AsWritten, rawExists, response, metroArea, startDate, endDate)
  {
    if LookupMetro(metroArea).Some? && startDate.Some? && endDate.Some? {
      SeriesRulesAgreeOnSuccess(response.series, LookupMetro(metroArea).value.fullCode, startDate.value, endDate.value);
    }
  }

  /** The transform with annual averages skipped, as the comment at
      employment_bls_to_canonical.py:191 intends. It keeps every run the code
      as written completes, with the same table. */
  function Transform(rawExists: bool, response: RawResponse, metroArea: string,
                     startDate: Option<Date>, endDate: Option<Date>, now: string): (r: Result<seq<EmploymentRecord>, TransformError>)
    ensures TransformAsWritten(rawExists, response, metroArea, startDate, endDate, now).Ok? ==>
              r == TransformAsWritten(rawExists, response, metroArea, startDate, endDate, now)
  {
    RetainedRulesAgreeOnSuccess(rawExists, response, metroArea, startDate, endDate);
    TransformWith(SkipAnnualAverages, rawExists, response, metroArea, startDate, endDate, now)
  }

  /** The transform as written, where an "M13" point reaches the date
      constructor. A run it completes has a non-empty table whose every
      month is a calendar month the timestamp conversion accepts. */
  function TransformAsWritten(rawExists: bool, response: RawResponse, metroArea: string,
                              startDate: Option<Date>, endDate: Option<Date>, now: string): (r: Result<seq<EmploymentRecord>, TransformError>)
    ensures r.Ok? ==> r.value != [] && forall i :: 0 <= i < |r.value| ==> 1 <= r.value[i].month <= 12
  {
    TransformWith(AsWritten, rawExists, response, metroArea, startDate, endDate, now)
  }
}
