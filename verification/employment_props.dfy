/** What the employment transform guarantees about its output, stated against
    independent descriptions: the raw points that survive the filters, the
    merge's last-value semantics, the calendar, and the metro table. */
module EmploymentProperties {

  import opened Results
  import opened Text
  import opened Calendar
  import opened Metros
  import opened LausSeriesId
  import opened EmploymentPivot
  import opened EmploymentTransform
  import Slug

  /** `o` is what some point of some read series yields: the series carries the
      requested metro's code and `o`'s measure, and the point passes the year,
      period, month, value, date and window checks with exactly `o`. */
  predicate FromSomePoint(rule: PeriodRule, series: seq<RawSeries>, code: string, start: Date, end: Date, o: Obs) {
    exists k, j :: 0 <= k < |series| && 0 <= j < |series[k].data|
                   && SeriesMeasure(series[k], code) == Some(o.measure)
                   && ParsePoint(rule, series[k].data[j], o.measure, start, end) == Ok(Some(o))
  }

  /** A point whose year and month read and whose period passes the guard:
      without a value it is skipped, never fatal; with a value outside the
      timestamp range it is an invalid date; otherwise it is kept exactly
      when the first of its month lies in the window, and skipped when not. */
  lemma ReadablePointOutcome(rule: PeriodRule, p: RawPoint, m: Measure, start: Date, end: Date, year: int, month: int)
    requires DecimalToInt(p.year) == Some(year) && !SkippedPeriod(rule, p.period)
    requires DecimalToInt(p.period[1..]) == Some(month)
    ensures p.value.None? ==> ParsePoint(rule, p, m, start, end) == Ok(None)
    ensures p.value.Some? && !TimestampMonth(YearMonth(year, month)) ==>
              ParsePoint(rule, p, m, start, end) == Err(InvalidDate(year, month))
    ensures p.value.Some? && TimestampMonth(YearMonth(year, month)) ==>
              ParsePoint(rule, p, m, start, end)
              == if InWindow(YearMonth(year, month), start, end) then Ok(Some(Obs(YearMonth(year, month), m, p.value.value)))
                 else Ok(None)
  {
  }

  /** The fatal cases before the value is looked at: an unreadable year, and
      an unreadable month of a period that passes the guard. */
  lemma UnreadablePointFails(rule: PeriodRule, p: RawPoint, m: Measure, start: Date, end: Date)
    ensures DecimalToInt(p.year).None? ==> ParsePoint(rule, p, m, start, end) == Err(InvalidYear(p.year))
    ensures DecimalToInt(p.year).Some? && !SkippedPeriod(rule, p.period) && DecimalToInt(p.period[1..]).None? ==>
              ParsePoint(rule, p, m, start, end) == Err(InvalidPeriod(p.period))
  {
  }

  lemma {:induction false} PointsObsMembers(rule: PeriodRule, pts: seq<RawPoint>, m: Measure, start: Date, end: Date, o: Obs)
    requires PointsObs(rule, pts, m, start, end).Ok?
    ensures o in PointsObs(rule, pts, m, start, end).value
            <==> exists j :: 0 <= j < |pts| && ParsePoint(rule, pts[j], m, start, end) == Ok(Some(o))
    decreases |pts|
  {
    if pts != [] {
      var head := ParsePoint(rule, pts[0], m, start, end);
      PointsObsMembers(rule, pts[1..], m, start, end, o);
      assert PointsObs(rule, pts, m, start, end).value
             == OptionToSeq(head.value) + PointsObs(rule, pts[1..], m, start, end).value;
      if exists j :: 1 <= j < |pts| && ParsePoint(rule, pts[j], m, start, end) == Ok(Some(o)) {
        var j :| 1 <= j < |pts| && ParsePoint(rule, pts[j], m, start, end) == Ok(Some(o));
        assert pts[1..][j - 1] == pts[j];
      }
      if exists j :: 0 <= j < |pts[1..]| && ParsePoint(rule, pts[1..][j], m, start, end) == Ok(Some(o)) {
        var j :| 0 <= j < |pts[1..]| && ParsePoint(rule, pts[1..][j], m, start, end) == Ok(Some(o));
        assert pts[j + 1] == pts[1..][j];
      }
    }
  }

  lemma ContributionMembers(rule: PeriodRule, s: RawSeries, code: string, start: Date, end: Date, o: Obs)
    requires SeriesContribution(rule, s, code, start, end).Ok?
    ensures o in SeriesContribution(rule, s, code, start, end).value
            <==> SeriesMeasure(s, code) == Some(o.measure)
                 && exists j :: 0 <= j < |s.data| && ParsePoint(rule, s.data[j], o.measure, start, end) == Ok(Some(o))
  {
    if SeriesMeasure(s, code).Some? {
      var m := SeriesMeasure(s, code).value;
      PointsObsMembers(rule, s.data, m, start, end, o);
    }
  }

  /** The retained observations are exactly what the read series' points yield. */
  lemma {:induction false} SeriesObsMembers(rule: PeriodRule, series: seq<RawSeries>, code: string, start: Date, end: Date, o: Obs)
    requires SeriesObs(rule, series, code, start, end).Ok?
    ensures o in SeriesObs(rule, series, code, start, end).value <==> FromSomePoint(rule, series, code, start, end, o)
    decreases |series|
  {
    if series != [] {
      var head := SeriesContribution(rule, series[0], code, start, end);
      var rest := SeriesObs(rule, series[1..], code, start, end);
      assert SeriesObs(rule, series, code, start, end).value == head.value + rest.value;
      ContributionMembers(rule, series[0], code, start, end, o);
      SeriesObsMembers(rule, series[1..], code, start, end, o);
      if FromSomePoint(rule, series, code, start, end, o) {
        var k, j :| 0 <= k < |series| && 0 <= j < |series[k].data|
                    && SeriesMeasure(series[k], code) == Some(o.measure)
                    && ParsePoint(rule, series[k].data[j], o.measure, start, end) == Ok(Some(o));
        if k > 0 {
          assert series[1..][k - 1] == series[k];
        }
      }
      if FromSomePoint(rule, series[1..], code, start, end, o) {
        var k, j :| 0 <= k < |series[1..]| && 0 <= j < |series[1..][k].data|
                    && SeriesMeasure(series[1..][k], code) == Some(o.measure)
                    && ParsePoint(rule, series[1..][k].data[j], o.measure, start, end) == Ok(Some(o));
        assert series[k + 1] == series[1..][k];
      }
    }
  }

  /** Reading a series' points fails exactly when one of them is fatal, and
      then with the error of the first fatal point. */
  lemma {:induction false} PointsObsFails(rule: PeriodRule, pts: seq<RawPoint>, m: Measure, start: Date, end: Date)
    ensures PointsObs(rule, pts, m, start, end).Err?
            <==> exists j :: 0 <= j < |pts| && ParsePoint(rule, pts[j], m, start, end).Err?
    ensures PointsObs(rule, pts, m, start, end).Err? ==>
              exists j :: 0 <= j < |pts| && ParsePoint(rule, pts[j], m, start, end) == Err(PointsObs(rule, pts, m, start, end).error)
                          && forall i :: 0 <= i < j ==> ParsePoint(rule, pts[i], m, start, end).Ok?
    decreases |pts|
  {
    if pts != [] {
      var t := pts[1..];
      PointsObsFails(rule, t, m, start, end);
      assert forall i :: 1 <= i < |pts| ==> pts[i] == t[i - 1];
      if ParsePoint(rule, pts[0], m, start, end).Ok? && PointsObs(rule, t, m, start, end).Err? {
        var j :| 0 <= j < |t| && ParsePoint(rule, t[j], m, start, end) == Err(PointsObs(rule, t, m, start, end).error)
                 && forall i :: 0 <= i < j ==> ParsePoint(rule, t[i], m, start, end).Ok?;
        assert pts[j + 1] == t[j];
      }
    }
  }

  /** The series is read and one of its points is fatal, with error `e`. */
  predicate SeriesFailsWith(rule: PeriodRule, x: RawSeries, code: string, start: Date, end: Date, e: TransformError) {
    && SeriesMeasure(x, code).Some?
    && exists j :: 0 <= j < |x.data| && ParsePoint(rule, x.data[j], SeriesMeasure(x, code).value, start, end) == Err(e)
  }

  /** Some point of a read series is fatal, with error `e`: the first series
      fails so, or a later one does. */
  predicate FailsAtSomePoint(rule: PeriodRule, series: seq<RawSeries>, code: string, start: Date, end: Date, e: TransformError)
    decreases |series|
  {
    series != [] && (SeriesFailsWith(rule, series[0], code, start, end, e) || FailsAtSomePoint(rule, series[1..], code, start, end, e))
  }

  /** One series' contribution fails exactly when one of its points is fatal. */
  lemma ContributionFails(rule: PeriodRule, x: RawSeries, code: string, start: Date, end: Date)
    ensures SeriesContribution(rule, x, code, start, end).Err?
            <==> exists e :: SeriesFailsWith(rule, x, code, start, end, e)
    ensures SeriesContribution(rule, x, code, start, end).Err? ==>
              SeriesFailsWith(rule, x, code, start, end, SeriesContribution(rule, x, code, start, end).error)
  {
    if SeriesMeasure(x, code).Some? {
      var m := SeriesMeasure(x, code).value;
      PointsObsFails(rule, x.data, m, start, end);
      if exists j :: 0 <= j < |x.data| && ParsePoint(rule, x.data[j], m, start, end).Err? {
        var j :| 0 <= j < |x.data| && ParsePoint(rule, x.data[j], m, start, end).Err?;
        assert SeriesFailsWith(rule, x, code, start, end, ParsePoint(rule, x.data[j], m, start, end).error);
      }
    }
  }

  /** A fatal point in a read series fails the whole reading. */
  lemma {:induction false} FatalPointFailsReading(rule: PeriodRule, series: seq<RawSeries>, code: string, start: Date, end: Date,
                                                  e: TransformError)
    requires FailsAtSomePoint(rule, series, code, start, end, e)
    ensures SeriesObs(rule, series, code, start, end).Err?
    decreases |series|
  {
    ContributionFails(rule, series[0], code, start, end);
    if !SeriesFailsWith(rule, series[0], code, start, end, e) {
      FatalPointFailsReading(rule, series[1..], code, start, end, e);
    }
  }

  /** A failed reading fails with the error of a fatal point of a read series. */
  lemma {:induction false} ReadingFailsAtPoint(rule: PeriodRule, series: seq<RawSeries>, code: string, start: Date, end: Date)
    requires SeriesObs(rule, series, code, start, end).Err?
    ensures FailsAtSomePoint(rule, series, code, start, end, SeriesObs(rule, series, code, start, end).error)
    decreases |series|
  {
    var r := SeriesObs(rule, series, code, start, end);
    var t := series[1..];
    ContributionFails(rule, series[0], code, start, end);
    if SeriesContribution(rule, series[0], code, start, end).Ok? {
      assert r == SeriesObs(rule, t, code, start, end);
      ReadingFailsAtPoint(rule, t, code, start, end);
    }
  }

  /** Reading the series list fails exactly when some point of a read series
      is fatal, and then with the error of such a point; points of skipped
      series are never looked at. */
  lemma SeriesObsFails(rule: PeriodRule, series: seq<RawSeries>, code: string, start: Date, end: Date)
    ensures SeriesObs(rule, series, code, start, end).Err? ==> exists e :: FailsAtSomePoint(rule, series, code, start, end, e)
    ensures (exists e :: FailsAtSomePoint(rule, series, code, start, end, e)) ==> SeriesObs(rule, series, code, start, end).Err?
    ensures SeriesObs(rule, series, code, start, end).Err? ==>
              FailsAtSomePoint(rule, series, code, start, end, SeriesObs(rule, series, code, start, end).error)
  {
    if SeriesObs(rule, series, code, start, end).Err? {
      ReadingFailsAtPoint(rule, series, code, start, end);
      var e := SeriesObs(rule, series, code, start, end).error;
      assert FailsAtSomePoint(rule, series, code, start, end, e);
    }
    forall e | FailsAtSomePoint(rule, series, code, start, end, e) {
      FatalPointFailsReading(rule, series, code, start, end, e);
    }
  }

  /** The checks before the series list is read, in the code's order: the raw
      file exists, the metro is configured, both dates parsed, the window is
      not reversed, the request succeeded and the response lists series. */
  predicate WindowChecksPass(rawExists: bool, metroArea: string, startDate: Option<Date>, endDate: Option<Date>) {
    && rawExists
    && LookupMetro(metroArea).Some?
    && startDate.Some? && endDate.Some?
    && !Before(endDate.value, startDate.value)
  }

  predicate EarlyChecksPass(rawExists: bool, response: RawResponse, metroArea: string,
                            startDate: Option<Date>, endDate: Option<Date>) {
    && WindowChecksPass(rawExists, metroArea, startDate, endDate)
    && response.status == Some(RequestSucceeded)
    && response.series != []
  }

  /** A run that gets past the early checks reads exactly the series list,
      and fails exactly as reading it fails. */
  lemma RetainedIsSeriesObs(rule: PeriodRule, rawExists: bool, response: RawResponse, metroArea: string,
                            startDate: Option<Date>, endDate: Option<Date>)
    requires EarlyChecksPass(rawExists, response, metroArea, startDate, endDate)
    ensures Retained(rule, rawExists, response, metroArea, startDate, endDate)
            == SeriesObs(rule, response.series, LookupMetro(metroArea).value.fullCode, startDate.value, endDate.value)
  {
  }

  /** The validation chain of the transform, check by check: each check's
      error is the run's result as soon as every earlier check passed, and
      whatever the later inputs are. Past all of them, the run fails exactly
      when reading the series fails, with that error. */
  lemma ValidationOrder(rule: PeriodRule, rawExists: bool, response: RawResponse, metroArea: string,
                        startDate: Option<Date>, endDate: Option<Date>, now: string)
    ensures !rawExists ==>
              TransformWith(rule, rawExists, response, metroArea, startDate, endDate, now) == Err(RawFileMissing)
    ensures rawExists && LookupMetro(metroArea).None? ==>
              TransformWith(rule, rawExists, response, metroArea, startDate, endDate, now)
              == Err(UnknownMetro(metroArea, MetroNames()))
    ensures rawExists && LookupMetro(metroArea).Some? && (startDate.None? || endDate.None?) ==>
              TransformWith(rule, rawExists, response, metroArea, startDate, endDate, now) == Err(InvalidDateFormat)
    ensures rawExists && LookupMetro(metroArea).Some? && startDate.Some? && endDate.Some?
            && Before(endDate.value, startDate.value) ==>
              TransformWith(rule, rawExists, response, metroArea, startDate, endDate, now) == Err(InvalidWindow)
    ensures WindowChecksPass(rawExists, metroArea, startDate, endDate) && response.status != Some(RequestSucceeded) ==>
              TransformWith(rule, rawExists, response, metroArea, startDate, endDate, now)
              == Err(if response.message.None? then ApiFailure(UnknownError)
                     else if response.message.value == [] then MessageMissing
                     else ApiFailure(response.message.value[0]))
    ensures WindowChecksPass(rawExists, metroArea, startDate, endDate) && response.status == Some(RequestSucceeded)
            && response.series == [] ==>
              TransformWith(rule, rawExists, response, metroArea, startDate, endDate, now) == Err(NoSeries)
    ensures EarlyChecksPass(rawExists, response, metroArea, startDate, endDate) ==>
              var read := SeriesObs(rule, response.series, LookupMetro(metroArea).value.fullCode, startDate.value, endDate.value);
              read.Ok? ==>
                && (TransformWith(rule, rawExists, response, metroArea, startDate, endDate, now).Err? <==> Pivot(read.value) == [])
                && (TransformWith(rule, rawExists, response, metroArea, startDate, endDate, now).Err? ==>
                      TransformWith(rule, rawExists, response, metroArea, startDate, endDate, now) == Err(NoData))
    ensures EarlyChecksPass(rawExists, response, metroArea, startDate, endDate) ==>
              var read := SeriesObs(rule, response.series, LookupMetro(metroArea).value.fullCode, startDate.value, endDate.value);
              read.Err? ==> TransformWith(rule, rawExists, response, metroArea, startDate, endDate, now) == Err(read.error)
  {
    if EarlyChecksPass(rawExists, response, metroArea, startDate, endDate) {
      RetainedIsSeriesObs(rule, rawExists, response, metroArea, startDate, endDate);
    }
  }

  /** A failed API request is reported with the first message of the response,
      "Unknown error" when there is none, and an index error for an empty
      message list; no data is read. */
  lemma FailedRequestReported(rule: PeriodRule, response: RawResponse, metroArea: string,
                              start: Date, end: Date, now: string)
    requires LookupMetro(metroArea).Some? && !Before(end, start)
    requires response.status != Some(RequestSucceeded)
    ensures response.message.None? ==>
              TransformWith(rule, true, response, metroArea, Some(start), Some(end), now) == Err(ApiFailure(UnknownError))
    ensures response.message.Some? && response.message.value != [] ==>
              TransformWith(rule, true, response, metroArea, Some(start), Some(end), now) == Err(ApiFailure(response.message.value[0]))
    ensures response.message == Some([]) ==>
              TransformWith(rule, true, response, metroArea, Some(start), Some(end), now) == Err(MessageMissing)
  {
  }

  function KeyOf(rec: EmploymentRecord): YearMonth {
    YearMonth(rec.year, rec.month)
  }

  /** `pd.to_datetime(period + "-01")` recovers the first of the month. */
  lemma PeriodMonthParses(ym: YearMonth)
    requires TimestampMonth(ym)
    ensures PeriodText(ym) == NatToDecimal(ym.year) + "-" + ZeroPad2(ym.month)
    ensures ParseIsoDate(PeriodText(ym) + "-01") == Some(FirstOfMonth(ym))
  {
    var d := FirstOfMonth(ym);
    IsoDateRoundTrip(d);
    assert ZeroPad2(1) == "01";
    assert FormatIsoDate(d) == PeriodText(ym) + "-01";
  }

  /** The shape of an assembled table: at least one record; strictly
      increasing (year, month), each the month of some observation; the
      metadata columns fixed by the run; `period` the zero-padded `YYYY-MM`
      text, and `period_month` what parsing `period + "-01"` gives, the first
      of that month. */
  lemma AssembleWellFormed(obs: seq<Obs>, code: string, metroArea: string, now: string)
    requires forall i :: 0 <= i < |obs| ==> TimestampMonth(obs[i].ym)
    requires Assemble(obs, code, metroArea, now).Ok?
    ensures
      var recs := Assemble(obs, code, metroArea, now).value;
      && |recs| > 0
      && (forall i, j :: 0 <= i < j < |recs| ==> MonthBefore(KeyOf(recs[i]), KeyOf(recs[j])))
      && forall i :: 0 <= i < |recs| ==>
           && Observed(obs, KeyOf(recs[i]))
           && TimestampMonth(KeyOf(recs[i]))
           && recs[i].regionId == code
           && recs[i].regionName == metroArea
           && recs[i].regionType == "metro"
           && recs[i].dataSource == "BLS LAUS"
           && recs[i].lastUpdated == now
           && recs[i].period == NatToDecimal(recs[i].year) + "-" + ZeroPad2(recs[i].month)
           && recs[i].periodMonth == Date(recs[i].year, recs[i].month, 1)
           && ParseIsoDate(recs[i].period + "-01") == Some(recs[i].periodMonth)
  {
    var rows := SortRows(Pivot(obs));
    var recs := Assemble(obs, code, metroArea, now).value;
    forall i | 0 <= i < |recs|
      ensures Observed(obs, KeyOf(recs[i]))
      ensures ParseIsoDate(recs[i].period + "-01") == Some(recs[i].periodMonth)
      ensures recs[i].period == NatToDecimal(recs[i].year) + "-" + ZeroPad2(recs[i].month)
    {
      var ym := rows[i].ym;
      assert Find(rows, ym).Some?;
      PivotKeys(obs, ym);
      PeriodMonthParses(ym);
    }
  }

  /** Pivot content of an assembled table: there is a record for a month
      exactly when some observation falls in it, and each measure column of a
      record holds the value of the last observation of that month and
      measure, or null when there is none. */
  lemma AssembleMatchesObservations(obs: seq<Obs>, code: string, metroArea: string, now: string, ym: YearMonth, m: Measure)
    requires forall i :: 0 <= i < |obs| ==> TimestampMonth(obs[i].ym)
    requires Assemble(obs, code, metroArea, now).Ok?
    ensures
      var recs := Assemble(obs, code, metroArea, now).value;
      && ((exists i :: 0 <= i < |recs| && KeyOf(recs[i]) == ym) <==> Observed(obs, ym))
      && forall i :: 0 <= i < |recs| && KeyOf(recs[i]) == ym ==> Column(recs[i], m) == LastValue(obs, ym, m)
  {
    var rows := SortRows(Pivot(obs));
    var recs := Assemble(obs, code, metroArea, now).value;
    AssembleRows(obs, code, metroArea, now);
    PivotMatchesReference(obs, ym, m);
    if Observed(obs, ym) {
      var i :| 0 <= i < |rows| && rows[i] == Row(ym, Find(rows, ym).value);
      assert KeyOf(recs[i]) == ym;
    }
    forall i | 0 <= i < |recs| && KeyOf(recs[i]) == ym
      ensures Column(recs[i], m) == LastValue(obs, ym, m)
    {
      FindInSorted(rows, i);
    }
  }

  /** The records of an assembled table are the sorted pivot's rows, one for
      one: same month, same measure columns. */
  lemma AssembleRows(obs: seq<Obs>, code: string, metroArea: string, now: string)
    requires forall i :: 0 <= i < |obs| ==> TimestampMonth(obs[i].ym)
    requires Assemble(obs, code, metroArea, now).Ok?
    ensures var rows := SortRows(Pivot(obs));
      var recs := Assemble(obs, code, metroArea, now).value;
      && |recs| == |rows|
      && (forall i :: 0 <= i < |recs| ==> KeyOf(recs[i]) == rows[i].ym)
      && (forall i, m :: 0 <= i < |recs| ==> Column(recs[i], m) == Get(rows[i].cells, m))
  {
    PivotMonthsValid(obs);
    EmitRows(SortRows(Pivot(obs)), code, metroArea, now);
  }

  lemma EmitRows(rows: seq<Row>, code: string, metroArea: string, now: string)
    requires MonthsValid(rows)
    ensures var recs := Emit(rows, code, metroArea, now);
      && (forall i :: 0 <= i < |recs| ==> KeyOf(recs[i]) == rows[i].ym)
      && (forall i, m :: 0 <= i < |recs| ==> Column(recs[i], m) == Get(rows[i].cells, m))
  {
    var recs := Emit(rows, code, metroArea, now);
    forall i, m | 0 <= i < |recs|
      ensures KeyOf(recs[i]) == rows[i].ym && Column(recs[i], m) == Get(rows[i].cells, m)
    {
      assert recs[i] == ToRecord(rows[i], code, metroArea, now);
    }
  }

  /** In a strictly ascending list the row of a month is the one found for it. */
  lemma FindInSorted(rows: seq<Row>, i: nat)
    requires StrictlySorted(rows) && i < |rows|
    ensures Find(rows, rows[i].ym) == Some(rows[i].cells)
  {
    var j :| 0 <= j < |rows| && rows[j] == Row(rows[i].ym, Find(rows, rows[i].ym).value);
    assert !MonthBefore(rows[i].ym, rows[j].ym) && !MonthBefore(rows[j].ym, rows[i].ym);
    assert i == j;
  }

  /** The shape of every successful run: the table shape above, every month
      inside the requested window, and the region columns naming the
      requested metro, whose code leads back to its name. */
  lemma OutputWellFormed(rule: PeriodRule, rawExists: bool, response: RawResponse, metroArea: string,
                         startDate: Option<Date>, endDate: Option<Date>, now: string)
    requires TransformWith(rule, rawExists, response, metroArea, startDate, endDate, now).Ok?
    ensures startDate.Some? && endDate.Some? && LookupMetro(metroArea).Some?
    ensures
      var recs := TransformWith(rule, rawExists, response, metroArea, startDate, endDate, now).value;
      && |recs| > 0
      && (forall i, j :: 0 <= i < j < |recs| ==> MonthBefore(KeyOf(recs[i]), KeyOf(recs[j])))
      && forall i :: 0 <= i < |recs| ==>
           && InWindow(KeyOf(recs[i]), startDate.value, endDate.value)
           && recs[i].regionId == LookupMetro(metroArea).value.fullCode
           && FindMetroName(recs[i].regionId) == Some(metroArea)
           && recs[i].regionName == metroArea
  {
    var obs := Retained(rule, rawExists, response, metroArea, startDate, endDate).value;
    var code := LookupMetro(metroArea).value.fullCode;
    assert TransformWith(rule, rawExists, response, metroArea, startDate, endDate, now) == Assemble(obs, code, metroArea, now);
    AssembleWellFormed(obs, code, metroArea, now);
    AssembleInWindow(obs, code, metroArea, now, startDate.value, endDate.value);
    FindMetroNameInvertsLookup(metroArea);
  }

  /** Every assembled month is the month of an observation, so a window every
      observation lies in holds every record too. */
  lemma AssembleInWindow(obs: seq<Obs>, code: string, metroArea: string, now: string, start: Date, end: Date)
    requires forall i :: 0 <= i < |obs| ==> TimestampMonth(obs[i].ym) && InWindow(obs[i].ym, start, end)
    requires Assemble(obs, code, metroArea, now).Ok?
    ensures var recs := Assemble(obs, code, metroArea, now).value;
      forall i :: 0 <= i < |recs| ==> InWindow(KeyOf(recs[i]), start, end)
  {
    AssembleWellFormed(obs, code, metroArea, now);
    var recs := Assemble(obs, code, metroArea, now).value;
    forall i | 0 <= i < |recs|
      ensures InWindow(KeyOf(recs[i]), start, end)
    {
      var j :| 0 <= j < |obs| && obs[j].ym == KeyOf(recs[i]);
    }
  }

  /** Past the early checks, a run fails exactly when some point of a read
      series is fatal, with the error of such a point; when it does not fail,
      its observations are exactly what some point of a read series yields,
      so every record traces back to the raw response and every in-window
      point of a requested series reaches the output. */
  lemma RetainedExactly(rule: PeriodRule, rawExists: bool, response: RawResponse, metroArea: string,
                        startDate: Option<Date>, endDate: Option<Date>, o: Obs)
    requires EarlyChecksPass(rawExists, response, metroArea, startDate, endDate)
    ensures Retained(rule, rawExists, response, metroArea, startDate, endDate).Err?
            <==> exists e :: FailsAtSomePoint(rule, response.series, LookupMetro(metroArea).value.fullCode, startDate.value, endDate.value, e)
    ensures Retained(rule, rawExists, response, metroArea, startDate, endDate).Err? ==>
              FailsAtSomePoint(rule, response.series, LookupMetro(metroArea).value.fullCode, startDate.value, endDate.value,
                               Retained(rule, rawExists, response, metroArea, startDate, endDate).error)
    ensures Retained(rule, rawExists, response, metroArea, startDate, endDate).Ok? ==>
              (o in Retained(rule, rawExists, response, metroArea, startDate, endDate).value
               <==> FromSomePoint(rule, response.series, LookupMetro(metroArea).value.fullCode, startDate.value, endDate.value, o))
  {
    var code := LookupMetro(metroArea).value.fullCode;
    RetainedIsSeriesObs(rule, rawExists, response, metroArea, startDate, endDate);
    SeriesObsFails(rule, response.series, code, startDate.value, endDate.value);
    if SeriesObs(rule, response.series, code, startDate.value, endDate.value).Ok? {
      SeriesObsMembers(rule, response.series, code, startDate.value, endDate.value, o);
    }
  }

  /** Reading a list of series in two parts is reading each part: the first
      error of the first part wins, then the first error of the second. */
  lemma {:induction false} SeriesObsAppend(rule: PeriodRule, a: seq<RawSeries>, b: seq<RawSeries>, code: string, start: Date, end: Date)
    ensures SeriesObs(rule, a + b, code, start, end)
            == match SeriesObs(rule, a, code, start, end)
               case Err(e) => Err(e)
               case Ok(x) =>
                 match SeriesObs(rule, b, code, start, end)
                 case Err(e) => Err(e)
                 case Ok(y) => Ok(x + y)
    decreases |a|
  {
    if a == [] {
      assert a + b == b;
      if SeriesObs(rule, b, code, start, end).Ok? {
        assert [] + SeriesObs(rule, b, code, start, end).value == SeriesObs(rule, b, code, start, end).value;
      }
    } else {
      assert (a + b)[1..] == a[1..] + b;
      assert (a + b)[0] == a[0];
      SeriesObsAppend(rule, a[1..], b, code, start, end);
      var head := SeriesContribution(rule, a[0], code, start, end);
      if head.Ok? && SeriesObs(rule, a[1..], code, start, end).Ok? && SeriesObs(rule, b, code, start, end).Ok? {
        var x, y := SeriesObs(rule, a[1..], code, start, end).value, SeriesObs(rule, b, code, start, end).value;
        assert head.value + (x + y) == (head.value + x) + y;
      }
    }
  }

  /** A series the transform skips (no id, no data, bad prefix, another metro,
      unknown measure) changes nothing wherever it sits in a non-empty list:
      its points are never read, so they cannot even raise. */
  lemma SkippedSeriesInsert(rule: PeriodRule, a: seq<RawSeries>, s: RawSeries, b: seq<RawSeries>, code: string, start: Date, end: Date)
    requires SeriesMeasure(s, code).None?
    ensures SeriesObs(rule, a + [s] + b, code, start, end) == SeriesObs(rule, a + b, code, start, end)
  {
    SeriesObsAppend(rule, a + [s], b, code, start, end);
    SeriesObsAppend(rule, a, [s], code, start, end);
    SeriesObsAppend(rule, a, b, code, start, end);
    assert SeriesObs(rule, [s], code, start, end) == Ok([]) by {
      assert [s][1..] == [];
      assert SeriesObs(rule, [s][1..], code, start, end) == Ok([]);
      assert SeriesContribution(rule, [s][0], code, start, end) == Ok([]);
      var none: seq<Obs> := [];
      assert none + none == none;
    }
    if SeriesObs(rule, a, code, start, end).Ok? {
      var x := SeriesObs(rule, a, code, start, end).value;
      assert x + [] == x;
    }
  }

  /** A series the transform skips (no id, no data, bad prefix, another metro,
      unknown measure) changes nothing wherever it sits in a non-empty list:
      its points are never read, so they cannot even raise. */
  lemma SkippedSeriesIrrelevant(rule: PeriodRule, rawExists: bool, response: RawResponse, metroArea: string,
                                startDate: Option<Date>, endDate: Option<Date>, now: string, s: RawSeries, i: nat)
    requires response.series != [] && i <= |response.series|
    requires LookupMetro(metroArea).Some? ==> SeriesMeasure(s, LookupMetro(metroArea).value.fullCode).None?
    ensures
      var longer := response.(series := response.series[..i] + [s] + response.series[i..]);
      TransformWith(rule, rawExists, longer, metroArea, startDate, endDate, now)
      == TransformWith(rule, rawExists, response, metroArea, startDate, endDate, now)
  {
    var longer := response.(series := response.series[..i] + [s] + response.series[i..]);
    assert longer.series != [] by {
      assert |longer.series| == |response.series| + 1;
    }
    if LookupMetro(metroArea).Some? && startDate.Some? && endDate.Some? {
      var code := LookupMetro(metroArea).value.fullCode;
      assert response.series == response.series[..i] + response.series[i..];
      SkippedSeriesInsert(rule, response.series[..i], s, response.series[i..], code, startDate.value, endDate.value);
    }
    RetainedBySeriesObs(rule, rawExists, longer, response, metroArea, startDate, endDate);
  }

  /** Two responses that differ only in series lists that are both non-empty
      and read alike are retained alike. */
  lemma RetainedBySeriesObs(rule: PeriodRule, rawExists: bool, r1: RawResponse, r2: RawResponse, metroArea: string,
                            startDate: Option<Date>, endDate: Option<Date>)
    requires r1.status == r2.status && r1.message == r2.message
    requires r1.series != [] && r2.series != []
    requires LookupMetro(metroArea).Some? && startDate.Some? && endDate.Some? ==>
               SeriesObs(rule, r1.series, LookupMetro(metroArea).value.fullCode, startDate.value, endDate.value)
               == SeriesObs(rule, r2.series, LookupMetro(metroArea).value.fullCode, startDate.value, endDate.value)
    ensures Retained(rule, rawExists, r1, metroArea, startDate, endDate) == Retained(rule, rawExists, r2, metroArea, startDate, endDate)
  {
    var e1 := Retained(rule, rawExists, r1, metroArea, startDate, endDate);
    var e2 := Retained(rule, rawExists, r2, metroArea, startDate, endDate);
    if !rawExists {
      assert e1 == e2 == Err(RawFileMissing);
    } else if LookupMetro(metroArea).None? {
      assert e1 == e2 == Err(UnknownMetro(metroArea, MetroNames()));
    } else if startDate.None? || endDate.None? {
      assert e1 == e2 == Err(InvalidDateFormat);
    } else if Before(endDate.value, startDate.value) {
      assert e1 == e2 == Err(InvalidWindow);
    } else if r1.status != Some(RequestSucceeded) {
      var failure := if r1.message.None? then ApiFailure(UnknownError)
                     else if r1.message.value == [] then MessageMissing
                     else ApiFailure(r1.message.value[0]);
      assert e1 == e2 == Err(failure);
    } else {
      RetainedIsSeriesObs(rule, rawExists, r1, metroArea, startDate, endDate);
      RetainedIsSeriesObs(rule, rawExists, r2, metroArea, startDate, endDate);
    }
  }

  /** Two runs on the same input agree in everything but the `last_updated`
      stamp, which is the run's own clock reading. */
  lemma RerunDiffersOnlyInTimestamp(rule: PeriodRule, rawExists: bool, response: RawResponse, metroArea: string,
                                    startDate: Option<Date>, endDate: Option<Date>, now1: string, now2: string)
    ensures TransformWith(rule, rawExists, response, metroArea, startDate, endDate, now1).Ok?
            == TransformWith(rule, rawExists, response, metroArea, startDate, endDate, now2).Ok?
    ensures TransformWith(rule, rawExists, response, metroArea, startDate, endDate, now1).Err? ==>
              TransformWith(rule, rawExists, response, metroArea, startDate, endDate, now1)
              == TransformWith(rule, rawExists, response, metroArea, startDate, endDate, now2)
    ensures TransformWith(rule, rawExists, response, metroArea, startDate, endDate, now1).Ok? ==>
              var r1 := TransformWith(rule, rawExists, response, metroArea, startDate, endDate, now1).value;
              var r2 := TransformWith(rule, rawExists, response, metroArea, startDate, endDate, now2).value;
              |r1| == |r2| && forall i :: 0 <= i < |r1| ==> r2[i] == r1[i].(lastUpdated := now2)
  {
    var r := Retained(rule, rawExists, response, metroArea, startDate, endDate);
    if r.Ok? {
      var code := LookupMetro(metroArea).value.fullCode;
      assert TransformWith(rule, rawExists, response, metroArea, startDate, endDate, now1) == Assemble(r.value, code, metroArea, now1);
      assert TransformWith(rule, rawExists, response, metroArea, startDate, endDate, now2) == Assemble(r.value, code, metroArea, now2);
      AssembleTimestamp(r.value, code, metroArea, now1, now2);
    }
  }

  /** Assembling the same observations at two clock readings differs only in
      the `last_updated` column. */
  lemma AssembleTimestamp(obs: seq<Obs>, code: string, metroArea: string, now1: string, now2: string)
    requires forall i :: 0 <= i < |obs| ==> TimestampMonth(obs[i].ym)
    ensures Assemble(obs, code, metroArea, now1).Ok? == Assemble(obs, code, metroArea, now2).Ok?
    ensures Assemble(obs, code, metroArea, now1).Err? ==>
              Assemble(obs, code, metroArea, now1) == Assemble(obs, code, metroArea, now2)
    ensures Assemble(obs, code, metroArea, now1).Ok? ==>
              var r1 := Assemble(obs, code, metroArea, now1).value;
              var r2 := Assemble(obs, code, metroArea, now2).value;
              |r1| == |r2| && forall i :: 0 <= i < |r1| ==> r2[i] == r1[i].(lastUpdated := now2)
  {
  }

  /** The writer's partition of a record: the metro name's slug, then the year. */
  datatype Partition = Partition(region: string, year: int)

  function PartitionOf(metroArea: string, rec: EmploymentRecord): (p: Partition)
    ensures Slug.IsSlug(p.region)
  {
    Partition(Slug.Slugify(metroArea), rec.year)
  }

  /** All records of one run land under one region directory, split by year;
      records of one month share a partition. */
  lemma PartitionsOfRun(rule: PeriodRule, rawExists: bool, response: RawResponse, metroArea: string,
                        startDate: Option<Date>, endDate: Option<Date>, now: string)
    requires TransformWith(rule, rawExists, response, metroArea, startDate, endDate, now).Ok?
    ensures
      var recs := TransformWith(rule, rawExists, response, metroArea, startDate, endDate, now).value;
      && (forall i :: 0 <= i < |recs| ==>
            PartitionOf(metroArea, recs[i]) == Partition(Slug.Slugify(recs[i].regionName), recs[i].year))
      && forall i, j :: 0 <= i < j < |recs| ==>
            PartitionOf(metroArea, recs[i]).region == PartitionOf(metroArea, recs[j]).region
            && PartitionOf(metroArea, recs[i]).year <= PartitionOf(metroArea, recs[j]).year
  {
    OutputWellFormed(rule, rawExists, response, metroArea, startDate, endDate, now);
  }

  /** The Portland metro's partition directory. */
  lemma PortlandPartition(rec: EmploymentRecord)
    ensures PartitionOf("Portland-Vancouver-Hillsboro" + ", " + "OR-WA", rec)
            == Partition("portland_vancouver_hillsboro" + "_" + "or_wa", rec.year)
  {
    Slug.PortlandSlug();
  }
}
