/** The annual-average guard of the employment transform. BLS marks a
    series' annual average with the period "M13". The transform's guard
    meant to skip annual averages only drops periods that do not start with
    "M", so an "M13" point with a numeric value reaches the construction of
    the date "YYYY-13-01", which raises and ends the whole run, whatever the
    window. The corrected rule skips "M13" before the month is read. */
module AnnualAverage {

  import opened Results
  import opened Text
  import opened Calendar
  import opened Metros
  import opened LausSeriesId
  import opened EmploymentPivot
  import opened EmploymentTransform

  /** As written, a numeric "M13" point is fatal: it is an invalid date, not a
      skipped point, and this happens before the window is consulted. */
  lemma AnnualAveragePointFatalAsWritten(p: RawPoint, m: Measure, start: Date, end: Date)
    requires DecimalToInt(p.year).Some? && p.period == AnnualAverage && p.value.Some?
    ensures ParsePoint(AsWritten, p, m, start, end) == Err(InvalidDate(DecimalToInt(p.year).value, 13))
  {
    ThirteenParses();
  }

  /** With the correction the same point is skipped, whatever its value. */
  lemma AnnualAveragePointSkipped(p: RawPoint, m: Measure, start: Date, end: Date)
    requires DecimalToInt(p.year).Some? && p.period == AnnualAverage
    ensures ParsePoint(SkipAnnualAverages, p, m, start, end) == Ok(None)
  {
  }

  /** A series named by a built identifier of the requested metro is read. */
  lemma BuiltSeriesIsRead(code: string, m: Measure, data: seq<RawPoint>)
    requires |code| == 7 && data != []
    ensures SeriesMeasure(RawSeries(Some(BuildSeriesId(code, m)), data), code) == Some(m)
  {
    ParseBuiltSeriesId(code, m);
    MeasureCodeRoundTrip(m);
  }

  lemma SingleAnnualAverageSeries(code: string, m: Measure, y: nat, v: real, start: Date, end: Date)
    requires |code| == 7
    ensures
      var s := RawSeries(Some(BuildSeriesId(code, m)), [RawPoint(NatToDecimal(y), AnnualAverage, Some(v))]);
      && SeriesObs(AsWritten, [s], code, start, end) == Err(InvalidDate(y, 13))
      && SeriesObs(SkipAnnualAverages, [s], code, start, end) == Ok([])
  {
    var p := RawPoint(NatToDecimal(y), AnnualAverage, Some(v));
    var s := RawSeries(Some(BuildSeriesId(code, m)), [p]);
    BuiltSeriesIsRead(code, m, [p]);
    IntDecimalRoundTrip(y);
    AnnualAveragePointFatalAsWritten(p, m, start, end);
    assert [p][1..] == [] && [s][1..] == [];
    assert PointsObs(AsWritten, [p], m, start, end) == Err(InvalidDate(y, 13));
    assert PointsObs(SkipAnnualAverages, [p], m, start, end) == Ok([]);
  }

  /** The counterexample: a successful response holding one series of the
      requested metro whose only point is a year's annual average. As
      written the run fails with an invalid date; corrected, the point is
      skipped and the run reports that no data was found. */
  lemma AnnualAverageAbortsRun(metroArea: string, start: Date, end: Date, y: nat, v: real, m: Measure, now: string)
    requires LookupMetro(metroArea).Some? && !Before(end, start)
    ensures
      var code := LookupMetro(metroArea).value.fullCode;
      var response := RawResponse(Some(RequestSucceeded), None,
                                  [RawSeries(Some(BuildSeriesId(code, m)), [RawPoint(NatToDecimal(y), AnnualAverage, Some(v))])]);
      && TransformAsWritten(true, response, metroArea, Some(start), Some(end), now) == Err(InvalidDate(y, 13))
      && Transform(true, response, metroArea, Some(start), Some(end), now) == Err(NoData)
  {
    var code := LookupMetro(metroArea).value.fullCode;
    MetroTableWellFormed();
    var i :| 0 <= i < |BlsMetroAreas| && BlsMetroAreas[i] == MetroEntry(metroArea, LookupMetro(metroArea).value);
    SingleAnnualAverageSeries(code, m, y, v, start, end);
  }

  predicate NoAnnualAverages(series: seq<RawSeries>) {
    forall k, j :: 0 <= k < |series| && 0 <= j < |series[k].data| ==> series[k].data[j].period != AnnualAverage
  }

  lemma {:induction false} PointsRulesAgree(pts: seq<RawPoint>, m: Measure, start: Date, end: Date)
    requires forall j :: 0 <= j < |pts| ==> pts[j].period != AnnualAverage
    ensures PointsObs(AsWritten, pts, m, start, end) == PointsObs(SkipAnnualAverages, pts, m, start, end)
    decreases |pts|
  {
    if pts != [] {
      assert ParsePoint(AsWritten, pts[0], m, start, end) == ParsePoint(SkipAnnualAverages, pts[0], m, start, end);
      PointsRulesAgree(pts[1..], m, start, end);
    }
  }

  lemma {:induction false} SeriesRulesAgree(series: seq<RawSeries>, code: string, start: Date, end: Date)
    requires NoAnnualAverages(series)
    ensures SeriesObs(AsWritten, series, code, start, end) == SeriesObs(SkipAnnualAverages, series, code, start, end)
    decreases |series|
  {
    if series != [] {
      var m := SeriesMeasure(series[0], code);
      if m.Some? {
        PointsRulesAgree(series[0].data, m.value, start, end);
      }
      assert NoAnnualAverages(series[1..]) by {
        forall k, j | 0 <= k < |series[1..]| && 0 <= j < |series[1..][k].data|
          ensures series[1..][k].data[j].period != AnnualAverage
        {
          assert series[1..][k] == series[k + 1];
        }
      }
      SeriesRulesAgree(series[1..], code, start, end);
    }
  }

  /** The correction changes nothing for a response without annual averages,
      which is what the downloader asks for (`annualaverage` is false). */
  lemma RulesAgreeWithoutAnnualAverages(rawExists: bool, response: RawResponse, metroArea: string,
                                        startDate: Option<Date>, endDate: Option<Date>, now: string)
    requires NoAnnualAverages(response.series)
    ensures TransformAsWritten(rawExists, response, metroArea, startDate, endDate, now)
            == Transform(rawExists, response, metroArea, startDate, endDate, now)
  {
    if LookupMetro(metroArea).Some? && startDate.Some? && endDate.Some? {
      SeriesRulesAgree(response.series, LookupMetro(metroArea).value.fullCode, startDate.value, endDate.value);
    }
    assert Retained(AsWritten, rawExists, response, metroArea, startDate, endDate)
           == Retained(SkipAnnualAverages, rawExists, response, metroArea, startDate, endDate);
  }
}
