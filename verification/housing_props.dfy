/** Properties of the Redfin housing transform: it is a pure per-row
    mapping, the metrics are copied, and what `region_id` does and does not
    identify. */
module HousingProperties {

  import opened Results
  import opened Text
  import opened Calendar
  import opened HousingTransform

  /** Row by row: one record per raw row, in the same order; the file must
      exist and every `PERIOD_BEGIN` must be readable; `region_id` is city,
      "_" and state when both are present; the period is the date the cell
      names; the four metrics are copied under their new names. */
  lemma HousingRowByRow(rawExists: bool, rows: seq<RawHousingRow>)
    ensures var r := TransformHousing(rawExists, rows);
      && (!rawExists ==> r == Err(RawFileMissing))
      && (r.Err? <==> !rawExists || exists i :: 0 <= i < |rows| && BadPeriod(rows[i]))
      && (r.Ok? ==> |r.value| == |rows|)
      && (r.Ok? ==> forall i :: 0 <= i < |rows| ==>
            && (r.value[i].regionId.Some? <==> rows[i].city.Some? && rows[i].state.Some?)
            && (r.value[i].regionId.Some? ==> r.value[i].regionId.value == rows[i].city.value + "_" + rows[i].state.value)
            && (r.value[i].periodBegin.None? <==> rows[i].periodBegin.None?)
            && (r.value[i].periodBegin.Some? ==> ParseIsoDate(rows[i].periodBegin.value) == r.value[i].periodBegin)
            && r.value[i].medianSalePrice == rows[i].medianSalePrice
            && r.value[i].homesSold == rows[i].homesSold
            && r.value[i].inventory == rows[i].inventory
            && r.value[i].medianDaysOnMarket == rows[i].medianDom)
  {
    MapRowsPointwise(rows);
  }

  lemma MapRowsCons(x: RawHousingRow, rest: seq<RawHousingRow>)
    ensures MapRows([x] + rest).Ok? <==> MapRow(x).Ok? && MapRows(rest).Ok?
    ensures MapRows([x] + rest).Ok? ==> MapRows([x] + rest).value == [MapRow(x).value] + MapRows(rest).value
  {
    assert ([x] + rest)[0] == x;
    assert ([x] + rest)[1..] == rest;
  }

  /** No row influences another: two concatenated inputs convert exactly
      when both parts do, and then to the concatenation of their tables. */
  lemma {:induction false} HousingRowsConcatenate(a: seq<RawHousingRow>, b: seq<RawHousingRow>)
    ensures MapRows(a + b).Ok? <==> MapRows(a).Ok? && MapRows(b).Ok?
    ensures MapRows(a + b).Ok? ==> MapRows(a + b).value == MapRows(a).value + MapRows(b).value
    decreases |a|
  {
    if a == [] {
      assert a + b == b;
    } else {
      var x, t := a[0], a[1..];
      assert a == [x] + t;
      assert a + b == [x] + (t + b);
      HousingRowsConcatenate(t, b);
      ConsStep(x, t, b);
    }
  }

  /** The step of the induction above, for a first row `x`. */
  lemma ConsStep(x: RawHousingRow, t: seq<RawHousingRow>, b: seq<RawHousingRow>)
    requires MapRows(t + b).Ok? <==> MapRows(t).Ok? && MapRows(b).Ok?
    requires MapRows(t + b).Ok? ==> MapRows(t + b).value == MapRows(t).value + MapRows(b).value
    ensures MapRows([x] + (t + b)).Ok? <==> MapRows([x] + t).Ok? && MapRows(b).Ok?
    ensures MapRows([x] + (t + b)).Ok? ==> MapRows([x] + (t + b)).value == MapRows([x] + t).value + MapRows(b).value
  {
    MapRowsCons(x, t + b);
    MapRowsCons(x, t);
    if MapRows([x] + (t + b)).Ok? {
      var r, rt, rb := MapRow(x).value, MapRows(t).value, MapRows(b).value;
      assert [r] + (rt + rb) == ([r] + rt) + rb;
    }
  }

  /** A period rendered as ISO text inside the timestamp range reads back. */
  lemma PeriodBeginRoundTrip(d: Date)
    requires ValidDate(d) && d.year >= 0 && TimestampDay(d)
    ensures ParsePeriodBegin(Some(FormatIsoDate(d))) == Ok(Some(d))
  {
    IsoDateRoundTrip(d);
  }

  /** Dates pandas cannot hold abort the transform. */
  lemma PeriodBeforeTimestampRangeRejected(d: Date)
    requires ValidDate(d) && d.year >= 0 && Before(d, FirstTimestampDay)
    ensures ParsePeriodBegin(Some(FormatIsoDate(d))) == Err(InvalidPeriodBegin(FormatIsoDate(d)))
  {
    IsoDateRoundTrip(d);
  }

  /** The position of the first occurrence of a character. */
  function FirstIndexOf(s: string, c: char): (r: Option<nat>)
    ensures r.Some? ==> r.value < |s| && s[r.value] == c && c !in s[..r.value]
    ensures r.None? <==> c !in s
  {
    if s == [] then None
    else if s[0] == c then Some(0)
    else
      match FirstIndexOf(s[1..], c)
      case None => None
      case Some(k) =>
        assert s[..k + 1] == [s[0]] + s[1..][..k];
        Some(k + 1)
  }

  /** Splits a region id at its first underscore into a city and a state. */
  function SplitRegionId(id: string): (r: Option<(string, string)>)
    ensures r.Some? ==> r.value.0 + "_" + r.value.1 == id && '_' !in r.value.0
  {
    match FirstIndexOf(id, '_')
    case None => None
    case Some(k) =>
      assert id == id[..k] + "_" + id[k + 1..];
      Some((id[..k], id[k + 1..]))
  }

  lemma {:induction false} FirstIndexAfterPrefix(a: string, b: string, c: char)
    requires c !in a
    ensures FirstIndexOf(a + [c] + b, c) == Some(|a|)
    decreases |a|
  {
    var s := a + [c] + b;
    if a != [] {
      assert s[0] == a[0];
      assert s[1..] == a[1..] + [c] + b;
      FirstIndexAfterPrefix(a[1..], b, c);
    }
  }

  /** For a city without an underscore the region id determines the city
      and the state. */
  lemma RegionIdSplits(city: string, state: string)
    requires '_' !in city
    ensures SplitRegionId(city + "_" + state) == Some((city, state))
  {
    FirstIndexAfterPrefix(city, state, '_');
    var id := city + "_" + state;
    assert id[..|city|] == city;
    assert id[|city| + 1..] == state;
  }

  lemma RegionIdInjective(city1: string, state1: string, city2: string, state2: string)
    requires '_' !in city1 && '_' !in city2
    requires RegionId(Some(city1), Some(state1)) == RegionId(Some(city2), Some(state2))
    ensures city1 == city2 && state1 == state2
  {
    RegionIdSplits(city1, state1);
    RegionIdSplits(city2, state2);
  }

  /** With an underscore in a city name, two different places can share a
      region id. */
  lemma RegionIdCollision()
    ensures RegionId(Some("A_B"), Some("C")) == RegionId(Some("A"), Some("B_C"))
    ensures ("A_B", "C") != ("A", "B_C")
  {
    assert "A_B" + "_" + "C" == "A" + "_" + "B_C";
  }
}
