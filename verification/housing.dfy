/** The Redfin housing transform: a row-by-row rename of the raw TSV into the
    six canonical housing columns, with `region_id` built from city and
    state. Nothing is filtered, deduplicated or reordered. */
module HousingTransform {

  import opened Results
  import opened Text
  import opened Calendar

  /** One raw TSV row, restricted to the columns the transform reads. A
      missing cell is `None` (pandas NaN); metric values are kept opaque. */
  datatype RawHousingRow = RawHousingRow(
    city: Option<string>,
    state: Option<string>,
    periodBegin: Option<string>,
    medianSalePrice: Option<real>,
    homesSold: Option<real>,
    inventory: Option<real>,
    medianDom: Option<real>)

  /** One canonical `housing_trends` row: exactly six columns. */
  datatype HousingRecord = HousingRecord(
    regionId: Option<string>,
    periodBegin: Option<Date>,
    medianSalePrice: Option<real>,
    homesSold: Option<real>,
    inventory: Option<real>,
    medianDaysOnMarket: Option<real>)

  datatype HousingError = RawFileMissing | InvalidPeriodBegin(text: string)

  /** The earliest and latest calendar days a pandas nanosecond timestamp
      can hold at midnight. */
  const FirstTimestampDay: Date := Date(1677, 9, 22)
  const LastTimestampDay: Date := Date(2262, 4, 11)

  predicate TimestampDay(d: Date) {
    !Before(d, FirstTimestampDay) && !Before(LastTimestampDay, d)
  }

  /** `CITY + "_" + STATE`: missing when either part is. */
  function RegionId(city: Option<string>, state: Option<string>): (id: Option<string>)
    ensures id.Some? <==> city.Some? && state.Some?
    ensures id.Some? ==> |id.value| == |city.value| + 1 + |state.value|
  {
    if city.Some? && state.Some? then Some(city.value + "_" + state.value) else None
  }

  /** `pd.to_datetime` of one `PERIOD_BEGIN` cell: a missing cell is NaT, an
      ISO date in the timestamp range is read, anything else fails. */
  function ParsePeriodBegin(cell: Option<string>): (r: Result<Option<Date>, HousingError>)
    ensures r.Ok? && r.value.Some? ==> cell.Some? && ValidDate(r.value.value) && TimestampDay(r.value.value)
    ensures r.Ok? && r.value.None? <==> cell.None?
    ensures r.Err? ==> cell.Some? && r.error == InvalidPeriodBegin(cell.value)
  {
    match cell
    case None => Ok(None)
    case Some(s) =>
      match ParseIsoDate(s)
      case Some(d) => if TimestampDay(d) then Ok(Some(d)) else Err(InvalidPeriodBegin(s))
      case None => Err(InvalidPeriodBegin(s))
  }

  /** A row whose `PERIOD_BEGIN` pandas cannot read. */
  predicate BadPeriod(row: RawHousingRow) {
    ParsePeriodBegin(row.periodBegin).Err?
  }

  function MapRow(row: RawHousingRow): (r: Result<HousingRecord, HousingError>)
    ensures r.Err? <==> BadPeriod(row)
  {
    var period :- ParsePeriodBegin(row.periodBegin);
    Ok(HousingRecord(RegionId(row.city, row.state), period, row.medianSalePrice, row.homesSold,
                     row.inventory, row.medianDom))
  }

  /** The column-wise conversion: the first unreadable `PERIOD_BEGIN` aborts. */
  function MapRows(rows: seq<RawHousingRow>): (r: Result<seq<HousingRecord>, HousingError>)
    ensures r.Ok? ==> |r.value| == |rows|
  {
    if rows == [] then Ok([])
    else
      match MapRow(rows[0])
      case Err(e) => Err(e)
      case Ok(rec) =>
        match MapRows(rows[1..])
        case Err(e) => Err(e)
        case Ok(recs) => Ok([rec] + recs)
  }

  /** Each record is its own row's conversion, and the conversion fails
      exactly when some row is unreadable, with that row's error. */
  lemma {:induction false} MapRowsPointwise(rows: seq<RawHousingRow>)
    ensures var r := MapRows(rows);
      && (r.Ok? ==> forall i :: 0 <= i < |rows| ==> MapRow(rows[i]) == Ok(r.value[i]))
      && (r.Err? ==> exists i :: 0 <= i < |rows| && BadPeriod(rows[i]) && r.error == MapRow(rows[i]).error)
      && (r.Err? <==> exists i :: 0 <= i < |rows| && BadPeriod(rows[i]))
    decreases |rows|
  {
    if rows != [] {
      var t := rows[1..];
      MapRowsPointwise(t);
      assert forall i :: 1 <= i < |rows| ==> rows[i] == t[i - 1];
      if MapRow(rows[0]).Ok? && MapRows(t).Err? {
        var i :| 0 <= i < |t| && BadPeriod(t[i]) && MapRows(t).error == MapRow(t[i]).error;
        assert rows[i + 1] == t[i];
      }
      if MapRows(rows).Err? && MapRow(rows[0]).Ok? {
        assert MapRows(t).Err?;
      }
    }
  }

  /** `transform_housing_redfin_to_canonical`, given whether the raw TSV
      exists and its rows. */
  function TransformHousing(rawExists: bool, rows: seq<RawHousingRow>): (r: Result<seq<HousingRecord>, HousingError>)
    ensures !rawExists ==> r == Err(RawFileMissing)
    ensures r.Ok? ==> |r.value| == |rows|
  {
    if !rawExists then Err(RawFileMissing) else MapRows(rows)
  }
}
