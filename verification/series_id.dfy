/** BLS LAUS metro series identifiers: `LAUMT` + 7-digit metro code + `000000`
    + 2-digit measure code. Built by the ingestion step for every configured
    metro, and split back apart by the employment transform. */
module LausSeriesId {

  import opened Results
  import opened Text
  import Metros

  /** The four LAUS measures the pipeline requests, one canonical column each. */
  datatype Measure = UnemploymentRate | Unemployed | Employed | LaborForce

  /** Request order of the measures: codes 03, 04, 05, 06. */
  const MeasureOrder: seq<Measure> := [UnemploymentRate, Unemployed, Employed, LaborForce]

  const Prefix: string := "LAUMT"
  const Filler: string := "000000"

  function MeasureCode(m: Measure): (code: string)
    ensures |code| == 2 && AllDigits(code)
  {
    match m
    case UnemploymentRate => "03"
    case Unemployed => "04"
    case Employed => "05"
    case LaborForce => "06"
  }

  /** `MEASURE_CODE_TO_FIELD.get(code)`: the measure a code names, if any. */
  function MeasureOfCode(code: string): (m: Option<Measure>)
    ensures m.Some? ==> MeasureCode(m.value) == code
    ensures m.None? <==> forall k :: MeasureCode(k) != code
  {
    if code == "03" then Some(UnemploymentRate)
    else if code == "04" then Some(Unemployed)
    else if code == "05" then Some(Employed)
    else if code == "06" then Some(LaborForce)
    else None
  }

  lemma MeasureCodeRoundTrip(m: Measure)
    ensures MeasureOfCode(MeasureCode(m)) == Some(m)
  {
  }

  /** The four measures have four different codes, listed in ascending order. */
  lemma MeasureOrderCodes()
    ensures |MeasureOrder| == 4
    ensures forall i :: 0 <= i < 4 ==> MeasureCode(MeasureOrder[i]) == ['0', "3456"[i]]
    ensures forall a, b :: 0 <= a < b < 4 ==> MeasureOrder[a] != MeasureOrder[b]
  {
  }

  function BuildSeriesId(metroCode: string, m: Measure): string {
    Prefix + metroCode + Filler + MeasureCode(m)
  }

  /** `_build_series_ids`: one identifier per measure, in measure order. Each
      carries the prefix, then the metro code, then the filler, then the
      measure code as its last two characters. */
  function BuildSeriesIds(metroCode: string): (ids: seq<string>)
    ensures |ids| == 4
    ensures forall i :: 0 <= i < 4 ==>
              && |ids[i]| == |metroCode| + 13
              && StartsWith(ids[i], Prefix)
              && ids[i][5..5 + |metroCode|] == metroCode
              && ids[i][5 + |metroCode|..11 + |metroCode|] == Filler
              && ids[i][|ids[i]| - 2..] == MeasureCode(MeasureOrder[i])
  {
    seq(4, i requires 0 <= i < 4 => BuildSeriesId(metroCode, MeasureOrder[i]))
  }

  datatype SeriesKey = SeriesKey(metroCode: string, measureCode: string)

  /** `_parse_series_id`. Fails on an identifier without the prefix; otherwise
      the metro code is up to seven characters after the prefix and the
      measure code up to two characters at the end, with Python's slice
      clamping on short identifiers. */
  function ParseSeriesId(id: string): (r: Result<SeriesKey, string>)
    ensures r.Err? <==> !StartsWith(id, Prefix)
    ensures r.Ok? ==>
              && |r.value.metroCode| == (if |id| - 5 < 7 then |id| - 5 else 7)
              && r.value.metroCode == id[5..5 + |r.value.metroCode|]
              && |r.value.measureCode| == (if |id| - 5 < 2 then |id| - 5 else 2)
              && r.value.measureCode == id[|id| - |r.value.measureCode|..]
  {
    if !StartsWith(id, Prefix) then Err(id)
    else
      var codePart := id[5..];
      var metro := if |codePart| <= 7 then codePart else codePart[..7];
      var measure := if |codePart| <= 2 then codePart else codePart[|codePart| - 2..];
      Ok(SeriesKey(metro, measure))
  }

  /** Round trip: for any 7-character metro code, parsing the i-th built
      identifier yields that code and the i-th measure's code. */
  lemma SeriesIdRoundTrip(metroCode: string, i: nat)
    requires |metroCode| == 7 && i < 4
    ensures ParseSeriesId(BuildSeriesIds(metroCode)[i]) == Ok(SeriesKey(metroCode, MeasureCode(MeasureOrder[i])))
    ensures MeasureOfCode(ParseSeriesId(BuildSeriesIds(metroCode)[i]).value.measureCode) == Some(MeasureOrder[i])
  {
  }

  /** The same round trip for one identifier named by its measure. */
  lemma ParseBuiltSeriesId(metroCode: string, m: Measure)
    requires |metroCode| == 7
    ensures ParseSeriesId(BuildSeriesId(metroCode, m)) == Ok(SeriesKey(metroCode, MeasureCode(m)))
  {
    var i :| 0 <= i < 4 && MeasureOrder[i] == m by {
      assert m == MeasureOrder[0] || m == MeasureOrder[1] || m == MeasureOrder[2] || m == MeasureOrder[3];
    }
    SeriesIdRoundTrip(metroCode, i);
    assert BuildSeriesIds(metroCode)[i] == BuildSeriesId(metroCode, m);
  }

  /** The width matters: from a 6-character code the parser takes the code
      plus the first filler digit, so the trip does not return the code. */
  lemma ShortCodeDoesNotRoundTrip(metroCode: string, m: Measure)
    requires |metroCode| == 6
    ensures ParseSeriesId(BuildSeriesId(metroCode, m)).Ok?
    ensures ParseSeriesId(BuildSeriesId(metroCode, m)).value.metroCode == metroCode + "0"
  {
    var id := BuildSeriesId(metroCode, m);
    assert id[..5] == Prefix;
    assert id[5..12] == metroCode + "0";
  }

  /** The series list of the download request: four identifiers per metro, in
      table order. */
  function SeriesIdsFor(t: seq<Metros.MetroEntry>): (ids: seq<string>)
    ensures |ids| == 4 * |t|
    ensures forall k, j :: 0 <= k < |t| && 0 <= j < 4 ==> ids[4 * k + j] == BuildSeriesId(t[k].info.fullCode, MeasureOrder[j])
  {
    if t == [] then []
    else
      var head := BuildSeriesIds(t[0].info.fullCode);
      var rest := SeriesIdsFor(t[1..]);
      var ids := head + rest;
      forall k, j | 0 <= k < |t| && 0 <= j < 4
        ensures ids[4 * k + j] == BuildSeriesId(t[k].info.fullCode, MeasureOrder[j])
      {
        if k == 0 {
          assert ids[j] == head[j];
        } else {
          assert ids[4 * k + j] == rest[4 * (k - 1) + j];
          assert t[k] == t[1..][k - 1];
        }
      }
      ids
  }

  /** `all_series_ids` as assembled by `download_bls_employment_data`. */
  function RequestedSeriesIds(): seq<string> {
    SeriesIdsFor(Metros.BlsMetroAreas)
  }

  /** The request names 4 x 5 = 20 series, and each one parses back to its
      metro's full code and a known measure. */
  lemma RequestedSeriesIdsParse()
    ensures |RequestedSeriesIds()| == 4 * |Metros.BlsMetroAreas| == 20
    ensures forall k, j :: 0 <= k < |Metros.BlsMetroAreas| && 0 <= j < 4 ==>
              ParseSeriesId(RequestedSeriesIds()[4 * k + j]) == Ok(SeriesKey(Metros.BlsMetroAreas[k].info.fullCode, MeasureCode(MeasureOrder[j])))
  {
    Metros.MetroTableWellFormed();
    SeriesIdsForParse(Metros.BlsMetroAreas);
  }

  /** Every identifier of a table of 7-character codes parses back to its
      metro's code and measure. */
  lemma SeriesIdsForParse(t: seq<Metros.MetroEntry>)
    requires forall k :: 0 <= k < |t| ==> |t[k].info.fullCode| == 7
    ensures forall k, j :: 0 <= k < |t| && 0 <= j < 4 ==>
              ParseSeriesId(SeriesIdsFor(t)[4 * k + j]) == Ok(SeriesKey(t[k].info.fullCode, MeasureCode(MeasureOrder[j])))
  {
    forall k, j | 0 <= k < |t| && 0 <= j < 4
      ensures ParseSeriesId(SeriesIdsFor(t)[4 * k + j]) == Ok(SeriesKey(t[k].info.fullCode, MeasureCode(MeasureOrder[j])))
    {
      ParseBuiltSeriesId(t[k].info.fullCode, MeasureOrder[j]);
    }
  }

  /** Two identifiers built from 7-character codes are equal only when their
      codes and measures are. */
  lemma BuildSeriesIdInjective(c1: string, m1: Measure, c2: string, m2: Measure)
    requires |c1| == 7 && |c2| == 7
    requires BuildSeriesId(c1, m1) == BuildSeriesId(c2, m2)
    ensures c1 == c2 && m1 == m2
  {
    ParseBuiltSeriesId(c1, m1);
    ParseBuiltSeriesId(c2, m2);
    MeasureCodeRoundTrip(m1);
    MeasureCodeRoundTrip(m2);
  }

  /** Identifiers built from 7-character codes differ as soon as their codes
      or their measures do. */
  lemma BuildSeriesIdDistinct(c1: string, m1: Measure, c2: string, m2: Measure)
    requires |c1| == 7 && |c2| == 7
    requires c1 != c2 || m1 != m2
    ensures BuildSeriesId(c1, m1) != BuildSeriesId(c2, m2)
  {
    ParseBuiltSeriesId(c1, m1);
    ParseBuiltSeriesId(c2, m2);
    MeasureCodeRoundTrip(m1);
    MeasureCodeRoundTrip(m2);
  }

  /** Position `a` of the request list holds metro `k`'s `j`-th measure. */
  lemma IdAt(t: seq<Metros.MetroEntry>, a: nat) returns (k: nat, j: nat)
    requires a < |SeriesIdsFor(t)|
    ensures a == 4 * k + j && j < 4 && k < |t|
    ensures SeriesIdsFor(t)[a] == BuildSeriesId(t[k].info.fullCode, MeasureOrder[j])
  {
    k, j := a / 4, a % 4;
  }

  /** In a table of 7-character, pairwise distinct full codes, the request
      list has no repeated identifier. */
  lemma SeriesIdsForDistinct(t: seq<Metros.MetroEntry>)
    requires forall k :: 0 <= k < |t| ==> |t[k].info.fullCode| == 7
    requires Metros.FullCodesDistinct(t)
    ensures forall a, b :: 0 <= a < b < |SeriesIdsFor(t)| ==> SeriesIdsFor(t)[a] != SeriesIdsFor(t)[b]
  {
    var ids := SeriesIdsFor(t);
    MeasureOrderCodes();
    forall a, b | 0 <= a < b < |ids|
      ensures ids[a] != ids[b]
    {
      var ka, ja := IdAt(t, a);
      var kb, jb := IdAt(t, b);
      assert ka < kb || (ka == kb && ja < jb);
      BuildSeriesIdDistinct(t[ka].info.fullCode, MeasureOrder[ja], t[kb].info.fullCode, MeasureOrder[jb]);
    }
  }

  /** No series is requested twice. */
  lemma RequestedSeriesIdsDistinct()
    ensures forall a, b :: 0 <= a < b < |RequestedSeriesIds()| ==> RequestedSeriesIds()[a] != RequestedSeriesIds()[b]
  {
    Metros.MetroTableWellFormed();
    Metros.MetroTableDistinct();
    SeriesIdsForDistinct(Metros.BlsMetroAreas);
  }
}
