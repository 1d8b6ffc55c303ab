/** The shared region table (`CITY_STATE_TO_CBSA`) that maps a city and its
    full state name to the CBSA full code used by the employment data, and its
    consistency with the configured metro table. */
module Regions {

  import opened Results
  import Metros

  datatype CityState = CityState(city: string, stateFull: string)

  datatype RegionEntry = RegionEntry(key: CityState, cbsa: string)

  /** The table in declaration order; keys are full state names. */
  const CityStateToCbsa: seq<RegionEntry> := [
    RegionEntry(CityState("Portland", "Oregon"), "4138900"),
    RegionEntry(CityState("Seattle", "Washington"), "5342660"),
    RegionEntry(CityState("San Francisco", "California"), "0641860"),
    RegionEntry(CityState("Los Angeles", "California"), "0631080"),
    RegionEntry(CityState("Phoenix", "Arizona"), "0438060")
  ]

  /** Exact-match dictionary lookup over a list of entries. */
  function LookupIn(t: seq<RegionEntry>, key: CityState): (r: Option<string>)
    ensures r.None? <==> forall i :: 0 <= i < |t| ==> t[i].key != key
    ensures r.Some? ==> exists i :: 0 <= i < |t| && t[i] == RegionEntry(key, r.value)
  {
    if t == [] then None
    else if t[0].key == key then Some(t[0].cbsa)
    else
      var r := LookupIn(t[1..], key);
      assert forall i :: 1 <= i < |t| ==> t[i] == t[1..][i - 1];
      r
  }

  /** `lookup_cbsa_from_city_state`: the CBSA code of a known pair, `None` (not
      an error) for any other pair. No case folding or abbreviation handling. */
  function LookupCbsa(city: string, stateFull: string): Option<string> {
    LookupIn(CityStateToCbsa, CityState(city, stateFull))
  }

  lemma KnownPairs()
    ensures LookupCbsa("Portland", "Oregon") == Some("4138900")
    ensures LookupCbsa("Seattle", "Washington") == Some("5342660")
    ensures LookupCbsa("Phoenix", "Arizona") == Some("0438060")
  {
  }

  /** Matching is exact and case-sensitive on full state names. */
  lemma NoNormalisation()
    ensures LookupCbsa("Portland", "OR") == None
    ensures LookupCbsa("portland", "Oregon") == None
    ensures LookupCbsa("Portland", "oregon") == None
  {
  }

  /** Every code in the region table is the full code of a configured metro,
      and the five keys map to five distinct codes. */
  lemma RegionTableConsistent()
    ensures forall i :: 0 <= i < |CityStateToCbsa| ==>
              exists j :: 0 <= j < |Metros.BlsMetroAreas| && Metros.BlsMetroAreas[j].info.fullCode == CityStateToCbsa[i].cbsa
    ensures forall i, j :: 0 <= i < j < |CityStateToCbsa| ==>
              CityStateToCbsa[i].key != CityStateToCbsa[j].key && CityStateToCbsa[i].cbsa != CityStateToCbsa[j].cbsa
  {
    assert Metros.BlsMetroAreas[0].info.fullCode == CityStateToCbsa[0].cbsa;
    assert Metros.BlsMetroAreas[1].info.fullCode == CityStateToCbsa[1].cbsa;
    assert Metros.BlsMetroAreas[2].info.fullCode == CityStateToCbsa[2].cbsa;
    assert Metros.BlsMetroAreas[3].info.fullCode == CityStateToCbsa[3].cbsa;
    assert Metros.BlsMetroAreas[4].info.fullCode == CityStateToCbsa[4].cbsa;
  }

  /** Any code the resolver returns names a configured metro, so the housing
      and employment data agree on the region key. */
  lemma LookupYieldsConfiguredMetro(city: string, stateFull: string)
    requires LookupCbsa(city, stateFull).Some?
    ensures Metros.FindMetroName(LookupCbsa(city, stateFull).value).Some?
  {
    RegionTableConsistent();
    var code := LookupCbsa(city, stateFull).value;
    var i :| 0 <= i < |CityStateToCbsa| && CityStateToCbsa[i] == RegionEntry(CityState(city, stateFull), code);
    var j :| 0 <= j < |Metros.BlsMetroAreas| && Metros.BlsMetroAreas[j].info.fullCode == CityStateToCbsa[i].cbsa;
  }
}
