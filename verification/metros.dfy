/** The configured BLS metro areas (`BLS_METRO_AREAS`) and the two lookups the
    pipeline performs on them: by name, and back from a 7-digit full code. */
module Metros {

  import opened Results
  import opened Text

  /** One table value: 2-digit state FIPS, 5-digit CBSA area code, and the
      7-digit code the LAUS series identifiers embed. */
  datatype MetroInfo = MetroInfo(stateFips: string, areaCode: string, fullCode: string)

  datatype MetroEntry = MetroEntry(name: string, info: MetroInfo)

  /** The table in its declared (and iteration) order. */
  const BlsMetroAreas: seq<MetroEntry> := [
    MetroEntry("Portland-Vancouver-Hillsboro, OR-WA", MetroInfo("41", "38900", "4138900")),
    MetroEntry("Seattle-Tacoma-Bellevue, WA", MetroInfo("53", "42660", "5342660")),
    MetroEntry("San Francisco-Oakland-Hayward, CA", MetroInfo("06", "41860", "0641860")),
    MetroEntry("Los Angeles-Long Beach-Anaheim, CA", MetroInfo("06", "31080", "0631080")),
    MetroEntry("Phoenix-Mesa-Scottsdale, AZ", MetroInfo("04", "38060", "0438060"))
  ]

  predicate WellFormedInfo(m: MetroInfo) {
    && |m.stateFips| == 2 && AllDigits(m.stateFips)
    && |m.areaCode| == 5 && AllDigits(m.areaCode)
    && m.fullCode == m.stateFips + m.areaCode
  }

  predicate NamesDistinct(t: seq<MetroEntry>) {
    forall i, j :: 0 <= i < j < |t| ==> t[i].name != t[j].name
  }

  predicate FullCodesDistinct(t: seq<MetroEntry>) {
    forall i, j :: 0 <= i < j < |t| ==> t[i].info.fullCode != t[j].info.fullCode
  }

  /** `list(BLS_METRO_AREAS.keys())`: the names listed when an unknown metro is requested. */
  function MetroNames(): (names: seq<string>)
    ensures |names| == |BlsMetroAreas|
    ensures forall i :: 0 <= i < |names| ==> names[i] == BlsMetroAreas[i].name
  {
    seq(|BlsMetroAreas|, i requires 0 <= i < |BlsMetroAreas| => BlsMetroAreas[i].name)
  }

  /** Dictionary lookup by name over a table with distinct names. */
  function LookupIn(t: seq<MetroEntry>, name: string): (r: Option<MetroInfo>)
    ensures r.None? <==> forall i :: 0 <= i < |t| ==> t[i].name != name
    ensures r.Some? ==> exists i :: 0 <= i < |t| && t[i] == MetroEntry(name, r.value)
  {
    if t == [] then None
    else if t[0].name == name then Some(t[0].info)
    else
      var r := LookupIn(t[1..], name);
      assert forall i :: 1 <= i < |t| ==> t[i] == t[1..][i - 1];
      r
  }

  /** `BLS_METRO_AREAS.get(name)`. */
  function LookupMetro(name: string): Option<MetroInfo> {
    LookupIn(BlsMetroAreas, name)
  }

  /** The first entry, in table order, whose full code is `code`. */
  function FindNameIn(t: seq<MetroEntry>, code: string): (r: Option<string>)
    ensures r.None? <==> forall i :: 0 <= i < |t| ==> t[i].info.fullCode != code
    ensures r.Some? ==> exists i :: 0 <= i < |t| && t[i].name == r.value && t[i].info.fullCode == code
                                    && forall j :: 0 <= j < i ==> t[j].info.fullCode != code
  {
    if t == [] then None
    else if t[0].info.fullCode == code then Some(t[0].name)
    else
      var r := FindNameIn(t[1..], code);
      assert forall i :: 1 <= i < |t| ==> t[i] == t[1..][i - 1];
      if r.Some? then
        var k :| 0 <= k < |t[1..]| && t[1..][k].name == r.value && t[1..][k].info.fullCode == code
                 && forall j :: 0 <= j < k ==> t[1..][j].info.fullCode != code;
        assert t[k + 1].name == r.value && t[k + 1].info.fullCode == code;
        assert forall j :: 0 <= j < k + 1 ==> t[j].info.fullCode != code;
        r
      else r
  }

  /** `_find_metro_name`: the metro whose full code is `code`, if any. */
  function FindMetroName(code: string): Option<string> {
    FindNameIn(BlsMetroAreas, code)
  }

  /** Every entry's full code is its 2-digit state FIPS followed by its 5-digit
      area code, so every full code has 7 digits. */
  lemma MetroTableWellFormed()
    ensures forall i :: 0 <= i < |BlsMetroAreas| ==> WellFormedInfo(BlsMetroAreas[i].info)
    ensures forall i :: 0 <= i < |BlsMetroAreas| ==>
              |BlsMetroAreas[i].info.fullCode| == 7 && AllDigits(BlsMetroAreas[i].info.fullCode)
  {
    forall i | 0 <= i < |BlsMetroAreas|
      ensures WellFormedInfo(BlsMetroAreas[i].info)
    {
      var m := BlsMetroAreas[i].info;
      assert m.fullCode == m.stateFips + m.areaCode;
      assert AllDigits(m.stateFips) && AllDigits(m.areaCode);
    }
    forall i | 0 <= i < |BlsMetroAreas|
      ensures |BlsMetroAreas[i].info.fullCode| == 7 && AllDigits(BlsMetroAreas[i].info.fullCode)
    {
      FullCodeDigits(BlsMetroAreas[i].info);
    }
  }

  /** A well-formed entry's full code is seven digits. */
  lemma FullCodeDigits(m: MetroInfo)
    requires WellFormedInfo(m)
    ensures |m.fullCode| == 7 && AllDigits(m.fullCode)
  {
    assert forall k :: 0 <= k < 7 ==> m.fullCode[k] == if k < 2 then m.stateFips[k] else m.areaCode[k - 2];
  }

  /** Names and full codes are pairwise distinct: the first two characters
      of the names, and the first three digits of the codes, already differ. */
  lemma MetroTableDistinct()
    ensures NamesDistinct(BlsMetroAreas)
    ensures FullCodesDistinct(BlsMetroAreas)
  {
    MetroNamesDistinct();
    MetroCodesDistinct();
  }

  /** The names differ in their first letter or in their length. */
  lemma MetroNamesDistinct()
    ensures NamesDistinct(BlsMetroAreas)
  {
    var firsts := ['P', 'S', 'S', 'L', 'P'];
    var lengths := [35, 27, 33, 34, 27];
    forall i | 0 <= i < |BlsMetroAreas|
      ensures |BlsMetroAreas[i].name| > 0 && BlsMetroAreas[i].name[0] == firsts[i]
      ensures |BlsMetroAreas[i].name| == lengths[i]
    {
    }
    forall i, j | 0 <= i < j < |BlsMetroAreas|
      ensures BlsMetroAreas[i].name != BlsMetroAreas[j].name
    {
      assert firsts[i] != firsts[j] || lengths[i] != lengths[j];
    }
  }

  /** The full codes differ within their first three digits. */
  lemma MetroCodesDistinct()
    ensures FullCodesDistinct(BlsMetroAreas)
  {
    var codes := [['4', '1', '3'], ['5', '3', '4'], ['0', '6', '4'], ['0', '6', '3'], ['0', '4', '3']];
    forall i | 0 <= i < |BlsMetroAreas|
      ensures BlsMetroAreas[i].info.fullCode[..3] == codes[i]
    {
      var c := BlsMetroAreas[i].info.fullCode;
      assert c[..3] == [c[0], c[1], c[2]];
    }
    forall i, j | 0 <= i < j < |BlsMetroAreas|
      ensures BlsMetroAreas[i].info.fullCode != BlsMetroAreas[j].info.fullCode
    {
      assert codes[i] != codes[j];
    }
  }

  /** In a table with distinct full codes, looking up the code of a name's
      entry gives back the name. */
  lemma FindNameInvertsLookupIn(t: seq<MetroEntry>, name: string)
    requires FullCodesDistinct(t)
    requires LookupIn(t, name).Some?
    ensures FindNameIn(t, LookupIn(t, name).value.fullCode) == Some(name)
  {
    var info := LookupIn(t, name).value;
    var i :| 0 <= i < |t| && t[i] == MetroEntry(name, info);
    var r := FindNameIn(t, info.fullCode);
    var k :| 0 <= k < |t| && t[k].name == r.value && t[k].info.fullCode == info.fullCode;
    assert k == i;
  }

  /** `_find_metro_name` is a left inverse of name -> full code: looking up a
      configured metro's code gives back that metro's name. */
  lemma FindMetroNameInvertsLookup(name: string)
    requires LookupMetro(name).Some?
    ensures FindMetroName(LookupMetro(name).value.fullCode) == Some(name)
  {
    MetroTableDistinct();
    FindNameInvertsLookupIn(BlsMetroAreas, name);
  }

  /** A code that no configured metro carries has no name. */
  lemma FindMetroNameUnknown(code: string)
    requires forall i :: 0 <= i < |BlsMetroAreas| ==> BlsMetroAreas[i].info.fullCode != code
    ensures FindMetroName(code) == None
  {
  }

  lemma PortlandMetro()
    ensures LookupMetro("Portland-Vancouver-Hillsboro, OR-WA") == Some(MetroInfo("41", "38900", "4138900"))
    ensures FindMetroName("4138900") == Some("Portland-Vancouver-Hillsboro, OR-WA")
    ensures LookupMetro("Portland") == None
  {
    PortlandByName();
    PortlandByCode();
    PrefixNameUnknown();
  }

  lemma PortlandByName()
    ensures LookupMetro("Portland-Vancouver-Hillsboro, OR-WA") == Some(MetroInfo("41", "38900", "4138900"))
  {
  }

  lemma PortlandByCode()
    ensures FindMetroName("4138900") == Some("Portland-Vancouver-Hillsboro, OR-WA")
  {
  }

  /** Lookup is by the whole name: a prefix of a configured name is unknown. */
  lemma PrefixNameUnknown()
    ensures LookupMetro("Portland") == None
  {
  }
}
