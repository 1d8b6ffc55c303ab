/** Independence of the employment output from the order of the series in the
    response. The merge is last-write-wins, so order can only matter when two
    retained points share a month and a measure; when no two distinct points
    do, any reordering of the series list gives the same records. */
module EmploymentOrder {

  import opened Results
  import opened Calendar
  import opened Metros
  import opened LausSeriesId
  import opened EmploymentPivot
  import opened EmploymentTransform
  import opened EmploymentProperties

  /** No two different observations share a month and a measure. */
  predicate UniqueKeys(ms: multiset<Obs>) {
    forall a, b :: a in ms && b in ms && a.ym == b.ym && a.measure == b.measure ==> a == b
  }

  /** The last value of a month and measure exists as soon as one observation
      of that month and measure does. */
  lemma {:induction false} LastValueComplete(obs: seq<Obs>, o: Obs)
    requires o in obs
    ensures LastValue(obs, o.ym, o.measure).Some?
    decreases |obs|
  {
    var last := obs[|obs| - 1];
    if !(last.ym == o.ym && last.measure == o.measure) {
      assert o in obs[..|obs| - 1] by {
        var i :| 0 <= i < |obs| && obs[i] == o;
        assert i != |obs| - 1;
        assert obs[..|obs| - 1][i] == o;
      }
      LastValueComplete(obs[..|obs| - 1], o);
    }
  }

  /** Without repeated keys, the last value of a key is its only value, so it
      depends on the observations as a multiset and not on their order. */
  lemma LastValueByMultiset(obs1: seq<Obs>, obs2: seq<Obs>, ym: YearMonth, m: Measure)
    requires multiset(obs1) == multiset(obs2)
    requires UniqueKeys(multiset(obs1))
    ensures LastValue(obs1, ym, m) == LastValue(obs2, ym, m)
  {
    var v1, v2 := LastValue(obs1, ym, m), LastValue(obs2, ym, m);
    if v1.Some? {
      assert Obs(ym, m, v1.value) in multiset(obs2);
      LastValueComplete(obs2, Obs(ym, m, v1.value));
      assert Obs(ym, m, v2.value) in multiset(obs1);
    } else if v2.Some? {
      assert Obs(ym, m, v2.value) in multiset(obs1);
      LastValueComplete(obs1, Obs(ym, m, v2.value));
    }
  }

  lemma CellsByColumns(c1: Cells, c2: Cells)
    requires forall m :: Get(c1, m) == Get(c2, m)
    ensures c1 == c2
  {
    assert Get(c1, UnemploymentRate) == Get(c2, UnemploymentRate);
    assert Get(c1, Unemployed) == Get(c2, Unemployed);
    assert Get(c1, Employed) == Get(c2, Employed);
    assert Get(c1, LaborForce) == Get(c2, LaborForce);
  }

  /** The sorted pivot of two orderings of the same key-unique observations is
      the same table. */
  lemma SortedPivotByMultiset(obs1: seq<Obs>, obs2: seq<Obs>)
    requires multiset(obs1) == multiset(obs2)
    requires UniqueKeys(multiset(obs1))
    ensures Pivot(obs1) == [] <==> Pivot(obs2) == []
    ensures SortRows(Pivot(obs1)) == SortRows(Pivot(obs2))
  {
    var p1, p2 := Pivot(obs1), Pivot(obs2);
    forall k
      ensures Find(p1, k) == Find(p2, k)
    {
      PivotKeys(obs1, k);
      PivotKeys(obs2, k);
      if Observed(obs1, k) {
        var i :| 0 <= i < |obs1| && obs1[i].ym == k;
        assert obs1[i] in multiset(obs2);
      }
      if Observed(obs2, k) {
        var i :| 0 <= i < |obs2| && obs2[i].ym == k;
        assert obs2[i] in multiset(obs1);
      }
      if Find(p1, k).Some? {
        forall m
          ensures Get(Find(p1, k).value, m) == Get(Find(p2, k).value, m)
        {
          PivotMatchesReference(obs1, k, m);
          PivotMatchesReference(obs2, k, m);
          LastValueByMultiset(obs1, obs2, k, m);
        }
        CellsByColumns(Find(p1, k).value, Find(p2, k).value);
      }
    }
    SameKeysBothEmpty(p1, p2);
    SortedRowsDetermined(SortRows(p1), SortRows(p2));
  }

  lemma SingleSeriesObs(rule: PeriodRule, x: RawSeries, code: string, start: Date, end: Date)
    ensures SeriesObs(rule, [x], code, start, end)
            == match SeriesContribution(rule, x, code, start, end)
               case Err(e) => Err(e)
               case Ok(v) => Ok(v)
  {
    assert [x][1..] == [];
    assert SeriesObs(rule, [x][1..], code, start, end) == Ok([]);
    if SeriesContribution(rule, x, code, start, end).Ok? {
      var v := SeriesContribution(rule, x, code, start, end).value;
      assert v + [] == v;
    }
  }

  lemma RemoveFirst(s1: seq<RawSeries>, s2: seq<RawSeries>, i: nat)
    requires multiset(s1) == multiset(s2) && s1 != [] && i < |s2| && s2[i] == s1[0]
    ensures multiset(s1[1..]) == multiset(s2[..i] + s2[i + 1..])
  {
    var x, a, b := s1[0], s2[..i], s2[i + 1..];
    assert s1 == [x] + s1[1..];
    assert s2 == a + [x] + b;
    assert multiset(s2) == multiset(a) + multiset([x]) + multiset(b);
    assert multiset(a + b) == multiset(a) + multiset(b);
    assert multiset(s1[1..]) == multiset(s1) - multiset([x]);
  }

  /** Putting a series that reads without error between two parts adds its
      observations to those of the parts. */
  lemma SeriesObsSplice(rule: PeriodRule, a: seq<RawSeries>, x: RawSeries, b: seq<RawSeries>, code: string, start: Date, end: Date)
    requires SeriesObs(rule, a + b, code, start, end).Ok?
    requires SeriesContribution(rule, x, code, start, end).Ok?
    ensures SeriesObs(rule, a + [x] + b, code, start, end).Ok?
    ensures multiset(SeriesObs(rule, a + [x] + b, code, start, end).value)
            == multiset(SeriesContribution(rule, x, code, start, end).value) + multiset(SeriesObs(rule, a + b, code, start, end).value)
  {
    SeriesObsAppend(rule, a, b, code, start, end);
    SeriesObsAppend(rule, a + [x], b, code, start, end);
    SeriesObsAppend(rule, a, [x], code, start, end);
    SingleSeriesObs(rule, x, code, start, end);
    var X := SeriesContribution(rule, x, code, start, end).value;
    var A := SeriesObs(rule, a, code, start, end).value;
    var B := SeriesObs(rule, b, code, start, end).value;
    assert SeriesObs(rule, a + [x] + b, code, start, end).value == A + X + B;
    assert multiset(A + X + B) == multiset(X) + multiset(A + B);
  }

  /** Reading a permutation of a series list that reads without error also
      reads without error, and retains the same observations, possibly in
      another order. */
  lemma {:induction false} SeriesObsPermutation(rule: PeriodRule, s1: seq<RawSeries>, s2: seq<RawSeries>, code: string, start: Date, end: Date)
    requires multiset(s1) == multiset(s2)
    requires SeriesObs(rule, s1, code, start, end).Ok?
    ensures SeriesObs(rule, s2, code, start, end).Ok?
    ensures multiset(SeriesObs(rule, s1, code, start, end).value) == multiset(SeriesObs(rule, s2, code, start, end).value)
    decreases |s1|
  {
    if s1 == [] {
      assert |s2| == |multiset(s2)| == 0;
    } else {
      var x := s1[0];
      assert x in multiset(s2);
      var i :| 0 <= i < |s2| && s2[i] == x;
      var a, b := s2[..i], s2[i + 1..];
      assert s2 == a + [x] + b;
      RemoveFirst(s1, s2, i);
      SeriesObsPermutation(rule, s1[1..], a + b, code, start, end);
      SeriesObsSplice(rule, a, x, b, code, start, end);
    }
  }

  /** Reordering the series of a response does not change a successful run's
      records, provided no two distinct retained points share a month and a
      measure (as in a response listing each series once). */
  lemma SeriesOrderIrrelevant(rule: PeriodRule, rawExists: bool, response: RawResponse, perm: seq<RawSeries>,
                              metroArea: string, startDate: Option<Date>, endDate: Option<Date>, now: string)
    requires multiset(perm) == multiset(response.series)
    requires Retained(rule, rawExists, response, metroArea, startDate, endDate).Ok?
    requires UniqueKeys(multiset(Retained(rule, rawExists, response, metroArea, startDate, endDate).value))
    ensures TransformWith(rule, rawExists, response.(series := perm), metroArea, startDate, endDate, now)
            == TransformWith(rule, rawExists, response, metroArea, startDate, endDate, now)
  {
    var code := LookupMetro(metroArea).value.fullCode;
    var obs1 := Retained(rule, rawExists, response, metroArea, startDate, endDate).value;
    assert perm != [] by {
      assert |multiset(perm)| == |multiset(response.series)| > 0;
    }
    SeriesObsPermutation(rule, response.series, perm, code, startDate.value, endDate.value);
    var obs2 := Retained(rule, rawExists, response.(series := perm), metroArea, startDate, endDate).value;
    SortedPivotByMultiset(obs1, obs2);
  }

  /** The uniqueness condition is needed: two points of one month and measure
      with different values merge to whichever is read last. */
  lemma RepeatedKeyOrderMatters(ym: YearMonth, m: Measure, v1: real, v2: real)
    requires v1 != v2
    ensures Get(Find(Pivot([Obs(ym, m, v1), Obs(ym, m, v2)]), ym).value, m) == Some(v2)
    ensures Get(Find(Pivot([Obs(ym, m, v2), Obs(ym, m, v1)]), ym).value, m) == Some(v1)
    ensures Pivot([Obs(ym, m, v1), Obs(ym, m, v2)]) != Pivot([Obs(ym, m, v2), Obs(ym, m, v1)])
  {
    PivotMatchesReference([Obs(ym, m, v1), Obs(ym, m, v2)], ym, m);
    PivotMatchesReference([Obs(ym, m, v2), Obs(ym, m, v1)], ym, m);
    assert Observed([Obs(ym, m, v1), Obs(ym, m, v2)], ym);
    assert Observed([Obs(ym, m, v2), Obs(ym, m, v1)], ym);
  }
}
