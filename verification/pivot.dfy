/** The long-to-wide pivot of the employment transform. Retained data points
    are merged into one row per (year, month), each point setting only the
    column of its measure; the rows are then put in (year, month) order. */
module EmploymentPivot {

  import opened Results
  import opened Calendar
  import opened LausSeriesId

  /** The four measure columns of one row; `None` is a missing (null) value. */
  datatype Cells = Cells(
    unemploymentRate: Option<real>,
    unemployed: Option<real>,
    employed: Option<real>,
    laborForce: Option<real>)

  const NoCells: Cells := Cells(None, None, None, None)

  function Get(c: Cells, m: Measure): Option<real> {
    match m
    case UnemploymentRate => c.unemploymentRate
    case Unemployed => c.unemployed
    case Employed => c.employed
    case LaborForce => c.laborForce
  }

  /** `record[field_name] = value`: sets one column and no other. */
  function Put(c: Cells, m: Measure, v: real): (r: Cells)
    ensures Get(r, m) == Some(v)
    ensures forall k :: k != m ==> Get(r, k) == Get(c, k)
  {
    match m
    case UnemploymentRate => c.(unemploymentRate := Some(v))
    case Unemployed => c.(unemployed := Some(v))
    case Employed => c.(employed := Some(v))
    case LaborForce => c.(laborForce := Some(v))
  }

  /** A retained data point: the month it belongs to, its series' measure and its value. */
  datatype Obs = Obs(ym: YearMonth, measure: Measure, value: real)

  /** One partially built record of the source's `records` list. */
  datatype Row = Row(ym: YearMonth, cells: Cells)

  predicate KeysUnique(rows: seq<Row>) {
    forall i, j :: 0 <= i < j < |rows| ==> rows[i].ym != rows[j].ym
  }

  /** The linear search for the record of a month: the first row with that key. */
  function Find(rows: seq<Row>, ym: YearMonth): (r: Option<Cells>)
    ensures r.None? <==> forall i :: 0 <= i < |rows| ==> rows[i].ym != ym
    ensures r.Some? ==> exists i :: 0 <= i < |rows| && rows[i] == Row(ym, r.value)
  {
    if rows == [] then None
    else if rows[0].ym == ym then Some(rows[0].cells)
    else
      var r := Find(rows[1..], ym);
      assert forall i :: 1 <= i < |rows| ==> rows[i] == rows[1..][i - 1];
      r
  }

  /** Find-or-create the record of the point's month, then set the point's
      column. A new record goes to the end of the list. */
  function Upsert(rows: seq<Row>, o: Obs): (r: seq<Row>)
    requires KeysUnique(rows)
    ensures KeysUnique(r)
    ensures Find(r, o.ym) == Some(Put(Find(rows, o.ym).GetOr(NoCells), o.measure, o.value))
    ensures forall k :: k != o.ym ==> Find(r, k) == Find(rows, k)
    ensures |r| == if Find(rows, o.ym).Some? then |rows| else |rows| + 1
  {
    if rows == [] then [Row(o.ym, Put(NoCells, o.measure, o.value))]
    else if rows[0].ym == o.ym then
      var x := Row(o.ym, Put(rows[0].cells, o.measure, o.value));
      assert Find(rows[1..], rows[0].ym).None?;
      FindCons(x, rows[1..]);
      FindCons(rows[0], rows[1..]);
      assert rows == [rows[0]] + rows[1..];
      [x] + rows[1..]
    else
      var rest := Upsert(rows[1..], o);
      assert Find(rows[1..], rows[0].ym).None?;
      FindCons(rows[0], rest);
      FindCons(rows[0], rows[1..]);
      assert rows == [rows[0]] + rows[1..];
      [rows[0]] + rest
  }

  /** Looking up a key in a list with a row in front: the front row if it has
      the key, the rest otherwise. With a new key in front, keys stay unique. */
  lemma FindCons(x: Row, rest: seq<Row>)
    ensures forall k :: Find([x] + rest, k) == if k == x.ym then Some(x.cells) else Find(rest, k)
    ensures KeysUnique(rest) && Find(rest, x.ym).None? ==> KeysUnique([x] + rest)
  {
    var r := [x] + rest;
    assert r[0] == x && r[1..] == rest;
    assert forall i :: 1 <= i < |r| ==> r[i] == rest[i - 1];
  }

  /** The merge loop over all retained points, in processing order. */
  function Pivot(obs: seq<Obs>): (rows: seq<Row>)
    ensures KeysUnique(rows)
    ensures |rows| <= |obs|
    ensures rows == [] <==> obs == []
  {
    if obs == [] then [] else Upsert(Pivot(obs[..|obs| - 1]), obs[|obs| - 1])
  }

  predicate Observed(obs: seq<Obs>, ym: YearMonth) {
    exists i :: 0 <= i < |obs| && obs[i].ym == ym
  }

  /** Reference semantics of the merge: the value of the last retained point
      of that month and measure, if any (last write wins). */
  function LastValue(obs: seq<Obs>, ym: YearMonth, m: Measure): (v: Option<real>)
    ensures v.Some? ==> Observed(obs, ym)
    ensures v.Some? ==> Obs(ym, m, v.value) in obs
  {
    if obs == [] then None
    else
      var o := obs[|obs| - 1];
      if o.ym == ym && o.measure == m then Some(o.value)
      else
        var v := LastValue(obs[..|obs| - 1], ym, m);
        assert v.Some? ==> Observed(obs, ym) by {
          if v.Some? {
            var i :| 0 <= i < |obs| - 1 && obs[..|obs| - 1][i].ym == ym;
            assert obs[i].ym == ym;
          }
        }
        v
  }

  /** The merge creates a row for exactly the months some retained point has. */
  lemma {:induction false} PivotKeys(obs: seq<Obs>, ym: YearMonth)
    ensures Find(Pivot(obs), ym).Some? <==> Observed(obs, ym)
    decreases |obs|
  {
    if obs != [] {
      var prefix := obs[..|obs| - 1];
      var o := obs[|obs| - 1];
      assert obs == prefix + [o];
      PivotKeys(prefix, ym);
      ObservedSnoc(prefix, o, ym);
      var rows := Pivot(prefix);
      assert Pivot(obs) == Upsert(rows, o);
      if o.ym == ym {
        assert Find(Pivot(obs), ym).Some?;
      } else {
        assert Find(Pivot(obs), ym) == Find(rows, ym);
      }
    }
  }

  lemma ObservedSnoc(prefix: seq<Obs>, o: Obs, ym: YearMonth)
    ensures Observed(prefix + [o], ym) <==> Observed(prefix, ym) || o.ym == ym
  {
    var obs := prefix + [o];
    if Observed(obs, ym) && o.ym != ym {
      var i :| 0 <= i < |obs| && obs[i].ym == ym;
      assert prefix[i].ym == ym;
    }
    if Observed(prefix, ym) {
      var i :| 0 <= i < |prefix| && prefix[i].ym == ym;
      assert obs[i].ym == ym;
    }
    if o.ym == ym {
      assert obs[|prefix|].ym == ym;
    }
  }

  /** Pivot correctness: the result has a row for exactly the months that
      some retained point has, and each column of that row holds the last
      value seen for that month and measure (null when none). */
  lemma {:induction false} PivotMatchesReference(obs: seq<Obs>, ym: YearMonth, m: Measure)
    ensures Find(Pivot(obs), ym).Some? <==> Observed(obs, ym)
    ensures Find(Pivot(obs), ym).Some? ==> Get(Find(Pivot(obs), ym).value, m) == LastValue(obs, ym, m)
    decreases |obs|
  {
    PivotKeys(obs, ym);
    if obs != [] {
      var prefix := obs[..|obs| - 1];
      var o := obs[|obs| - 1];
      var before := Pivot(prefix);
      assert Pivot(obs) == Upsert(before, o);
      PivotMatchesReference(prefix, ym, m);
      if o.ym == ym {
        if m != o.measure {
          assert LastValue(obs, ym, m) == LastValue(prefix, ym, m);
          if Find(before, ym).None? {
            assert LastValue(prefix, ym, m).None?;
          }
        }
      } else {
        assert LastValue(obs, ym, m) == LastValue(prefix, ym, m);
      }
    }
  }

  predicate StrictlySorted(rows: seq<Row>) {
    forall i, j :: 0 <= i < j < |rows| ==> MonthBefore(rows[i].ym, rows[j].ym)
  }

  /** Places a row with a new key into a strictly ascending list. */
  function Insert(row: Row, rows: seq<Row>): (r: seq<Row>)
    requires StrictlySorted(rows)
    requires Find(rows, row.ym).None?
    ensures StrictlySorted(r)
    ensures |r| == |rows| + 1
    ensures forall k :: Find(r, k) == if k == row.ym then Some(row.cells) else Find(rows, k)
  {
    if rows == [] || MonthBefore(row.ym, rows[0].ym) then
      var r := [row] + rows;
      assert forall i :: 1 <= i < |r| ==> r[i] == rows[i - 1];
      r
    else
      var rest := Insert(row, rows[1..]);
      var r := [rows[0]] + rest;
      assert forall i :: 1 <= i < |r| ==> r[i] == rest[i - 1];
      assert forall k :: k != rows[0].ym ==> Find(r, k) == Find(rest, k);
      RestAbove(row, rows, rest);
      r
  }

  /** In the recursive case of `Insert`, every key of the result for the tail
      lies above the head's key. */
  lemma RestAbove(row: Row, rows: seq<Row>, rest: seq<Row>)
    requires StrictlySorted(rows) && rows != []
    requires MonthBefore(rows[0].ym, row.ym)
    requires forall k :: Find(rest, k) == if k == row.ym then Some(row.cells) else Find(rows[1..], k)
    ensures forall i :: 0 <= i < |rest| ==> MonthBefore(rows[0].ym, rest[i].ym)
  {
    forall i | 0 <= i < |rest|
      ensures MonthBefore(rows[0].ym, rest[i].ym)
    {
      var k := rest[i].ym;
      assert Find(rest, k).Some?;
      if k != row.ym {
        var j :| 0 <= j < |rows[1..]| && rows[1..][j].ym == k;
        assert rows[j + 1].ym == k;
      }
    }
  }

  /** `sort_values(by=[year, month])` on rows with distinct keys. */
  function SortRows(rows: seq<Row>): (r: seq<Row>)
    requires KeysUnique(rows)
    ensures StrictlySorted(r)
    ensures |r| == |rows|
    ensures forall k :: Find(r, k) == Find(rows, k)
  {
    if rows == [] then []
    else
      var rest := SortRows(rows[1..]);
      assert Find(rows[1..], rows[0].ym).None?;
      Insert(rows[0], rest)
  }

  lemma SameKeysBothEmpty(a: seq<Row>, b: seq<Row>)
    requires forall k :: Find(a, k) == Find(b, k)
    ensures a == [] <==> b == []
  {
    if a != [] {
      assert Find(b, a[0].ym).Some?;
    }
    if b != [] {
      assert Find(a, b[0].ym).Some?;
    }
  }

  /** Two ascending row lists that agree on every month's row are the same
      list: the sorted output depends only on the merged content, not on the
      order in which records were created. */
  lemma {:induction false} SortedRowsDetermined(a: seq<Row>, b: seq<Row>)
    requires StrictlySorted(a) && StrictlySorted(b)
    requires forall k :: Find(a, k) == Find(b, k)
    ensures a == b
    decreases |a|
  {
    SameKeysBothEmpty(a, b);
    if a != [] {
      var ha, hb := a[0].ym, b[0].ym;
      assert !MonthBefore(ha, hb) by {
        assert Find(b, ha) == Some(a[0].cells);
        var j :| 0 <= j < |b| && b[j] == Row(ha, a[0].cells);
        assert j == 0 || MonthBefore(hb, b[j].ym);
      }
      assert ha == hb by {
        assert Find(a, hb) == Some(b[0].cells);
        var j :| 0 <= j < |a| && a[j] == Row(hb, b[0].cells);
        assert j == 0;
      }
      assert a[0] == b[0] by {
        assert Find(a, ha) == Some(a[0].cells);
        assert Find(b, ha) == Some(b[0].cells);
      }
      forall k
        ensures Find(a[1..], k) == Find(b[1..], k)
      {
        if k == ha {
          assert forall i :: 0 <= i < |a[1..]| ==> a[1..][i].ym != ha by {
            forall i | 0 <= i < |a[1..]| ensures a[1..][i].ym != ha {
              assert a[1..][i] == a[i + 1];
            }
          }
          assert forall i :: 0 <= i < |b[1..]| ==> b[1..][i].ym != ha by {
            forall i | 0 <= i < |b[1..]| ensures b[1..][i].ym != ha {
              assert b[1..][i] == b[i + 1];
            }
          }
        } else {
          assert Find(a, k) == Find(a[1..], k);
          assert Find(b, k) == Find(b[1..], k);
        }
      }
      assert StrictlySorted(a[1..]) && StrictlySorted(b[1..]) by {
        assert forall i :: 0 <= i < |a[1..]| ==> a[1..][i] == a[i + 1];
        assert forall i :: 0 <= i < |b[1..]| ==> b[1..][i] == b[i + 1];
      }
      SortedRowsDetermined(a[1..], b[1..]);
      assert a == [a[0]] + a[1..] && b == [b[0]] + b[1..];
    }
  }
}
