/** The status reporter (`show_status`): every tracked framework, sorted by name. */
module Reporter {
  import opened Statuses
  import opened Manifests

  /** Python's `<` on strings: lexicographic by code point, a proper prefix first. */
  predicate Below(a: string, b: string)
  {
    if a == [] then b != []
    else if b == [] then false
    else if a[0] != b[0] then a[0] < b[0]
    else Below(a[1..], b[1..])
  }

  /**
   * `Below` is the lexicographic order Python's `str` comparison uses: either `a` is a
   * proper prefix of `b`, or at the first position where they differ `a` has the
   * smaller code point.
   */
  lemma {:induction false} BelowIsLexicographic(a: string, b: string)
    ensures Below(a, b) <==> a < b || FirstDifferenceBelow(a, b)
  {
    if a != [] && b != [] && a[0] == b[0] {
      BelowIsLexicographic(a[1..], b[1..]);
      FirstDifferenceTail(a, b);
      assert a < b <==> a[1..] < b[1..] by {
        assert a == [a[0]] + a[1..] && b == [b[0]] + b[1..];
      }
    } else if a != [] && b != [] {
      assert a[..0] == b[..0];
    }
  }

  /** At the first position where `a` and `b` differ, `a` has the smaller code point. */
  predicate FirstDifferenceBelow(a: string, b: string)
  {
    exists k :: 0 <= k < |a| && k < |b| && a[..k] == b[..k] && a[k] < b[k]
  }

  lemma FirstDifferenceTail(a: string, b: string)
    requires a != [] && b != [] && a[0] == b[0]
    ensures FirstDifferenceBelow(a, b) <==> FirstDifferenceBelow(a[1..], b[1..])
  {
    if FirstDifferenceBelow(a[1..], b[1..]) {
      var k :| 0 <= k < |a| - 1 && k < |b| - 1 && a[1..][..k] == b[1..][..k] && a[1..][k] < b[1..][k];
      assert a[..k + 1] == [a[0]] + a[1..][..k] && b[..k + 1] == [b[0]] + b[1..][..k];
      assert a[k + 1] < b[k + 1];
    }
    if FirstDifferenceBelow(a, b) {
      var k :| 0 <= k < |a| && k < |b| && a[..k] == b[..k] && a[k] < b[k];
      assert k > 0;
      assert a[1..][..k - 1] == a[..k][1..] && b[1..][..k - 1] == b[..k][1..];
      assert a[1..][k - 1] < b[1..][k - 1];
    }
  }

  lemma {:induction false} BelowIrreflexive(a: string)
    ensures !Below(a, a)
  {
    if a != [] {
      BelowIrreflexive(a[1..]);
    }
  }

  lemma {:induction false} BelowTransitive(a: string, b: string, c: string)
    requires Below(a, b) && Below(b, c)
    ensures Below(a, c)
  {
    if a != [] && b != [] && c != [] && a[0] == b[0] == c[0] {
      BelowTransitive(a[1..], b[1..], c[1..]);
    }
  }

  lemma {:induction false} BelowTotal(a: string, b: string)
    requires a != b
    ensures Below(a, b) || Below(b, a)
  {
    if a != [] && b != [] && a[0] == b[0] {
      assert a == [a[0]] + a[1..] && b == [b[0]] + b[1..];
      BelowTotal(a[1..], b[1..]);
    }
  }

  lemma BelowAsymmetric(a: string, b: string)
    requires Below(a, b)
    ensures !Below(b, a)
  {
    if Below(b, a) {
      BelowTransitive(a, b, a);
      BelowIrreflexive(a);
    }
  }

  /** One line of the table: a framework name and its status. */
  type Row = (string, Status)

  /** The manifest's items as rows, in manifest order. */
  function Rows(units: seq<Unit>): (r: seq<Row>)
    ensures |r| == |units|
    ensures forall i :: 0 <= i < |units| ==> r[i] == (units[i].name, units[i].entry.status)
  {
    if units == [] then []
    else [(units[0].name, units[0].entry.status)] + Rows(units[1..])
  }

  /** No name labels two rows: `Manifests.UniqueNames` read over rows (`RowsDistinct` links the two). */
  predicate DistinctNames(rows: seq<Row>)
  {
    forall i, j :: 0 <= i < j < |rows| ==> rows[i].0 != rows[j].0
  }

  /** Rows in ascending order of name, equal names allowed. */
  predicate Sorted(rows: seq<Row>)
  {
    forall i, j :: 0 <= i < j < |rows| ==> !Below(rows[j].0, rows[i].0)
  }

  /** Rows in strictly ascending order of name. */
  predicate StrictlySorted(rows: seq<Row>)
  {
    forall i, j :: 0 <= i < j < |rows| ==> Below(rows[i].0, rows[j].0)
  }

  function NameSet(rows: seq<Row>): set<string>
  {
    set x | x in rows :: x.0
  }

  /** Inserts a row into sorted rows, after every row whose name is below its own. */
  function Insert(x: Row, rows: seq<Row>): (r: seq<Row>)
    requires Sorted(rows)
    ensures Sorted(r)
    ensures multiset(r) == multiset(rows) + multiset{x}
    ensures NameSet(r) == NameSet(rows) + {x.0}
    ensures DistinctNames(rows) && x.0 !in NameSet(rows) ==> DistinctNames(r)
  {
    if rows == [] then [x]
    else if Below(rows[0].0, x.0) then
      var tail := Insert(x, rows[1..]);
      InsertBehind(x, rows, tail);
      [rows[0]] + tail
    else
      InsertInFront(x, rows);
      [x] + rows
  }

  lemma ConsNames(y: Row, s: seq<Row>)
    ensures NameSet([y] + s) == NameSet(s) + {y.0}
    ensures DistinctNames([y] + s) <==> DistinctNames(s) && y.0 !in NameSet(s)
  {
    var r := [y] + s;
    assert forall z :: z in r <==> z == y || z in s;
    assert forall i :: 1 <= i < |r| ==> r[i] == s[i - 1];
    if DistinctNames(r) {
      forall z | z in s ensures z.0 != y.0 {
        var j :| 0 <= j < |s| && s[j] == z;
        assert r[0] == y && r[j + 1] == z;
        assert r[0].0 != r[j + 1].0;
      }
      forall i, j | 0 <= i < j < |s| ensures s[i].0 != s[j].0 {
        assert r[i + 1] == s[i] && r[j + 1] == s[j];
      }
    }
    if DistinctNames(s) && y.0 !in NameSet(s) {
      forall j | 0 <= j < |s| ensures s[j].0 != y.0 {
        assert s[j] in s;
      }
      forall i, j | 0 <= i < j < |r| ensures r[i].0 != r[j].0 {
        if i == 0 {
          assert r[j] == s[j - 1];
        } else {
          assert r[i] == s[i - 1] && r[j] == s[j - 1];
        }
      }
    }
  }

  lemma ConsSorted(y: Row, s: seq<Row>)
    requires Sorted(s)
    requires forall k :: 0 <= k < |s| ==> !Below(s[k].0, y.0)
    ensures Sorted([y] + s)
  {
    var r := [y] + s;
    assert forall i :: 1 <= i < |r| ==> r[i] == s[i - 1];
  }

  lemma InsertInFront(x: Row, rows: seq<Row>)
    requires Sorted(rows) && rows != [] && !Below(rows[0].0, x.0)
    ensures Sorted([x] + rows)
    ensures NameSet([x] + rows) == NameSet(rows) + {x.0}
    ensures DistinctNames(rows) && x.0 !in NameSet(rows) ==> DistinctNames([x] + rows)
  {
    forall k | 0 <= k < |rows| ensures !Below(rows[k].0, x.0) {
      if Below(rows[k].0, x.0) && rows[k].0 != rows[0].0 {
        BelowTotal(rows[k].0, rows[0].0);
        BelowTransitive(rows[0].0, rows[k].0, x.0);
      }
    }
    ConsSorted(x, rows);
    ConsNames(x, rows);
  }

  lemma InsertBehind(x: Row, rows: seq<Row>, tail: seq<Row>)
    requires Sorted(rows) && rows != [] && Below(rows[0].0, x.0)
    requires Sorted(tail)
    requires multiset(tail) == multiset(rows[1..]) + multiset{x}
    requires NameSet(tail) == NameSet(rows[1..]) + {x.0}
    requires DistinctNames(rows[1..]) && x.0 !in NameSet(rows[1..]) ==> DistinctNames(tail)
    ensures Sorted([rows[0]] + tail)
    ensures multiset([rows[0]] + tail) == multiset(rows) + multiset{x}
    ensures NameSet([rows[0]] + tail) == NameSet(rows) + {x.0}
    ensures DistinctNames(rows) && x.0 !in NameSet(rows) ==> DistinctNames([rows[0]] + tail)
  {
    assert rows == [rows[0]] + rows[1..];
    InsertBehindSorted(x, rows, tail);
    InsertBehindNames(x, rows, tail);
  }

  lemma InsertBehindNames(x: Row, rows: seq<Row>, tail: seq<Row>)
    requires rows != []
    requires NameSet(tail) == NameSet(rows[1..]) + {x.0}
    requires DistinctNames(rows[1..]) && x.0 !in NameSet(rows[1..]) ==> DistinctNames(tail)
    ensures NameSet([rows[0]] + tail) == NameSet(rows) + {x.0}
    ensures DistinctNames(rows) && x.0 !in NameSet(rows) ==> DistinctNames([rows[0]] + tail)
  {
    assert rows == [rows[0]] + rows[1..];
    ConsNames(rows[0], tail);
    ConsNames(rows[0], rows[1..]);
  }

  lemma InsertBehindSorted(x: Row, rows: seq<Row>, tail: seq<Row>)
    requires Sorted(rows) && rows != [] && Below(rows[0].0, x.0)
    requires Sorted(tail)
    requires multiset(tail) == multiset(rows[1..]) + multiset{x}
    ensures Sorted([rows[0]] + tail)
  {
    forall k | 0 <= k < |tail| ensures !Below(tail[k].0, rows[0].0) {
      assert tail[k] in multiset(tail);
      if tail[k] == x {
        BelowAsymmetric(rows[0].0, x.0);
      } else {
        assert tail[k] in rows[1..];
        var j :| 0 <= j < |rows[1..]| && rows[1..][j] == tail[k];
        assert rows[j + 1] == tail[k];
      }
    }
    ConsSorted(rows[0], tail);
  }

  /** Insertion sort by name. */
  function Sort(rows: seq<Row>): (r: seq<Row>)
    ensures Sorted(r)
    ensures multiset(r) == multiset(rows)
    ensures NameSet(r) == NameSet(rows)
    ensures DistinctNames(rows) ==> DistinctNames(r)
  {
    if rows == [] then []
    else
      var tail := Sort(rows[1..]);
      SortStep(rows);
      Insert(rows[0], tail)
  }

  lemma SortStep(rows: seq<Row>)
    requires rows != []
    ensures multiset(rows) == multiset(rows[1..]) + multiset{rows[0]}
    ensures NameSet(rows) == NameSet(rows[1..]) + {rows[0].0}
    ensures DistinctNames(rows) ==> DistinctNames(rows[1..]) && rows[0].0 !in NameSet(rows[1..])
  {
    assert rows == [rows[0]] + rows[1..];
    ConsNames(rows[0], rows[1..]);
  }

  /** Sorted rows with distinct names are strictly sorted. */
  lemma SortedDistinctStrict(rows: seq<Row>)
    requires Sorted(rows) && DistinctNames(rows)
    ensures StrictlySorted(rows)
  {
    forall i, j | 0 <= i < j < |rows| ensures Below(rows[i].0, rows[j].0) {
      BelowTotal(rows[i].0, rows[j].0);
    }
  }

  /** Two strictly sorted sequences holding the same rows are the same sequence. */
  lemma {:induction false} StrictlySortedUnique(a: seq<Row>, b: seq<Row>)
    requires StrictlySorted(a) && StrictlySorted(b)
    requires forall x :: x in a <==> x in b
    ensures a == b
  {
    assert a != [] ==> a[0] in b;
    assert b != [] ==> b[0] in a;
    if a != [] && b != [] {
      if a[0] != b[0] {
        var k :| 0 <= k < |b| && b[k] == a[0];
        var j :| 0 <= j < |a| && a[j] == b[0];
        BelowAsymmetric(a[0].0, b[0].0);
        assert false;
      }
      forall x ensures x in a[1..] <==> x in b[1..] {
        if x in a[1..] {
          var i :| 0 <= i < |a[1..]| && a[1..][i] == x;
          assert Below(a[0].0, a[i + 1].0);
          BelowIrreflexive(x.0);
          assert x in a && x in b;
          var k :| 0 <= k < |b| && b[k] == x;
          assert k != 0;
          assert b[1..][k - 1] == x;
        }
        if x in b[1..] {
          var i :| 0 <= i < |b[1..]| && b[1..][i] == x;
          assert Below(b[0].0, b[i + 1].0);
          BelowIrreflexive(x.0);
          assert x in b && x in a;
          var k :| 0 <= k < |a| && a[k] == x;
          assert k != 0;
          assert a[1..][k - 1] == x;
        }
      }
      StrictlySortedUnique(a[1..], b[1..]);
      assert a == [a[0]] + a[1..] && b == [b[0]] + b[1..];
    }
  }

  /** `DistinctNames` is `UniqueNames` read over the rows. */
  lemma RowsDistinct(units: seq<Unit>)
    ensures UniqueNames(units) <==> DistinctNames(Rows(units))
  {
  }

  /** What `status` prints: a note that nothing is tracked, or one row per framework. */
  datatype Report = NoFrameworks | Table(rows: seq<Row>)

  /**
   * `status`: every tracked framework with its status, sorted by name whatever
   * the manifest order; the manifest is only read.
   */
  function ShowStatus(m: Manifest): (r: Report)
    ensures m.units == [] <==> r == NoFrameworks
    ensures r.Table? ==> Sorted(r.rows) && multiset(r.rows) == multiset(Rows(m.units))
    ensures r.Table? ==> |r.rows| == |m.units|
    ensures r.Table? && UniqueNames(m.units) ==> StrictlySorted(r.rows)
  {
    if m.units == [] then NoFrameworks
    else
      var rows := Sort(Rows(m.units));
      RowsDistinct(m.units);
      assert |rows| == |multiset(rows)|;
      if UniqueNames(m.units) then
        SortedDistinctStrict(rows);
        Table(rows)
      else Table(rows)
  }

  /** With unique names, the report holds a row exactly for each name and its current status. */
  lemma ReportRows(m: Manifest, n: string, s: Status)
    requires UniqueNames(m.units) && m.units != []
    ensures (n, s) in ShowStatus(m).rows <==> Get(m.units, n).Some? && Get(m.units, n).value.status == s
  {
    var rows := ShowStatus(m).rows;
    assert (n, s) in rows <==> (n, s) in multiset(Rows(m.units));
    RowsMember(m.units, n, s);
  }

  /** With unique names, the unsorted rows are exactly the tracked pairs. */
  lemma RowsMember(units: seq<Unit>, n: string, s: Status)
    requires UniqueNames(units)
    ensures (n, s) in Rows(units) <==> Get(units, n).Some? && Get(units, n).value.status == s
  {
    if (n, s) in Rows(units) {
      var i :| 0 <= i < |units| && Rows(units)[i] == (n, s);
      GetAt(units, i);
    }
    if Get(units, n).Some? && Get(units, n).value.status == s {
      var e := Get(units, n).value;
      var i :| 0 <= i < |units| && units[i] == Unit(n, e);
      assert Rows(units)[i] == (n, s);
    }
  }

  /** Two manifests holding the same entries, in whatever order, give the same report. */
  lemma ReportIgnoresOrder(m1: Manifest, m2: Manifest)
    requires UniqueNames(m1.units) && UniqueNames(m2.units)
    requires forall n :: Get(m1.units, n) == Get(m2.units, n)
    ensures ShowStatus(m1) == ShowStatus(m2)
  {
    KeysEmpty(m1.units);
    KeysEmpty(m2.units);
    forall n ensures n in Keys(m1.units) <==> n in Keys(m2.units) {
      assert Get(m1.units, n) == Get(m2.units, n);
    }
    assert Keys(m1.units) == Keys(m2.units);
    if m1.units != [] {
      forall x: Row ensures x in ShowStatus(m1).rows <==> x in ShowStatus(m2).rows {
        ReportRows(m1, x.0, x.1);
        ReportRows(m2, x.0, x.1);
      }
      StrictlySortedUnique(ShowStatus(m1).rows, ShowStatus(m2).rows);
    }
  }
}
