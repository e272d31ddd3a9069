/** The manifest: an insertion-ordered association from framework name to entry. */
module Manifests {
  import opened Basics
  import opened Statuses

  /** What the manifest stores for one framework. */
  datatype Entry = Entry(status: Status, path: string)

  /** One key/value pair of the manifest. */
  datatype Unit = Unit(name: string, entry: Entry)

  /** The `frameworks` mapping, kept as its pairs in insertion order. */
  datatype Manifest = Manifest(units: seq<Unit>)

  /** The set of framework names tracked by a sequence of pairs. */
  function Keys(units: seq<Unit>): set<string>
  {
    set u | u in units :: u.name
  }

  /** Names are keys of a mapping: no name occurs twice. */
  predicate UniqueNames(units: seq<Unit>)
  {
    forall i, j :: 0 <= i < j < |units| ==> units[i].name != units[j].name
  }

  lemma KeysAppend(units: seq<Unit>, u: Unit)
    ensures Keys(units + [u]) == Keys(units) + {u.name}
  {
    assert forall v :: v in units + [u] <==> v in units || v == u;
  }

  lemma KeysCons(units: seq<Unit>)
    requires units != []
    ensures Keys(units) == {units[0].name} + Keys(units[1..])
  {
    assert units == [units[0]] + units[1..];
    assert forall v :: v in units <==> v == units[0] || v in units[1..];
  }

  /** Dictionary lookup: the entry stored under `name`, if any. */
  function Get(units: seq<Unit>, name: string): (r: Option<Entry>)
    ensures r.None? <==> name !in Keys(units)
    ensures r.Some? ==> Unit(name, r.value) in units
  {
    if units == [] then None
    else
      KeysCons(units);
      if units[0].name == name then Some(units[0].entry) else Get(units[1..], name)
  }

  /** With unique names, the lookup of a name finds the pair that holds it. */
  lemma {:induction false} GetAt(units: seq<Unit>, i: nat)
    requires UniqueNames(units)
    requires i < |units|
    ensures Get(units, units[i].name) == Some(units[i].entry)
  {
    if i > 0 {
      assert units[0].name != units[i].name;
      assert units[1..][i - 1] == units[i];
      GetAt(units[1..], i - 1);
    }
  }

  /** The names whose status is `s`, in manifest order. */
  function NamesWith(units: seq<Unit>, s: Status): (r: seq<string>)
    ensures |r| <= |units|
    ensures forall i :: 0 <= i < |units| && units[i].entry.status == s ==> units[i].name in r
    ensures forall n :: n in r ==> Get(units, n).Some?
  {
    if units == [] then []
    else
      var rest := NamesWith(units[1..], s);
      assert forall i :: 1 <= i < |units| ==> units[i] == units[1..][i - 1];
      if units[0].entry.status == s then [units[0].name] + rest else rest
  }

  /** Filtering by status distributes over concatenation, so it keeps manifest order. */
  lemma {:induction false} NamesWithAppend(a: seq<Unit>, b: seq<Unit>, s: Status)
    ensures NamesWith(a + b, s) == NamesWith(a, s) + NamesWith(b, s)
  {
    if a == [] {
      assert a + b == b;
    } else {
      assert (a + b)[0] == a[0];
      assert (a + b)[1..] == a[1..] + b;
      NamesWithAppend(a[1..], b, s);
    }
  }

  /** With unique names, a name is selected exactly when the lookup reports status `s`. */
  lemma {:induction false} NamesWithMember(units: seq<Unit>, s: Status, n: string)
    requires UniqueNames(units)
    ensures n in NamesWith(units, s) <==> Get(units, n).Some? && Get(units, n).value.status == s
  {
    if units != [] {
      assert UniqueNames(units[1..]);
      NamesWithMember(units[1..], s, n);
      if units[0].name == n {
        assert n !in Keys(units[1..]) by {
          forall v | v in units[1..] ensures v.name != n {
            var k :| 0 <= k < |units[1..]| && units[1..][k] == v;
            assert units[k + 1] == v;
          }
        }
      }
    }
  }

  /** With unique names there are exactly as many keys as pairs. */
  lemma {:induction false} UniqueCard(units: seq<Unit>)
    requires UniqueNames(units)
    ensures |Keys(units)| == |units|
  {
    if units != [] {
      KeysCons(units);
      assert UniqueNames(units[1..]);
      UniqueCard(units[1..]);
      assert units[0].name !in Keys(units[1..]) by {
        forall v | v in units[1..] ensures v.name != units[0].name {
          var k :| 0 <= k < |units[1..]| && units[1..][k] == v;
          assert units[k + 1] == v;
        }
      }
    }
  }

  /** Appending pairs does not change what an already-tracked name looks up to. */
  lemma {:induction false} GetPrefix(a: seq<Unit>, b: seq<Unit>, name: string)
    requires name in Keys(a)
    ensures Get(a + b, name) == Get(a, name)
  {
    KeysCons(a);
    assert (a + b)[0] == a[0];
    if a[0].name != name {
      assert (a + b)[1..] == a[1..] + b;
      GetPrefix(a[1..], b, name);
    }
  }

  lemma KeysEmpty(units: seq<Unit>)
    ensures units == [] <==> Keys(units) == {}
  {
    if units != [] {
      assert units[0].name in Keys(units);
    }
  }
}
