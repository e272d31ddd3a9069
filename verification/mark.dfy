/** The status mutator (`mark_status`). */
module Mutator {
  import opened Basics
  import opened Statuses
  import opened Manifests

  /** Why `mark` refuses: the name is not tracked, or the status is not one of the four. */
  datatype MarkError = UnknownFramework(name: string) | InvalidStatus(status: string)

  /** The manifest with the status stored under `name` overwritten, in place. */
  function SetStatus(units: seq<Unit>, name: string, s: Status): (r: seq<Unit>)
    ensures |r| == |units|
  {
    if units == [] then []
    else
      var u := units[0];
      var u' := if u.name == name then Unit(name, Entry(s, u.entry.path)) else u;
      [u'] + SetStatus(units[1..], name, s)
  }

  /** Overwriting keeps every pair in place: same names, same paths, and other pairs untouched. */
  lemma {:induction false} SetStatusInPlace(units: seq<Unit>, name: string, s: Status, i: nat)
    requires i < |units|
    ensures SetStatus(units, name, s)[i].name == units[i].name
    ensures SetStatus(units, name, s)[i].entry.path == units[i].entry.path
    ensures units[i].name != name ==> SetStatus(units, name, s)[i] == units[i]
    ensures units[i].name == name ==> SetStatus(units, name, s)[i].entry.status == s
  {
    if i > 0 {
      SetStatusInPlace(units[1..], name, s, i - 1);
    }
  }

  /** Read back through a lookup, overwriting changes the status of `name` and nothing else. */
  lemma {:induction false} SetStatusGet(units: seq<Unit>, name: string, s: Status, n: string)
    ensures n == name && Get(units, name).Some? ==>
      Get(SetStatus(units, name, s), n) == Some(Entry(s, Get(units, name).value.path))
    ensures n != name ==> Get(SetStatus(units, name, s), n) == Get(units, n)
    ensures Keys(SetStatus(units, name, s)) == Keys(units)
  {
    if units != [] {
      SetStatusGet(units[1..], name, s, n);
      var r := SetStatus(units, name, s);
      assert r[1..] == SetStatus(units[1..], name, s);
      KeysCons(units);
      KeysCons(r);
    }
  }

  /**
   * `mark`: the name is checked before the status; either failure leaves the
   * manifest as it was. On success only the named framework's status changes,
   * to any of the four values whatever it was before.
   */
  function MarkStatus(m: Manifest, name: string, status: string): (r: Result<Manifest, MarkError>)
    ensures name !in Keys(m.units) ==> r == Err(UnknownFramework(name))
    ensures name in Keys(m.units) && Parse(status).None? ==> r == Err(InvalidStatus(status))
    ensures r.Ok? <==> name in Keys(m.units) && Parse(status).Some?
    ensures r.Ok? ==> Keys(r.value.units) == Keys(m.units)
    ensures r.Ok? ==> Get(r.value.units, name) == Some(Entry(Parse(status).value, Get(m.units, name).value.path))
    ensures r.Ok? ==> forall n :: n != name ==> Get(r.value.units, n) == Get(m.units, n)
  {
    if name !in Keys(m.units) then Err(UnknownFramework(name))
    else match Parse(status)
      case None => Err(InvalidStatus(status))
      case Some(s) =>
        MarkGet(m.units, name, s);
        Ok(Manifest(SetStatus(m.units, name, s)))
  }

  lemma MarkGet(units: seq<Unit>, name: string, s: Status)
    requires name in Keys(units)
    ensures Keys(SetStatus(units, name, s)) == Keys(units)
    ensures Get(SetStatus(units, name, s), name) == Some(Entry(s, Get(units, name).value.path))
    ensures forall n :: n != name ==> Get(SetStatus(units, name, s), n) == Get(units, n)
  {
    SetStatusGet(units, name, s, name);
    forall n | n != name ensures Get(SetStatus(units, name, s), n) == Get(units, n) {
      SetStatusGet(units, name, s, n);
    }
  }

  /** A successful `mark` keeps the key order and every other pair exactly as it was. */
  lemma MarkInPlace(m: Manifest, name: string, status: string, i: nat)
    requires MarkStatus(m, name, status).Ok?
    requires i < |m.units|
    ensures |MarkStatus(m, name, status).value.units| == |m.units|
    ensures MarkStatus(m, name, status).value.units[i].name == m.units[i].name
    ensures MarkStatus(m, name, status).value.units[i].entry.path == m.units[i].entry.path
    ensures m.units[i].name != name ==> MarkStatus(m, name, status).value.units[i] == m.units[i]
  {
    SetStatusInPlace(m.units, name, Parse(status).value, i);
  }
}
