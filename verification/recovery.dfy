/** The recovery sweep (`reset_in_progress`). */
module Recovery {
  import opened Statuses
  import opened Manifests

  /**
   * The outcome of a sweep: the new pairs, how many were reset, the names whose
   * partial output was removed (in manifest order), and the output directories left.
   */
  datatype Sweep = Sweep(units: seq<Unit>, count: nat, cleaned: seq<string>, outputs: set<string>)

  /** A framework as the sweep leaves it: in-progress becomes pending, keeping its path. */
  function Recover(u: Unit): Unit
  {
    if u.entry.status == InProgress then Unit(u.name, Entry(Pending, u.entry.path)) else u
  }

  /**
   * `reset-running` over the pairs in manifest order, given the names that have an
   * output directory: each in-progress framework is made pending, its directory is
   * removed if it exists, and it is counted.
   */
  function ResetInProgress(units: seq<Unit>, outputs: set<string>): (r: Sweep)
    ensures |r.units| == |units|
    ensures forall i :: 0 <= i < |units| ==> r.units[i] == Recover(units[i])
    ensures forall i :: 0 <= i < |units| ==>
      r.units[i].name == units[i].name && r.units[i].entry.path == units[i].entry.path
    ensures forall i :: 0 <= i < |units| && units[i].entry.status == InProgress ==>
      r.units[i].entry.status == Pending
    ensures forall i :: 0 <= i < |units| && units[i].entry.status != InProgress ==>
      r.units[i] == units[i]
    ensures r.count == |NamesWith(units, InProgress)|
    ensures NamesWith(r.units, InProgress) == []
    ensures forall n :: n in r.cleaned <==> n in outputs && n in NamesWith(units, InProgress)
    ensures forall n :: n in r.outputs <==> n in outputs && n !in NamesWith(units, InProgress)
  {
    if units == [] then Sweep([], 0, [], outputs)
    else
      var u := units[0];
      var swept := u.entry.status == InProgress;
      var removed := swept && u.name in outputs;
      var rest := ResetInProgress(units[1..], if removed then outputs - {u.name} else outputs);
      var r := Sweep([Recover(u)] + rest.units,
                     (if swept then 1 else 0) + rest.count,
                     (if removed then [u.name] else []) + rest.cleaned,
                     rest.outputs);
      ResetStep(units, outputs, rest, r);
      r
  }

  /** The inductive step of the sweep's contract, from the contract of the sweep of the tail. */
  lemma ResetStep(units: seq<Unit>, outputs: set<string>, rest: Sweep, r: Sweep)
    requires units != []
    requires var u := units[0];
      var removed := u.entry.status == InProgress && u.name in outputs;
      var outputs1 := if removed then outputs - {u.name} else outputs;
      && |rest.units| == |units[1..]|
      && (forall i :: 0 <= i < |units[1..]| ==> rest.units[i] == Recover(units[1..][i]))
      && rest.count == |NamesWith(units[1..], InProgress)|
      && NamesWith(rest.units, InProgress) == []
      && (forall n :: n in rest.cleaned <==> n in outputs1 && n in NamesWith(units[1..], InProgress))
      && (forall n :: n in rest.outputs <==> n in outputs1 && n !in NamesWith(units[1..], InProgress))
      && r == Sweep([Recover(u)] + rest.units,
                    (if u.entry.status == InProgress then 1 else 0) + rest.count,
                    (if removed then [u.name] else []) + rest.cleaned,
                    rest.outputs)
    ensures |r.units| == |units|
    ensures forall i :: 0 <= i < |units| ==> r.units[i] == Recover(units[i])
    ensures r.count == |NamesWith(units, InProgress)|
    ensures NamesWith(r.units, InProgress) == []
    ensures forall n :: n in r.cleaned <==> n in outputs && n in NamesWith(units, InProgress)
    ensures forall n :: n in r.outputs <==> n in outputs && n !in NamesWith(units, InProgress)
  {
    forall i | 0 <= i < |units| ensures r.units[i] == Recover(units[i]) {
      if i > 0 {
        assert units[i] == units[1..][i - 1];
        assert r.units[i] == rest.units[i - 1];
      }
    }
    assert r.units[1..] == rest.units;
  }

  /** After a sweep a second sweep finds nothing: it resets none and changes nothing. */
  lemma ResetTwice(units: seq<Unit>, outputs: set<string>, outputs': set<string>)
    ensures var once := ResetInProgress(units, outputs);
            var twice := ResetInProgress(once.units, outputs');
            twice == Sweep(once.units, 0, [], outputs')
  {
    var once := ResetInProgress(units, outputs);
    assert NamesWith(once.units, InProgress) == [];
    ResetNothingInProgress(once.units, outputs');
  }

  /** One step of the sweep: the first unit, then the rest with what remains of the outputs. */
  lemma ResetUnfold(units: seq<Unit>, outputs: set<string>)
    requires units != []
    ensures var u := units[0];
      var removed := u.entry.status == InProgress && u.name in outputs;
      var rest := ResetInProgress(units[1..], if removed then outputs - {u.name} else outputs);
      ResetInProgress(units, outputs)
        == Sweep([Recover(u)] + rest.units,
                 (if u.entry.status == InProgress then 1 else 0) + rest.count,
                 (if removed then [u.name] else []) + rest.cleaned,
                 rest.outputs)
  {
  }

  /** A sweep where only the first unit is in progress, and its output exists. */
  lemma SweepFirstOnly(a: Unit, rest: seq<Unit>, outputs: set<string>)
    requires a.entry.status == InProgress && a.name in outputs
    requires forall i :: 0 <= i < |rest| ==> rest[i].entry.status != InProgress
    ensures ResetInProgress([a] + rest, outputs) == Sweep([Recover(a)] + rest, 1, [a.name], outputs - {a.name})
  {
    ResetUnfold([a] + rest, outputs);
    assert ([a] + rest)[1..] == rest;
    ResetNothingInProgress(rest, outputs - {a.name});
  }

  /** With nothing in progress the sweep is a no-op: nothing reset, nothing removed. */
  lemma {:induction false} ResetNothingInProgress(units: seq<Unit>, outputs: set<string>)
    requires forall i :: 0 <= i < |units| ==> units[i].entry.status != InProgress
    ensures ResetInProgress(units, outputs) == Sweep(units, 0, [], outputs)
  {
    if units != [] {
      ResetNothingInProgress(units[1..], outputs);
      assert units == [units[0]] + units[1..];
    }
  }
}
