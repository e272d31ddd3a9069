/** Batch selection (`get_next_batch`). */
module Batches {
  import opened Statuses
  import opened Manifests

  /** Python's slice `s[:limit]`; a negative limit drops that many names from the end. */
  function Slice(s: seq<string>, limit: int): (r: seq<string>)
    ensures r <= s
    ensures 0 <= limit ==> |r| == if limit < |s| then limit else |s|
    ensures limit < 0 ==> |r| == if -limit < |s| then |s| + limit else 0
  {
    if 0 <= limit then (if limit < |s| then s[..limit] else s)
    else if -limit < |s| then s[..|s| + limit]
    else []
  }

  /**
   * `next`: Python's `pending[:limit]` over the names whose status is exactly
   * pending, in the order the frameworks were first discovered: the first
   * `limit` of them for a non-negative limit; a negative limit drops names
   * from the end. In-progress names are never
   * handed out; the manifest is only read.
   */
  function NextBatch(m: Manifest, limit: int): (r: seq<string>)
    ensures 0 <= limit ==> |r| <= limit
    ensures r <= NamesWith(m.units, Pending)
    ensures 0 <= limit && limit <= |NamesWith(m.units, Pending)| ==> |r| == limit
    ensures 0 <= limit && |NamesWith(m.units, Pending)| <= limit ==> r == NamesWith(m.units, Pending)
    ensures limit < 0 ==>
      |r| == if -limit < |NamesWith(m.units, Pending)| then |NamesWith(m.units, Pending)| + limit else 0
    ensures UniqueNames(m.units) ==>
      forall n :: n in r ==> Get(m.units, n).Some? && Get(m.units, n).value.status == Pending
  {
    var pending := NamesWith(m.units, Pending);
    var r := Slice(pending, limit);
    BatchIsPending(m.units, r);
    r
  }

  lemma BatchIsPending(units: seq<Unit>, r: seq<string>)
    requires r <= NamesWith(units, Pending)
    ensures UniqueNames(units) ==>
      forall n :: n in r ==> Get(units, n).Some? && Get(units, n).value.status == Pending
  {
    if UniqueNames(units) {
      forall n | n in r ensures Get(units, n).Some? && Get(units, n).value.status == Pending {
        NamesWithMember(units, Pending, n);
      }
    }
  }

  /** One more pair of the manifest extends the pending names by at most its own name. */
  lemma NamesWithSnoc(units: seq<Unit>, i: nat)
    requires i < |units|
    ensures NamesWith(units[..i + 1], Pending) ==
      NamesWith(units[..i], Pending) + (if units[i].entry.status == Pending then [units[i].name] else [])
  {
    assert units[..i + 1] == units[..i] + [units[i]];
    NamesWithAppend(units[..i], [units[i]], Pending);
    assert [units[i]][1..] == [];
  }

  /** The scan loop of `get_next_batch`, collecting pending names before slicing. */
  method GetNextBatch(m: Manifest, limit: int) returns (batch: seq<string>)
    ensures batch == NextBatch(m, limit)
  {
    var pending: seq<string> := [];
    var i := 0;
    while i < |m.units|
      invariant 0 <= i <= |m.units|
      invariant pending == NamesWith(m.units[..i], Pending)
    {
      var u := m.units[i];
      NamesWithSnoc(m.units, i);
      if u.entry.status == Pending {
        pending := pending + [u.name];
      }
      i := i + 1;
    }
    assert m.units[..i] == m.units;
    batch := Slice(pending, limit);
  }
}
