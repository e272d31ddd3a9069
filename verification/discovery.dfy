/** Discovery (`init_state`): merging a listing of the repos directory into the manifest. */
module Discovery {
  import opened Basics
  import opened Statuses
  import opened Manifests

  /** One entry of the repos directory listing. */
  datatype DirItem = DirItem(name: string, isDir: bool)

  /** The repos root, relative to the working directory. */
  const ReposDir: string := "repos"

  /** The path recorded for a discovered framework: the repos root joined with its name. */
  function SourcePath(name: string): string
  {
    ReposDir + "/" + name
  }

  /** Hidden directories are those whose name starts with a dot. */
  predicate Hidden(name: string)
  {
    |name| > 0 && name[0] == '.'
  }

  /** A listing entry names a framework when it is a directory that is not hidden. */
  predicate IsCandidate(item: DirItem)
  {
    item.isDir && !Hidden(item.name)
  }

  /** The names found by the scan. */
  function Found(listing: seq<DirItem>): set<string>
  {
    set item | item in listing && IsCandidate(item) :: item.name
  }

  /** The pair added for a newly discovered framework. */
  function Discovered(name: string): Unit
  {
    Unit(name, Entry(Pending, SourcePath(name)))
  }

  /** The position of the first candidate entry of the listing carrying `name` (|listing| if none). */
  function FirstSeen(listing: seq<DirItem>, name: string): nat
  {
    if listing == [] then 0
    else if IsCandidate(listing[0]) && listing[0].name == name then 0
    else 1 + FirstSeen(listing[1..], name)
  }

  lemma FoundCons(listing: seq<DirItem>)
    requires listing != []
    ensures Found(listing) == Found(listing[1..]) + (if IsCandidate(listing[0]) then {listing[0].name} else {})
  {
    assert listing == [listing[0]] + listing[1..];
    assert forall v :: v in listing <==> v == listing[0] || v in listing[1..];
  }

  /**
   * The scan loop: each candidate whose name is not yet a key is appended as a
   * pending entry; everything already tracked keeps its value and position, and
   * afterwards every found name is tracked.
   */
  function Merge(units: seq<Unit>, listing: seq<DirItem>): (r: seq<Unit>)
    ensures units <= r
    ensures Keys(r) == Keys(units) + Found(listing)
    decreases |listing|
  {
    if listing == [] then units
    else
      var next := Admit(units, listing[0]);
      var r := Merge(next, listing[1..]);
      FoundCons(listing);
      PrefixTransitive(units, next, r);
      r
  }

  lemma PrefixTransitive(a: seq<Unit>, b: seq<Unit>, c: seq<Unit>)
    requires a <= b && b <= c
    ensures a <= c
  {
    assert c[..|a|] == b[..|a|];
  }

  /** One iteration of the scan loop. */
  function Admit(units: seq<Unit>, item: DirItem): (r: seq<Unit>)
    ensures units <= r
    ensures Keys(r) == Keys(units) + (if IsCandidate(item) then {item.name} else {})
  {
    if IsCandidate(item) && item.name !in Keys(units) then
      KeysAppend(units, Discovered(item.name));
      units + [Discovered(item.name)]
    else units
  }

  /** Everything the scan appends is a fresh, found name entered as pending under its repos path. */
  lemma {:induction false} MergeAppendsDiscovered(units: seq<Unit>, listing: seq<DirItem>, i: nat)
    requires |units| <= i < |Merge(units, listing)|
    ensures Merge(units, listing)[i] == Discovered(Merge(units, listing)[i].name)
    ensures Merge(units, listing)[i].name !in Keys(units)
    ensures Merge(units, listing)[i].name in Found(listing)
    decreases |listing|
  {
    var r := Merge(units, listing);
    var next := Admit(units, listing[0]);
    FoundCons(listing);
    if i < |next| {
      assert r[i] == next[i];
    } else {
      MergeAppendsDiscovered(next, listing[1..], i);
    }
  }

  /** The scan appends names in the order of their first appearance in the listing. */
  lemma {:induction false} MergeKeepsListingOrder(units: seq<Unit>, listing: seq<DirItem>, i: nat, j: nat)
    requires |units| <= i < j < |Merge(units, listing)|
    ensures FirstSeen(listing, Merge(units, listing)[i].name) < FirstSeen(listing, Merge(units, listing)[j].name)
    decreases |listing|
  {
    if listing == [] {
      assert false;
    } else {
      var item := listing[0];
      var next := Admit(units, item);
      MergeUnfold(units, listing);
      var r := Merge(next, listing[1..]);
      MergeAppendsDiscovered(next, listing[1..], j);
      FirstSeenSkip(listing, next, r[j].name);
      if i < |next| {
        assert r[i] == next[i];
        AdmitAppends(units, item);
        assert i == |units|;
        assert FirstSeen(listing, r[i].name) == 0;
      } else {
        MergeAppendsDiscovered(next, listing[1..], i);
        FirstSeenSkip(listing, next, r[i].name);
        MergeKeepsListingOrder(next, listing[1..], i, j);
      }
    }
  }

  lemma MergeUnfold(units: seq<Unit>, listing: seq<DirItem>)
    requires listing != []
    ensures Merge(units, listing) == Merge(Admit(units, listing[0]), listing[1..])
  {
  }

  /** A name that the head of the listing has already made a key is first seen further on. */
  lemma FirstSeenSkip(listing: seq<DirItem>, next: seq<Unit>, n: string)
    requires listing != []
    requires IsCandidate(listing[0]) ==> listing[0].name in Keys(next)
    requires n !in Keys(next)
    ensures FirstSeen(listing, n) == 1 + FirstSeen(listing[1..], n)
  {
  }

  /** When one iteration grows the manifest, it appended the head of the listing. */
  lemma AdmitAppends(units: seq<Unit>, item: DirItem)
    requires |Admit(units, item)| > |units|
    ensures Admit(units, item)[|units|].name == item.name
    ensures IsCandidate(item)
  {
  }

  /** The scan keeps names unique. */
  lemma MergeKeepsUnique(units: seq<Unit>, listing: seq<DirItem>)
    requires UniqueNames(units)
    ensures UniqueNames(Merge(units, listing))
  {
    var r := Merge(units, listing);
    forall i, j | 0 <= i < j < |r| ensures r[i].name != r[j].name {
      if j < |units| {
        assert r[i] == units[i] && r[j] == units[j];
      } else if i < |units| {
        assert r[i] == units[i];
        MergeAppendsDiscovered(units, listing, j);
      } else {
        MergeKeepsListingOrder(units, listing, i, j);
      }
    }
  }

  /** One scan step that admits a new candidate. */
  lemma MergeAdmits(units: seq<Unit>, listing: seq<DirItem>)
    requires listing != [] && IsCandidate(listing[0]) && listing[0].name !in Keys(units)
    ensures Merge(units, listing) == Merge(units + [Discovered(listing[0].name)], listing[1..])
  {
  }

  /** The pairs a listing contributes when all of it is new. */
  function Arrivals(listing: seq<DirItem>): (r: seq<Unit>)
    ensures |r| == |listing|
  {
    seq(|listing|, i requires 0 <= i < |listing| => Discovered(listing[i].name))
  }

  /** Every item of the listing is a candidate not tracked in `units`. */
  predicate AllFresh(units: seq<Unit>, listing: seq<DirItem>)
  {
    forall i :: 0 <= i < |listing| ==> IsCandidate(listing[i]) && listing[i].name !in Keys(units)
  }

  /** No two items of the listing share a name. */
  predicate DistinctItems(listing: seq<DirItem>)
  {
    forall i, j :: 0 <= i < j < |listing| ==> listing[i].name != listing[j].name
  }

  /**
   * A listing of candidates with distinct names, none of them tracked yet, is
   * appended whole, in listing order.
   */
  lemma {:induction false} MergeFreshListing(units: seq<Unit>, listing: seq<DirItem>)
    requires AllFresh(units, listing) && DistinctItems(listing)
    ensures Merge(units, listing) == units + Arrivals(listing)
    decreases |listing|
  {
    if listing == [] {
      assert units + Arrivals(listing) == units;
    } else {
      var d := Discovered(listing[0].name);
      MergeAdmits(units, listing);
      FreshTail(units, listing);
      MergeFreshListing(units + [d], listing[1..]);
      ArrivalsCons(listing);
    }
  }

  lemma FreshTail(units: seq<Unit>, listing: seq<DirItem>)
    requires listing != [] && AllFresh(units, listing) && DistinctItems(listing)
    ensures AllFresh(units + [Discovered(listing[0].name)], listing[1..]) && DistinctItems(listing[1..])
  {
    var d := Discovered(listing[0].name);
    KeysAppend(units, d);
    var tail := listing[1..];
    forall i | 0 <= i < |tail|
      ensures IsCandidate(tail[i]) && tail[i].name !in Keys(units + [d])
    {
      assert tail[i] == listing[i + 1];
    }
  }

  lemma ArrivalsCons(listing: seq<DirItem>)
    requires listing != []
    ensures [Discovered(listing[0].name)] + Arrivals(listing[1..]) == Arrivals(listing)
  {
  }

  /** A scan that finds nothing new leaves the manifest as it was. */
  lemma MergeNothingNew(units: seq<Unit>, listing: seq<DirItem>)
    requires Found(listing) <= Keys(units)
    ensures Merge(units, listing) == units
  {
    var r := Merge(units, listing);
    if |r| > |units| {
      MergeAppendsDiscovered(units, listing, |units|);
      assert false;
    }
    assert r == r[..|units|];
  }

  /** Over a manifest with unique names, the merge tracks one pair per known or found name. */
  lemma MergeCount(units: seq<Unit>, listing: seq<DirItem>)
    ensures UniqueNames(units) ==>
      UniqueNames(Merge(units, listing)) && |Merge(units, listing)| == |Keys(units) + Found(listing)|
  {
    if UniqueNames(units) {
      MergeKeepsUnique(units, listing);
      UniqueCard(Merge(units, listing));
    }
  }

  /** Why `init` stops: the repos root is missing. */
  datatype InitError = ReposMissing

  /** What a successful `init` saves and reports. */
  datatype InitReport = InitReport(manifest: Manifest, missing: set<string>, tracked: nat)

  /**
   * `init`: fails, saving nothing, when the repos root does not exist; otherwise
   * merges the listing, warns about tracked names the scan no longer finds
   * (keeping them), and reports how many frameworks are tracked.
   */
  function InitState(m: Manifest, reposExists: bool, listing: seq<DirItem>): (r: Result<InitReport, InitError>)
    ensures !reposExists <==> r == Err(ReposMissing)
    ensures r.Ok? ==> r.value.manifest.units == Merge(m.units, listing)
    ensures r.Ok? ==> r.value.missing == Keys(m.units) - Found(listing)
    ensures r.Ok? ==> Keys(m.units) <= Keys(r.value.manifest.units)
    ensures r.Ok? ==> r.value.tracked == |r.value.manifest.units|
    ensures r.Ok? && UniqueNames(m.units) ==>
      UniqueNames(r.value.manifest.units) && r.value.tracked == |Keys(m.units) + Found(listing)|
  {
    if !reposExists then Err(ReposMissing)
    else
      var units := Merge(m.units, listing);
      MergeCount(m.units, listing);
      Ok(InitReport(Manifest(units), Keys(units) - Found(listing), |units|))
  }

  /** `init` never resets or drops a tracked framework: every existing entry reads back unchanged. */
  lemma InitKeepsEntries(m: Manifest, listing: seq<DirItem>, name: string)
    requires name in Keys(m.units)
    ensures InitState(m, true, listing).Ok?
    ensures Get(InitState(m, true, listing).value.manifest.units, name) == Get(m.units, name)
  {
    MergeKeepsGet(m.units, listing, name);
    assert InitState(m, true, listing).value.manifest.units == Merge(m.units, listing);
  }

  lemma MergeKeepsGet(units: seq<Unit>, listing: seq<DirItem>, name: string)
    requires name in Keys(units)
    ensures Get(Merge(units, listing), name) == Get(units, name)
  {
    var r := Merge(units, listing);
    assert r == units + r[|units|..];
    GetPrefix(units, r[|units|..], name);
  }

  /** Running `init` a second time over the same listing changes nothing and reports the same. */
  lemma InitIdempotent(m: Manifest, listing: seq<DirItem>)
    ensures InitState(m, true, listing).Ok?
    ensures var once := InitState(m, true, listing).value;
            InitState(once.manifest, true, listing) == Ok(once)
  {
    var once := InitState(m, true, listing).value;
    MergeNothingNew(once.manifest.units, listing);
  }
}
