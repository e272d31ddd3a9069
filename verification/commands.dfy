/**
 * The command surface: each command loads the manifest and transforms it once;
 * `init`, a successful `mark` and `reset-running` save it whole. The filesystem the commands see is a parameter.
 */
module Commands {
  import opened Basics
  import opened Statuses
  import opened Manifests
  import opened Store
  import opened Discovery
  import opened Batches
  import opened Mutator
  import opened Reporter
  import opened Recovery

  /**
   * Everything a command can observe or change: the state file, whether the repos
   * root exists, its listing, and the names that have an output directory.
   */
  datatype World = World(state: StateFile, reposExists: bool, listing: seq<DirItem>, outputs: set<string>)

  /** The five subcommands. */
  datatype Command = Init | Next(limit: int) | Mark(name: string, status: string) | Show | ResetRunning

  /** What a command reports. */
  datatype Output =
    | Initialized(missing: set<string>, tracked: nat)
    | InitFailed(initError: InitError)
    | Batch(names: seq<string>)
    | Marked(name: string, status: Status)
    | MarkFailed(markError: MarkError)
    | Shown(report: Report)
    | Reset(count: nat, cleaned: seq<string>)

  /**
   * One invocation. A failing command saves nothing; `next` and `status` only read;
   * the repos listing is never changed, and only `reset-running` removes output directories.
   */
  function Run(w: World, c: Command): (r: (World, Output))
    ensures c.Next? || c.Show? ==> r.0 == w
    ensures r.1.InitFailed? || r.1.MarkFailed? ==> r.0 == w
    ensures r.1.InitFailed? <==> c.Init? && !w.reposExists
    ensures r.0.reposExists == w.reposExists && r.0.listing == w.listing
    ensures r.0.outputs <= w.outputs
    ensures !c.ResetRunning? ==> r.0.outputs == w.outputs
    ensures r.0.state != w.state ==> r.0.state.Stored?
  {
    var m := Load(w.state);
    match c
    case Init =>
      (match InitState(m, w.reposExists, w.listing)
       case Err(e) => (w, InitFailed(e))
       case Ok(report) => (w.(state := Save(report.manifest)), Initialized(report.missing, report.tracked)))
    case Next(limit) => (w, Batch(NextBatch(m, limit)))
    case Mark(name, status) =>
      (match MarkStatus(m, name, status)
       case Err(e) => (w, MarkFailed(e))
       case Ok(m') => (w.(state := Save(m')), Marked(name, Parse(status).value)))
    case Show => (w, Shown(ShowStatus(m)))
    case ResetRunning =>
      var sweep := ResetInProgress(m.units, w.outputs);
      (w.(state := Save(Manifest(sweep.units)), outputs := sweep.outputs), Reset(sweep.count, sweep.cleaned))
  }

  /** The manifest a world's state file loads as. */
  function Tracked(w: World): Manifest
  {
    Load(w.state)
  }

  /** Every command keeps the manifest's names unique, as the keys of a mapping. */
  lemma RunKeepsUniqueNames(w: World, c: Command)
    requires UniqueNames(Tracked(w).units)
    ensures UniqueNames(Tracked(Run(w, c).0).units)
  {
    var m := Tracked(w);
    match c
    case Init =>
      MergeCount(m.units, w.listing);
    case Mark(name, status) =>
      if MarkStatus(m, name, status).Ok? {
        var m' := MarkStatus(m, name, status).value;
        forall i | 0 <= i < |m.units| ensures m'.units[i].name == m.units[i].name {
          MarkInPlace(m, name, status, i);
        }
      }
    case ResetRunning =>
    case Next(_) =>
    case Show =>
  }

  /** The batch taken right after marking a framework in progress does not contain it. */
  lemma MarkedInProgressNotHandedOut(w: World, name: string, limit: int)
    requires UniqueNames(Tracked(w).units)
    ensures var w' := Run(w, Mark(name, "in_progress")).0;
            name !in Run(w', Next(limit)).1.names
  {
    var w' := Run(w, Mark(name, "in_progress")).0;
    RunKeepsUniqueNames(w, Mark(name, "in_progress"));
    var batch := NextBatch(Tracked(w'), limit);
    if name in Keys(Tracked(w).units) {
      assert Get(Tracked(w').units, name) == Some(Entry(InProgress, Get(Tracked(w).units, name).value.path));
      assert name !in batch;
    } else {
      assert w' == w;
      assert name in batch ==> name in NamesWith(Tracked(w).units, Pending);
      assert name !in batch;
    }
  }

  /** An unreadable state file behaves as an empty manifest: `status` reports nothing tracked. */
  lemma CorruptStateShowsNothing(w: World)
    requires w.state == Corrupt
    ensures Run(w, Show).1 == Shown(NoFrameworks)
  {
  }

  /**
   * `init` over an unreadable state file rebuilds the manifest from the listing alone,
   * every found framework pending: the earlier history is lost.
   */
  lemma InitOverCorruptState(w: World)
    requires w.state == Corrupt && w.reposExists
    ensures Tracked(Run(w, Init).0).units == Merge([], w.listing)
    ensures forall i :: 0 <= i < |Tracked(Run(w, Init).0).units| ==>
      Tracked(Run(w, Init).0).units[i].entry.status == Pending
  {
    var units := Merge([], w.listing);
    forall i | 0 <= i < |units| ensures units[i].entry.status == Pending {
      MergeAppendsDiscovered([], w.listing, i);
    }
  }

  /*
   * The worked scenario: frameworks a, b and c are discovered; a is dispatched, so the
   * next two are b and c; b completes and c fails; the sweep returns a to pending and
   * removes its partial output; the report lists a, b and c with their statuses.
   * Each lemma below is one command of it, from one stage to the next.
   */

  const ScenarioListing := [DirItem("a", true), DirItem("b", true), DirItem("c", true)]

  /** A stage of the scenario: the saved manifest and the output directories left. */
  function Stage(units: seq<Unit>, outputs: set<string>): World
  {
    World(Stored(Manifest(units)), true, ScenarioListing, outputs)
  }

  lemma ScenarioInit()
    ensures Run(World(Absent, true, ScenarioListing, {"a"}), Init)
         == (Stage([Discovered("a"), Discovered("b"), Discovered("c")], {"a"}), Initialized({}, 3))
  {
    ScenarioInitState();
    var w := World(Absent, true, ScenarioListing, {"a"});
    assert Load(w.state) == Manifest([]);
  }

  lemma ScenarioInitState()
    ensures InitState(Manifest([]), true, ScenarioListing)
         == Ok(InitReport(Manifest([Discovered("a"), Discovered("b"), Discovered("c")]), {}, 3))
  {
    ScenarioDiscovery();
    KeysEmpty([]);
    var r := InitState(Manifest([]), true, ScenarioListing);
    assert r.value.missing == {};
  }

  lemma ScenarioDispatch()
    ensures Run(Stage([Discovered("a"), Discovered("b"), Discovered("c")], {"a"}), Mark("a", "in_progress")).0
         == Stage([Unit("a", Entry(InProgress, "repos/a")), Discovered("b"), Discovered("c")], {"a"})
  {
    var a, b, c := Discovered("a"), Discovered("b"), Discovered("c");
    assert "in_progress" == Value(InProgress);
    ScenarioMark([a, b, c], "a", InProgress, [Unit("a", Entry(InProgress, "repos/a")), b, c]);
    RunMark([a, b, c], {"a"}, "a", "in_progress", [Unit("a", Entry(InProgress, "repos/a")), b, c]);
  }

  lemma ScenarioNext()
    ensures Run(Stage([Unit("a", Entry(InProgress, "repos/a")), Discovered("b"), Discovered("c")], {"a"}), Next(2)).1
         == Batch(["b", "c"])
  {
    var units := [Unit("a", Entry(InProgress, "repos/a")), Discovered("b"), Discovered("c")];
    assert units[1..][1..][1..] == [];
    assert NamesWith(units, Pending) == ["b", "c"];
    RunNext(Stage(units, {"a"}), 2);
  }

  lemma RunNext(w: World, limit: int)
    ensures Run(w, Next(limit)).1 == Batch(NextBatch(Load(w.state), limit))
  {
  }

  lemma ScenarioComplete()
    ensures Run(Stage([Unit("a", Entry(InProgress, "repos/a")), Discovered("b"), Discovered("c")], {"a"}),
                Mark("b", "completed")).0
         == Stage([Unit("a", Entry(InProgress, "repos/a")), Unit("b", Entry(Completed, "repos/b")), Discovered("c")], {"a"})
  {
    var a', b, c := Unit("a", Entry(InProgress, "repos/a")), Discovered("b"), Discovered("c");
    assert "completed" == Value(Completed);
    ScenarioMark([a', b, c], "b", Completed, [a', Unit("b", Entry(Completed, "repos/b")), c]);
    RunMark([a', b, c], {"a"}, "b", "completed", [a', Unit("b", Entry(Completed, "repos/b")), c]);
  }

  lemma ScenarioFail()
    ensures Run(Stage([Unit("a", Entry(InProgress, "repos/a")), Unit("b", Entry(Completed, "repos/b")), Discovered("c")], {"a"}),
                Mark("c", "failed")).0
         == Stage([Unit("a", Entry(InProgress, "repos/a")), Unit("b", Entry(Completed, "repos/b")),
                   Unit("c", Entry(Failed, "repos/c"))], {"a"})
  {
    var a', b', c := Unit("a", Entry(InProgress, "repos/a")), Unit("b", Entry(Completed, "repos/b")), Discovered("c");
    assert "failed" == Value(Failed);
    ScenarioMark([a', b', c], "c", Failed, [a', b', Unit("c", Entry(Failed, "repos/c"))]);
    RunMark([a', b', c], {"a"}, "c", "failed", [a', b', Unit("c", Entry(Failed, "repos/c"))]);
  }

  lemma ScenarioRecover()
    ensures Run(Stage([Unit("a", Entry(InProgress, "repos/a")), Unit("b", Entry(Completed, "repos/b")),
                       Unit("c", Entry(Failed, "repos/c"))], {"a"}), ResetRunning)
         == (Stage([Discovered("a"), Unit("b", Entry(Completed, "repos/b")), Unit("c", Entry(Failed, "repos/c"))], {}),
             Reset(1, ["a"]))
  {
    ScenarioSweep();
    RunReset(BeforeSweep, {"a"});
  }

  lemma RunMark(units: seq<Unit>, outputs: set<string>, name: string, status: string, expected: seq<Unit>)
    requires MarkStatus(Manifest(units), name, status) == Ok(Manifest(expected))
    ensures Run(Stage(units, outputs), Mark(name, status)).0 == Stage(expected, outputs)
  {
  }

  lemma RunReset(units: seq<Unit>, outputs: set<string>)
    ensures var sweep := ResetInProgress(units, outputs);
      Run(Stage(units, outputs), ResetRunning) == (Stage(sweep.units, sweep.outputs), Reset(sweep.count, sweep.cleaned))
  {
  }

  lemma ScenarioShow()
    ensures Run(Stage([Discovered("a"), Unit("b", Entry(Completed, "repos/b")), Unit("c", Entry(Failed, "repos/c"))], {}), Show).1
         == Shown(Table([("a", Pending), ("b", Completed), ("c", Failed)]))
  {
    ScenarioReport();
    var w := Stage(AfterSweep, {});
    assert Load(w.state) == Manifest(AfterSweep);
    RunShow(w);
  }

  lemma RunShow(w: World)
    ensures Run(w, Show) == (w, Shown(ShowStatus(Load(w.state))))
  {
  }

  lemma ScenarioDiscovery()
    ensures Merge([], ScenarioListing) == [Discovered("a"), Discovered("b"), Discovered("c")]
  {
    ScenarioListingFresh();
    MergeFreshListing([], ScenarioListing);
    ScenarioArrivals();
  }

  lemma ScenarioListingFresh()
    ensures AllFresh([], ScenarioListing) && DistinctItems(ScenarioListing)
  {
    KeysEmpty([]);
  }

  lemma ScenarioArrivals()
    ensures [] + Arrivals(ScenarioListing) == [Discovered("a"), Discovered("b"), Discovered("c")]
  {
  }

  lemma ScenarioMark(units: seq<Unit>, name: string, s: Status, expected: seq<Unit>)
    requires |units| == |expected| == 3
    requires forall i :: 0 <= i < 3 && units[i].name != name ==> expected[i] == units[i]
    requires forall i :: 0 <= i < 3 && units[i].name == name ==> expected[i] == Unit(name, Entry(s, units[i].entry.path))
    requires name in Keys(units)
    ensures MarkStatus(Manifest(units), name, Value(s)) == Ok(Manifest(expected))
  {
    ParseInverse(Value(s), s);
    forall i | 0 <= i < 3 ensures SetStatus(units, name, s)[i] == expected[i] {
      SetStatusInPlace(units, name, s, i);
    }
    assert SetStatus(units, name, s) == expected;
  }

  /** The manifest of the scenario before the sweep: a in progress, b completed, c failed. */
  const BeforeSweep := [Unit("a", Entry(InProgress, "repos/a")), Unit("b", Entry(Completed, "repos/b")),
                        Unit("c", Entry(Failed, "repos/c"))]

  /** The manifest of the scenario after the sweep: a back to pending. */
  const AfterSweep := [Discovered("a"), Unit("b", Entry(Completed, "repos/b")), Unit("c", Entry(Failed, "repos/c"))]

  lemma ScenarioSweep()
    ensures ResetInProgress(BeforeSweep, {"a"}) == Sweep(AfterSweep, 1, ["a"], {})
  {
    var units := BeforeSweep;
    var rest := [units[1], units[2]];
    assert units == [units[0]] + rest;
    SweepFirstOnly(units[0], rest, {"a"});
    assert {"a"} - {"a"} == {};
    assert Recover(units[0]) == Discovered("a");
  }

  lemma ScenarioReport()
    ensures ShowStatus(Manifest(AfterSweep)) == Table([("a", Pending), ("b", Completed), ("c", Failed)])
  {
    assert Below("a", "b") && Below("b", "c") && Below("a", "c");
    assert Rows(AfterSweep) == [("a", Pending), ("b", Completed), ("c", Failed)];
  }

}
