# Job-state coordinator of the framework-analysis pipeline, in Dafny

This project models `scripts/state_manager.py`, the coordinator that tracks which
frameworks an external driver has analysed. The coordinator keeps a manifest
mapping each framework name to a status (`pending`, `in_progress`, `completed` or
`failed`) and a source path. It offers five commands, each one load → transform → save step:

- `init` merges the listing of the `repos` directory into the manifest;
- `next --limit N` hands out up to N pending names in discovery order;
- `mark <name> <status>` validates and overwrites one status;
- `status` prints every framework and its status, sorted by name;
- `reset-running` returns every in-progress framework to pending and deletes its
  partial output directory.

The manifest is an immutable, insertion-ordered sequence of `(name, entry)` pairs
(`Manifests.Manifest`), because `next` depends on the insertion order of the Python
dict. `UniqueNames` is the dict-key invariant, and every command preserves it. Each
command is a pure function. `Commands.Run` wires them to a `World`, which holds:

- the state file (`Absent`, `Corrupt` or `Stored(manifest)`);
- whether the repos root exists;
- its listing, as `(name, isDir)` pairs;
- the set of names that have an output directory under `forensics-output/frameworks`.

Modules, one per component: `Basics` (Option/Result), `Statuses`, `Manifests`, `Store`
(load/save), `Discovery` (`init`), `Batches` (`next`), `Mutator` (`mark`), `Reporter`
(`status`), `Recovery` (`reset-running`), `Commands` (the command surface and a worked scenario).

Three behaviours of the code worth noting:
- `save_manifest` is a plain overwrite, not an atomic temporary-file-and-rename.
  In the model, `Save` simply replaces the stored manifest.
- `next` accepts any integer limit, not only a positive one. A negative limit takes
  Python's slice `pending[:limit]`, which drops that many names from the end, and
  `Batches.Slice` models that.
- A `reset-running` run and a successful `init` always save, even when nothing
  changed. So they turn an unreadable state file into a stored one.

## Model

| member | source | states |
|---|---|---|
| Statuses.Value | scripts/state_manager.py:15-19 | each status is stored as a non-empty lower-case snake_case word |
| Statuses.ValueInjective | scripts/state_manager.py:15-19 | distinct statuses are stored as distinct strings |
| Statuses.Parse | scripts/state_manager.py:91 | a status string is accepted exactly when it is the spelling of one of the four enum values, and the accepted value spells back to the input |
| Statuses.ParseInverse | scripts/state_manager.py:15-19 | parsing and spelling are inverse in both directions for every status |
| Store.Load | scripts/state_manager.py:25-31 | a stored manifest loads as itself; a missing or unparsable file loads as an empty manifest |
| Store.Save | scripts/state_manager.py:33-35 | what is saved loads back as the same manifest |
| Discovery.Merge | scripts/state_manager.py:46-55 | the scan keeps every existing pair in place as a prefix, and afterwards the tracked names are the old names plus every non-hidden directory found |
| Discovery.MergeAppendsDiscovered | scripts/state_manager.py:49-55 | every appended pair is a found name that was not tracked, entered as pending with path `repos/<name>` |
| Discovery.MergeKeepsListingOrder | scripts/state_manager.py:48-52 | appended names follow the order of their first appearance in the listing |
| Discovery.MergeFreshListing | scripts/state_manager.py:48-55 | a listing of distinct, untracked directories is appended whole, each as pending, in listing order |
| Discovery.MergeKeepsUnique | scripts/state_manager.py:51 | the scan never creates a duplicate name |
| Discovery.MergeNothingNew | scripts/state_manager.py:51 | when every found name is already tracked, the scan changes nothing |
| Discovery.MergeCount | scripts/state_manager.py:64 | with unique names, the number tracked after the scan is the size of old names united with found names |
| Discovery.InitState | scripts/state_manager.py:37-64 | fails exactly when the repos root is missing; otherwise the merged manifest keeps every old name, warns about exactly the tracked names not found, and reports the number tracked |
| Discovery.InitKeepsEntries | scripts/state_manager.py:57-61 | a tracked name keeps its status and path through `init`, even when the scan no longer finds it |
| Discovery.InitIdempotent | scripts/state_manager.py:48-55 | a second `init` over the same listing returns the same manifest, warning and count |
| Manifests.NamesWithMember | scripts/state_manager.py:78-80 | with unique names, a name is selected for a status exactly when its entry has that status |
| Manifests.NamesWithAppend | scripts/state_manager.py:78 | selection by status distributes over concatenation, so it keeps manifest order |
| Batches.Slice | scripts/state_manager.py:82 | Python's `s[:limit]`: a prefix of `s`; for a non-negative limit, of length `min(limit, len(s))`; for a negative limit, `len(s) + limit` names when that is positive and none otherwise |
| Batches.NextBatch | scripts/state_manager.py:66-82 | the batch is a prefix of the pending names in manifest order; for a non-negative limit it has at most `limit` names, exactly `limit` when enough are pending, and all of them when fewer are; a negative limit drops that many names from the end, leaving none when it reaches the count; every name in it is pending |
| Batches.GetNextBatch | scripts/state_manager.py:78-82 | the collecting loop followed by the slice computes that batch |
| Mutator.MarkStatus | scripts/state_manager.py:84-96 | an unknown name fails first, then an invalid status fails; success needs both checks; on success only the named entry's status changes, its path and every other entry read back unchanged, whatever the previous status |
| Mutator.SetStatusGet | scripts/state_manager.py:95 | overwriting a status keeps the key set, and changes the lookup of that name alone |
| Mutator.MarkInPlace | scripts/state_manager.py:95 | a successful `mark` keeps every pair's position, name and path, and leaves the other pairs equal |
| Reporter.Sort | scripts/state_manager.py:110 | the sorted rows are ordered by name under Python's string order and are a permutation of the input; distinct names stay distinct |
| Reporter.ShowStatus | scripts/state_manager.py:99-111 | the "nothing tracked" note appears exactly for an empty manifest; otherwise one row per pair, as a permutation of the manifest's rows, strictly ascending by name when names are unique |
| Reporter.ReportRows | scripts/state_manager.py:110-111 | the report contains the row (name, status) exactly when the manifest holds that name with that status |
| Reporter.ReportIgnoresOrder | scripts/state_manager.py:110 | two manifests with the same entries in different orders give the same report |
| Reporter.StrictlySortedUnique | scripts/state_manager.py:110 | two strictly sorted row sequences with the same rows are equal, so the sorted report is unique |
| Reporter.BelowIsLexicographic | scripts/state_manager.py:110 | the string order used for sorting is Python's: `a` sorts first exactly when it is a proper prefix of `b`, or has the smaller code point at the first position where they differ |
| Reporter.BelowTransitive | scripts/state_manager.py:110 | Python's string order is transitive |
| Reporter.BelowTotal | scripts/state_manager.py:110 | any two different strings are ordered one way or the other |
| Recovery.ResetInProgress | scripts/state_manager.py:113-132 | the sweep makes exactly the in-progress entries pending and keeps positions, names, paths and other entries; the count is the number that were in progress; none is in progress afterwards; exactly the swept names with an output directory are cleaned, and only their directories go |
| Recovery.SweepFirstOnly | scripts/state_manager.py:113-132 | when only the first unit is in progress and its output exists, the sweep resets that unit alone, reports one, and removes only its output |
| Recovery.ResetTwice | scripts/state_manager.py:119-121 | a second sweep resets nothing, cleans nothing and changes nothing |
| Recovery.ResetNothingInProgress | scripts/state_manager.py:119-132 | with nothing in progress the sweep reports zero and leaves the entries and directories as they were |
| Commands.Run | scripts/state_manager.py:134-164 | failing commands and `next`/`status` leave the world unchanged; `init` fails exactly when the repos root is missing; only `reset-running` removes output directories |
| Commands.RunKeepsUniqueNames | scripts/state_manager.py:153-164 | every command keeps manifest names unique |
| Commands.MarkedInProgressNotHandedOut | scripts/state_manager.py:78-82 | the batch taken right after marking a name in progress does not contain it, whether the mark succeeded or failed on an untracked name |
| Commands.CorruptStateShowsNothing | scripts/state_manager.py:28-31 | with an unparsable state file, `status` reports that nothing is tracked |
| Commands.InitOverCorruptState | scripts/state_manager.py:39-55 | `init` over an unparsable state file rebuilds the manifest from the listing alone, all pending |
| Commands.ScenarioInit | scripts/state_manager.py:37-64 | discovering a, b and c tracks all three as pending, with no warning |
| Commands.ScenarioDispatch | scripts/state_manager.py:84-96 | marking a in progress changes only a |
| Commands.ScenarioNext | scripts/state_manager.py:66-82 | with a in progress, a batch of two is b, c |
| Commands.ScenarioComplete | scripts/state_manager.py:84-96 | marking b completed changes only b |
| Commands.ScenarioFail | scripts/state_manager.py:84-96 | marking c failed changes only c |
| Commands.ScenarioRecover | scripts/state_manager.py:113-132 | the sweep resets a alone, removes a's output and reports one reset |
| Commands.ScenarioShow | scripts/state_manager.py:99-111 | the report reads a pending, b completed, c failed |

## Left out

- `scripts/agents/*.py` (prompt templating by string concatenation) is not part of this model.
- JSON encoding and decoding, and the file reads and writes, are left out. A stored manifest is held as a value.
- A state file whose shape the model's types cannot hold is left out: one that is not an object with a `frameworks` object, or one with an entry lacking a `status` string or a `path` string. Depending on the command, the source then raises a `KeyError`, `TypeError` or `AttributeError`, or carries on: with `{"frameworks": []}`, `status` prints the "nothing tracked" note (lines 104-106) and `mark` reports the name as not found (lines 87-89), while `next`, `reset-running` and `init` raise (lines 78, 119, 52 and 58); an entry without `path` works in every command, since `path` is only written (line 54), and one without `status` raises only in `next`, `status` and `reset-running` (lines 79, 111, 120).
- A stored status outside the four values is left out. The source accepts it: `next` never hands it out (line 79), `reset-running` never resets it (line 120), `status` prints it as it is (line 111), `mark` overwrites it (line 95) and `init` never reads it. The model's closed `Status` type cannot hold such a string.
- A read error other than `JSONDecodeError` (for example, invalid UTF-8) is left out. The source does not catch it.
- The directory scan (`iterdir`) becomes an input listing, and existence of the root becomes a boolean. The order in which `iterdir` yields entries is whatever the listing says.
- `shutil.rmtree` becomes removal of the name from the set of names with output directories. The files inside are not modelled.
- Recovery.ResetInProgress: always succeeds. In the source, `fw_dir.exists()` (line 125) also holds for a regular file or a symlink at `forensics-output/frameworks/<name>`; then `shutil.rmtree` (line 126) raises and aborts the sweep before `save_manifest` (line 131), leaving the directories already removed for earlier frameworks gone while the manifest still has them in progress. The model's output set holds only directories, so it cannot express that failure.
- Discovery.InitState: fails only when the repos root is missing. In the source, `iterdir` (line 48) raises when `repos` exists but is not a directory; a boolean for the root's existence cannot express that case.
- Printing is left out: the warning text, the table layout, and the space-joined batch. The warning's name set, the counts and the rows are modelled.
- `argparse` wiring and exit codes are left out. The `choices` check at line 145 rejects an invalid status before `mark_status` runs. The model keeps the check that `mark_status` does itself.
- `mark_status` stores the raw status string, not the enum member. Both serialise to the same JSON string, so the model stores the parsed `Status`.
- Python's string order is modelled as code-point order on `seq<char>`. `sorted` compares items as tuples, and since names are unique, only names decide the order.
- Concurrency and atomicity are left out. The source has no locking, and each command is one sequential load–mutate–save.
