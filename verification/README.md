# Verification of the repository's checkers, recorder and hardware guards

The repository drives robots through language-model agents. Around the robots stand several pieces of code with a
precise job: scripts that refuse a pull request, the lock that keeps two threads off one motor bus, the recorder that
writes training data, the labels that decide what is trained on, and the one-shot grants that let a human approve a
motion. This project models those pieces in Dafny and proves what they promise, for every input and every run, and where
a promise fails it proves exactly when.

| file | models | main results |
|---|---|---|
| `Digraph`, `Tarjan`, `ImportLayers` | the iterative Tarjan search of the import-layer check | `Cycles` returns exactly the strong components of more than one node |
| `Layering` | the layer table and the verdict | the exit status, as an if-and-only-if; layers never rise along imports |
| `Trees`, `CompareRange` | recovering a capped diff by halves, commit after commit | nothing in the net diff is missed, in at most 2n - 1 requests |
| `CompareMerges`, `SplitEnds`, `MergedRanges` | the same where commits have any number of parents | exactly when nothing is missed, and exactly when a read ends |
| `OrphanedRoles` | the grep-narrowed search for dead docstring roles | it agrees with reading every file, except for one kind of role, exactly named |
| `Changelog`, `ChangelogSeam`, `ChangelogApply`, `ChangelogGuard` | folding fragments into the log, and the check on it | the folded log line for line; entries are conserved; the check names exactly what was written by hand |
| `LockfileParity` | self-referencing extras and the comparison | a visited set per path computes the transitive closure; the grouped findings lose nothing |
| `BusAccess`, `BusReentry`, `BusOpening` | the motor-bus lock and `ensure_bus_open`, as any number of threads | one lock per device, one thread inside, every opening told once; what a re-entering call can wait for, and what a call left alone does |
| `Paths`, `PathExpressions`, `GraderBindings` | the small abstract interpreter for path expressions | sound against an evaluator, across the three passes |
| `BindingPasses` | which names repeated passes bind | exactly those reached in order; in every order, exactly those few enough definitions deep |
| `WalkScopes`, `WrongWalks`, `AreaLoops` | where a walk inside functions, or in a loop over areas, is taken to go | exactly when that is where it goes, at every moment |
| `CameraColumns`, `DatasetRecorder`, `Recording` | one frame, and the life of a recorder | every handed frame carries exactly the declared cameras, and its numbers in the columns' order; the counters are the frames |
| `DatasetSource` | resolving one episode's frames through four sources | all four agree, and the scan after any failure |
| `Numerals`, `EpisodeLabels`, `LabelUse` | the label sidecar, the filter and the agreement report | no writer reaches the other's block; the baseline is the best constant judge |
| `MotionGrants` | the identity of a grant and spending it once | the key determines what the operator was shown; no grant is spent twice |
| `Order`, `Text`, `Options` | sorting, splitting, searching, optional values | |

Code that changes state or fills local variables in loops is modelled by methods and classes, each proved against a
specification; code made of expressions is modelled by functions. The N-thread lock is a state machine over atomic
steps.

## What does not hold

Eleven promises of the code or of its documentation turned out false of the code. Each has a lemma with the input that
shows it, or for which it fails, and a lemma saying exactly when the promise holds.

* **Halves of a range** (`scripts/check_merge_base_overlap.py:845-898`). A capped range is said to split at any commit
  inside it into two strictly shorter ones whose union is the whole. That is so where nothing is merged
  (`NoMergesMissesNothing`), as on a branch that only squashes. With merges the lower half can start before the range
  does, and a file the merge set back is missed (`DroppedFileIsMissed`); and the upper half can be longer, so that the
  merge of two branches is split for ever (`EndlessMerge`). Nothing is missed, whatever the files, exactly when the diffs
  read whole link the range's two ends (`ReadMissesNothingIff`). The upper half is shorter exactly when the boundary
  comes from more commits than the two ends share (`HalvesAreShorterIff`), and a read ends exactly when no range on its
  way is read again for one of its own halves (`ReadEndsIff`).
* **Narrowed role search** (`scripts/check_merge_base_overlap.py:546-568`). The documentation says a name shallower than
  two segments could never produce a finding. Deleting the package's own `strands_robots/__init__.py` orphans the role
  `strands_robots.__init__`, and the search does not see it. It agrees with the full scan exactly when no file in scope
  cites that deleted module while spelling no other deleted one (`NarrowingAgreesIff`, `BareInitIsLost`).
* **Indented heading** (`scripts/assemble_changelog.py:182` against `:226`). A fragment line equal to the Unreleased
  heading but indented passes validation, and once folded in it is a second anchor, so nothing can be folded in again
  (`OneAnchorIff`, `StrippedAnchorPasses`).
* **Camera remap** (`strands_robots/dataset_recorder.py:1500-1506`). The remap moves one stream at a time. A stream is
  lost exactly when one lands on another's new name, or on the old name of one still waiting
  (`LosslessIff`, `SwapLosesAStream`); under a swap a declared column can be given the wrong camera's image.
* **Frame counters** (`strands_robots/dataset_recorder.py:1624-1633`). They are said to describe frames that reached or
  will reach disk. After `finalize` with frames still buffered they count frames no save will write
  (`FinalizedCountIsOnDiskIff`).
* **Schema order** (`strands_robots/dataset_recorder.py:1384-1433`). The vector is meant to match the declared columns.
  A value of an unforeseen kind adds no number and a list adds all of its own, so a frame without a gap can have the
  declared width and the wrong numbers in its columns (`MisplacedColumns`). Every position holds its own column's number
  exactly when every column adds as many numbers as are declared for it (`InPlaceIff`).
* **Disputed verdicts** (`strands_robots/episode_labels.py:462-463`). `disputes_verdict` is right about the verdict that
  stands exactly when that verdict has not changed since the annotation, or no opinion was given
  (`DisputeIsCurrentIff`, `RerecordingGoesStale`).
* **Resolved paths** (`scripts/check_whole_tree_graders.py:358-369`). `Path(a, b, ...)` is read as `Path(a)`,
  `.resolve()` as doing nothing, and `x.helper()` as the module's own helper whatever `x` is. The first is right exactly
  when the later arguments name nothing or the same path (`LaterArgumentsAreDropped`), the second exactly when nothing
  goes up (`ResolveCallIsIdentityIff`), the third in every name space where the helper answers as bound exactly when `x`
  is `self` or `cls` (`ReceiverIsIgnored`). Helpers are kept by bare name: where two classes declare one of the same
  name, the last declared is read for both (`SharedHelperName`).
* **Order of declarations** (`scripts/check_whole_tree_graders.py:489-491`). Three passes are said to resolve a constant
  whatever order the module declares its names in. Of four helpers, each declared before the one it calls, the first
  stays unbound (`ThreePassesMissTheFourth`). A name is bound after so many passes exactly when as many sweeps in the
  order of the module reach it (`BoundIffReached`), and bound in every order exactly when it depends on the known names
  through no more definitions than that (`BoundInEveryOrderIff`); three passes suffice for a module exactly when a fourth
  round adds no name (`PassesSufficeIff`).
* **Rebound names** (`scripts/check_whole_tree_graders.py:742-745` against `:758-784` and `:838-848`). A name rebound
  closer to the walk is said to win, exactly as Python resolves it. The module's binding wins over it (`ModuleNameWins`);
  an outer function's wins over one that cannot be read (`OuterNameStays`); where all can be read, three passes can leave
  a name with what an outer function's value made of it (`OuterValueOutlives`); and of two assignments in one function
  the last is read for a walk before it (`EarlierValueIsWalked`). The walk is read right exactly when it reads the same
  from the names that stand for one path at every moment, each function's hiding those around it (`WalkIsRightIff`,
  `WalkOnNameIff`); no more names can be settled that way (`SettledIsLargest`).
* **Areas in part** (`scripts/check_whole_tree_graders.py:515-520` against `:550-569`). A subset of the areas is called
  the one answer worse than none. Segments are kept by variable name, so it is given when two loops share a variable and
  only one is read (`SharedVariableMisses`); and a name keeps its last literal for the whole file, so it is given for a
  loop over what the name holds after that (`EarlierSequenceStays`) or held before (`LaterSequenceIsRead`). The area
  covers every turn of every loop exactly when, at each moment they may run, all that the loops over the variable iterate
  is shown, is text, and leads where a segment that was read leads (`AreaCoversIff`); the answer in part can be given
  exactly when some segment was read and some such loop is not covered (`AnswersInPartIff`).

Where episode lengths are added up, a missing length counts as zero and nothing falls back to the scan
(`strands_robots/dataset_source.py:225-229`); `RungsAgreeIff` says exactly when that misleads.

## Model

| member | source | states |
|---|---|---|
| `ImportLayers.Cycles` | scripts/check_import_layers.py:288-342 | for every finite graph and node set the search terminates and returns exactly the strong components of more than one node of the graph restricted to the nodes, each once and sorted, the largest first |
| `ImportLayers.Scan` | scripts/check_import_layers.py:312-327 | the neighbour loop keeps the search invariant and either enters a new node or leaves the top frame with nothing pending |
| `ImportLayers.PopThrough` | scripts/check_import_layers.py:333-339 | the popping loop takes off exactly the stretch of the stack from the root up, and unmarks exactly that |
| `ImportLayers.EverythingReported` | scripts/check_import_layers.py:330-342 | when every node has been numbered and no frame is left, the reported lists are exactly the components |
| `Tarjan.RootLowIsHarmless` | scripts/check_import_layers.py:330-331 | handing a root's `low` to its parent before the pop changes nothing, because it exceeds the parent's |
| `Tarjan.RetireIsValid` | scripts/check_import_layers.py:329-331 | a finished node that is no root hands its `low` down and the invariant tying index, low, stack and work stays |
| `Tarjan.FollowIsValid` | scripts/check_import_layers.py:325-326 | lowering `low` by a stacked neighbour's number keeps the invariant |
| `Tarjan.DescendIsValid` | scripts/check_import_layers.py:317-324 | entering an unseen neighbour keeps the invariant |
| `Tarjan.SkipIsValid` | scripts/check_import_layers.py:315-316 | passing over a neighbour outside the nodes, or already reported, keeps the invariant |
| `Tarjan.PopIsValid` | scripts/check_import_layers.py:332-341 | what is popped at a root is its whole strong component, and the invariant stays |
| `Layering.UpwardEdges` | scripts/check_import_layers.py:368-383 | an import is found exactly when the second part of both names is in the table and the table gives the target's the larger number |
| `Layering.OwningModule` | scripts/check_import_layers.py:193-209 | the answer is the longest dotted prefix that is a module, or nothing when no prefix is |
| `Layering.NoneUnassignedIff` | scripts/check_import_layers.py:345-365 | no member is unassigned if and only if the second part of every module's name that has one is in the table |
| `Layering.NoComponentsMeansAcyclic` | scripts/check_import_layers.py:413-431 | the cycle list is empty exactly when no two different modules reach each other |
| `Layering.Grade` | scripts/check_import_layers.py:398-448 | the check fails unless the runtime graph is acyclic, both rosters are exactly the inversions, and every module below the root is placed; each FAIL line's list holds exactly the undeclared inversions, the stale entries, the cycles or the orphans |
| `Layering.LayersFall` | scripts/check_import_layers.py:345-383 | with an empty roster, the numbers the table gives never rise along a chain of runtime imports among placed modules |
| `Layering.ReturningPassesRoot` | scripts/check_import_layers.py:345-383 | a chain of runtime imports that leaves a layer and comes back passes through the layerless package root |
| `CompareRange.ReadsPieces` | scripts/check_merge_base_overlap.py:868-909 | a successful read is the union of complete lists of consecutive pieces of the range |
| `CompareRange.ReadIsExactEnough` | scripts/check_merge_base_overlap.py:868-909 | for a range without merges: it holds every path of the net diff, only paths some commit changed, the whole range's merge base and lag, and takes at most 2n - 1 requests for n commits |
| `CompareRange.HonestEndpointExists` | scripts/check_merge_base_overlap.py:827-865 | for any trees there is an endpoint of the assumed kind: every changed path the name or the old name of some entry, nothing else named, cut at the cap |
| `CompareRange.RefusesOnlyACappedCommit` | scripts/check_merge_base_overlap.py:898-905 | the cap error is raised only for a single commit whose own list reaches the cap, and names that commit's range |
| `CompareRange.PullRequestFileEntries` | scripts/check_merge_base_overlap.py:947-977 | the whole listing exactly when it is shorter than the ceiling, else a refusal |
| `CompareMerges.FoundIsAcross` | scripts/check_merge_base_overlap.py:868-909 | in any history, a successful read holds exactly the paths that differ across the diffs it read whole |
| `CompareMerges.ReadMissesNothingIff` | scripts/check_merge_base_overlap.py:885-909 | in any history, a successful read misses no path of the range, whatever the commits hold, if and only if those diffs link its merge base to its head |
| `CompareMerges.HalvesAreShorterIff` | scripts/check_merge_base_overlap.py:888-892 | the lower half is always shorter, the upper one if and only if the boundary comes from more commits than the two ends have in common |
| `CompareMerges.ShorterEnds` | scripts/check_merge_base_overlap.py:888-909 | where every upper half is shorter, no read nests deeper than the range has commits |
| `SplitEnds.ReadEndsIff` | scripts/check_merge_base_overlap.py:885-909 | a read ends, at whatever depth of calls, if and only if no range on its way is read again for one of its own halves |
| `SplitEnds.DescentIsDeep` | scripts/check_merge_base_overlap.py:906-908 | a chain of ranges, each a half of the one before, takes as many nested calls as it has ranges |
| `CompareMerges.NoMergesMissesNothing` | scripts/check_merge_base_overlap.py:868-909 | in a history without merges every read ends and a successful one links the range's ends |
| `CompareMerges.EndpointExists` | scripts/check_merge_base_overlap.py:815-865 | every history has an endpoint that answers truthfully |
| `MergedRanges.DroppedFileIsMissed` | scripts/check_merge_base_overlap.py:890-909 | a pull request, a base that merges a branch and drops a file, and a successful read of that base without the file, whatever truthful endpoint answers |
| `MergedRanges.UpperHalvesCircle` | scripts/check_merge_base_overlap.py:888-906 | a merge of two branches and listings of its commits under which each of two ranges has the other as its upper half, and a pull request's range one of them |
| `MergedRanges.EndlessMerge` | scripts/check_merge_base_overlap.py:868-909 | read from that pull request there is a truthful endpoint for which no depth of calls is enough |
| `OrphanedRoles.NamedModulePaths` | scripts/check_merge_base_overlap.py:507-525 | both spellings of every prefix of at least two segments, of every name, and nothing else |
| `OrphanedRoles.DottedModuleNames` | scripts/check_merge_base_overlap.py:546-568 | the dotted names of the deleted module files deep enough to be named |
| `OrphanedRoles.FilesNaming` | scripts/check_merge_base_overlap.py:597-631 | exactly the Python files in scope whose text contains one of the names |
| `OrphanedRoles.OrphanedRoles` | scripts/check_merge_base_overlap.py:634-657 | exactly the dead roles of the files that spell a deleted module |
| `OrphanedRoles.NeededFileIsSpelled` | scripts/check_merge_base_overlap.py:507-568 | every module file a role needs, the bare package's apart, has its dotted name inside the role's target |
| `OrphanedRoles.OnlyBareInitIsLost` | scripts/check_merge_base_overlap.py:546-657 | a dead role is missed exactly when it names the deleted bare `__init__` and its file spells no other deleted module |
| `OrphanedRoles.NarrowingAgreesIff` | scripts/check_merge_base_overlap.py:634-657 | the narrowed search returns the same pairs as parsing every file if and only if no role in scope is of that kind |
| `OrphanedRoles.BareInitIsLost` | scripts/check_merge_base_overlap.py:554-567 | a tree, a deletion and a role for which the two searches differ |
| `OrphanedRoles.OrphanedRoleOverlaps` | scripts/check_merge_base_overlap.py:660-685 | both directions, each restricted to the files the merge takes from that side |
| `OrphanedRoles.OverlapsAreMergedDeadRoles` | scripts/check_merge_base_overlap.py:660-685 | for every merge, the rows are exactly the roles of the merged tree needing a file the other side removed, less exactly those the narrowed search loses |
| `OrphanedRoles.BrokenByTheMerge` | scripts/check_merge_base_overlap.py:668-674 | a file lost in the merge was removed by the side the role does not come from, so no role the merge breaks goes unreported |
| `Changelog.ValidateFragment` | scripts/assemble_changelog.py:157-194 | no problem is found exactly for a valid fragment, and each problem is reported exactly when its rule is broken |
| `Changelog.ContentOfRender` | scripts/assemble_changelog.py:210-212 | rendered fragments hold exactly the inked lines of the fragments, in order |
| `Changelog.InsertIntoChangelog` | scripts/assemble_changelog.py:215-244 | nothing rendered changes nothing, any number of anchors but one is refused with that number, one anchor gives the seam |
| `Changelog.ContentOfSeam` | scripts/assemble_changelog.py:226-244 | outside the seam every inked line stays, in order; inside it is what was rendered |
| `ChangelogSeam.LinesOfSeam` | scripts/assemble_changelog.py:226-244 | line for line, blank ones too: the log up to the heading, an empty line, the rendered text, and after two more the rest of the log without the blank lines that led it or the empty ones that ended it |
| `Changelog.FragmentScansToItsEntry` | scripts/check_changelog_fragment.py:359-391 | a valid fragment, read inside the section, is its one entry, and nothing in it ends the section |
| `Changelog.EntriesAreTheSections` | scripts/check_changelog_fragment.py:359-376 | the entries of a log are the lines opening one between the first Unreleased heading and the next section heading, without their white ends and in order; a log without that heading has none |
| `Changelog.FoldedEntries` | scripts/assemble_changelog.py:210-244 | folding valid fragments in puts their entries, in order, before the entries the log had |
| `Changelog.FoldedAnchors` | scripts/assemble_changelog.py:226-228 | the folded log has one anchor more for every fragment line that strips to the heading |
| `Changelog.OneAnchorIff` | scripts/assemble_changelog.py:157-244 | the log keeps exactly one anchor if and only if no fragment line strips to the heading |
| `Changelog.StrippedAnchorPasses` | scripts/assemble_changelog.py:181-188 | a valid fragment that adds an anchor |
| `Changelog.IndentedHeadingIsAnchor` | scripts/assemble_changelog.py:182-226 | such a line exists: the heading after one space |
| `ChangelogApply.NewestFirstSorts` | scripts/assemble_changelog.py:141-142 | the order is newest number first and then by name, and it keeps the fragments and the bag of their headings |
| `ChangelogApply.CollectFragments` | scripts/assemble_changelog.py:107-142 | the sorted fragments exactly when every file is well named, else the first ill named file |
| `ChangelogApply.NameNumberIff` | scripts/assemble_changelog.py:72 | a file name has a number if and only if it is digits, a hyphen, words of digits and lower-case letters joined by hyphens, `.md` and perhaps a newline; the number is what the digits say |
| `ChangelogApply.PendingNames` | scripts/assemble_changelog.py:119-142 | the pending fragments are the directory's fragment files, each once |
| `ChangelogApply.NothingLeft` | scripts/assemble_changelog.py:276-279 | deleting the consumed fragments leaves none pending |
| `ChangelogApply.FoldConserves` | scripts/assemble_changelog.py:247-279 | the entries after the fold are the entries before it and the headings that waited, as a multiset |
| `ChangelogApply.Repository.ValidateFragments` | scripts/assemble_changelog.py:197-207 | passes exactly a directory whose every fragment is valid |
| `ChangelogApply.Repository.Apply` | scripts/assemble_changelog.py:247-279 | folds everything and deletes it, or refuses for exactly the stated reasons and changes nothing; entries plus waiting headings are the same multiset before and after |
| `ChangelogGuard.UnreleasedEntries` | scripts/check_changelog_fragment.py:359-376 | the entry headings between the Unreleased heading and the next section |
| `ChangelogGuard.ReadFragmentEntry` | scripts/check_changelog_fragment.py:379-391 | the first inked line if it is an entry heading |
| `ChangelogGuard.AccountsSplitTheAdded` | scripts/check_changelog_fragment.py:394-413 | every added entry is accounted for or not, and no heading more often than consumed fragments carry it |
| `ChangelogGuard.ConsumedAreHeadings` | scripts/check_changelog_fragment.py:515-523 | deleting exactly the fragments accounts for exactly their headings |
| `ChangelogGuard.ConsumedAreCounted` | scripts/check_changelog_fragment.py:267-288 | a heading is accounted for once by each file that carried it, is gone, and is not the documentation |
| `ChangelogGuard.Check` | scripts/check_changelog_fragment.py:502-563 | status 0 exactly when no added entry is unaccounted for and no changed fragment has a problem; the problems are exactly the changed files, neither documentation nor hidden, that the assembler would refuse |
| `ChangelogGuard.AssembleThenCheck` | scripts/check_changelog_fragment.py:394-413 | after folding every fragment in, deleting the files and adding entries by hand, the unaccounted entries are exactly those added by hand |
| `ChangelogGuard.HandWrittenEntries` | scripts/check_changelog_fragment.py:359-376 | a block of lines without a section heading, written anywhere in the Unreleased section, adds exactly its own entries |
| `ChangelogGuard.AssembleWriteThenCheck` | scripts/check_changelog_fragment.py:394-413 | fold, delete, and write a block into the folded log: the unaccounted entries are exactly the block's |
| `ChangelogGuard.ReleaseIsSilent` | scripts/check_changelog_fragment.py:515-563 | a release run and nothing else is never refused |
| `LockfileParity.CanonicalIsFixed` | scripts/check_lockfile_parity.py:148-150 | a name is left alone exactly when it is in the normal form of PEP 503 |
| `LockfileParity.RunsAreAlike` | scripts/check_lockfile_parity.py:148-150 | any run of separators is as good as any other, wherever it stands in a name |
| `LockfileParity.CaseIsIgnored` | scripts/check_lockfile_parity.py:148-150 | the case of ASCII letters makes no difference to the normal form |
| `LockfileParity.ExpandIsClosure` | scripts/check_lockfile_parity.py:239-249 | on any extras graph, cyclic or naming unknown extras, an extra expands to exactly the requirements of the extras it reaches |
| `LockfileParity.DeclaredRows` | scripts/check_lockfile_parity.py:217-272 | exactly the unconditional rows and the closure rows of every extra, each telling its extra, the normal form of the name, the extras in order and the version range |
| `LockfileParity.Compare` | scripts/check_lockfile_parity.py:331-370 | one finding for each key the two sides disagree about and none other, of the right kind and with both sides' ranges |
| `LockfileParity.FindingsAreTheDifference` | scripts/check_lockfile_parity.py:331-370 | every row on one side only can be read back out of the grouped findings, and nothing else |
| `LockfileParity.NoFindingsMeansParity` | scripts/check_lockfile_parity.py:331-370 | no finding exactly when the two sides are equal |
| `BusAccess.RunKeeps` | strands_robots/bus_access.py:78-146 | over every interleaving of any number of threads the lock table, the guard and the stacks stay consistent, and an answered lock stays answered |
| `BusAccess.OneLockPerDevice` | strands_robots/bus_access.py:78-107 | every `bus_lock` of one device answers with the same lock |
| `BusAccess.SharedOnlyByRefusers` | strands_robots/bus_access.py:97-106 | two devices share a lock only when both refuse the attribute |
| `BusAccess.OneThreadInside` | strands_robots/bus_access.py:110-226 | at most one thread is inside a device, and that device's lock never blocks that thread again |
| `BusReentry.ReentryWaitsOnlyForTheGuard` | strands_robots/bus_access.py:78-107 | a further locked call on a device its thread is inside of has a step at every moment, but while another thread holds the registry guard, which it wants only for a device that refuses the attribute |
| `BusReentry.GuardIsLetGo` | strands_robots/bus_access.py:92-107 | whoever holds the registry guard has a step, waits for no lock, and lets the guard go within four steps of its own that no other thread can lengthen |
| `BusOpening.ConnectOpensAClosedBus` | strands_robots/hardware_observe.py:139-144 | each connect finds the bus closed and is one thread's |
| `BusOpening.EveryOpeningIsLedgered` | strands_robots/hardware_observe.py:139-144 | over every interleaving, the threads that called the callback for a device are, in order and each as often, those that opened its bus from closed for a caller that wants to be told, but for one about to call it; the ledger names each exactly when no call raised |
| `BusOpening.OpeningIsTold` | strands_robots/hardware_observe.py:142-144 | over every interleaving, whoever opens a closed bus for a caller that wants to be told is about to call the callback |
| `BusOpening.ReturnsWithAnOpenBus` | strands_robots/hardware_observe.py:139-146 | over every interleaving, a call about to return had the bus open at some moment since it took the lock, unless its `connect()` raised |
| `BusOpening.CallRunsThrough` | strands_robots/bus_access.py:78-146 | a locked call nobody interferes with is over in at most twelve steps: it is given the device's lock and leaves threads, guard and locks as they were; one to open leaves the bus open and calls the callback exactly when the bus was closed and the caller wants to be told |
| `Paths.CollapsedIsSameIff` | scripts/check_whole_tree_graders.py:360-361 | resolving a path without links leaves it alone exactly when nothing in it goes up |
| `Paths.UpUndoesDown` | scripts/check_whole_tree_graders.py:360-361 | resolving drops a name followed by a way up, wherever it stands |
| `Paths.ParentUndoesJoin` | scripts/check_whole_tree_graders.py:369-391 | the parent of a path with one name joined on is the path, and its `parents` are the path and the path's |
| `Paths.ParseJoins` | scripts/check_whole_tree_graders.py:392-396 | a path text is its pieces joined by slashes: a piece is a name, empty ones and dots name nothing, and a leading slash makes the path absolute |
| `PathExpressions.CallsAreTold` | scripts/check_whole_tree_graders.py:354-368 | which calls are `Path(...)`, `.resolve()` or `.absolute()`, a module's file, or a helper's, told from the text |
| `PathExpressions.ResolveIsSound` | scripts/check_whole_tree_graders.py:339-397 | with right bindings, a regular expression that resolves and that evaluates gives the same path, or the same parents; regular leaves out only `Path` of several arguments, helpers called on other objects, and `.resolve()` after a segment that goes up |
| `PathExpressions.ModuleFileIsSound` | scripts/check_whole_tree_graders.py:400-418 | the three spellings of a module's file give the file running them gives |
| `PathExpressions.SpellingsAreRead` | scripts/check_whole_tree_graders.py:342-418 | each spelling the script says it handles does resolve, to what running it gives |
| `PathExpressions.SpelledIsClosed` | scripts/check_whole_tree_graders.py:342-348 | those spellings go on to every depth: parents, ancestors, literal segments, resolving, and `Path` of a path so spelled |
| `PathExpressions.FilesAndNamesAreSpelled` | scripts/check_whole_tree_graders.py:400-418 | and they start from a bound name, a helper called plainly or on `self` or `cls`, and `Path` of a module's file in each of its three spellings |
| `PathExpressions.EvalGrows` | scripts/check_whole_tree_graders.py:490-491 | a value an expression has keeps when further names are given values |
| `PathExpressions.LaterArgumentsAreDropped` | scripts/check_whole_tree_graders.py:358-359 | `Path` of any arguments that evaluate is read right if and only if those after the first together name nothing, or the same path from the root |
| `PathExpressions.ResolveCallIsIdentityIff` | scripts/check_whole_tree_graders.py:360-361 | `.resolve()` is read right if and only if nothing in the path goes up |
| `PathExpressions.ReceiverIsIgnored` | scripts/check_whole_tree_graders.py:362-368 | a call without arguments on any object is read as the module's helper, which is right in every agreeing name space if and only if the object is `self` or `cls`; agreeing, a helper has one answer, so each helper name is declared once |
| `GraderBindings.ReadDefinitions` | scripts/check_whole_tree_graders.py:483-509 | the three passes over the definitions |
| `GraderBindings.PassesStaySound` | scripts/check_whole_tree_graders.py:494-509 | right bindings stay right however many passes are made |
| `GraderBindings.ExecuteAssigns` | scripts/check_whole_tree_graders.py:483-509 | running a module that assigns each name once leaves every name with what its own definition evaluates to |
| `GraderBindings.ModuleReadingIsSound` | scripts/check_whole_tree_graders.py:483-509 | for such a module every binding after the passes, and every regular expression read under them, is right |
| `BindingPasses.BoundIffReached` | scripts/check_whole_tree_graders.py:494-509 | for any definitions in any order, the names bound after n passes are exactly those n sweeps in that order reach, a name joining when its value can be read from how deep the paths of the names before it are |
| `BindingPasses.RoundsWithinPasses` | scripts/check_whole_tree_graders.py:494-509 | n passes in any order bind, and bind alike, every name that depends on the known ones through at most n definitions |
| `BindingPasses.WorstOrder` | scripts/check_whole_tree_graders.py:489-509 | there is an order in which n passes bind no other name |
| `BindingPasses.BoundInEveryOrderIff` | scripts/check_whole_tree_graders.py:489-509 | a name is bound after n passes in every order of the definitions if and only if it is at most n definitions deep |
| `BindingPasses.PassesSufficeIff` | scripts/check_whole_tree_graders.py:489-509 | n passes bind in every order all that any number would if and only if one more round adds no name |
| `BindingPasses.ThreePassesMissTheFourth` | scripts/check_whole_tree_graders.py:489-494 | a module whose helpers all answer and one of which three passes leave unbound |
| `WalkScopes.EnclosingAssignments` | scripts/check_whole_tree_graders.py:722-784 | the scope extended function by function, outermost first |
| `WalkScopes.ScopedStaysSound` | scripts/check_whole_tree_graders.py:739-745 | bindings read with every function's names hiding those around it, and only the names whose every assignment reads alike, are right in the innermost function after any of its assignments, in any order and any number |
| `WalkScopes.SettledIsLargest` | scripts/check_whole_tree_graders.py:758-784 | any bindings whose every assignment reads as bound, of names the passes can read, are among those kept |
| `WalkScopes.WalkIsRightIff` | scripts/check_whole_tree_graders.py:722-848 | for any chain of functions and any walk, its reading is right in every name space agreeing with those bindings if and only if it is no reading, starts from the root, or reads the same from them |
| `WalkScopes.WalkOnNameIff` | scripts/check_whole_tree_graders.py:742-745 | for a walk on a name: if and only if the name is bound there to the path it was read as |
| `WalkScopes.WalkIsSound` | scripts/check_whole_tree_graders.py:722-848 | under that condition the walk goes where it is read to go, at whatever moment of a run of the nested functions |
| `WrongWalks.ModuleNameWins` | scripts/check_whole_tree_graders.py:838-848 | a function's own name hidden by the module's binding: the reading is wrong |
| `WrongWalks.OuterNameStays` | scripts/check_whole_tree_graders.py:779-784 | with no module binding at all, an outer function's path read for an inner name that cannot be read: wrong |
| `WrongWalks.OuterValueOutlives` | scripts/check_whole_tree_graders.py:758-784 | with every name readable, a local left by three passes with what an outer function's value made of it: wrong |
| `WrongWalks.EarlierValueIsWalked` | scripts/check_whole_tree_graders.py:758-784 | one function assigns a name twice and the walk stands between: the last assignment is read, wrongly |
| `WrongWalks.SharedHelperName` | scripts/check_whole_tree_graders.py:362-368 | two classes declare a helper of one name: the first's call is read as the second's answer |
| `AreaLoops.SegmentBindings` | scripts/check_whole_tree_graders.py:537-569 | a loop variable has a segment exactly when some loop over it is read as giving it |
| `AreaLoops.AreaPathsAreReached` | scripts/check_whole_tree_graders.py:572-599 | the area's paths are exactly those the segments read for the variable lead to |
| `AreaLoops.CompleteIsCovered` | scripts/check_whole_tree_graders.py:550-569 | a loop that runs only once the module is complete, over a literal or a module's name holding one, is covered |
| `AreaLoops.AreaCoversIff` | scripts/check_whole_tree_graders.py:512-599 | in every run every turn of every loop over the variable lands in the area if and only if at each moment they may run all they iterate is shown, is text, and leads where a segment read for the variable leads |
| `AreaLoops.RunIsCoveredIff` | scripts/check_whole_tree_graders.py:512-599 | in one run they all land if and only if the values of the loops not covered stay in the area |
| `AreaLoops.AnswersInPartIff` | scripts/check_whole_tree_graders.py:515-520 | some areas and not all can be answered if and only if a segment is read for the variable and some loop over it is not covered |
| `AreaLoops.SharedVariableMisses` | scripts/check_whole_tree_graders.py:543-569 | two loops over one variable, one not read, and a turn outside the area |
| `AreaLoops.EarlierSequenceStays` | scripts/check_whole_tree_graders.py:550-559 | a name assigned a literal and then something else, and a turn outside the area |
| `AreaLoops.LaterSequenceIsRead` | scripts/check_whole_tree_graders.py:550-559 | a loop of the module run before its name is assigned another literal, and a turn outside the area |
| `CameraColumns.Remap` | strands_robots/dataset_recorder.py:1500-1506 | the streams moved one after the other over a snapshot of the names |
| `CameraColumns.LosslessIff` | strands_robots/dataset_recorder.py:1500-1506 | no stream is lost if and only if none lands on another's new name or on the old name of one still waiting |
| `CameraColumns.SimultaneousIff` | strands_robots/dataset_recorder.py:1500-1506 | such a remap is the simultaneous rename, and with distinct new names only such a one is |
| `CameraColumns.NormalizedIsRejoined` | strands_robots/utils.py:2001-2033 | the normalised name is the pieces between the separators, joined by two underscores |
| `CameraColumns.NormalizingIsUndisturbedIff` | strands_robots/dataset_recorder.py:1512-1516 | in whatever order the set is walked, streams disturb each other only by sharing a normalised name |
| `CameraColumns.Reconcile` | strands_robots/dataset_recorder.py:1491-1537 | the frame is refused or carries exactly the declared camera columns |
| `CameraColumns.ColumnsHoldTheirStreams` | strands_robots/dataset_recorder.py:1491-1537 | for separate streams the frame is accepted exactly when every declared column has a stream, and then each column holds its own stream's image |
| `CameraColumns.SwapLosesAStream` | strands_robots/dataset_recorder.py:1500-1506 | under a swap the frame is refused, or the one declared column is given the wrong stream's image |
| `DatasetRecorder.CollectImages` | strands_robots/dataset_recorder.py:1374-1380 | the images of the named cameras, or a failure exactly when one is missing from the observation |
| `DatasetRecorder.Flatten` | strands_robots/dataset_recorder.py:1416-1433 | the numbers of every column in schema order, one column right after the other, and nothing else |
| `DatasetRecorder.InPlaceIff` | strands_robots/dataset_recorder.py:1384-1433 | every declared position holds its own column's number if and only if each column adds exactly as many numbers as are declared for it |
| `DatasetRecorder.MisplacedColumns` | strands_robots/dataset_recorder.py:1416-1433 | a frame without a gap, of the declared width, whose numbers stand in the wrong columns |
| `DatasetRecorder.NothingIsMadeUp` | strands_robots/dataset_recorder.py:425-455 | where no column is missing, every column has a value and its numbers stand at its place in the vector |
| `DatasetRecorder.HandedFramesAreWhole` | strands_robots/dataset_recorder.py:1404-1537 | every frame handed over carries exactly the declared cameras; a state exactly when the observation holds a key that is no camera and some state column adds a number, an action exactly when the action holds a key and some action column adds one, each the numbers of its columns in order; the columns are those settled on, else the declared ones, else the sorted keys; unscoped, no column is without a value; scoped, every column in scope was issued; the task is the given one, else the default one, else untitled |
| `DatasetRecorder.HandedImagesAreTheStreams` | strands_robots/dataset_recorder.py:1491-1537 | where no two streams are in each other's way, each column of a handed frame holds its own stream's image |
| `DatasetRecorder.RefusedExactlyForAGap` | strands_robots/dataset_recorder.py:370-455 | a frame is refused exactly when a camera it names is missing, unscoped a state column has no value, an action column in scope has none, or a declared camera gets no image |
| `Recording.RunKeeps` | strands_robots/dataset_recorder.py:1339-1686 | over every run, whatever dataset call fails, the total is the frames on disk and buffered and the episode count the buffered ones, until a failed save; strict recorders drop nothing |
| `Recording.ClosedForGood` | strands_robots/dataset_recorder.py:1363-1364 | once closed nothing is added, saved or settled by any later call |
| `Recording.ColumnsStay` | strands_robots/dataset_recorder.py:1391-1447 | columns once settled stay settled |
| `Recording.ColumnsOfAFrameStay` | strands_robots/dataset_recorder.py:1391-1447 | the columns one handed frame is written in are those of every later frame |
| `Recording.ColumnsComeFromTheSchema` | strands_robots/dataset_recorder.py:1391-1447 | over every run the settled columns are the declared ones, or where nothing is declared the sorted keys of one frame |
| `Recording.DropsAreCounted` | strands_robots/dataset_recorder.py:1543-1564 | over every run a best-effort recorder counts exactly the frames its dataset did not take, a strict one none |
| `Recording.EpisodeIsItsFrames` | strands_robots/dataset_recorder.py:1310-1606 | a save makes one episode of exactly the frames the dataset took since the buffer was last emptied, in order |
| `Recording.ClearedIsGone` | strands_robots/dataset_recorder.py:1608-1676 | a clear leaves none of the frames taken since then anywhere |
| `Recording.FinalizedCountIsOnDiskIff` | strands_robots/dataset_recorder.py:1678-1686 | a closed, uncleared recorder's total is what is on disk if and only if nothing was buffered |
| `Recording.PushNeedsFramesOnDisk` | strands_robots/dataset_recorder.py:1723-1731 | over every run, until a failed save, the push guard lets exactly a dataset with frames on disk through |
| `Recording.Recorder.AddFrame` | strands_robots/dataset_recorder.py:1310-1564 | the new state and the outcome of one frame, whether the dataset takes it or not |
| `Recording.Recorder.SaveEpisode` | strands_robots/dataset_recorder.py:1566-1606 | the buffered frames become an episode and the report counts them, or the recorder is poisoned |
| `Recording.Recorder.ClearEpisodeBuffer` | strands_robots/dataset_recorder.py:1608-1676 | a cleared buffer is un-counted, a buffer left in place changes nothing |
| `Recording.Recorder.Finish` | strands_robots/dataset_recorder.py:1678-1686 | closes, and changes nothing else |
| `Recording.Recorder.PushToHub` | strands_robots/dataset_recorder.py:1723-1731 | pushes exactly when the guard lets it |
| `Recording.Recorder.constructor` | strands_robots/dataset_recorder.py:684-705 | a new or resumed recorder starts with its counters at what its dataset holds |
| `DatasetSource.LoadEpisodeRange` | strands_robots/dataset_source.py:201-249 | the range the metadata states, the first whole run of the episode's frames if reading that fails, or the stated error |
| `DatasetSource.ReadStated` | strands_robots/dataset_source.py:205-229 | a failure midway in any rung leaves the length at zero |
| `DatasetSource.StatedIff` | strands_robots/dataset_source.py:205-229 | a range is stated by the episode's own row; where that is silent by the index table; where there is none by the lengths up to it, a missing one counting as zero |
| `DatasetSource.Scan` | strands_robots/dataset_source.py:230-243 | whatever start a failed rung left behind, the scan gives the episode's first run, whole |
| `DatasetSource.FirstRunIsTheEpisode` | strands_robots/dataset_source.py:230-243 | where episodes lie one after the other, that run is the episode's whole range |
| `DatasetSource.RungsAgreeIff` | strands_robots/dataset_source.py:205-249 | with truthful metadata every rung, and the scan after any failure, gives the episode's range, if and only if no missing length that matters was added up as zero |
| `EpisodeLabels.WithBlockChangesOne` | strands_robots/episode_labels.py:441-466 | replacing one block changes no other, and the document can still be read |
| `EpisodeLabels.WithBlockKeepsTheRest` | strands_robots/episode_labels.py:446-466 | and whatever else the document, its episodes and the record hold stays as it is |
| `EpisodeLabels.AcceptableIff` | strands_robots/episode_labels.py:190-385 | a sidecar is read if and only if it is an object of version one whose episodes are records under the one spelling of a whole number, each verdict with its flags and each judge block with a grade of the list, a failure mode of the other list or none, and a flag for its dispute if any |
| `EpisodeLabels.EntryIsTakenIff` | strands_robots/episode_labels.py:439-460 | an entry is taken if and only if it is an object with a whole index, a flag for success, and a flag for failure if it says anything of it; its block holds nothing but those and the three fields carried through |
| `EpisodeLabels.VerdictIsTheEntrys` | strands_robots/episode_labels.py:446-460 | the recorded block says what the entry says, a missing failure read as false, under the index the entry names |
| `EpisodeLabels.RecordingKeepsJudges` | strands_robots/episode_labels.py:388-466 | one malformed entry undoes the call; else the last entry about an episode is its verdict, every judge block stays, and the reader accepts the result |
| `EpisodeLabels.NewRecordsTellTheirIndex` | strands_robots/episode_labels.py:462 | every record the call makes tells the index it is kept under |
| `EpisodeLabels.JudgeBlockSays` | strands_robots/episode_labels.py:562-575 | the judge block says what the annotation says, field by field |
| `EpisodeLabels.AnnotatingKeepsVerdicts` | strands_robots/episode_labels.py:497-584 | an annotation needs a verdict, sets one judge block, leaves every verdict, and the reader accepts the result |
| `EpisodeLabels.RunKeeps` | strands_robots/episode_labels.py:186-584 | over every run of both writers every document can be read back, no judge block is without a verdict, and each is the one last written, its dispute read off the verdict of that moment |
| `EpisodeLabels.DisputeIsCurrentIff` | strands_robots/episode_labels.py:560-573 | a recorded dispute is right about the verdict that stands if and only if the verdict is as it was, or no opinion was given |
| `EpisodeLabels.RerecordingGoesStale` | strands_robots/episode_labels.py:462-463 | recording the other outcome leaves the dispute as it was, and wrong |
| `EpisodeLabels.LabelStore.RecordVerdicts` | strands_robots/episode_labels.py:388-466 | the sidecar is rewritten exactly for an existing root, entries all well formed and a sidecar absent or readable |
| `EpisodeLabels.LabelStore.AnnotateEpisode` | strands_robots/episode_labels.py:497-584 | the sidecar is rewritten exactly for a usable annotation of an episode with a verdict in a readable sidecar |
| `LabelUse.FilterEpisodes` | strands_robots/episode_labels.py:587-640 | the episodes whose record meets every criterion, read off the record itself, and no others, strictly rising; nothing for an unknown grade or an unreadable sidecar |
| `LabelUse.FilterOnlyShrinks` | strands_robots/episode_labels.py:587-640 | raising the bar or turning a flag on only drops episodes |
| `LabelUse.AnnotatedQualifiesIff` | strands_robots/episode_labels.py:560-640 | right after being annotated an episode qualifies if and only if its verdict, the grade given and the judge's opinion meet the bar; what is measured is what was annotated, and no other episode is touched |
| `LabelUse.DisagreementsAreTheMisses` | strands_robots/episode_labels.py:712-760 | the disagreement rows are as many as the compared values minus the hits, over both fields |
| `LabelUse.BaselineIsTheBestConstant` | strands_robots/episode_labels.py:124-148 | no judge with one answer for everything is reported more agreement than the baseline, and one that gives some answer the human gave is reported exactly that, in either field |
| `LabelUse.MeasureAgreement` | strands_robots/episode_labels.py:643-775 | the report over the annotated part of the holdout, or nothing for a holdout or sidecar the source refuses |
| `LabelUse.RowsAreTheHoldouts` | strands_robots/episode_labels.py:700-728 | the rows compared are the holdout's entries whose episode the judge annotated, each once and in order, with the judge's grade and tag as recorded |
| `LabelUse.TallyIsOfTheRows` | strands_robots/episode_labels.py:728-752 | every count is the number of the rows it is about |
| `LabelUse.ColumnsAreOfTheRows` | strands_robots/episode_labels.py:729-752 | the baselines are taken over the human's values of the compared rows, and the disagreements are exactly the rows where judge and human differ |
| `LabelUse.ReportIsOfTheRows` | strands_robots/episode_labels.py:762-775 | the shares reported are those of the rows that agree, over all rows or over those with a failure mode; no report for no rows |
| `MotionGrants.ReprIsPrefixFree` | strands_robots/_motion_grants.py:189-197 | a string's `repr` followed by anything determines the string and what follows |
| `MotionGrants.FieldsAreInjective` | strands_robots/_motion_grants.py:93-110 | the list of shown fields determines, field by field, what the call carries |
| `MotionGrants.KeysAgreeIff` | strands_robots/_motion_grants.py:119-197 | two calls share a key if and only if the tool agrees and, up to white ends, the action and a serial tool's port or any other's target; the instruction, or where there is none the message; and each of the eleven motion fields, left out by both or given with the same text |
| `MotionGrants.TargetIsTrusted` | strands_robots/_motion_grants.py:113-153 | a bound tool's target does not depend on the call; without a binding it is the port of a serial tool and the target of any other |
| `MotionGrants.GrantStore.DepositGrant` | strands_robots/_motion_grants.py:200-208 | the grants held are those of the trace with this deposit |
| `MotionGrants.GrantStore.ConsumeGrant` | strands_robots/_motion_grants.py:211-232 | the answer is yes exactly when the trace holds the grant, and it is spent |
| `MotionGrants.HeldIff` | strands_robots/_motion_grants.py:200-232 | a grant is held exactly when its key's last deposit has not been followed by a consume of that key |
| `MotionGrants.DepositBetween` | strands_robots/_motion_grants.py:211-232 | between two successful consumes of one key there is a deposit of it |
| `MotionGrants.SpentAtMostGranted` | strands_robots/_motion_grants.py:200-232 | over every trace each deposit of a key is spent, still held, or fell on one still held; so it is spent at most as often as it was granted |
| `MotionGrants.OtherKeysDoNotMatter` | strands_robots/_motion_grants.py:200-232 | steps on other keys change neither whether a grant is held nor how often it was spent |

## Left out

* Git, HTTP, TOML and TOML-lock reading, step summaries, log lines and report texts: their results are parameters
  (trees, file maps, entry lists, the compare endpoint as a function), their wording is not modelled.
* `_import_targets` and the building of the import graph, and the typing-only kind of import, which the verdict does not
  read. The layer table is a parameter; every theorem holds for any table.
* The order in which `upward_edges`, `orphaned_roles` and `compare` report: the model's results are sets or unordered
  lists with their exact contents.
- CompareRange.ReadIsExactEnough: history after the fork is a sequence of trees; merges are the matter of
  `CompareMerges`. A compare that fails for another reason than the cap is not modelled.
- CompareMerges.ReadMissesNothingIff: an entry is one path (renames are in `CompareRange`), the history has one root, and
  how deep calls may nest is a parameter.
- OrphanedRoles.OverlapsAreMergedDeadRoles: the merge is taken file by file, each file from one side; a file merged by
  lines is not modelled. Role extraction and Python parsing are a parameter, with the assumption that a role's target
  stands in the text it is taken from.
- ChangelogApply.CollectFragments: a directory inside the fragment directory is not modelled, and digits and lower-case
  letters are the ASCII ones.
* Line breaks: `"\r\n"` counts as two breaks, so a carriage return before a newline is assumed to have been translated on
  reading, as text mode does.
* `recorded_rows` and the specifier library: its stable rendering is a parameter. Lower-casing covers ASCII letters.
- LockfileParity.CaseIsIgnored: ASCII letters only, where the source lowers every letter; PEP 508 names hold no others.
- BusAccess.RunKeeps: a device always takes the lock attribute or always refuses it. `Robot._bring_up_robot` is not part
  of this model.
- BusOpening.CallRunsThrough: what `ensure_bus_open` answers its caller is not kept in the state; it is whether the call
  opened the bus.
- BusReentry.GuardIsLetGo: that a thread with a step takes it is left to the scheduler, and which of several waiting
  threads gets a free guard is not modelled.
- GraderBindings.ModuleReadingIsSound: definitions whose own literal segments go up are not covered, and a helper's
  returned expression is taken in the module's own name space. Which statements are read (`_root_scope_definitions`,
  `_helper_answer`) is not modelled.
- WalkScopes.WalkIsRightIff: `_call_site_paths` and parameter scopes are not modelled, nor is `_function_owners`; the
  chain of functions and their assignments, in the order they are visited, is given. The names around a function stand
  still while it runs: `global`, `nonlocal`, and a helper redefined inside a function are not modelled. Which of the
  module's bindings are right at the moment of the walk is given.
- AreaLoops.AreaCoversIff: a name assigned another name counts as one the source does not show. The base of the walk does
  not use the loop variable.
- PathExpressions.ReceiverIsIgnored: one answer for each helper name; two classes declaring a helper of one name are the
  input of `SharedHelperName`.
- PathExpressions.ResolveIsSound: one direction only for whole expressions; the three spellings that break it have an
  exact condition each. Objects loaded from a module have no attribute but `__file__` in the model, nothing in the file
  system is a link, and a path that starts with two slashes is not told from one that starts with one.
- DatasetRecorder.HandedFramesAreWhole: numbers are exact reals, not 32-bit floats, and the conversion of an image to
  bytes is part of reading it.
- Recording.RunKeeps: a dataset call that fails leaves the dataset as it was, except a failed save, which may leave it in
  any state; a save with nothing buffered always fails, as LeRobot's does. `create`, codecs and the writer of the files
  are not modelled. A resumed recorder's counters are taken to have been seeded; the source leaves them at zero when the
  dataset's totals cannot be read.
- Recording.Recorder.PushToHub: the push itself and its failure are not modelled.
- DatasetSource.LoadEpisodeRange: a stored length of the wrong type counts as one that cannot be read. Finding the
  dataset's directory is not modelled.
- EpisodeLabels.LabelStore.RecordVerdicts: modes, the atomic rename and the clock are not modelled, and what the writers
  carry through is JSON. Arguments of `annotate_episode` and `filter_episodes` arrive with their declared types.
- LabelUse.MeasureAgreement: a missing mapping and a mapping that is empty are both a holdout with no entry.
- MotionGrants.KeysAgreeIff: `None` for a call is the empty call, and which characters Python prints as they are is a
  parameter; a lone surrogate is no character of the model.
* The lock around the grants set: every deposit and consume is one step.
