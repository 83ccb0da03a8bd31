# Verification of the HoI4 mod development tool

A Dafny model of the stateful parts of the tool, with proofs about whole runs
of them. `dafny verify dfyconfig.toml` checks everything.

| part of the tool | modules |
|---|---|
| the forest of merged provinces: root walk, merge, unmerge, group query, merging a selection | `ProvinceForest`, `ForestLaws`, `ForestRuns`, `AcyclicRuns`, `ForestEffects`, `DeepUnmerge`, `ProvinceProject` |
| states, the provinces they list, free state ids, the per-pixel state matrix | `StateModel`, `StateLaws`, `StateEffects`, `FreeIDs`, `StateProject` |
| finding the shapes of an imported image: labelling areas, merging border pixels | `ShapeLabels`, `ShapeStarts`, `ShapeFinder` |
| undo and redo over properties and continents | `Actions`, `ActionManager`, `ActionLaws`, `HistoryLaws` |
| the logger's worker thread and the parallel transform, as interleaved steps | `Logger`, `ParallelTransform` |
| province and state files, printed and parsed again | `Decimal`, `TextStream`, `TextLaws`, `ProvinceCsv`, `StateCsv`, `CsvLaws`, `ShortLines`, `Reload`, `ForestReload` |
| the export of the province map, and the preview cache | `Pixels`, `ProvinceExport`, `PreviewCache`, `ExportedFile` |
| bitmap files: headers, palettes, row flip, colour lookup, conversion to grey | `BitMapRows`, `BitMapCodec`, `BitMapFile`, `BitMapImage`, `BitMapColors` |
| what all of these share: entities, sequences without repetition | `Types`, `Collections` |

Objects that the tool updates in place are classes here. Each of their methods
is proved to compute a function of the old state (`Merged`, `Unmerged`,
`AddNewState`, `UndoAction`, `Converted`, ...), loops included, and the laws
are proved about those functions. What each of them does to every field, and what
it leaves alone, is told once more without them (`ForestEffects`, `StateEffects`,
`ActionLaws`, `BitMapFile`, `BitMapColors`, `TextLaws`, `CsvLaws`, `ShortLines`).
The two concurrent parts are state machines whose steps may come in any order.

Where the code does not do what its comments promise, the model follows the
code. Lemmas then say exactly when the promise holds, and show inputs on which
it fails:

- Unmerging a province whose parent has a parent edits the child set of the
  root instead of the parent's. The map stays a forest if and only if the
  target is a root or a child of a root (`ForestLaws.UnmergeIsolatesProvince`).
  Once it is not a forest, an unmerge keeps all root walks finite if and only if
  the target lists neither its parent nor anything above it, and a run does if and
  only if each of its unmerges is of that kind
  (`AcyclicRuns.RunStaysSoundIffHarmless`). Five calls lead from a fresh import
  to a walk that never ends (`DeepUnmerge.DeepUnmergesBuildACycle`). Saving and
  loading repairs the child sets (`ForestReload.ReloadRepairsUnmerge`).
- Adding a state keeps states and provinces consistent if and only if the given
  provinces are distinct and an id is left
  (`StateLaws.AddNewStateKeepsConsistent`); a province given twice is listed
  twice (`StateLaws.RepeatedProvinceBreaksConsistency`).
- Moving a province keeps them consistent if and only if the target state is
  live or means "none" (`StateLaws.MoveProvinceKeepsConsistent`); moved to any
  other state, it names a state that does not exist
  (`StateLaws.DeadTargetBreaksConsistency`).
- The scan for free ids after a load stops early. A saved and reloaded project
  is consistent if and only if every free id that is smaller than a live one is
  below the number of states
  (`Reload.ReloadIsConsistentIffGapsAreLow`). Remove the second of three states,
  save and load, and the next new state overwrites the third
  (`Reload.RemovedStateIsClobberedAfterReload`).
- A continent action that its callback refuses after the change reports failure
  but keeps the change. The store equals the replayed history throughout a run
  if and only if this never happens (`HistoryLaws.RunIsCoherentIffLeakFree`,
  `HistoryLaws.RefusedCreationLeaks`).
- A saved state comes back as it was if and only if printing keeps its level
  factor and it is not black, or is given black again
  (`StateCsv.LoadRestoresSave`, `StateCsv.BlackStateIsRecolored`).
- Writing a bitmap of odd height loses the middle row
  (`BitMapCodec.FileRoundTrip`, `BitMapImage.MiddleRowIsLost`).
- A version 5 header is written four bytes short and is not read at all.
  `writeBMP2` therefore fails with one (`BitMapImage.WriteBmp2Outcome`). A bitmap
  that declares the short offset can be written
  (`BitMapCodec.WriteSucceedsIffOffsetCounts`), but its palette is read three
  entries late (`BitMapCodec.PaletteIsReadBackIffItSurvives`,
  `BitMapCodec.Version5ShiftsThePalette`).
- `writeBMP2` ignores the status of `createColorTable` for a table that was
  passed in, because the overload of `andThen` that takes a function without
  a result is the one that is called. It then fails on the offset if and only if
  the table announces entries that are not there
  (`BitMapImage.WriteBmp2Outcome`, `BitMapImage.MissingEntriesAreNoticedLate`).
- The conversion to grey keeps the palette of an 8-bit image, although the bytes
  become levels. Lookups answer the greys of the old colours if and only if the old
  palette has each of these greys where its level points to
  (`BitMapColors.ConvertedPaletteImageIsGreyIff`, `BitMapColors.ConvertedRedStaysRed`).
- The labelling of shapes replaces the parent of a label that already has one,
  so that an area may fall into several shapes. Labels start at the coloured
  pixels without a left or upper neighbour of their colour; call these starts.
  A set of starts cuts an area if the area falls apart without the pixels that
  can be reached, going right and down, from these starts only. The order of the
  new labels is not known before the call, so these conditions are on the image:
  - If no set of starts cuts an area, the shapes are the one-coloured areas for
    every order of the labels (`ShapeStarts.UncutImagesAreLabelledRightly`). This
    includes all images with at most two starts in each area
    (`ShapeStarts.TwoStartsAreLabelledRightly`).
  - If a single start cuts its area, the area is split in every order that gives
    this start the largest label of the area (`ShapeStarts.CuttingStartSplits`),
    and there is such an order.
  - With at most three starts in each area, the shapes are right in every order if
    and only if no start cuts its area (`ShapeStarts.RightInEveryOrderIfUncut`),
    and right in a given order if and only if no start with the largest label of
    its area does (`ShapeStarts.ThreeStartsRightIffUncut`).
  - A staircase of five pixels falls into two shapes if and only if the second of
    its three labels is the largest (`ShapeStarts.StaircaseSplitsIff`).
  - `ShapeFinder.ShapesAreAreasIfUncut` and `ShapeFinder.ShapeFinder.FindAllShapes`
    say the same of the shapes that are found. `ShapeLabels.LabelsAreAreasIffHealed`
    is the internal account, in terms of the parents that the first pass leaves.
- Finding shapes fails not only on images that are black all over, but if and
  only if some black pixel has no coloured neighbour to its left, above or
  below, and no coloured pixel in the quadrant to its lower right
  (`ShapeFinder.ShapeFinder.FindAllShapes`, `ShapeFinder.BlackCornerIsStranded`).

## Assumptions

- A UUID is a number; different UUIDs are different, ordered, and the empty
  UUID (0) is no key. The ids that occur survive printing and parsing
  (`IDText`). The level factor, a floating-point number, is printed as something
  that can be read, not necessarily as itself (`FactorText`). New UUIDs are
  distinct, in any order.
- The walk order of a hash map is a parameter (`order`): any sequence of all
  keys without repetition. Walks over `std::set` are in ascending order.
- Generated unique colours, the user's answer to the continent prompt, the
  hardware thread count and the answers of action callbacks are parameters.
  A callback is asked once per stage, so it is a function of the stage.
- The number of output functions of the logger is fixed, and nobody logs once
  the worker has left its loop, as the comment in the code presumes.
- An allocation never fails. Files are sequences of bytes or characters.
- Maps have at least one pixel where the parallel transform is used on them: it
  divides by the length.
- Actions that cannot be undone leave properties and continents alone
  (`Transient`), and nothing but actions writes to them.
- The map project's moves and the state project's methods are one class here,
  because both write the `state` field of provinces and the lists of states.

## Model

| member | source | states |
|---|---|---|
| ProvinceForest.RootStep | mod_dev_tool/project/src/IProject.cpp:127-156 | In a forest the root of a province is itself if it has no parent, and otherwise the root of its parent |
| ProvinceForest.RootResultIsRoot | mod_dev_tool/project/src/IProject.cpp:127-156 | On an acyclic map the walk ends without an error at the root of the province |
| ForestEffects.RootAnswer | mod_dev_tool/project/src/IProject.cpp:167-196 | In any map: the walk's answer step by step, and the status of each way to fail |
| ProvinceProject.ProvinceProject.GetRootProvinceParent | mod_dev_tool/project/src/IProject.cpp:167-196 | The loop answers what the walk answers, including its error codes, whenever the walk ends |
| ProvinceProject.ProvinceProject.MergeProvinces | mod_dev_tool/project/src/IProject.cpp:205-244 | The new map and status are those of `Merged`, for maps of any shape on which the two walks end |
| ProvinceProject.ProvinceProject.UnmergeProvince | mod_dev_tool/project/src/IProject.cpp:253-380 | The new map and status are those of `Unmerged`: a root hands its group to its first child, another province raises its children to its parent and to the root's child set; failures change nothing |
| ForestEffects.MergeEffect | mod_dev_tool/project/src/IProject.cpp:205-244 | In any map on which the two walks end: the status of a merge; if it succeeds, one parent and one child set change and nothing else of any province, and if not, nothing changes |
| ForestEffects.UnmergeEffect | mod_dev_tool/project/src/IProject.cpp:253-380 | In any map on which the walk ends: the status of an unmerge; the parent and the child set of every province afterwards; and that no other field of any province changes |
| ForestEffects.RunKeepsFields | mod_dev_tool/project/src/IProject.cpp:205-380 | Whole runs of merges and unmerges of any depth change links only; unique colours stay, and tell provinces apart afterwards exactly if they did before |
| ForestLaws.GroupsPartition | mod_dev_tool/project/src/IProject.cpp:468-530 | Every province is in its own group, and membership in a group means having the same group |
| ForestLaws.MergedOnForest | mod_dev_tool/project/src/IProject.cpp:205-244 | On a forest the walks end, and each outcome of a merge is told by equality, existence and roots alone |
| ForestLaws.MergeUnitesTwoGroups | mod_dev_tool/project/src/IProject.cpp:205-244 | A merge keeps the forest; it succeeds exactly on provinces of two groups, unites exactly those, leaves the others alone and removes one root; a failed merge changes nothing |
| ForestLaws.DeepUnmergeBreaksMirror | mod_dev_tool/project/src/IProject.cpp:322-371 | Unmerging a province whose parent has a parent leaves a child entry that its child does not confirm |
| ForestLaws.UnmergeIsolatesProvince | mod_dev_tool/project/src/IProject.cpp:253-380 | The target is alone afterwards, the rest of its group stays one group, and other groups stay; the result is acyclic, and a forest if and only if the parent of the target has no parent; a failed call changes nothing |
| ProvinceProject.DeepUnmergeConfusesQuery | mod_dev_tool/project/src/IProject.cpp:322-371 | After a deep unmerge the group query from the old parent still returns the target, while the query from the target returns nothing else |
| DeepUnmerge.DeepUnmergesBuildACycle | mod_dev_tool/project/src/IProject.cpp:322-371 | Two merges, a deep unmerge, a merge and a deep unmerge lead from three fresh provinces to a root walk that never ends |
| ForestRuns.FreshIsForest | mod_dev_tool/project/src/ProvinceProject.cpp:160-171 | Provinces without parents and children form a forest of singletons, where every run may start |
| ForestRuns.MergeRefinesUnite | mod_dev_tool/project/src/IProject.cpp:205-244 | A merge acts on the groups as uniting two blocks of a partition, and as nothing if a province is missing or the blocks are one |
| ForestRuns.UnmergeRefinesSeparate | mod_dev_tool/project/src/IProject.cpp:253-380 | An unmerge in a forest, shallow or deep, acts on the groups as splitting a province off its block |
| ForestRuns.RunRefinesPartition | mod_dev_tool/project/src/IProject.cpp:205-380 | For every run of merges and shallow unmerges the parent fields and child sets stay a forest and implement the partition |
| ForestRuns.RunKeepsForestIffShallow | mod_dev_tool/project/src/IProject.cpp:205-380 | A run passes through forests only, if and only if each of its unmerges is shallow when its turn comes |
| AcyclicRuns.MergeKeepsSound | mod_dev_tool/project/src/IProject.cpp:205-244 | With stale child sets, too, a merge keeps all root walks finite, and succeeds exactly on provinces with different roots |
| AcyclicRuns.UnmergeKeepsSoundIff | mod_dev_tool/project/src/IProject.cpp:253-380 | With stale child sets, too, an unmerge keeps all root walks finite if and only if the target lists neither its parent nor anything above it; otherwise the old parent is left as its own parent or with a walk that never ends |
| AcyclicRuns.RunStaysSoundIffHarmless | mod_dev_tool/project/src/IProject.cpp:205-380 | A run of merges and unmerges of any depth keeps all root walks finite throughout if and only if each of its unmerges is of that kind when its turn comes |
| AcyclicRuns.ShallowRunsAreHarmless | mod_dev_tool/project/src/IProject.cpp:253-380 | Runs with shallow unmerges only are of that kind: a cycle takes an earlier deep unmerge |
| ProvinceProject.ProvinceProject.GetMergedProvinces | mod_dev_tool/project/src/IProject.cpp:468-530 | The breadth-first search ends, even with duplicates in its queue, with the least set that holds the argument and is closed under parent and children; on a forest that is the group; without the argument it is empty |
| ProvinceProject.ComponentIsGroup | mod_dev_tool/project/src/IProject.cpp:468-530 | In a forest the provinces linked to one are exactly those that share its root |
| ProvinceProject.ProvinceProject.MergeSelection | mod_dev_tool/gui/src/ProvincePropertiesPane.cpp:328-342 | In a map of any shape on which the root walks of the selection end, the loop merges each member into the original root of the first and ignores refusals; it does nothing if the first has no root |
| ProvinceProject.SelectionBecomesOneGroup | mod_dev_tool/gui/src/ProvincePropertiesPane.cpp:336-342 | Afterwards the selected provinces form one group, the union of their old groups, and all other groups are as before |
| ForestEffects.SelectionKeepsFields | mod_dev_tool/gui/src/ProvincePropertiesPane.cpp:336-342 | In any map, merging a selection changes links only |
| ForestEffects.LastNewMemberGivesRoot | mod_dev_tool/gui/src/ProvincePropertiesPane.cpp:336-342 | A member that brings in a new group makes its own root the root of the whole selection; any other member changes nothing |
| StateProject.StateProject.UpdateStateIDMatrix | mod_dev_tool/project/src/StateProject.cpp:384-402 | Every cell becomes the state of the pixel's province, or 0 without such a province; nothing else changes (one loop stands for the parallel transform, as `ParallelTransform.EveryScheduleIsSequential` allows) |
| StateEffects.MatrixShowsStates | mod_dev_tool/project/src/StateProject.cpp:384-402 | In a consistent world each cell shows the state of its pixel's province, and 0 without one |
| StateEffects.MatrixMatchesLists | mod_dev_tool/project/src/StateProject.cpp:384-402 | A cell shows a live state exactly where that state lists the pixel's province |
| StateProject.StateProject.AddNewState | mod_dev_tool/project/src/StateProject.cpp:440-483 | The new world and result are those of `StateModel.AddNewState`; unknown provinces change nothing |
| StateProject.StateProject.RemoveState | mod_dev_tool/project/src/StateProject.cpp:490-508 | The new world and status are those of `StateModel.RemoveState` |
| StateProject.StateProject.MoveProvinceToState | mod_dev_tool/project/src/MapProject.cpp:488-508 | The new world and status are those of `StateModel.MoveProvinceToState` |
| StateProject.StateProject.RemoveProvinceFromState | mod_dev_tool/project/src/MapProject.cpp:515-528 | The new world and status are those of `StateModel.RemoveProvinceFromState` |
| StateProject.StateProject.RemoveProvinceFromList | mod_dev_tool/project/src/StateProject.cpp:533-548 | Erases the first occurrence in the list of a live state; reports a state that does not exist |
| StateEffects.EraseFirstSplits | mod_dev_tool/project/src/StateProject.cpp:533-548 | The list without its first occurrence, in order |
| StateProject.StateProject.FinishLoad | mod_dev_tool/project/src/StateProject.cpp:195-203 | After a load the unused ids below the number of states are queued in ascending order and the matrix is rebuilt |
| StateLaws.EmptyProjectIsConsistent | mod_dev_tool/project/src/StateProject.cpp:384-402 | A project without states over freshly imported provinces is consistent |
| StateLaws.AtMostOneState | mod_dev_tool/project/src/StateProject.cpp:523-548 | A province is listed by at most one live state, and once |
| StateLaws.NextIDIsFresh | mod_dev_tool/project/src/StateProject.cpp:452-457 | A new state never takes a live id, and its id leaves the queue |
| StateLaws.AddNewStateEffect | mod_dev_tool/project/src/StateProject.cpp:440-483 | The new state has the given colour, is passable, without manpower and category, with factor 1 and a name that spells its id; exactly the given provinces move to it; each old list loses exactly them and keeps its order; nothing else changes |
| StateLaws.AddNewStateKeepsConsistent | mod_dev_tool/project/src/StateProject.cpp:440-483 | Lists, `state` fields, ids and matrix stay consistent if and only if the provinces are distinct and an id is left |
| StateLaws.RepeatedProvinceBreaksConsistency | mod_dev_tool/project/src/StateProject.cpp:440-483 | A province given twice is listed twice by the new state |
| StateEffects.UnknownProvincesAreRefused | mod_dev_tool/project/src/StateProject.cpp:440-450 | The call is refused, and changes nothing, exactly if one of the given provinces is unknown |
| StateLaws.RemoveStateKeepsConsistent | mod_dev_tool/project/src/StateProject.cpp:490-508 | Removing a state keeps the world consistent and releases exactly its provinces |
| StateEffects.RemoveStateEffect | mod_dev_tool/project/src/StateProject.cpp:490-508 | The freed id comes last in the queue; other states are untouched; the provinces of the state name none |
| StateLaws.MoveProvinceKeepsConsistent | mod_dev_tool/project/src/MapProject.cpp:500-508 | Moving a province keeps the world consistent if and only if the target is live or means "none"; only that province's state changes |
| StateEffects.MoveProvinceEffect | mod_dev_tool/project/src/MapProject.cpp:488-508 | The province leaves the list it was on and comes last on the target's; no other province changes, and no other field of any state |
| StateLaws.DeadTargetBreaksConsistency | mod_dev_tool/project/src/MapProject.cpp:500-508 | A province moved to a state that does not exist names it, and is listed nowhere |
| StateLaws.RemoveProvinceKeepsConsistent | mod_dev_tool/project/src/MapProject.cpp:515-528 | Taking a province out of its state keeps the world consistent; only that province's state changes |
| StateEffects.RemoveProvinceEffect | mod_dev_tool/project/src/MapProject.cpp:515-528 | The province is on no list afterwards; lists keep their order; no other province changes, and no other field of any state |
| StateLaws.RunIsConsistentIffSafe | mod_dev_tool/project/src/StateProject.cpp:440-548 | Every run of the four operations passes through consistent worlds only, if and only if each command was safe: each province in at most one list, live and queued ids exactly 1 to n, matrix current |
| FreeIDs.ScanIsEnoughIffGapsAreLow | mod_dev_tool/project/src/StateProject.cpp:195-201 | After a load, live and queued ids are exactly 1 to n if and only if every gap is below the number of states |
| FreeIDs.LoadOfOneAndThreeClashes | mod_dev_tool/project/src/StateProject.cpp:195-201 | After loading ids 1 and 3 the next new state takes the live id 3 |
| FreeIDs.FreeBelowAscends | mod_dev_tool/project/src/StateProject.cpp:195-201 | The ids that a load queues are in ascending order |
| Reload.LoadedIsConsistentIffGapsAreLow | mod_dev_tool/project/src/StateProject.cpp:195-203 | A load that gives back ids, `state` fields and lists of a consistent world is consistent if and only if every gap is below the number of states |
| Reload.ReloadIsConsistentIffGapsAreLow | mod_dev_tool/project/src/StateProject.cpp:40-210 | The same through the printed files: save and load of any consistent world whose texts are free of separators, whatever happens to factors and colours |
| Reload.RemovedStateIsClobberedAfterReload | mod_dev_tool/project/src/StateProject.cpp:195-201 | Remove the second of three states, save and load: the freed id is lost, and the next new state takes the id of the third |
| Reload.AddedStateIsReloaded | mod_dev_tool/project/src/StateProject.cpp:440-483 | A state added with a colour comes back from a save and a load with name, colour, provinces and all else, if and only if the text of factor 1 is read as 1 |
| Actions.EffectIsReversible | mod_dev_tool/actions/inc/SetPropertyAction.h:45-85 | An action leads from one store to another exactly when its inverse leads back |
| ActionManager.ActionManager.SetProperty | mod_dev_tool/actions/inc/SetPropertyAction.h:45-85 | The field is set if it holds the expected value and both callbacks accept, and otherwise is as it was |
| ActionManager.ActionManager.Perform | mod_dev_tool/actions/src/CreateRemoveContinentAction.cpp:15-31 | Doing an action has the outcome `Attempt`: guard, change, callback, rollback or leak |
| ActionManager.ActionManager.Revert | mod_dev_tool/actions/src/CreateRemoveContinentAction.cpp:33-50 | Undoing an action is attempting its inverse |
| ActionManager.ActionManager.DoAction | mod_dev_tool/actions/src/ActionManager.cpp:20-40 | A success is pushed and clears the undone stack unless it cannot be undone; a failure leaves the stacks alone |
| ActionManager.ActionManager.UndoAction | mod_dev_tool/actions/src/ActionManager.cpp:49-67 | The top of the done stack moves over if its undo succeeds |
| ActionManager.ActionManager.RedoAction | mod_dev_tool/actions/src/ActionManager.cpp:79-96 | The top of the undone stack moves back if doing it again succeeds |
| ActionLaws.PropertyIsSet | mod_dev_tool/actions/inc/SetPropertyAction.h:45-85 | Doing and redoing set a field that holds the old value to the new one, undoing the other way round, exactly if both callbacks accept; the action moves between the stacks; anything else is refused and changes nothing |
| ActionLaws.ContinentIsCreated | mod_dev_tool/actions/src/CreateRemoveContinentAction.cpp:15-50 | Doing and redoing add a continent that is not there, undoing removes one that is; a refusal after the change keeps the change and leaves the stacks alone |
| ActionLaws.ContinentIsRemoved | mod_dev_tool/actions/src/CreateRemoveContinentAction.cpp:15-50 | The same for the removal of a continent |
| ActionLaws.NothingToRecord | mod_dev_tool/actions/src/ActionManager.cpp:20-96 | An action that cannot be undone leaves the history alone, and empty stacks refuse |
| HistoryLaws.ClearMovesTheBase | mod_dev_tool/actions/src/ActionManager.cpp:98-101 | Clearing the history keeps the store and makes it the new base, whatever came before; no undo or redo gets past it |
| HistoryLaws.DoIsCoherent | mod_dev_tool/actions/src/ActionManager.cpp:20-40 | The store stays the base with the done actions replayed, if and only if the action does not leak |
| HistoryLaws.UndoIsCoherent | mod_dev_tool/actions/src/ActionManager.cpp:49-67 | The same for an undo, which keeps the timeline; with accepting callbacks a non-empty stack never refuses |
| HistoryLaws.RedoIsCoherent | mod_dev_tool/actions/src/ActionManager.cpp:79-96 | The same for a redo |
| HistoryLaws.RunIsCoherentIffLeakFree | mod_dev_tool/actions/src/ActionManager.cpp:20-101 | For every run of do, undo, redo and clear with any callbacks, the store equals the history replayed since the last clear throughout, if and only if no continent action leaks |
| HistoryLaws.RefusedCreationLeaks | mod_dev_tool/actions/src/CreateRemoveContinentAction.cpp:15-31 | A creation refused after the change leaves the continent behind and no history |
| HistoryLaws.PropertyRunsAreLeakFree | mod_dev_tool/actions/inc/SetPropertyAction.h:45-85 | Runs of property actions never leak, whatever the callbacks answer |
| HistoryLaws.TravelMovesPosition | mod_dev_tool/actions/src/ActionManager.cpp:49-96 | Any sequence of accepted undos and redos only moves the position on the timeline, stopping at both ends |
| HistoryLaws.UndoAllThenRedoAll | mod_dev_tool/actions/src/ActionManager.cpp:49-96 | Undoing everything gives the base store, and redoing everything then gives the whole timeline replayed |
| HistoryLaws.UndoThenRedoRestores | mod_dev_tool/actions/src/ActionManager.cpp:49-96 | Undoing some actions and redoing them restores store and both stacks |
| ParallelTransform.StepKeepsInv | mod_dev_tool/common/inc/Util.h:521-593 | Each step of the main thread or a worker keeps the workers' ranges disjoint and complete, and every index written at most once and rightly |
| ParallelTransform.EveryScheduleIsSequential | mod_dev_tool/common/inc/Util.h:521-593 | For every length of at least 1, thread count and interleaving, a returned call has written each index exactly once and equals the sequential transform |
| ParallelTransform.WorkIsShared | mod_dev_tool/common/inc/Util.h:521-593 | Under every schedule there are as many workers as hardware threads, but no more than elements and none with one thread; each has an equal range, in order, and the main thread does the rest |
| ParallelTransform.NoDeadlock | mod_dev_tool/common/inc/Util.h:521-593 | Until the call has returned, some thread can take a step |
| ParallelTransform.SchedulesAreBounded | mod_dev_tool/common/inc/Util.h:521-593 | No interleaving is longer than a bound that the start fixes |
| Logger.StepKeepsInv | mod_dev_tool/logging/src/Logger.cpp:99-193 | Each step keeps, for every output function: what it has received, followed by what is due to it, is what was logged |
| Logger.OutputsReceiveTheLog | mod_dev_tool/logging/src/Logger.cpp:99-193 | Under every interleaving each output function has received a prefix of the log, in order, each message once; once the worker has stopped, all of it and the final notice |
| Logger.WhatMayHappen | mod_dev_tool/logging/src/Logger.cpp:99-193 | Logging and asking to quit are possible at any time, and the output functions finish a message in any order |
| Logger.BatchIsWholeQueue | mod_dev_tool/logging/src/Logger.cpp:111-193 | The worker takes all that is queued, for every output function |
| Logger.ShutdownSpendsBudget | mod_dev_tool/logging/src/Logger.cpp:111-193 | After a quit request every step but logging uses up a bound on the remaining steps |
| Logger.WorkerIsNeverStuck | mod_dev_tool/logging/src/Logger.cpp:111-193 | Until it has stopped, the worker or one of its output calls can take a step |
| Logger.ShutdownIsBounded | mod_dev_tool/logging/src/Logger.cpp:239-248 | After a quit request that nobody logs past, every interleaving stops within the bound, so joining the worker returns |
| Decimal.ValueOfPrint | mod_dev_tool/project/src/StateProject.cpp:59-73 | Every printed number reads back as itself |
| Decimal.PrintShowsDigits | mod_dev_tool/project/src/StateProject.cpp:59-73 | Printed numbers have their units last and no leading zero |
| TextStream.StoulOfPrint | mod_dev_tool/common/inc/Util.h:249-316 | `std::stoul` reads back every printed 64-bit number |
| TextLaws.StoulReads | mod_dev_tool/common/inc/Util.h:249-316 | For any text: leading space, one sign and digits are read, what follows is not looked at, a minus sign wraps around, and too much is refused |
| TextLaws.NarrowFieldsWrap | mod_dev_tool/common/inc/Util.h:249-316 | Narrower numbers are those modulo their width |
| TextStream.FieldRoundTrip | mod_dev_tool/common/inc/Util.h:332-366 | A printed field followed by another is read as its value, and the stream then stands at the next field |
| TextStream.LastFieldRoundTrip | mod_dev_tool/common/inc/Util.h:332-366 | The last printed field of a line is read as its value |
| TextLaws.FlagIsRead | mod_dev_tool/common/inc/Util.h:249-316 | Exactly "true", "1", "false" and "0" are read as flags |
| TextLaws.TypeIsRead | mod_dev_tool/common/inc/Util.h:249-316 | Every word is read as a type, unknown unless it is one of the three |
| TextLaws.MissingField | mod_dev_tool/common/inc/Util.h:332-366 | A field that is missing is read like an empty one; an optional one then keeps what it held, and a required one fails |
| TextLaws.UnreadableField | mod_dev_tool/common/inc/Util.h:332-366 | An optional field that cannot be read is not consumed, and keeps what it held |
| TextStream.PiecesOfTerminated | mod_dev_tool/common/inc/Util.h:487-499 | Repeated `std::getline` reads back lines that each end with the delimiter, empty ones included |
| TextLaws.PiecesSpellText | mod_dev_tool/common/inc/Util.h:487-499 | For any text, the pieces hold no delimiter and spell the text, whether it ends with a delimiter or not |
| TextLaws.PiecesOfJoined | mod_dev_tool/common/inc/Util.h:487-499 | Fields that were joined by semicolons are found again by cutting there |
| TextStream.GetlineReadsPiece | mod_dev_tool/common/inc/Util.h:487-499 | Each `std::getline` takes the next piece off the stream, and fails exactly when there is none |
| ProvinceCsv.SaveProvinceData | mod_dev_tool/project/src/ProvinceProject.cpp:254-342 | The text is one line of fields per province, in the order of the walk |
| CsvLaws.ProvinceLineShows | mod_dev_tool/project/src/ProvinceProject.cpp:254-342 | Cut at the semicolons, a line shows the fourteen fields of its province in order, type and flag spelled out |
| ProvinceCsv.LoadProvinceData | mod_dev_tool/project/src/ProvinceProject.cpp:628-695 | A bad line fails the load; otherwise each province is read and added to the children of its parent |
| CsvLaws.LastProvinceLineCounts | mod_dev_tool/project/src/ProvinceProject.cpp:628-680 | A file is refused if and only if a line cannot be read; otherwise each id has the province of the last line with it |
| CsvLaws.LoadLinksChildren | mod_dev_tool/project/src/ProvinceProject.cpp:683-692 | After a load a province lists exactly those that name it as their parent |
| ShortLines.ShortProvinceLine | mod_dev_tool/project/src/ProvinceProject.cpp:644-672 | A line that ends after the bounding box is accepted, with the state that an uninitialised province holds and the parent that an empty id is read as |
| ProvinceCsv.LineRoundTrip | mod_dev_tool/project/src/ProvinceProject.cpp:644-672 | A printed line parses to its province without the children, whatever an uninitialised province holds |
| ProvinceCsv.RebuiltIffMirrored | mod_dev_tool/project/src/ProvinceProject.cpp:683-692 | The children that the parent fields give are the province's own exactly when both agreed |
| ProvinceCsv.LoadRestoresSave | mod_dev_tool/project/src/ProvinceProject.cpp:628-695 | Loading a saved map restores every field and gives back the map if and only if parents and child sets agreed |
| ForestReload.ReloadIsForestIff | mod_dev_tool/project/src/ProvinceProject.cpp:628-695 | A saved map is loaded as a forest if and only if its parent chains end, whatever its child sets say, and with the same groups |
| ForestReload.ReloadRepairsUnmerge | mod_dev_tool/project/src/ProvinceProject.cpp:683-692 | An unmerge of any depth, saved and loaded, gives a forest with the target alone, the rest of its group together and the other groups untouched; it is the map that was saved exactly if the unmerge was not deep |
| ForestReload.ReloadingRunRefinesPartition | mod_dev_tool/project/src/ProvinceProject.cpp:683-692 | With child sets rebuilt after each edit, every run of merges and unmerges of any depth keeps a forest and implements the partition |
| StateCsv.Save | mod_dev_tool/project/src/StateProject.cpp:56-76 | The text is one line of fields for each state, in ascending order of the ids |
| CsvLaws.StateLineShows | mod_dev_tool/project/src/StateProject.cpp:56-76 | Cut at the semicolons, a line shows the ten fields of its state in order, and the list of provinces cut at the commas shows their ids |
| StateCsv.SplitAndTransform | mod_dev_tool/common/inc/Util.h:487-499 | The results of all pieces in order, skipping empty ones and those that start with NUL |
| StateCsv.Load | mod_dev_tool/project/src/StateProject.cpp:108-193 | A bad line fails the load; otherwise the first state of each id is kept and black ones get the colour generated for their line |
| CsvLaws.FirstStateLineCounts | mod_dev_tool/project/src/StateProject.cpp:108-193 | A file is refused if and only if a line cannot be read; otherwise each id has the state of the first line with it, with the colour generated for that line if it is black |
| ShortLines.ShortStateLine | mod_dev_tool/project/src/StateProject.cpp:115-152 | A line that ends after the flag is accepted, without provinces and still without a colour |
| StateCsv.ListRoundTrip | mod_dev_tool/project/src/StateProject.cpp:66-69 | The comma-terminated list of provinces is read back in order |
| StateCsv.LineRoundTrip | mod_dev_tool/project/src/StateProject.cpp:115-181 | A printed line is one line and parses to its state, with the factor that was printed |
| StateCsv.LoadRestoresSave | mod_dev_tool/project/src/StateProject.cpp:56-193 | Loading saved states restores them, provinces in order; the map is the saved one if and only if each factor survives printing and each state is not black or is given black again |
| StateCsv.BlackStateIsRecolored | mod_dev_tool/project/src/StateProject.cpp:156-162 | A single black state comes back with the generated colour |
| Pixels.XyToIndexIsExact | mod_dev_tool/common/src/Util.cpp:137-139 | In images of at most 2^32 cells the index computation does not wrap, stays in bounds and is one-to-one |
| Pixels.XyToIndexWraps | mod_dev_tool/common/src/Util.cpp:137-139 | For any dimensions the result is the index modulo 2^32 |
| Pixels.PixelOffset | mod_dev_tool/common/src/Util.cpp:185-195 | The scaled computation gives the first byte of the pixel, and all its bytes are in the buffer |
| ProvinceExport.GetProvinceColorsForExport | mod_dev_tool/project/src/ProvinceProject.cpp:913-955 | Every pixel of a known province gets the colour of its root; it fails only where a root walk fails |
| ProvinceExport.RebuildUUIDToIDMap | mod_dev_tool/project/src/ProvinceProject.cpp:1019-1027 | Provinces are numbered from 1 in the order of the walk |
| ProvinceExport.SaveDefinitions | mod_dev_tool/project/src/ProvinceProject.cpp:254-342 | One row per province without a parent, with its number, colour, type, coast, terrain and continent; it fails exactly if one of them has no number, or an unknown continent that the user does not accept |
| ProvinceExport.SameColorIffMerged | mod_dev_tool/project/src/ProvinceProject.cpp:913-955 | Two pixels of known provinces get the same colour exactly when their provinces are merged |
| ProvinceExport.ColorHasOneRow | mod_dev_tool/project/src/ProvinceProject.cpp:254-342 | The colour of a pixel is in the table, only in the row numbered for its root; numbers and colours of rows are distinct |
| ProvinceExport.RowTellsRoot | mod_dev_tool/project/src/ProvinceProject.cpp:254-342 | The row with the colour of a root has its type, coast, terrain and continent, 0 exactly for an unknown one, and a number that finds the root in the walk |
| ProvinceExport.RootsInWalkOrder | mod_dev_tool/project/src/ProvinceProject.cpp:254-342 | Rows follow the walk |
| ProvinceExport.OneRowPerRoot | mod_dev_tool/project/src/ProvinceProject.cpp:254-342 | The table has as many rows as there are roots |
| ProvinceExport.Export | mod_dev_tool/project/src/ProvinceProject.cpp:96-130 | Image and table of an export agree: known pixels have the colours of their roots, colours tell merged provinces apart from others, and each colour shown is in exactly one row, which describes the root |
| ExportedFile.ImageFileRoundTrip | mod_dev_tool/project/src/ProvinceProject.cpp:110-125 | The image file is always written, and reads back as the image with a black middle row if the height is odd |
| ExportedFile.SameColorInFile | mod_dev_tool/project/src/ProvinceProject.cpp:110-125 | For any height, two known pixels have one colour in the file exactly when both are black there, or neither is and their provinces are merged |
| ExportedFile.FileShowsGroupsIff | mod_dev_tool/project/src/ProvinceProject.cpp:110-125 | For any height, the colours of the file tell merged provinces from others if and only if what the file shows black is one whole group |
| ExportedFile.EvenHeightShowsGroups | mod_dev_tool/project/src/ProvinceProject.cpp:110-125 | That holds for every even height |
| ExportedFile.ExportFiles | mod_dev_tool/project/src/ProvinceProject.cpp:96-130 | A whole export: it fails exactly at a refused unknown continent; otherwise a lookup in the file that is read back answers the root's colour for every known pixel, or black in a middle row; the colour is in exactly one row of the table, which describes the root; and the colours tell merged provinces from others if and only if the black pixels are one group |
| PreviewCache.BuildPreview | mod_dev_tool/project/src/ProvinceProject.cpp:723-780 | The preview is highlighted exactly at the province's pixels of its bounding box |
| PreviewCache.PreviewByte | mod_dev_tool/project/src/ProvinceProject.cpp:723-780 | In map coordinates: the four bytes of a pixel are 255 where the province is, and 0 elsewhere in its box |
| PreviewCache.PreviewIsUnique | mod_dev_tool/project/src/ProvinceProject.cpp:723-780 | A province has one preview only, so a cached one is what a fresh build would give |
| PreviewCache.KeysAfterIsMostRecent | mod_dev_tool/project/src/ProvinceProject.cpp:982-1002 | Keeping the last hundred request by request keeps the last hundred of the whole history |
| PreviewCache.CachedIffFewNewer | mod_dev_tool/project/src/ProvinceProject.cpp:982-1002 | A province is among the last hundred exactly when fewer than a hundred others have been requested since |
| PreviewCache.RequestedHit | mod_dev_tool/project/src/ProvinceProject.cpp:982-1002 | A hit returns the cached preview and moves it to the end |
| PreviewCache.RequestedMiss | mod_dev_tool/project/src/ProvinceProject.cpp:982-1002 | A miss puts the new preview at the end, evicts the oldest entry beyond a hundred and leaves no null entry |
| PreviewCache.PreviewCache.GetPreviewData | mod_dev_tool/project/src/ProvinceProject.cpp:964-1002 | For every sequence of requests: the preview is what a fresh build gives, and exactly the hundred most recently requested provinces are cached, none of them null |
| BitMapRows.FlipImage | mod_dev_tool/common/src/BitMap.cpp:22-47 | The rows of the input in reverse order, in place or not; a middle row keeps what the output held |
| BitMapRows.FlippedByte | mod_dev_tool/common/src/BitMap.cpp:22-47 | Each byte of a row comes from the same column of the mirrored row, or from the row in the middle |
| BitMapRows.FlipIsInvolution | mod_dev_tool/common/src/BitMap.cpp:22-47 | The flip in place is its own inverse, for every height |
| BitMapRows.FlipThroughZeroes | mod_dev_tool/common/src/BitMap.cpp:22-47 | Flipping out of place and back in place loses the middle row, and nothing else |
| BitMapRows.SwapChannels | mod_dev_tool/common/src/BitMap.cpp:615-622 | The loop exchanges first and third byte of every complete pixel |
| BitMapRows.SwappedPixel | mod_dev_tool/common/src/BitMap.cpp:615-622 | First and third byte of every pixel change places; the second one, and what is no pixel, stays |
| BitMapRows.SwapIsInvolution | mod_dev_tool/common/src/BitMap.cpp:462-469 | Exchanging the channels twice gives the image back |
| BitMapCodec.ReadEncoded | mod_dev_tool/common/src/BitMap.cpp:356-371 | Numbers that fit their widths are read back from their little-endian bytes, whatever follows |
| BitMapCodec.HeaderLength | mod_dev_tool/common/src/BitMap.cpp:524-580 | The bytes written before the pixels: 54, 68 more for version 4, 12 more for version 5, and 4 per palette entry |
| BitMapCodec.WriteSucceedsIffOffsetCounts | mod_dev_tool/common/src/BitMap.cpp:582-591 | Writing succeeds if and only if the declared offset is that length, for every header version |
| BitMapCodec.HeaderRoundTrip | mod_dev_tool/common/src/BitMap.cpp:342-419 | For every header version and palette: headers are read back, except for the numbers of version 5, with the palette found in the bytes that follow |
| BitMapCodec.PaletteIsReadBackIffItSurvives | mod_dev_tool/common/src/BitMap.cpp:406-419 | That palette is the written one if and only if one is there where it is announced and version 5 does not shift it |
| BitMapCodec.Version5ShiftsThePalette | mod_dev_tool/common/src/BitMap.cpp:400-419 | Under a version 5 header the first palette entry is read from the header's own numbers |
| BitMapCodec.FileRoundTrip | mod_dev_tool/common/src/BitMap.cpp:508-642 | Every written file, of any version and palette, reads back with the found palette and a black middle row; it reads back as the bitmap if and only if the palette survives and the middle row is zero or missing |
| BitMapFile.HeadersStand | mod_dev_tool/common/src/BitMap.cpp:524-560 | Each of the sixteen numbers of the first two headers stands at its place, lowest byte first |
| BitMapFile.PaletteStands | mod_dev_tool/common/src/BitMap.cpp:560-580 | The palette ends the header, each entry as blue, green, red and a reserved byte |
| BitMapFile.PixelIsStored | mod_dev_tool/common/src/BitMap.cpp:594-642 | Each 24-bit pixel is stored in the mirrored row as blue, green and red, and as zeroes in a middle row |
| BitMapFile.PaddingIsZero | mod_dev_tool/common/src/BitMap.cpp:594-622 | What is announced beyond the pixels is written as zeroes |
| BitMapFile.AnyFileIsRead | mod_dev_tool/common/src/BitMap.cpp:342-483 | Whatever wrote the file: the numbers, the palette and the pixel bytes that are read are those at their places, and missing bytes are the only failure |
| BitMapFile.AnyPixelIsRead | mod_dev_tool/common/src/BitMap.cpp:421-480 | Each pixel of a 24-bit file is taken from the announced offset, the mirrored row, and blue, green and red |
| BitMapFile.UnfilledByteIsHeld | mod_dev_tool/common/src/BitMap.cpp:421-480 | A byte for which nothing is stored is what the buffer held in the mirrored row |
| BitMapFile.MissingBytesRefuse | mod_dev_tool/common/src/BitMap.cpp:342-451 | A file with these headers is read if and only if palette and announced pixels are all there |
| BitMapFile.ShortFilesAreRefused | mod_dev_tool/common/src/BitMap.cpp:342-371 | A file without room for the headers is refused |
| BitMapImage.Image.Write | mod_dev_tool/common/src/BitMap.cpp:508-642 | The bytes, or the offset error, are those of `WriteBmp`, whenever no buffer is overrun |
| BitMapImage.Image.Read | mod_dev_tool/common/src/BitMap.cpp:342-483 | The bitmap, or the error for missing bytes, is that of `ReadBmp`, whenever the buffer is not overrun; what the file does not fill is what the buffer held |
| BitMapImage.WriteBmp2Outcome | mod_dev_tool/common/src/BitMap.cpp:644-768 | With or without a custom table: raw pixels are written if and only if the palette that the sizes account for is there and the version is not 5; which error comes otherwise; what was written reads back, but for a black middle row and a palette without entries |
| BitMapFile.WrittenFileIsLaidOut | mod_dev_tool/common/src/BitMap.cpp:644-768 | What is written announces its own length, offset and dimensions; numbers, masks and palette entries, custom or grey, stand at their places |
| BitMapFile.WrittenFileStoresPixel | mod_dev_tool/common/src/BitMap.cpp:594-642 | Every pixel of the data stands in the written 24-bit file where the format has it |
| BitMapImage.MissingEntriesAreNoticedLate | mod_dev_tool/common/src/BitMap.cpp:714-762 | A custom table that announces entries and has none fails for a 24-bit image, but with the offset error of the writer, not with the status of `createColorTable` |
| BitMapImage.MiddleRowIsLost | mod_dev_tool/common/src/BitMap.cpp:22-47 | A byte of the middle row is written, and read back as zero |
| BitMapImage.Image.CreateColorTable | mod_dev_tool/common/src/BitMap.cpp:778-859 | Sizes and palette become those of `ColorTableCreated`, custom or generated, with 32-bit wrap-around; a refusal leaves the sizes changed |
| BitMapColors.ColorTableEffect | mod_dev_tool/common/src/BitMap.cpp:778-859 | Sizes grow by the palette, unless there was one, modulo 2^32; which palette there is afterwards, and what is refused |
| BitMapColors.GreyStep | mod_dev_tool/common/src/BitMap.cpp:837-840 | Entry k of n generated greys is k steps of 256 / n above black |
| BitMapImage.GreyEntry | mod_dev_tool/common/src/BitMap.cpp:837-840 | Entry i of the generated grey palette is the grey of level i |
| BitMapImage.Image.ConvertTo8BppGreyscale | mod_dev_tool/common/src/BitMap.cpp:861-903 | The image becomes `Converted`; where a colour cannot be looked up, it stays as it was |
| BitMapImage.Image.ColorAt | mod_dev_tool/common/src/Util.cpp:197-226 | The colour, or the error, is that of `GetColorAt`, for an index in the image |
| BitMapColors.ColorAtIndex | mod_dev_tool/common/src/Util.cpp:197-226 | At any index: the three bytes in their order for 24 bits, the palette entry channel by channel for 8 bits, and the errors otherwise |
| BitMapImage.Image.ColorAtPoint | mod_dev_tool/common/src/Util.cpp:185-195 | The 32-bit index computed for column and row is that of the pixel's first byte |
| BitMapColors.ColorAtPoint | mod_dev_tool/common/src/Util.cpp:185-195 | For column and row: the pixel's own three bytes in their order, or its palette entry |
| BitMapImage.ConversionKeepsSizesAndGreys | mod_dev_tool/common/src/BitMap.cpp:861-903 | A 24-bit image without a palette keeps file size = offset + bitmap size, and each pixel reads back through the palette as the grey of the floor average of its channels |
| BitMapImage.ConvertedPointIsGrey | mod_dev_tool/common/src/BitMap.cpp:861-903 | Looked up by column and row, every pixel of the converted image is the grey of the colour that the lookup gave before |
| BitMapColors.TrueColorIsAveraged | mod_dev_tool/common/src/BitMap.cpp:861-903 | Each 24-bit pixel becomes the floor of the average of its three bytes, under a new palette of 256 greys |
| BitMapColors.PaletteImageIsAveraged | mod_dev_tool/common/src/BitMap.cpp:861-903 | Each byte of an 8-bit image becomes the average of its palette entry, and the palette stays |
| BitMapColors.ConvertedPaletteImageIsGreyIff | mod_dev_tool/common/src/BitMap.cpp:861-903 | Lookups in a converted 8-bit image answer the greys of the old colours if and only if the old palette has each of them where its level points to |
| BitMapColors.ConvertedRedStaysRed | mod_dev_tool/common/src/BitMap.cpp:861-903 | A red pixel under a palette that is red all over stays red |
| ShapeLabels.RootIsReached | mod_dev_tool/province_utils/src/ShapeFinder2.cpp:568-576 | Every label reaches a root, in the same area and linked to it |
| ShapeLabels.StepEffect | mod_dev_tool/province_utils/src/ShapeFinder2.cpp:76-181 | Which label each kind of pixel gets, which one becomes whose parent, and when a new label is used up, from the colours alone |
| ShapeLabels.ScanKeepsInv | mod_dev_tool/province_utils/src/ShapeFinder2.cpp:76-181 | After any number of pixels: labels were first used in the area of their pixels, links stay within areas, and neighbours of one colour have linked labels |
| ShapeLabels.SameLabelIsConnected | mod_dev_tool/province_utils/src/ShapeFinder2.cpp:76-233 | Pixels with one final label always lie in one area, whatever the order of the new labels |
| ShapeLabels.LabelsAreAreasIffHealed | mod_dev_tool/province_utils/src/ShapeFinder2.cpp:140-165 | For a given order, in terms of the parents that the first pass leaves: final labels are exactly the one-coloured areas if and only if each replaced parent still has one root with its child |
| ShapeLabels.StaircaseGetsTwoLabels | mod_dev_tool/province_utils/src/ShapeFinder2.cpp:140-165 | The two ends of a staircase of five pixels lie in one area and get two labels |
| ShapeStarts.UncutImagesAreLabelledRightly | mod_dev_tool/province_utils/src/ShapeFinder2.cpp:76-233 | If no set of starts cuts an area of the image, final labels are exactly the one-coloured areas, for every order of the new labels |
| ShapeStarts.TwoStartsAreLabelledRightly | mod_dev_tool/province_utils/src/ShapeFinder2.cpp:76-233 | So they are, for every order, in every image with at most two starts in each area |
| ShapeStarts.CuttingStartSplits | mod_dev_tool/province_utils/src/ShapeFinder2.cpp:140-165 | In any image, a start with the largest label of its area splits what it cuts: the two sides get different final labels |
| ShapeStarts.ThreeStartsRightIffUncut | mod_dev_tool/province_utils/src/ShapeFinder2.cpp:140-165 | With at most three starts in each area and a given order, final labels are the areas if and only if no start with the largest label of its area cuts it |
| ShapeStarts.RightInEveryOrderIfUncut | mod_dev_tool/province_utils/src/ShapeFinder2.cpp:76-181 | Final labels are areas in every order if no set of starts cuts an area, and only if no single start does; the latter is exact with at most three starts in each area |
| ShapeStarts.StaircaseSplitsIff | mod_dev_tool/province_utils/src/ShapeFinder2.cpp:140-165 | A staircase of five pixels falls apart if and only if the second of its three labels is the largest |
| ShapeFinder.ShapeFinder.GetRootLabel | mod_dev_tool/province_utils/src/ShapeFinder2.cpp:568-576 | The loop ends at the root |
| ShapeFinder.ShapeFinder.Pass1 | mod_dev_tool/province_utils/src/ShapeFinder2.cpp:76-181 | Labels and parents are those of the scan of all pixels |
| ShapeFinder.ShapeFinder.Pass2 | mod_dev_tool/province_utils/src/ShapeFinder2.cpp:191-236 | Every coloured pixel gets its root label and is in the shape of that label, once; the border pixels are listed |
| ShapeFinder.ShapeFinder.FindMergeTarget | mod_dev_tool/province_utils/src/ShapeFinder2.cpp:272-316 | The left, upper or lower coloured neighbour, else the first coloured pixel of the lower right quadrant, and none exactly if there is none of these |
| ShapeFinder.ShapeFinder.MergeBorders | mod_dev_tool/province_utils/src/ShapeFinder2.cpp:248-333 | Fails if and only if some border pixel has no target; otherwise every pixel is in the shape of its label, and border pixels have the labels of their targets |
| ShapeFinder.ShapeFinder.FindAllShapes | mod_dev_tool/province_utils/src/ShapeFinder2.cpp:345-427 | No shapes if some border pixel has no target; otherwise the shapes hold every pixel once, by its final label, have the colours of their coloured pixels, and are the one-coloured areas where the conditions on starts say so |
| ShapeFinder.TintedShowColors | mod_dev_tool/province_utils/src/ShapeFinder2.cpp:686-712 | A found shape has a coloured pixel, and the colour of each of them |
| ShapeFinder.BorderPixelJoins | mod_dev_tool/province_utils/src/ShapeFinder2.cpp:248-333 | Every black pixel is in the shape of its left neighbour if that has a colour, else of the upper one, else of the lower one, else of the first coloured pixel neither above nor to the left |
| ShapeFinder.ShapesAreAreasIfUncut | mod_dev_tool/province_utils/src/ShapeFinder2.cpp:345-427 | Coloured pixels are in one shape exactly when they lie in one area, if no set of starts cuts an area; with at most three starts in each area, if and only if none with the largest label of its area cuts it |
| ShapeFinder.ShapesAreAreasIffHealed | mod_dev_tool/province_utils/src/ShapeFinder2.cpp:345-427 | The same in terms of the parents that the first pass leaves, for all images and orders |
| ShapeFinder.BlackCornerIsStranded | mod_dev_tool/province_utils/src/ShapeFinder2.cpp:295-316 | A black last pixel without coloured neighbours to its left and above has no target, whatever the rest of the image |

## Left out

- StateProject.StateProject.AddNewState: the exception that an unknown province throws is a failure result; so it is for the moves of unknown provinces.
- StateProject.StateProject.RemoveState: does not model the exception for a listed province that does not exist; consistent worlds list none.
- ProvinceProject.ProvinceProject.GetRootProvinceParent: says nothing about a walk that does not end, because the call never returns then.
- ProvinceProject.ProvinceProject.GetMergedProvinces: does not model the exception for a child that does not exist.
- ActionManager.ActionManager.SetProperty: a missing field is refused; in the tool an action always points to a field.
- ParallelTransform.EveryScheduleIsSequential: leaves out the empty range, where the code divides by zero.
- Logger.OutputsReceiveTheLog: leaves out registering an output function during a run, and logging after the worker has left its loop, which is a data race.
- ProvinceExport.SaveDefinitions: the rows of the table are values; the text of `definition.csv` is not printed.
- ProvinceExport.GetProvinceColorsForExport: leaves the bytes of pixels without a known province open, as the code does.
- ProvinceCsv.LoadRestoresSave: covers the current file format; adjacency sets are not saved.
- PreviewCache.BuildPreview: boxes that reach outside the map are left out, where the code reads out of bounds.
- BitMapImage.Image.Read: files that announce more bytes than their dimensions need, padded rows among them, overrun the buffer and are left out; so are dimensions that are negative as signed 32-bit numbers.
- BitMapImage.Image.Write: bitmaps whose data or announced size is smaller than their dimensions need overrun a buffer and are left out; so are negative dimensions.
- BitMapImage.WriteBmp2Outcome: images beyond the 32-bit size fields are left out, and tables with another number of entries than they say, which are read out of bounds.
- `generateUniqueColor` is not modelled; the distinctness of colours is a hypothesis of the export.
- ShapeStarts.RightInEveryOrderIfUncut: with more than three starts in an area the two conditions on the image differ, because a later pixel may link again what a start has cut; what lies between them is told only by the first pass itself.
- ShapeFinder.ShapeFinder.FindAllShapes: leaves out the emergency stop, debug colours, unique colours, bounding boxes, adjacencies and the warnings of the last stage.
- Coastal provinces, outlines, normal maps, heightmaps and rivers.
- Files on disk, directories, JSON, preferences, the user interface, debug dumps and log text.
- `MapProject::validateData`, the state history export, and version comparison.
- The insertion-ordered map behind the preview cache is modelled as a sequence; its library source is not part of this model.
- Importing a new map while states exist, and the load path for files of version 0.25.0 and older.
