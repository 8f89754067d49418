# FBO bookkeeping of es-render, in Dafny

This project models the index-buffer manager of es-render, `ren::FBOMan`.
The manager keeps a map from OpenGL buffer names (`GLuint`) to a record per
buffer: asset name, primitive mode, primitive type and primitive count. It
answers lookups by asset name and frees buffers when they are removed or
when the manager is destroyed. Its garbage collection is a sorted merge of
that map against the set of names still used by `ren::FBO` components. A
walk of the `FBOGarbageCollector` system builds that set.

Modules:

- `GLTypes` gives the GL integer types as bounded subset types.
- `SortedSet` models `std::set<GLuint>` as a strictly increasing sequence.
- `FboMap` models `std::map<GLuint, FBOData>` as a sequence of entries with
  strictly increasing keys. `AsMap` gives the dictionary it stands for.
- `FboGc` holds `Reconcile`, the garbage-collection merge as a function. It
  gives the survivors, the released names in release order, and the
  diagnostics in order.
- `FboGcProperties` proves properties of `Reconcile`: partition, no
  over-collection, exactness, idempotence and the early-break condition. It
  also has worked examples.
- `FboMan` holds the class `FboManager`. Its field `fboData` is changed in
  place. Each `glDeleteBuffers` call is recorded in the ghost sequence
  `freed`. Each garbage-collection diagnostic written to `std::cerr` is
  recorded in the ghost sequence `gcLog`. `RunGCAgainstValidIds` is the
  source's loop with its cursor. It is proved to produce exactly what
  `Reconcile` describes.
- `FboComponent` is the `ren::FBO` component.
- `FboCollector` is the collector system and `runGCCycle`.

## Behaviour of the merge worth knowing

- **Stepping over a larger entry (FBOMan.cpp:115-121).** When a valid id is
  not in the map and the entry under the cursor has a larger key, the merge
  reports the id and then executes `++it`. That steps past the entry without
  erasing it, so an entry whose key is not valid survives the collection
  (`ReconcileStepsOverLargerEntry`, `ExampleZeroSkipsSmallest`).
- **One stepped-over entry can end the merge early (FBOMan.cpp:105-121).**
  With map {5, 12} and valid ids {5, 7, 12}, 7 is reported and the cursor
  steps past 12. The map then runs out while 12 is still to be visited, so
  the early-termination diagnostic follows (`ExampleValidIdMissing`).
- **A second run repeats the diagnostics (FBOMan.cpp:105-121).** Running the
  merge again on its survivors with the same valid ids releases nothing but
  writes the same diagnostics again (`ReconcileIdempotent`).
- **When the header's promise holds.** The promise that all ids not in
  `validKeys` are removed (FBOMan.hpp:82-84) holds when every valid id is
  in the map (`ReconcileRemovesAllInvalid`, `ReconcileExact`). That is the
  assumption the method's own comment states (FBOMan.cpp:87-90).

## Model

| member | source | states |
|---|---|---|
| SortedSet.Insert | es-render/FBOMan.cpp:159 | std::set::insert: the result is still strictly increasing, holds exactly the old elements plus the new one, and is unchanged when the element was present |
| SortedSet.SameElementsSameSequence | es-render/FBOMan.cpp:141 | two strictly increasing sequences with the same elements are equal, so the set representation is unique |
| FboMap.Insert | es-render/FBOMan.cpp:43 | std::map::insert: keeps keys sorted; an absent key adds exactly that entry to the dictionary; a present key leaves the map unchanged |
| FboMap.Erase | es-render/FBOMan.cpp:50-51 | find then erase: keeps keys sorted, the dictionary loses exactly that key, and no record changes |
| FboMap.FirstWithName | es-render/FBOMan.cpp:58-64 | the iteration position of the first entry with the asset name, or the end; no earlier entry has the name |
| FboMap.AsMapAt | es-render/FBOMan.hpp:86 | in a sorted map, each entry's key looks up that entry's record |
| FboGc.Reconcile | es-render/FBOMan.cpp:85-132 | the merge as written; every entry is either kept or released, and no more entries survive than there are valid ids |
| FboGcProperties.ReconcilePartitions | es-render/FBOMan.cpp:91-131 | survivors are input entries in ascending order; each key is kept or released, never both; releases happen in ascending order, so no name is freed twice |
| FboGcProperties.ReconcileIsSubmap | es-render/FBOMan.cpp:85-132 | the surviving map is a sub-map of the input; no record is modified |
| FboGcProperties.ReconcileFreesOnlyInvalid | es-render/FBOMan.cpp:96-103 | every released name is absent from the valid ids |
| FboGcProperties.ReconcileKeepsValid | es-render/FBOMan.cpp:96-121 | no over-collection: a key that is both in the map and valid survives |
| FboGcProperties.ReconcileExact | es-render/FBOMan.cpp:87-90 | when every valid id is in the map, the surviving keys are exactly the valid ids and no diagnostic is written |
| FboGcProperties.ReconcileRemovesAllInvalid | es-render/FBOMan.hpp:82-84 | under the same condition, every key not in the valid ids is released |
| FboGcProperties.ReconcilePairs | es-render/FBOMan.cpp:105-121 | the i-th survivor's key is at least the i-th valid id, and the diagnostics follow from pairing the survivors with the valid ids |
| FboGcProperties.ReconcileFixedPoint | es-render/FBOMan.cpp:92-122 | a map whose entries cover the valid ids in that pairing is left intact by the merge |
| FboGcProperties.ReconcileIdempotent | es-render/FBOMan.cpp:85-132 | a second run on the survivors with the same ids keeps everything, releases nothing, and repeats the same diagnostics |
| FboGcProperties.PairLogsTerminatedEarly | es-render/FBOMan.cpp:105-110 | the paired diagnostics contain an early break exactly when fewer survivors than valid ids remain |
| FboGcProperties.ReconcileTerminatesEarly | es-render/FBOMan.cpp:105-110 | the merge reports an early break if and only if fewer entries survive than there are valid ids |
| FboGcProperties.ReconcileStepsOverLargerEntry | es-render/FBOMan.cpp:115-121 | a valid id below the entry under the cursor is reported, and that entry survives and uses up the id even though its key is not valid |
| FboGcProperties.ExampleSubsetOfMap | es-render/FBOMan.cpp:92-131 | map {3,5,9,12} with valid {5,12}: survivors 5 and 12, released 3 then 9, no diagnostic |
| FboGcProperties.ExampleValidIdMissing | es-render/FBOMan.cpp:105-121 | map {5,12} with valid {5,7,12}: nothing released; diagnostics for 7 and then an early break at 12 |
| FboGcProperties.ExampleZeroSkipsSmallest | es-render/FBOMan.cpp:115-131 | map {3,5} with valid {0}: 3 survives, 5 is released, 0 is reported |
| FboMan.FboManager.constructor | es-render/FBOMan.cpp:18-20 | a new manager has an empty map and has freed nothing |
| FboMan.FboManager.Dispose | es-render/FBOMan.cpp:22-30 | the destructor frees every key in ascending order, then the map is empty |
| FboMan.FboManager.AddInMemoryFbo | es-render/FBOMan.cpp:32-46 | returns the generated name, which is then in the map; a new key adds exactly its record; an existing key leaves the map unchanged; a new key under a new name is then the first match for that name |
| FboMan.FboManager.RemoveInMemoryFbo | es-render/FBOMan.cpp:48-54 | the key and its record leave the map, every other key stays, and the name is freed once |
| FboMan.FboManager.HasFbo | es-render/FBOMan.cpp:56-66 | the loop returns the key of the first entry with the name (the least such key), or 0 when no entry has it |
| FboMan.FboManager.GetFboData | es-render/FBOMan.cpp:68-79 | the loop returns the record of that same first entry; it fails exactly when no entry has the name |
| FboMan.FboManager.RunGCAgainstValidIds | es-render/FBOMan.cpp:85-132 | the in-place cursor loop leaves exactly Reconcile's survivors, frees exactly Reconcile's names in its order, and logs exactly its diagnostics |
| FboMan.FboManager.EraseToEnd | es-render/FBOMan.cpp:124-131 | the final sweep truncates the map at the cursor and frees the erased keys in ascending order |
| FboMan.EraseAtCursor | es-render/FBOMan.cpp:96-103 | erasing the entry under the cursor while its key is below the id keeps the map sorted and the merge on track |
| FboMan.StepPastCursor | es-render/FBOMan.cpp:112-121 | stepping past an entry not below the id, with its diagnostic, continues the merge |
| FboMan.BreakAtEnd | es-render/FBOMan.cpp:105-110 | reaching the end with ids left writes the early-break diagnostic and ends the merge |
| FboMan.SweepRest | es-render/FBOMan.cpp:124-131 | after the loop over the ids, the rest of the merge is to free every entry from the cursor on |
| FboMan.NoEarlierMatch | es-render/FBOMan.cpp:58-65 | a scan that stopped with no earlier match found the first match, or proved there is none |
| FboMan.FirstMatchIsSmallest | es-render/FBOMan.cpp:56-66 | the first match in iteration order has the least key of all matching entries |
| FboMan.InsertedNameIsOnlyMatch | es-render/FBOMan.cpp:43 | after inserting a new key under a name no entry had, the first match for that name is the inserted entry |
| FboComponent.DefaultFbo | es-render/comp/FBO.hpp:16-19 | a default component has glid 0 |
| FboComponent.Serialize | es-render/comp/FBO.hpp:23-27 | serialization succeeds and leaves the component unchanged |
| FboCollector.Collect | es-render/FBOMan.cpp:157-160 | the valid ids after a walk are strictly increasing and are exactly the glids of the visited components |
| FboCollector.CollectIgnoresOrder | es-render/FBOMan.cpp:141 | the collected set depends only on which components were visited, not on their order or repetition |
| FboCollector.DefaultComponentKeepsSmallest | es-render/comp/FBO.hpp:16-19 | a default component puts 0 into the ids, so the smallest real buffer survives and 0 is reported first |
| FboCollector.FboGarbageCollector.constructor | es-render/FBOMan.cpp:141 | a new collector has no valid ids |
| FboCollector.FboGarbageCollector.PreWalkComponents | es-render/FBOMan.cpp:143 | the walk starts from an empty set of valid ids |
| FboCollector.FboGarbageCollector.Execute | es-render/FBOMan.cpp:157-160 | the component's glid joins the valid ids and nothing else does |
| FboCollector.FboGarbageCollector.PostWalkComponents | es-render/FBOMan.cpp:144-155 | with a manager, its collection runs on the valid ids, which are then cleared; without one, the ids are kept |
| FboCollector.FboGarbageCollector.WalkComponents | es-render/FBOMan.cpp:143-160 | one walk collects the components' glids and then runs the manager's collection on them |
| FboCollector.RunGCCycle | es-render/FBOMan.cpp:169-173 | a fresh collector walks once; the manager ends as Reconcile of its map against the components' glids |

## Left out

- OpenGL: `glGenBuffers`, `glBindBuffer` and `glBufferData` are not modelled. The generated name is a parameter of `AddInMemoryFbo`, and the buffer bytes and their size are dropped. `glDeleteBuffers` is recorded only as the name appended to the ghost sequence `freed`. The `GL(...)` error-check wrapper is not modelled.
- FboMan.FboManager.RemoveInMemoryFbo: requires the key to be in the map. Erasing the iterator that `find` returns for a missing key is undefined behaviour in C++, so that case has no model.
- FboMan.FboManager.GetFboData: the thrown `std::runtime_error` is the `NotFound` result. A `const` reference into the map is a copy of the record.
- Diagnostics: the text written to `std::cerr` is modelled only as `GcLog` events. The message PostWalkComponents writes when no manager is found is not recorded.
- The entity-system host is not modelled. This covers `es::GenericSystem`, `ESCoreBase`, `StaticFBOMan`, and the `weak_ptr` lock. A walk is the sequence of visited FBO components. The manager is a nullable reference, null when the lock fails.
- `FBOMan::registerSystems` only registers the collector with the host framework, so it is not part of this model.
- `FBOMan::getGCName` and both `getName` functions return constants. They are modelled as `FboCollector.GcName` and `FboComponent.ComponentName`.
- `MinFBOData` (FBOMan.hpp:37-42) is not used by any modelled operation, so it is not part of this model.
- es-render/util/Shader.cpp is not part of this model.
- Concurrency and exception safety are not modelled.
- GL integer types are bounded subset types. The core does no arithmetic on them, so no wrap-around is modelled.
