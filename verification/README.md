# Models of the GXF containers, behavior trees, benchmark components and handles

This project models five parts of the GXF core and proves what they promise over every input, every
sequence of calls and every interleaving. Each part has a value-level model (functions on sequences and
records, with the lemmas about them) and, where the original updates objects in place, classes whose
methods are proved to do exactly what that model says.

| file | what it holds |
|---|---|
| `Wrappers.dfy` | `Option` and `Result` |
| `UidTables.dfy`, `UidCapacity.dfy`, `UniqueIndexMap.dfy` | the fixed-capacity slot allocator with versioned uids and its implicit free list, and the capacities for which it keeps its promises |
| `ProbeTables.dfy`, `TableIteration.dfy`, `FixedMap.dfy` | the open-addressing hash table, iteration, and their agreement with a plain map |
| `BehaviorTrees.dfy`, `BehaviorTreePolls.dfy`, `BehaviorTreeSafety.dfy`, `BehaviorTreeProgress.dfy`, `BehaviorTreeThresholds.dfy`, `BehaviorExecutor.dfy` | sequence, selector, switch, parallel and constant behaviors under any interleaving of ticks |
| `BenchmarkModel.dfy`, `BenchmarkRuns.dfy`, `BenchmarkPhases.dfy`, `BenchmarkIterations.dfy`, `BenchmarkResults.dfy`, `BenchmarkComponents.dfy`, `BenchmarkController.dfy` | the benchmark controller with its sinks, calculators, profilers and publishers |
| `AllocatorBenchmark.dfy` | the allocator benchmark and its sink |
| `EntityHandles.dfy` | reference counting by entity handles |
| `SegmentPorts.dfy` | parsing and printing of segment port names |

Some promises of the sources hold only under a condition. Each condition is proved to be exact:

- `FixedMap::erase` leaves no marker behind, so a key whose probe path ran over the freed bucket is lost.
  `EraseExactly` says when this happens, `EraseLoses` to which keys, and `EraseLosesCollidingKey` shows it
  and its consequences on a table of three buckets.
- `UniqueIndexMap` promises never to reuse a uid. Of the capacities `initialize` accepts, this holds for
  those below 2^32 and fails at 2^32, where the end of the free list is also the first uid of slot 0:
  `KeptExactly` proves both halves, over all runs, for this promise and for the validity of uids, and
  `ReusesAtFull` gives the run that breaks them.
- The outcome of a parallel behavior depends on the interleaving unless its thresholds fix it, and it may
  never finish unless they are decisive. `FixedExactly` and `DecisiveExactly` give the two conditions, for all
  thresholds and numbers of children; for whole trees the first yields `SettledShowsValue`, the second
  `EveryRunCanFinish` and `FairSchedulesFinish`.
- A composite whose controller is set to `return_behavior_running_if_failure_repeat` and allows a repeat
  shows RUNNING forever once it has failed, since its own scheduling term is at NEVER by then:
  `FailureShows` says exactly when.
- In the buffering phase of the benchmark controller a configured boolean term ends the process at the
  first tick that does not find all buffers full, even while the term is enabled, since the flag is set outside
  the test of the term. The model follows the code; `BufferingOnceExactly` and `BooleanTermTerminates` state
  the effect over whole runs. Without a boolean term, `BufferingDecides` and `BufferingGivenUp` say what ends
  buffering and how.
- Printing and parsing of port names undo each other for some names and ports only; `ParsePrint` and
  `PrintParse` say exactly for which.

## What is taken as given

- A container is initialized once. Memory allocation succeeds in `UniqueIndexMap`.
- Uid words are modelled by their two 32-bit halves; `WordsAreUids` shows that this is the same thing as
  64-bit words, with the wrap-around of addition.
- The hash function is any function. Two hash tables never share their buckets.
- The entity executor is not part of this model. What is used of it is in
  com_nvidia_gxf/gxf/std/entity_executor.cpp:365-476 and com_nvidia_gxf/gxf/std/scheduling_terms.cpp:539-556: the
  root starts READY and all other entities in WAIT, with every status INIT; ticks are one at a time; an entity
  is ticked only while its condition is READY and its controller has not deactivated it; the first tick is
  counted once per entity; and the status the controller returns is stored until the next tick of the same entity.
- Entities of a behavior tree are numbered with parents before their children, as the entities of any
  finite tree can be.
- Calls of the benchmark components into the runtime succeed, and so do the metric computations. Sinks do
  not record and profilers do not profile before the first controller tick. Each calculator belongs to
  one sink. A controller tick is atomic; messages that arrive while it sleeps count as arriving just before it.
- `Stamp.round` labels a recorded time with the number of test iterations started when it was recorded. The
  label exists only in the model, to say which iteration a result is made of.
- An entity that was never referenced has count 0 in the model, where the runtime has no count for it yet.

## Model

| member | source | states |
|---|---|---|
| `UidTables.WordsAreUids` | com_nvidia_gxf/common/unique_index_map.hpp:31-43 | 64-bit words are exactly the pairs of a 32-bit version and a 32-bit index, and adding 2^32 to a word is one version up, wrapping, at the same index |
| `UidTables.UidsNeverReused` | com_nvidia_gxf/common/unique_index_map.hpp:25-28 | in every run of emplace and erase on a capacity below 2^32 no two successful emplace calls return the same uid |
| `UidTables.ErasedStaysInvalid` | com_nvidia_gxf/common/unique_index_map.hpp:157-170 | below capacity 2^32 a uid once erased is invalid in every later state of every run, although its slot is recycled |
| `UidTables.ValidIffLive` | com_nvidia_gxf/common/unique_index_map.hpp:121-126 | valid(uid) holds exactly for the uids issued and not erased, and such a uid leads to the object stored under it |
| `UidTables.EmplaceOutcome` | com_nvidia_gxf/common/unique_index_map.hpp:138-155 | in every reachable state: out of memory exactly when as many objects live as there are slots, container full exactly when the head of the free list was issued 2^32 - 1 times, otherwise a uid never issued before, an empty slot, and no 64-bit overflow |
| `UidTables.IssueBound` | com_nvidia_gxf/common/unique_index_map.hpp:144-151 | a run issues at most capacity * (2^32 - 1) uids, and at most 2^32 - 1 from one slot |
| `UidTables.VersionCountsIssues` | com_nvidia_gxf/common/unique_index_map.hpp:144-151 | the version of a slot is the number of times the slot was issued |
| `UidTables.LiveCount` | com_nvidia_gxf/common/unique_index_map.hpp:202-203 | size is the number of live objects |
| `UidTables.Run` | com_nvidia_gxf/common/unique_index_map.hpp:101-170 | every run of emplace and erase keeps one acyclic free chain through exactly the empty slots, and the other slots holding their own uids and objects |
| `UidTables.StartKeepsInv` | com_nvidia_gxf/common/unique_index_map.hpp:115-118 | the words written by initialize chain all slots in order |
| `UidTables.EmplaceKeepsInv` | com_nvidia_gxf/common/unique_index_map.hpp:148-154 | emplace takes the head off the free chain and keeps it a chain; the new uid joins the live ones |
| `UidTables.EraseKeepsInv` | com_nvidia_gxf/common/unique_index_map.hpp:158-170 | erase puts the slot at the head of the free chain and keeps it a chain; exactly its uid stops being live |
| `UidTables.ChainWord` | com_nvidia_gxf/common/unique_index_map.hpp:219 | the word of a free slot is valid as no uid and never names the slot itself, so the live slots can be told by their words |
| `UidTables.SlotOfLive` | com_nvidia_gxf/common/unique_index_map.hpp:87-92 | a slot's word carries the slot's own index exactly when an object is stored there |
| `UidTables.OwnWordsAreLive` | com_nvidia_gxf/common/unique_index_map.hpp:87-92 | the slots whose word names them are those of the live uids, each once, in slot order |
| `UidTables.LastWordOutsideTable` | com_nvidia_gxf/common/unique_index_map.hpp:101-118 | of the capacities initialize accepts, 2^32 is the only one for which the last link is not outside the table |
| `UidTables.FullIndexRangeAliasesSlotZero` | com_nvidia_gxf/common/unique_index_map.hpp:101-126 | with capacity 2^32, already after one emplace the word of the last slot reads as valid although the slot is empty, so find would compare raw memory |
| `UidCapacity.KeptExactly` | com_nvidia_gxf/common/unique_index_map.hpp:25-28 | of all capacities initialize accepts, those below 2^32, and no other, keep each promise over all runs: no uid is returned twice, no erased uid is valid, and no empty slot's word is valid |
| `UidCapacity.ReusesAtFull` | com_nvidia_gxf/common/unique_index_map.hpp:138-170 | at capacity 2^32: after filling the container the first uid can be erased twice and stays valid, and the next two emplace calls return one uid |
| `UidCapacity.RawRunIsRun` | com_nvidia_gxf/common/unique_index_map.hpp:101-170 | below 2^32 the runs defined without any invariant are the runs of which it is proved |
| `UidCapacity.HeadStaysInRange` | com_nvidia_gxf/common/unique_index_map.hpp:147-152 | at every accepted capacity no call ever reads or writes outside the table |
| `UidTables.EmptyWord` | com_nvidia_gxf/common/unique_index_map.hpp:121-126 | the word of a slot that holds no object is not valid |
| `UniqueIndexMaps.UniqueIndexMap.constructor` | com_nvidia_gxf/common/unique_index_map.hpp:58 | a new container is empty, with capacity 0 |
| `UniqueIndexMaps.UniqueIndexMap.Initialize` | com_nvidia_gxf/common/unique_index_map.hpp:101-119 | rejects capacities above 2^32; otherwise links all slots and leaves size and free-list head as they were, so that a container that is new or deinitialized is ready for use below 2^32 |
| `UniqueIndexMaps.UniqueIndexMap.Emplace` | com_nvidia_gxf/common/unique_index_map.hpp:138-155 | fails as the model says or constructs the object in an empty slot under a uid never issued before, adding exactly that to what is live |
| `UniqueIndexMaps.UniqueIndexMap.Erase` | com_nvidia_gxf/common/unique_index_map.hpp:157-170 | succeeds exactly for live uids; destroys the object stored there and removes exactly that uid |
| `UniqueIndexMaps.UniqueIndexMap.TryGet` | com_nvidia_gxf/common/unique_index_map.hpp:172-186 | returns the one place where the object inserted under a live uid is stored, and an error for every other uid |
| `UniqueIndexMaps.UniqueIndexMap.Assign` | com_nvidia_gxf/common/unique_index_map.hpp:172-177 | assigning through the pointer try_get gives changes the object under exactly that uid and leaves all other promises intact |
| `UidTables.AssignKeepsInv` | com_nvidia_gxf/common/unique_index_map.hpp:172-177 | a live object may be changed in place without the invariant noticing |
| `UniqueIndexMaps.UniqueIndexMap.Find` | com_nvidia_gxf/common/unique_index_map.hpp:188-197 | returns the uid of a live equal object, the one in the lowest slot, or an error exactly if there is none; compares no empty slot |
| `UniqueIndexMaps.UniqueIndexMap.Deinitialize` | com_nvidia_gxf/common/unique_index_map.hpp:86-97 | destroys exactly the live objects, each once, in slot order, and resets the container |
| `UniqueIndexMaps.UniqueIndexMap.DestroyObjects` | com_nvidia_gxf/common/unique_index_map.hpp:87-92 | if exactly the slots whose word names them hold objects, the loop destroys these and leaves no object behind |
| `UniqueIndexMaps.UniqueIndexMap.ResetValues` | com_nvidia_gxf/common/unique_index_map.hpp:209-217 | the container is as newly constructed |
| `ProbeTables.LookupAgrees` | com_nvidia_gxf/common/fixed_map.hpp:492-517 | in a table whose keys are distinct and reachable, lookup of every key is lookup in the map the table stands for, and the probe ends on the key's own bucket |
| `ProbeTables.FindEmptySpec` | com_nvidia_gxf/common/fixed_map.hpp:519-540 | the probe for an empty bucket fails exactly when the table is full, and passes only occupied buckets |
| `ProbeTables.NextIndex` | com_nvidia_gxf/common/fixed_map.hpp:508-513 | the index update is one step around the table, and comes back to the start after as many steps as there are buckets |
| `ProbeTables.SearchFinds` | com_nvidia_gxf/common/fixed_map.hpp:498-514 | a key reachable over occupied buckets is found in its bucket |
| `ProbeTables.SearchPath` | com_nvidia_gxf/common/fixed_map.hpp:498-514 | all buckets before the one found, on the way from the start of the probe, are occupied |
| `ProbeTables.SearchEmptyPath` | com_nvidia_gxf/common/fixed_map.hpp:525-537 | all buckets before the empty one found are occupied, and all of them if none is found |
| `ProbeTables.FindMatchingIs` | com_nvidia_gxf/common/fixed_map.hpp:492-517 | the probe finds bucket i exactly if i holds the key and every bucket from hash(key) % capacity cyclically up to i is occupied by another key |
| `ProbeTables.FindEmptyIs` | com_nvidia_gxf/common/fixed_map.hpp:519-540 | the probe for a free bucket finds the first empty one, cyclically, from hash(key) % capacity on |
| `ProbeTables.PlacedIs` | com_nvidia_gxf/common/fixed_map.hpp:492-517 | a table is sound exactly if its keys are distinct and every bucket between hash(key) % capacity and a stored key's own bucket is occupied |
| `ProbeTables.ContentsSize` | com_nvidia_gxf/common/fixed_map.hpp:326-327 | the occupied buckets of a table with distinct keys are as many as its map has keys |
| `ProbeTables.EmplaceRefines` | com_nvidia_gxf/common/fixed_map.hpp:379-394 | emplace is insertion of a new key into a map with limited room, with the matching errors, and keeps the table sound |
| `ProbeTables.EmplacedFirstFree` | com_nvidia_gxf/common/fixed_map.hpp:379-394 | emplace stores the entry in the first empty bucket counted cyclically from hash(key) % capacity, in that very bucket if it is empty, and changes no other |
| `ProbeTables.UpdateRefines` | com_nvidia_gxf/common/fixed_map.hpp:358-364 | update changes the value of a key that is there and fails otherwise, keeping the table sound |
| `ProbeTables.SubscriptRefines` | com_nvidia_gxf/common/fixed_map.hpp:309-322 | operator[] inserts the default under a missing key if there is room, fails if there is none, and never loses the key it inserted |
| `ProbeTables.RehashRefines` | com_nvidia_gxf/common/fixed_map.hpp:449-457 | emplacing the entries of one table into another with room for them never fails and adds exactly them |
| `ProbeTables.ReserveRefines` | com_nvidia_gxf/common/fixed_map.hpp:427-463 | reserve on a sound table never fails and keeps the map; only the capacity grows |
| `ProbeTables.CopyFromRefines` | com_nvidia_gxf/common/fixed_map.hpp:465-483 | copy_from fails only its capacity check, and then changes nothing; otherwise the result stands for the map copied |
| `ProbeTables.RehashInOrder` | com_nvidia_gxf/common/fixed_map.hpp:449-457 | rehashing is emplacing the old entries in bucket order, and fails as the first emplace that fails |
| `ProbeTables.ReserveAndCopyInOrder` | com_nvidia_gxf/common/fixed_map.hpp:427-483 | growing reserve and copy_from put the entries, in bucket order, into empty buckets |
| `ProbeTables.EraseExactly` | com_nvidia_gxf/common/fixed_map.hpp:403-413 | erase removes exactly its key from what lookup finds if and only if no stored key has the freed bucket on its way, cyclically from bucket hash(key) % capacity up to the key's own |
| `ProbeTables.EraseLoses` | com_nvidia_gxf/common/fixed_map.hpp:403-413 | the stored keys that are not found after erase are exactly the erased one and those that have its bucket on their way from hash(key) % capacity |
| `ProbeTables.LookupAfterErase` | com_nvidia_gxf/common/fixed_map.hpp:403-413 | what every key finds after a bucket has been emptied |
| `ProbeTables.EraseRefines` | com_nvidia_gxf/common/fixed_map.hpp:403-413 | an erase that no arc crosses keeps the table sound and is removal on the map |
| `ProbeTables.CleanEraseIs` | com_nvidia_gxf/common/fixed_map.hpp:403-413 | which erases are without effect on other keys, stated from hash(key) % capacity |
| `ProbeTables.EraseLosesCollidingKey` | com_nvidia_gxf/common/fixed_map.hpp:403-413 | concrete table: erase loses a colliding key, emplace then stores that key a second time, and reserve fails with a duplicate |
| `ProbeTables.StepRefines` | com_nvidia_gxf/common/fixed_map.hpp:309-483 | every operation, with its error, is the same operation on a plain map with limited room |
| `ProbeTables.HistoryRefines` | com_nvidia_gxf/common/fixed_map.hpp:309-483 | after every history in which no erase crosses an arc, every key looks up as in the plain map with the same history |
| `ProbeTables.EraseFreeIsClean` | com_nvidia_gxf/common/fixed_map.hpp:309-483 | every history without erase is such a history |
| `ProbeTables.StoredReachable` | com_nvidia_gxf/common/fixed_map.hpp:309-483 | after every such history all buckets from hash(key) % capacity to a stored key's own bucket are occupied |
| `TableIteration.NthRank` | com_nvidia_gxf/common/fixed_map.hpp:94-124 | begin() + k stands on the occupied bucket with k occupied buckets before it, or at the end exactly if there are not more than k |
| `TableIteration.NthOfRank` | com_nvidia_gxf/common/fixed_map.hpp:94-124 | every occupied bucket is reached from begin() in as many steps as there are occupied buckets before it |
| `TableIteration.NthStep` | com_nvidia_gxf/common/fixed_map.hpp:143-146 | ++ after k steps is k + 1 steps, and moves strictly forward |
| `TableIteration.TraversalVisitsAll` | com_nvidia_gxf/common/fixed_map.hpp:294-295 | size increments from begin() visit every occupied bucket and no other, each once, in index order, and end at end() |
| `TableIteration.SameOccupied` | com_nvidia_gxf/common/fixed_map.hpp:279-291 | with equal sizes, agreement on one table's occupied buckets is equality of the tables |
| `TableIteration.BackRank` | com_nvidia_gxf/common/fixed_map.hpp:126-135 | going back by k arrives at the occupied bucket with k fewer before it, or at index 0 if there is none |
| `TableIteration.BackUndoesForward` | com_nvidia_gxf/common/fixed_map.hpp:94-138 | from an occupied bucket with at least k occupied buckets after it, going forward k steps stays in the table and going back k steps undoes it |
| `TableIteration.ShiftRank` | com_nvidia_gxf/common/fixed_map.hpp:94-138 | moving by an offset, in either direction, adds it to the number of occupied buckets before the position; a position past the last is the end, one before the first is index 0 |
| `TableIteration.NextOccupied` | com_nvidia_gxf/common/fixed_map.hpp:115-124 | the position with one more occupied bucket before it is the next occupied bucket: all buckets between are empty |
| `FixedMaps.FixedMap.constructor` | com_nvidia_gxf/common/fixed_map.hpp:262 | a new table has no buckets |
| `FixedMaps.FixedMap.FindMatchingBucket` | com_nvidia_gxf/common/fixed_map.hpp:492-517 | the probe loop ends, and returns bucket i exactly if i holds the key and every bucket from hash(key) % capacity cyclically up to i holds another key; otherwise -1 |
| `FixedMaps.FixedMap.FindEmptyBucket` | com_nvidia_gxf/common/fixed_map.hpp:519-540 | the probe loop ends, and returns bucket i exactly if i is the first empty bucket, cyclically, from hash(key) % capacity on; otherwise -1 |
| `FixedMaps.FixedMap.At` | com_nvidia_gxf/common/fixed_map.hpp:340-356 | returns the value looked up, or an invalid-key error |
| `FixedMaps.FixedMap.Emplace` | com_nvidia_gxf/common/fixed_map.hpp:379-394 | does the model's emplace in place and keeps size the number of occupied buckets |
| `FixedMaps.FixedMap.Update` | com_nvidia_gxf/common/fixed_map.hpp:358-364 | does the model's update in place |
| `FixedMaps.FixedMap.InsertOrAssign` | com_nvidia_gxf/common/fixed_map.hpp:366-377 | does the model's insert-or-assign in place |
| `FixedMaps.FixedMap.Subscript` | com_nvidia_gxf/common/fixed_map.hpp:309-322 | does the model's operator[] in place and returns the bucket of the key |
| `FixedMaps.FixedMap.Erase` | com_nvidia_gxf/common/fixed_map.hpp:403-413 | does the model's erase in place and keeps size the number of occupied buckets |
| `FixedMaps.FixedMap.Clear` | com_nvidia_gxf/common/fixed_map.hpp:415-425 | empties every bucket; size is 0 |
| `FixedMaps.FixedMap.Reserve` | com_nvidia_gxf/common/fixed_map.hpp:427-463 | without memory fails and changes nothing; otherwise does the model's reserve, into new buckets if the capacity grows |
| `FixedMaps.FixedMap.EmplaceAll` | com_nvidia_gxf/common/fixed_map.hpp:473-482 | the rehash loop does what the model's rehash does, stopping at the first error, also over a cleared table itself |
| `FixedMaps.FixedMap.CopyFrom` | com_nvidia_gxf/common/fixed_map.hpp:465-483 | does the model's copy_from and leaves the other table as it was; a table copied to itself is left empty |
| `FixedMaps.FixedMap.Equals` | com_nvidia_gxf/common/fixed_map.hpp:279-291 | operator== holds exactly when the two bucket arrays are equal, not merely the maps they stand for |
| `FixedMaps.FixedMap.Advance` | com_nvidia_gxf/common/fixed_map.hpp:94-124 | from a bucket with b occupied ones before it, += k arrives at the occupied bucket with b + k before it, forwards and backwards; past the last it is the end, before the first it is index 0 |
| `FixedMaps.FixedMap.Begin` | com_nvidia_gxf/common/fixed_map.hpp:294 | begin() is the first occupied bucket, or the end if there is none |
| `FixedMaps.FixedMap.End` | com_nvidia_gxf/common/fixed_map.hpp:295 | end() is one past the last bucket, whatever the table holds |
| `FixedMaps.FixedMap.Traversal` | com_nvidia_gxf/common/fixed_map.hpp:294-295 | a loop of ++ from begin() to end() visits every occupied bucket and no other, each once, in index order |
| `BehaviorTreeSafety.SettledShowsValue` | com_nvidia_gxf/gxf/behavior_tree/sequence_behavior.cpp:67-133 | in every tree whose parallels have a fixed outcome, and in every interleaving, an entity showing SUCCESS or FAILURE shows the value of its subtree, and keeps showing it whatever is ticked later |
| `BehaviorTreeSafety.InterleavingsAgree` | com_nvidia_gxf/gxf/behavior_tree/parallel_behavior.cpp:80-167 | two interleavings that settle the same entity of such a tree settle it the same way |
| `BehaviorTreeSafety.ChildrenStartInOrder` | com_nvidia_gxf/gxf/behavior_tree/selector_behavior.cpp:66-120 | in every tree, a child of a sequence or selector is started only after every earlier sibling has settled, with success or failure respectively |
| `BehaviorTreeSafety.RunInv` | com_nvidia_gxf/gxf/behavior_tree/sequence_behavior.cpp:67-133 | every interleaving of every tree keeps the invariant: conditions agree with statuses, child indices with the children's statuses, failure counts with statuses and the repeat limit |
| `BehaviorTreeSafety.TickKeepsOthers` | com_nvidia_gxf/gxf/behavior_tree/parallel_behavior.cpp:47-57 | a tick changes nothing of other entities but conditions, and these only of the entity's own children |
| `BehaviorTreeSafety.ConstantKeeps` | com_nvidia_gxf/gxf/behavior_tree/constant_behavior.cpp:30-55 | a constant's tick keeps the invariant: it settles with its configured outcome, at its first tick unless a failure is hidden while repeats are left, and stays so however often it is ticked again |
| `BehaviorTreeSafety.SequenceKeeps` | com_nvidia_gxf/gxf/behavior_tree/sequence_behavior.cpp:67-133 | a sequence's tick keeps the invariant: it starts its children one after the other, and settles with SUCCESS past the last and with FAILURE on the first that fails |
| `BehaviorTreeSafety.SelectorKeeps` | com_nvidia_gxf/gxf/behavior_tree/selector_behavior.cpp:66-120 | a selector's tick keeps the invariant: it starts its children one after the other, and settles with FAILURE past the last and with SUCCESS on the first that succeeds |
| `BehaviorTreeSafety.SwitchKeeps` | com_nvidia_gxf/gxf/behavior_tree/switch_behavior.cpp:70-114 | a switch's tick keeps the invariant: it starts the desired child only and settles with its status |
| `BehaviorTreeSafety.ParallelKeeps` | com_nvidia_gxf/gxf/behavior_tree/parallel_behavior.cpp:80-167 | a parallel's tick keeps the invariant, whatever its thresholds: it starts all children, waits, and stops them when it settles |
| `BehaviorTreeSafety.ParallelVerdict` | com_nvidia_gxf/gxf/behavior_tree/parallel_behavior.cpp:104-166 | with a fixed outcome a polling tick succeeds only if the parallel's value is true, and fails only if it is false; what the thresholds ask for in numbers is `ParallelPoll` |
| `BehaviorTreePolls.ParallelPoll` | com_nvidia_gxf/gxf/behavior_tree/parallel_behavior.cpp:104-166 | a poll of a running parallel, for thresholds given as the integers they are truncated to: without an unknown child it succeeds exactly if so many children as the success threshold asks for have succeeded, -1 asking for all; it fails exactly if it does not succeed and a child is unknown, a threshold is below -1 or enough children have failed; then all children are stopped, and otherwise nothing changes |
| `BehaviorTreePolls.ReadsLow32` | com_nvidia_gxf/gxf/behavior_tree/parallel_behavior.cpp:135 | a parameter is read as the 32-bit integer it is congruent to |
| `BehaviorTreePolls.UnknownChildFails` | com_nvidia_gxf/gxf/behavior_tree/sequence_behavior.cpp:67-133 | a sequence, selector or switch whose current child is unknown, or is past the last, fails, and changes nothing else |
| `BehaviorTreeSafety.CountsBoundValues` | com_nvidia_gxf/gxf/behavior_tree/parallel_behavior.cpp:104-132 | at any moment successes are at most the true children and failures at most the false ones, with equality once all are settled |
| `BehaviorTreeSafety.TickKeepsSettled` | com_nvidia_gxf/gxf/behavior_tree/entity_count_failure_repeat_controller.cpp:53-65 | in every tree, no tick of any entity changes a status that is SUCCESS or FAILURE |
| `BehaviorTreeSafety.SettledForever` | com_nvidia_gxf/gxf/behavior_tree/entity_count_failure_repeat_controller.cpp:53-65 | in every tree and interleaving a status that is SUCCESS or FAILURE is never changed again |
| `BehaviorTreeSafety.VerdictIsValue` | com_nvidia_gxf/gxf/behavior_tree/parallel_behavior.cpp:134-166 | with a fixed outcome, counts of any moment give no verdict but the value of the parallel |
| `BehaviorTreeSafety.RunShowsValues` | com_nvidia_gxf/gxf/behavior_tree/parallel_behavior.cpp:80-167 | with fixed outcomes, in every interleaving all settled entities together show the values of their subtrees |
| `BehaviorTreeThresholds.FixedExactly` | com_nvidia_gxf/gxf/behavior_tree/parallel_behavior.cpp:134-166 | for all thresholds and all positive numbers of children: no two interleavings settle a parallel over constants differently, if and only if its outcome is fixed: the success threshold is rejected, 0 or out of reach, or both are accepted and leave no room to be met at once |
| `BehaviorTreeProgress.ThresholdsExclusive` | com_nvidia_gxf/gxf/behavior_tree/parallel_behavior.cpp:134-165 | no outcome of the children meets both thresholds exactly when they add up to more than the number of children; then the order of the checks does not matter |
| `BehaviorTreeProgress.ThresholdsDecisive` | com_nvidia_gxf/gxf/behavior_tree/parallel_behavior.cpp:134-166 | for all thresholds, every outcome of the settled children gives a verdict exactly when a threshold is rejected, one is 0, or they add up to at most one more than the number of children |
| `BehaviorTreeProgress.NeverStuck` | com_nvidia_gxf/gxf/behavior_tree/selector_behavior.cpp:66-120 | in every tree with such thresholds whose controllers show composites' failures, in every reachable state with an unsettled root some enabled entity's tick makes progress |
| `BehaviorTreeProgress.SomeEntityProgresses` | com_nvidia_gxf/gxf/behavior_tree/selector_behavior.cpp:66-120 | at or below every live unsettled entity some enabled entity's tick makes progress |
| `BehaviorTreeProgress.ProgressIsBounded` | com_nvidia_gxf/gxf/behavior_tree/sequence_behavior.cpp:67-133 | in every interleaving of every tree the ticks that make progress, and the work left, add up to no more than the work the tree starts with |
| `BehaviorTreeProgress.InitialWork` | com_nvidia_gxf/gxf/behavior_tree/sequence_behavior.cpp:67-133 | that work is two for every entity, one more for every child of a sequence or selector, and one more for every repeat a constant hides |
| `BehaviorTreeProgress.TickTotalWork` | com_nvidia_gxf/gxf/behavior_tree/sequence_behavior.cpp:67-133 | a tick that makes progress uses up work, and any other leaves the work as it is |
| `BehaviorTreeProgress.EveryRunCanFinish` | com_nvidia_gxf/gxf/behavior_tree/sequence_behavior.cpp:67-133 | every interleaving can be completed by no more ticks than the work left; the root is then settled, with the value of the tree if outcomes are fixed |
| `BehaviorTreeProgress.FairSchedulesFinish` | com_nvidia_gxf/gxf/behavior_tree/sequence_behavior.cpp:67-133 | whatever happened before, every schedule made of as many sweeps over all entities as the tree's budget settles the root, in whatever order each sweep goes |
| `BehaviorTreeProgress.VisitedProgresses` | com_nvidia_gxf/gxf/behavior_tree/sequence_behavior.cpp:67-133 | any ticks that include one of an entity that can make progress use up work of the tree |
| `BehaviorTreeProgress.ProgressPersists` | com_nvidia_gxf/gxf/behavior_tree/parallel_behavior.cpp:80-167 | what an entity can achieve is not taken away by ticks that achieve nothing |
| `BehaviorTreeProgress.FailureShows` | com_nvidia_gxf/gxf/behavior_tree/entity_count_failure_repeat_controller.cpp:67-103 | a composite fails once; it shows FAILURE ever after, or RUNNING ever after exactly if its controller is configured to and allows a repeat |
| `BehaviorTreePolls.FailuresShown` | com_nvidia_gxf/gxf/behavior_tree/entity_count_failure_repeat_controller.cpp:36-103 | in every interleaving of every tree: an entity is active exactly until it has failed once more than its repeat limit, and once it has failed it shows RUNNING if so configured and within the limit, else FAILURE; one that never failed does not show FAILURE |
| `BehaviorTreePolls.ConstantRepeats` | com_nvidia_gxf/gxf/behavior_tree/constant_behavior.cpp:30-55 | every tick of a failing constant counts one failure, and past the repeat limit deactivates it; a succeeding one settles with SUCCESS; nothing else changes |
| `BehaviorTreeThresholds.DecisiveExactly` | com_nvidia_gxf/gxf/behavior_tree/parallel_behavior.cpp:134-166 | for all thresholds and all positive numbers of children: every run of every parallel over constants can be completed if and only if the thresholds give a verdict on every outcome |
| `BehaviorTreeThresholds.IndecisionHangs` | com_nvidia_gxf/gxf/behavior_tree/parallel_behavior.cpp:134-166 | otherwise there are constants and a run after which no continuation ever settles the root |
| `BehaviorTreeProgress.UndecidedForever` | com_nvidia_gxf/gxf/behavior_tree/parallel_behavior.cpp:134-166 | in every tree, a parallel whose settled children give no verdict stays unfinished whatever is ticked |
| `BehaviorTreeProgress.TickKeepsUndecided` | com_nvidia_gxf/gxf/behavior_tree/parallel_behavior.cpp:134-166 | no single tick ends that situation |
| `BehaviorTreeThresholds.RaceDependsOnInterleaving` | com_nvidia_gxf/gxf/behavior_tree/parallel_behavior.cpp:134-165 | for all thresholds and numbers of children that leave the outcome open: a parallel over constants that one interleaving settles with SUCCESS and another with FAILURE |
| `BehaviorExecutors.BehaviorExecutor.constructor` | com_nvidia_gxf/gxf/std/scheduling_terms.cpp:539-543 | the root is READY, everything else in WAIT, and nothing has been ticked |
| `BehaviorExecutors.BehaviorExecutor.Step` | com_nvidia_gxf/gxf/std/entity_executor.cpp:365-476 | one step of the executor is one more entry of the interleaving; the entities then satisfy the invariant, and show values if outcomes are fixed |
| `BehaviorExecutors.BehaviorExecutor.TickEntity` | com_nvidia_gxf/gxf/behavior_tree/entity_count_failure_repeat_controller.cpp:36-51 | an enabled entity's codelet ticks and its controller decides what is stored; any other entity is left alone |
| `BehaviorExecutors.BehaviorExecutor.TickCodelet` | com_nvidia_gxf/gxf/behavior_tree/sequence_behavior.cpp:67-133 | every codelet's tick does what the model says |
| `BehaviorExecutors.BehaviorExecutor.ControlEntity` | com_nvidia_gxf/gxf/behavior_tree/entity_count_failure_repeat_controller.cpp:36-103 | the status follows the tick result; a failure counts as a repeat, shown as RUNNING if so configured and repeats are left, and past the limit deactivates the entity |
| `BehaviorExecutors.BehaviorExecutor.ConstantTick` | com_nvidia_gxf/gxf/behavior_tree/constant_behavior.cpp:30-55 | sets its own condition by its configured outcome and returns it |
| `BehaviorExecutors.BehaviorExecutor.SequenceTick` | com_nvidia_gxf/gxf/behavior_tree/sequence_behavior.cpp:67-133 | does what the model says to conditions and child index |
| `BehaviorExecutors.BehaviorExecutor.SelectorTick` | com_nvidia_gxf/gxf/behavior_tree/selector_behavior.cpp:66-120 | does what the model says to conditions and child index |
| `BehaviorExecutors.BehaviorExecutor.SwitchTick` | com_nvidia_gxf/gxf/behavior_tree/switch_behavior.cpp:70-114 | does what the model says to conditions and child index |
| `BehaviorExecutors.BehaviorExecutor.ParallelTick` | com_nvidia_gxf/gxf/behavior_tree/parallel_behavior.cpp:80-167 | counts the children and does what the model says to conditions and statuses, which `ParallelPoll` states in plain numbers |
| `BehaviorExecutors.BehaviorExecutor.CountChildren` | com_nvidia_gxf/gxf/behavior_tree/parallel_behavior.cpp:104-132 | the counting loop returns the numbers of successes and failures, unless some child's status is unknown |
| `BehaviorExecutors.BehaviorExecutor.SetAllChildren` | com_nvidia_gxf/gxf/behavior_tree/parallel_behavior.cpp:47-57 | the loop sets the condition of every child and of nothing else |
| `BehaviorExecutors.BehaviorExecutor.GetChildStatus` | com_nvidia_gxf/gxf/behavior_tree/sequence_behavior.cpp:48-65 | the stored status of a child, or UNKNOWN past the last |
| `BenchmarkResults.ConcludedHistories` | com_nvidia_gxf/gxf/benchmark/benchmark_controller.cpp:441-558 | when a test case is concluded, in every run, the count is the configured number of iterations and every calculator's and profiler's history has exactly that many results, the k-th made of exactly what arrived, was published and was sampled in the k-th counted iteration, in order; so nothing is lost and the trial's result is not among them |
| `BenchmarkResults.RunExact` | com_nvidia_gxf/gxf/benchmark/benchmark_controller.cpp:441-546 | in every state of every run sinks, calculators, profilers and publishers hold exactly what happened, in the iterations it belongs to, and nothing else |
| `BenchmarkResults.RunKeepsWiring` | com_nvidia_gxf/gxf/benchmark/benchmark_controller.cpp:188-272 | no run changes which publisher a sink looks at, how many calculators it has, or any limit |
| `BenchmarkResults.ResetKeepsExact` | com_nvidia_gxf/gxf/benchmark/benchmark_controller.cpp:422-439 | a reset leaves all histories empty and everything else exact |
| `BenchmarkResults.StartKeepsExact` | com_nvidia_gxf/gxf/benchmark/benchmark_controller.cpp:441-492 | starting an iteration forgets the trial's results before the first counted one, keeps all others, and starts recording afresh |
| `BenchmarkResults.EndKeepsExact` | com_nvidia_gxf/gxf/benchmark/benchmark_controller.cpp:494-527 | an iteration that ends keeps everything it recorded |
| `BenchmarkResults.SummarizeKeepsExact` | com_nvidia_gxf/gxf/benchmark/benchmark_controller.cpp:529-546 | a summary adds one result, of exactly the iteration just ended, to every history |
| `BenchmarkRuns.RecordingOnlyWhileRunning` | com_nvidia_gxf/gxf/benchmark/benchmark_controller.cpp:441-527 | at every moment of every run sinks record and profilers profile exactly while an iteration runs, and publishers are enabled only then |
| `BenchmarkRuns.RunInv` | com_nvidia_gxf/gxf/benchmark/benchmark_controller.cpp:188-272 | no run fails: no profiler is begun while active or ended while inactive, whatever happens between the ticks |
| `BenchmarkRuns.RoundsAtConclusion` | com_nvidia_gxf/gxf/benchmark/benchmark_controller.cpp:441-492 | as many iterations are started as configured, and one more for the trial unless none are configured |
| `BenchmarkRuns.TickCountsDown` | com_nvidia_gxf/gxf/benchmark/benchmark_controller.cpp:188-272 | every controller tick waits, in one of the phases that may, or brings the end closer; from the set-up on by exactly one of a known number of ticks |
| `BenchmarkRuns.PhaseChangesBounded` | com_nvidia_gxf/gxf/benchmark/benchmark_controller.cpp:188-272 | no run changes phase more often than 9 times plus three times per iteration and trial |
| `BenchmarkRuns.BooleanTermTerminates` | com_nvidia_gxf/gxf/benchmark/benchmark_controller.cpp:339-400 | with a boolean term configured the first controller tick in the buffering phase decides the whole run: the process is given up, in every continuation, exactly if some buffer is not full at that tick |
| `BenchmarkRuns.BufferingOnceExactly` | com_nvidia_gxf/gxf/benchmark/benchmark_controller.cpp:339-400 | with publishers, no run handles the buffering phase more than once, if and only if a boolean term is configured; without one it can be handled any number of times |
| `BenchmarkRuns.BufferingMayContinue` | com_nvidia_gxf/gxf/benchmark/benchmark_controller.cpp:339-400 | some readings keep an unfinished buffering going, if and only if no boolean term is configured |
| `BenchmarkPhases.BufferingDecides` | com_nvidia_gxf/gxf/benchmark/benchmark_controller.cpp:322-420 | in every run without boolean terms a Buffering tick stops buffering if all buffers are full, and the next tick goes on to the set-up; otherwise it stays exactly if the time is at most that of the StartBuffering tick plus the configured timeout and all data sources are done; otherwise it gives up |
| `BenchmarkPhases.BufferingGivenUp` | com_nvidia_gxf/gxf/benchmark/benchmark_controller.cpp:340-400 | once given up, every continuation of the run succeeds and stays in the terminating phases |
| `BenchmarkPhases.WaitsForDependencies` | com_nvidia_gxf/gxf/benchmark/benchmark_controller.cpp:274-320 | in every run the controller waits at first exactly if it has dependencies, then for as long as they are not ready, and then buffers exactly if it has publishers |
| `BenchmarkPhases.NextTarget` | com_nvidia_gxf/gxf/benchmark/benchmark_controller.cpp:259-272 | the next tick is due at the deadline set by the last StartBuffering or iteration start, or at once if that has passed |
| `BenchmarkPhases.PublisherStops` | com_nvidia_gxf/gxf/benchmark/benchmark_publisher.cpp:49-69 | an enabled publisher over a buffer with messages publishes one more, or, with its limit reached, stops itself and publishes nothing |
| `BenchmarkPhases.PublicationsLimited` | com_nvidia_gxf/gxf/benchmark/benchmark_publisher.cpp:49-69 | in no run does a publisher with a limit publish more than that many messages in one iteration |
| `BenchmarkIterations.IterationLength` | com_nvidia_gxf/gxf/benchmark/benchmark_controller.cpp:489-499 | an iteration ends with the first controller tick no earlier than the configured duration after its start |
| `BenchmarkResults.IterationResult` | com_nvidia_gxf/gxf/benchmark/benchmark_sink.cpp:65-129 | in every run a summary hands every calculator exactly the messages that arrived at its sink while the iteration ran, with exactly the publications or acquisition times that go with them, and adds to every profiler's history exactly its samples |
| `BenchmarkResults.RunningRecordsAll` | com_nvidia_gxf/gxf/benchmark/benchmark_sink.cpp:65-84 | in every state of every run in an iteration, the lists of received times, acquisition times, samples and publications are exactly what happened since it began |
| `BenchmarkIterations.IterationBegins` | com_nvidia_gxf/gxf/benchmark/benchmark_controller.cpp:468-491 | an iteration begins with everything on, all four kinds of lists empty, and its deadline the duration away |
| `BenchmarkControllers.BenchmarkController.constructor` | com_nvidia_gxf/gxf/benchmark/benchmark_controller.cpp:171-186 | publishers wait, the controller is in its initial phase and nothing has happened to it |
| `BenchmarkControllers.BenchmarkController.Tick` | com_nvidia_gxf/gxf/benchmark/benchmark_controller.cpp:188-272 | a controller tick never fails, and the controller and its components are again the outcome of a run: of what happened before, and this tick |
| `BenchmarkControllers.BenchmarkController.HandlePhase` | com_nvidia_gxf/gxf/benchmark/benchmark_controller.cpp:196-257 | each phase is handled as the model says |
| `BenchmarkControllers.BenchmarkController.HandleBuffering` | com_nvidia_gxf/gxf/benchmark/benchmark_controller.cpp:339-400 | stops buffering exactly if every buffer is full; otherwise goes on exactly if the deadline has not passed, every data source is done and no boolean term is configured; otherwise gives up |
| `BenchmarkControllers.BenchmarkController.HandleSetUpTestCase` | com_nvidia_gxf/gxf/benchmark/benchmark_controller.cpp:422-439 | counts from 0, with a trial if configured, on empty histories |
| `BenchmarkControllers.BenchmarkController.HandleStartRunning` | com_nvidia_gxf/gxf/benchmark/benchmark_controller.cpp:441-492 | does what the model says, or fails with the first profiler already active |
| `BenchmarkControllers.BenchmarkController.HandleRunning` | com_nvidia_gxf/gxf/benchmark/benchmark_controller.cpp:494-527 | does what the model says, or fails with the first profiler already inactive |
| `BenchmarkControllers.BenchmarkController.HandleSummarize` | com_nvidia_gxf/gxf/benchmark/benchmark_controller.cpp:529-546 | does what the model says |
| `BenchmarkControllers.BenchmarkController.ComputeBenchmarkSinks` | com_nvidia_gxf/gxf/benchmark/benchmark_controller.cpp:591-598 | the loop adds one entry to every calculator of every sink |
| `BenchmarkControllers.BenchmarkController.ComputeResourceProfilers` | com_nvidia_gxf/gxf/benchmark/resource_profiler_base.cpp:108-113 | the loop adds one entry to every profiler's history |
| `BenchmarkControllers.BenchmarkController.ResetResourceProfilers` | com_nvidia_gxf/gxf/benchmark/resource_profiler_base.cpp:96-106 | the loop clears every profiler's samples and history |
| `BenchmarkControllers.BenchmarkController.ResetBenchmarkSinks` | com_nvidia_gxf/gxf/benchmark/benchmark_sink.cpp:103-109 | the loop clears every sink's lists and every calculator's history |
| `BenchmarkControllers.BenchmarkController.ClearBenchmarkSinks` | com_nvidia_gxf/gxf/benchmark/benchmark_controller.cpp:690-694 | the loop clears every sink's lists and nothing else |
| `BenchmarkControllers.BenchmarkController.ClearBenchmarkPublishers` | com_nvidia_gxf/gxf/benchmark/benchmark_controller.cpp:696-700 | the loop clears every publisher's list |
| `BenchmarkControllers.BenchmarkController.SetPublishers` | com_nvidia_gxf/gxf/benchmark/benchmark_controller.cpp:702-707 | the loop enables or stops every publisher |
| `BenchmarkControllers.BenchmarkController.SignalBeginBenchmarking` | com_nvidia_gxf/gxf/benchmark/benchmark_controller.cpp:638-652 | begins every sink, and every profiler unless one is already active, which is the only way to fail |
| `BenchmarkControllers.BenchmarkController.SignalEndToResourceProfilers` | com_nvidia_gxf/gxf/benchmark/benchmark_controller.cpp:654-661 | ends every profiler unless one is already inactive, which is the only way to fail |
| `BenchmarkControllers.BenchmarkController.SignalEndToBenchmarkSinks` | com_nvidia_gxf/gxf/benchmark/benchmark_controller.cpp:663-670 | ends every sink |
| `BenchmarkControllers.BenchmarkController.SinkTick` | com_nvidia_gxf/gxf/benchmark/benchmark_sink.cpp:65-84 | the arrival of a message at one sink object is one more event of the controller's run |
| `BenchmarkControllers.BenchmarkController.PublisherTick` | com_nvidia_gxf/gxf/benchmark/benchmark_publisher.cpp:49-69 | so is a tick of one publisher object |
| `BenchmarkControllers.BenchmarkController.ProfilerTick` | com_nvidia_gxf/gxf/benchmark/resource_profiler_base.cpp:73-82 | so is a sample of one profiler object |
| `BenchmarkControllers.BenchmarkController.HoldsConcludedHistories` | com_nvidia_gxf/gxf/benchmark/benchmark_controller.cpp:548-558 | once a controller has concluded, its own calculators and profilers hold exactly what happened to it in each counted iteration |
| `BenchmarkControllers.BenchmarkController.RecordsWhileRunning` | com_nvidia_gxf/gxf/benchmark/benchmark_controller.cpp:441-527 | a controller's sinks record and its profilers profile exactly while an iteration runs |
| `BenchmarkControllers.BenchmarkController.AreAllBuffersFull` | com_nvidia_gxf/gxf/benchmark/benchmark_controller.cpp:610-617 | the loop finds whether every buffer is full |
| `BenchmarkControllers.BenchmarkController.ComputeBenchmarkSink` | com_nvidia_gxf/gxf/benchmark/benchmark_sink.cpp:111-129 | picks the acquisition times or the publisher's times, and hands them to every calculator |
| `BenchmarkComponents.BenchmarkSink.Tick` | com_nvidia_gxf/gxf/benchmark/benchmark_sink.cpp:65-84 | a message is recorded while the sink records, with its acquisition time if configured, and otherwise dropped |
| `BenchmarkComponents.BenchmarkSink.Begin` | com_nvidia_gxf/gxf/benchmark/benchmark_sink.cpp:86-93 | starts recording on empty lists and keeps the calculators' histories |
| `BenchmarkComponents.BenchmarkSink.Reset` | com_nvidia_gxf/gxf/benchmark/benchmark_sink.cpp:103-109 | empties the lists and every calculator's history |
| `BenchmarkComponents.BenchmarkSink.Compute` | com_nvidia_gxf/gxf/benchmark/benchmark_sink.cpp:111-129 | gives every calculator one more entry, of the same two lists |
| `BenchmarkComponents.ResourceProfiler.Begin` | com_nvidia_gxf/gxf/benchmark/resource_profiler_base.cpp:53-84 | fails and changes nothing if already active; otherwise starts on no samples |
| `BenchmarkComponents.ResourceProfiler.End` | com_nvidia_gxf/gxf/benchmark/resource_profiler_base.cpp:86-94 | fails if already inactive; otherwise stops and keeps the samples |
| `BenchmarkComponents.BenchmarkPublisher.Tick` | com_nvidia_gxf/gxf/benchmark/benchmark_publisher.cpp:49-69 | publishes the next message or, at its limit, stops itself; nothing without buffered messages |
| `AllocatorBenchmarks.RunFollowsClock` | com_nvidia_gxf/gxf/benchmark/benchmark_allocator.cpp:51-125 | with at least one block every run succeeds, and after any number of ticks the state, the blocks held and the allocations made are those of the clock |
| `AllocatorBenchmarks.WholeCycles` | com_nvidia_gxf/gxf/benchmark/benchmark_allocator.cpp:51-125 | after every 2 * blocks * iterations + 1 ticks the state is the initial one, and exactly blocks * iterations blocks per cycle were allocated and freed in the same order |
| `AllocatorBenchmarks.FirstInFirstOut` | com_nvidia_gxf/gxf/benchmark/benchmark_allocator.cpp:63-99 | at every tick of every run the blocks freed are the first ones allocated, and at most the configured number are held |
| `AllocatorBenchmarks.ActionAt` | com_nvidia_gxf/gxf/benchmark/benchmark_allocator.cpp:51-125 | the whole schedule of every run: in each iteration first the configured number of allocations, then as many frees, each of the block allocated longest ago; between cycles one tick that does neither |
| `AllocatorBenchmarks.CycleStarts` | com_nvidia_gxf/gxf/benchmark/benchmark_allocator.cpp:115-122 | the clock starts over after every 2 * blocks * iterations + 1 ticks |
| `AllocatorBenchmarks.RunsSucceedExactlyWhen` | com_nvidia_gxf/gxf/benchmark/benchmark_allocator.cpp:81-86 | all runs succeed exactly when there is a block to allocate or no iteration to run |
| `AllocatorBenchmarks.SinkRecordsAll` | com_nvidia_gxf/gxf/benchmark/benchmark_allocator_sink.cpp:56-93 | a benchmarking sink records every message of a run: each of its four lists grows by exactly the acquisition or publication times of the messages of its kind, in order, one for every tick of that kind |
| `AllocatorBenchmarks.ReceivesAll` | com_nvidia_gxf/gxf/benchmark/benchmark_allocator_sink.cpp:56-93 | a sink takes in any messages of the two kinds without failing: all of them, in order, while benchmarking, and none otherwise |
| `AllocatorBenchmarks.RejectsUnknown` | com_nvidia_gxf/gxf/benchmark/benchmark_allocator_sink.cpp:56-93 | taking in messages fails exactly if the sink is benchmarking and one of them is of neither kind |
| `AllocatorBenchmarks.SinkAfterWholeCycles` | com_nvidia_gxf/gxf/benchmark/benchmark_allocator_sink.cpp:56-93 | once all messages of whole cycles are in, all four lists have one entry per block, iteration and cycle |
| `AllocatorBenchmarks.BenchmarkAllocator.constructor` | com_nvidia_gxf/gxf/benchmark/benchmark_allocator.cpp:43-49 | starts with nothing allocated |
| `AllocatorBenchmarks.BenchmarkAllocator.TickOnce` | com_nvidia_gxf/gxf/benchmark/benchmark_allocator.cpp:51-125 | a tick does what the model says |
| `AllocatorBenchmarks.BenchmarkAllocatorSink.constructor` | com_nvidia_gxf/gxf/benchmark/benchmark_allocator_sink.cpp:50-54 | benchmarks from the start |
| `AllocatorBenchmarks.BenchmarkAllocatorSink.TickOnce` | com_nvidia_gxf/gxf/benchmark/benchmark_allocator_sink.cpp:56-93 | records a message as the model says, fails on one of neither kind, and keeps the pairs equally long |
| `AllocatorBenchmarks.BenchmarkAllocatorSink.Begin` | com_nvidia_gxf/gxf/benchmark/benchmark_allocator_sink.cpp:95-102 | starts recording on empty lists |
| `AllocatorBenchmarks.BenchmarkAllocatorSink.End` | com_nvidia_gxf/gxf/benchmark/benchmark_allocator_sink.cpp:104-110 | stops recording and keeps the lists |
| `AllocatorBenchmarks.BenchmarkAllocatorSink.ClearRecordedTimestamps` | com_nvidia_gxf/gxf/benchmark/benchmark_allocator_sink.cpp:157-169 | empties all four lists |
| `EntityHandles.HeldIsCounted` | com_nvidia_gxf/gxf/core/entity.hpp:33-39 | an entity that a live handle holds exists and has a count of at least one |
| `EntityHandles.LastHolderReleases` | com_nvidia_gxf/gxf/core/entity.hpp:183-191 | releasing a handle ends its entity exactly if no other handle holds it and no reference is left unowned |
| `EntityHandles.NoHandlesNoCounts` | com_nvidia_gxf/gxf/core/entity.hpp:183-191 | with all handles destroyed and no reference left unowned, every count is zero |
| `EntityHandles.NothingLeaks` | com_nvidia_gxf/gxf/core/entity.hpp:33-39 | over every sequence of constructor, assignment and destructor calls every handle's entity exists, and once all references are gone exactly the entities that were never referenced remain |
| `EntityHandles.RemainingExactly` | com_nvidia_gxf/gxf/std/entity_warden.cpp:889-925 | from balanced books without references one can tell which entities remain: those never referenced |
| `EntityHandles.StepKeepsBooks` | com_nvidia_gxf/gxf/core/entity.hpp:70-191 | every call keeps the books: counts equal handles plus unowned references, and exactly the never-referenced entities have none |
| `EntityHandles.StepInFull` | com_nvidia_gxf/gxf/core/entity.hpp:70-191 | after every possible call of every sequence: which handles there are, what each holds, which references are unowned, which entities exist, and every count |
| `EntityHandles.OwnedIsHeld` | com_nvidia_gxf/gxf/core/entity.hpp:70-76 | in every sequence of calls a handle made of an unowned reference holds it, the reference is no longer unowned, and no other handle or count changes |
| `EntityHandles.OthersSurvive` | com_nvidia_gxf/gxf/core/entity.hpp:142-181 | what another handle holds outlives the release in an assignment |
| `EntityHandles.BalanceShare` | com_nvidia_gxf/gxf/core/entity.hpp:87-98 | taking a reference for a new holder keeps every count equal to handles plus unowned references |
| `EntityHandles.BalanceOwn` | com_nvidia_gxf/gxf/core/entity.hpp:70-76 | so does adopting an unowned reference, without a count changing |
| `EntityHandles.BalanceRelease` | com_nvidia_gxf/gxf/core/entity.hpp:550-555 | so does releasing a holder, for the entity released and all others |
| `EntityHandles.BalanceMove` | com_nvidia_gxf/gxf/core/entity.hpp:127-134 | so does moving from one holder to another, without a count changing |
| `EntityHandles.Entity.Own` | com_nvidia_gxf/gxf/core/entity.hpp:70-76 | adopts a reference taken before: the handle has its context and uid and holds it, the reference is no longer unowned; a null uid makes a null handle; no count changes |
| `EntityHandles.Entity.Shared` | com_nvidia_gxf/gxf/core/entity.hpp:87-98 | fails exactly for an invalid context, and then changes nothing, the destruction of the half-made handle included; otherwise the handle has the given context and uid and a reference of its own, and exactly that count goes up |
| `EntityHandles.Entity.Copy` | com_nvidia_gxf/gxf/core/entity.hpp:112-120 | the copy has the context and uid of the original, with a reference of its own |
| `EntityHandles.Entity.Move` | com_nvidia_gxf/gxf/core/entity.hpp:127-134 | the new handle has the context and uid the old one had, which is null afterwards; no count changes |
| `EntityHandles.Entity.Release` | com_nvidia_gxf/gxf/core/entity.hpp:550-555 | gives up exactly this handle's reference; the books balance in the state this leaves, also midway through an assignment |
| `EntityHandles.Runtime.Increment` | com_nvidia_gxf/gxf/std/entity_warden.cpp:907-921 | raises the count of an entity; fails exactly for an invalid context |
| `EntityHandles.Runtime.Decrement` | com_nvidia_gxf/gxf/std/entity_warden.cpp:889-905 | lowers the count of an entity, which is gone at zero, and leaves an entity that was never counted |
| `EntityHandles.Entity.CopyAssign` | com_nvidia_gxf/gxf/core/entity.hpp:142-158 | this handle ends with the other's context and uid; nothing happens between handles of the same entity, otherwise it gives up what it held and takes a reference to what the other holds |
| `EntityHandles.Entity.MoveAssign` | com_nvidia_gxf/gxf/core/entity.hpp:166-181 | this handle ends with the context and uid the other had, and the other is null; a handle moved to itself is unchanged |
| `EntityHandles.Entity.Destroy` | com_nvidia_gxf/gxf/core/entity.hpp:187-191 | the handle gives up what it holds and is no more |
| `SegmentPorts.ParsePrint` | com_nvidia_gxf/gxf/app/segment.hpp:104-127 | parsing the printed form of a port gives the port back exactly if its entity has no dot and either it has no segment and its queue has not exactly one dot, or none of its parts has a dot |
| `SegmentPorts.PrintParse` | com_nvidia_gxf/gxf/app/segment.hpp:68-119 | printing the parse of a name gives the name back exactly if it has a dot and is not a two-dot name beginning with a dot |
| `SegmentPorts.SplitsInThree` | com_nvidia_gxf/gxf/app/segment.hpp:86-102 | a name of three parts without dots is parsed into these parts |
| `SegmentPorts.SplitsInTwo` | com_nvidia_gxf/gxf/app/segment.hpp:69-85 | a name whose first dot ends the entity, with a queue that does not make it a two-dot name, is parsed into entity and queue |
| `SegmentPorts.ParsedParts` | com_nvidia_gxf/gxf/app/segment.hpp:112-119 | which parts of a parsed name can contain dots, and how many |
| `SegmentPorts.ParsedByDots` | com_nvidia_gxf/gxf/app/segment.hpp:68-119 | the parse of every name, by its dots: nothing without a dot, entity and queue at one, segment, entity and queue at two, and entity and a queue with dots at three or more |

## Left out

- UidTables.EmplaceOutcome: stated for capacities below 2^32; at 2^32 the uid returned may be one issued before (`UidCapacity.ReusesAtFull`).
- UidTables.IssueBound: stated for capacities below 2^32; at 2^32 one uid can be erased again and again, and issues are not bounded this way.
- UidTables.Run: stated for capacities below 2^32, where the invariant holds; `UidCapacity.RawRun` is the same without it, for all capacities.
- UidTables.StartKeepsInv: stated for capacities below 2^32; at 2^32 the initial chain does not end outside the table (`LastWordOutsideTable`).
- UidTables.UidsNeverReused: stated for capacities below 2^32, which are exactly those for which it holds (`UidCapacity.KeptExactly`), as is `UidTables.ErasedStaysInvalid`.
- UniqueIndexMaps.UniqueIndexMap.Initialize: allocates successfully; initializing a container in use drops its objects without destroying them, and nothing is promised of the container afterwards.
- FixedMaps.FixedMap.Advance: does not say what happens to an iterator at the end of a table with buckets, for which the original first reads the bucket past the last, also when going back.
- `RepeatBehavior` and `TimerBehavior`, which depend on how the executor restarts a settled entity, and on floating-point seconds.
- BehaviorExecutors.BehaviorExecutor.Step: keeps the entities in one array instead of one object per codelet; children are entity numbers instead of handles to scheduling terms.
- BehaviorExecutors.BehaviorExecutor.SwitchTick: a desired behavior is one of the children; past the last the original ends the process at its first tick.
- BenchmarkControllers.BenchmarkController.Tick: a component listed twice, or a calculator shared by two sinks, is not captured.
- BenchmarkComponents.BenchmarkSink.Compute: a sink names its publisher by its place in the controller's list, so a publisher the controller does not know is not captured.
- BenchmarkModel.Handle: leaves out the data sources' own scheduling terms, the replay commands, reports and the process exit, except that the last is a phase with nothing after it.
- EntityHandles.Entity.Own: a uid that is not null comes with a reference taken before, as ownership means; without one the runtime would count one reference too few.
- EntityHandles.Entity.Shared: in a valid context the uid is that of an existing entity, as its documentation asks; the runtime would count references to any other number too.
- Move construction and move assignment of the two containers, which hand over or swap their fields.
- The metric computations and the filtering of extreme values, which are floating-point arithmetic; a result is the data it is computed from.
- Explicit destruction of entities, and `activate`, `deactivate` and component access, which only call the runtime; calls from several threads.
- `Segment`, applications, drivers and workers: parameter storage and network plumbing.
- The other containers (`FixedVector`, `FixedString`, `Expected`, `Span`) and the utility templates.
