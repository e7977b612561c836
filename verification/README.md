# Verified model of the rostl oblivious library

This project models the oblivious data structures and networks of rostl in Dafny and proves what they are for: that the
branch-free code, written so that its memory accesses do not depend on the data, still computes what its plain
counterpart would. `dafny verify dfyconfig.toml` checks everything.

Three groups of code are modelled, with the layers between them.

**The Circuit ORAM stack.** `Blocks`, `HeapTree`, `Eviction` and `CircuitOram` follow the tree of buckets, the stash and
the three-pass eviction with its single carried block; `EvictionSpec` says what an eviction does to every slot without
mentioning the passes. The class `CircuitOram` has a ghost map from keys to positions and values; every operation states
exactly what it does to that map, that stash and tree together keep holding it, and which evictions it makes: a ghost
result lists the states of stash and tree after each of them. `RecursiveOram` chains ORAMs into a position map and shows
that it is a plain array of positions; `DynamicArray` puts a data ORAM on top, `MultiWayArray` several arrays in one
data ORAM, and `ObliviousHeap` keeps a minimum of every subtree beside the tree. `LinearOram` holds the linear scans and
the windowed copy.

**The in-place networks.** `Networks` treats sorters as lists of comparators that do not depend on the data, and proves
the 0-1 principle for them. `Bitonic`, `Batcher` and `BoseNelson` prove, for every length, that their networks sort
bits; the methods beside them (`BitonicSort` for the first) have the loops and recursions of the source on arrays and
are proved to carry out exactly those networks. `TiedSort` follows equal elements through the bitonic networks.
`Compaction` defines compaction and distribution on sequences and proves where marked elements go and that the two undo
each other, `CompactedRest` where all the others go; `CompactInPlace` does both in place on slices of an array.
`Goodrich` is the compaction by binary digits, `Rotate` the rotation by conditional reversals, `PowerOfTwo` and `Bits`
the word arithmetic they use.

**The maps.** `ShortQueue` is the queue ordered by timestamps, `UnsortedMap` the cuckoo map with its queue of pending
insertions; `InsertionLaws` says what insertions do whatever is hashed and drawn, and `MissedKey` is a run after which a
lookup misses a stored key. `BatchRouting`, `BatchSteps`, `BatchPipeline` and `ShardedMap` follow a batch through
sorting, removal of repeated keys, equal shares, stretches of 32 keys, answers in any order, and the way back, for which
`Slotwise` shows that compaction and distribution move slots blindly. `Workers` holds the cuckoo maps of the partitions.
`BatchKeys` says what the sorted batch tells about the keys that were asked for, `ChosenValues` which value of a
repeated key is inserted, and `RepeatedKeys` shows runs of both batch operations that go wrong.

## How the code is represented

- A conditional move is a conditional assignment and a conditional swap a conditional exchange. Vectors that belong to
  an object are sequence fields that the methods reassign; the sorters, compactions and rotations work on arrays in
  place.
- Machine integers are unbounded numbers with the bounds that matter stated: positions are below 2^32, an ORAM has at
  most 2^31 leaves (height 32; at height 33 `max_n as u32` is 0), slices are shorter than 2^63. Counters and timestamps
  do not wrap. Bitwise operators are defined on binary digits.
- A random position is any number in range; the cuckoo map takes the random slots that an insertion draws as an
  argument. Hash functions are arbitrary functions.
- A stash can overflow, which the source excludes only with high probability. The external invariant Inv1, an empty slot
  among the first slots of the stash, is required before an operation and its truth afterwards is the result `ok`; what
  the operation does to the represented map is stated in both cases for the ORAM, and for the structures above it when
  `ok` holds. In the same way the load check of a batch is the result `ok`.
- Repeated pieces of a method, such as the body of a loop or one of several recursive calls, are methods of their own.
  Several named members only carry a proof; they have no row below.
- Orders are arbitrary total preorders for the sorters, and total orders on keys for the sharded map. An ascending
  compare-swap exchanges strict inversions only; a descending one exchanges ties too, as in the source.
- A worker of the sharded map is the cuckoo map it holds. The replies to a batch are a bag from which any one may arrive
  next. A worker whose queue is full stops at an assertion, which the results `count` and `done` tell.

## What the code does beyond or short of its documentation

- `oblivious_memcpy` documents arbitrary old data past the end of the source; the model says which slot of the old
  destination each such slot gets. An empty destination is excluded: the code divides by its length.
- `get_strictly_bigger_power_of_two` is correct below 2^63. At 2^63 the addition saturates and the result is no power of
  two. The loop form overflows from 2^63 on: a panic in debug builds, and otherwise a loop that never ends.
- `UnsortedMap::get` scans only the first `size` slots of the queue. It finds every stored key exactly when no later
  slot is in use (`FindsAllIffNoHoles`). Insertions do leave such slots: with two elements waiting, an insertion whose
  first try succeeds and whose second one fails leaves the new element in the third slot of a queue of size two
  (`MissStoredKey`).
- The loop of `get_batch` that copies results to repeated keys compares the prefix sum one place off. It does what it is
  for, for all results, exactly when there are no repeated keys (`PropagationIffDistinct`). With repeated keys, the
  first place of a key gets its answer unless the key before it, by partition and then by key, is repeated; then it gets
  what was answered to the second item of that key. All other places of a key get the answer to its second item, which
  is right or none, and none if the share of its partition is full (`ResultIs`, `GetBatch`). So [k, k, x] misses x
  (`MissedByBatch`); with shares of one slot, [k, k] finds k in one place only (`MissedInOnePlace`), and [k, k, x, x]
  finds x nowhere (`MissedEverywhere`).
- `insert_batch` documents that the first occurrence of a repeated key is used. The sort exchanges equal items in its
  descending parts, so that this holds for all batches of n keys exactly when n is at most 2 (`FirstsSentIff`), and for
  all batches of different keys. Four items with one key send the second value (`LaterValueSent`). Keys that the map
  holds already are inserted once more, as the workers insert without looking. A lookup of such a key returns the value
  at the last of the places where it looks that hold the key (`Get`).
- Both batcher forms carry out the same network, so the form that the source marks as untrusted sorts as well.
- `get_smaller_or_equal_power_of_two` is 0 for 0, and 2^63 - 1 for 2^63, which is no power of two.
- `find_min` finds nothing in a heap whose keys are all the largest one, which marks empty nodes. `extract_min` then
  visits the position of a dummy, which is no path of the tree and which the debug assertion on paths rejects; without
  debug assertions it deletes the element of timestamp 0 if the stash or that path holds it (`ExtractMin`).
- `resize` to fewer elements writes the elements past the new end as well. The position map takes a key past its last
  one for its remainder (`AccessPosition`), so from more than 2048 elements to at most 2048, or across any later level,
  the positions of elements that are kept are overwritten: index 0 gets the position of the last old index that shares
  its place (`Resize`). This, too, needs debug assertions off.
- The ORAM constructor with given blocks looks for block i on path i. A key that is listed twice is replaced only if its
  first position is the number of the second (`NewWithPositionsAndValues`).

## Model

| member | source | states |
|---|---|---|
| `Eviction.EvictOnceFast` | crates/oram/src/circuit_oram.rs:279-396 | one eviction pass keeps the multiset of real blocks, moves none towards the root and keeps every block legal for its level; exactly one block crosses into each level from which free slots can be reached, the first of those above that can sink deepest, and no block crosses into any other; every slot ends up with the block that this determines, the first free slot of a level taking a block that comes to rest there |
| `Eviction.PlansEvict` | crates/oram/src/circuit_oram.rs:279-396 | carrying out any plan of the first two passes has all of those effects |
| `Eviction.PrepareDeepest` | crates/oram/src/circuit_oram.rs:291-324 | `deepest[i]` names the level above i that holds the first of the blocks above i that can sink deepest, if that block reaches level i; `deepest_idx` names its slot |
| `Eviction.PrepareTarget` | crates/oram/src/circuit_oram.rs:326-339 | the arrows of the plan do not overlap, each lands on a level with a free slot or on the start of another arrow, and every level that can be served is served |
| `Eviction.PlansAreExecutable` | crates/oram/src/circuit_oram.rs:326-339 | a plan's sources hold a real block that may lie at the planned level |
| `Eviction.MoveBlocks` | crates/oram/src/circuit_oram.rs:341-395 | with one carried block, level by level, the blocks end up where the plan says, slot by slot, and nothing is lost |
| `Eviction.CrossingIffCrosses` | crates/oram/src/circuit_oram.rs:279-339 | an arrow of the plan passes into a level exactly when all levels from there to some free slot can be reached from above, and it carries the first of the blocks above that can sink deepest |
| `Eviction.LevelsAsPlanned` | crates/oram/src/circuit_oram.rs:326-339 | the levels that start an arrow are those that give up a block, and the levels where one ends are those that take one |
| `Eviction.PlannedIsAfter` | crates/oram/src/circuit_oram.rs:341-395 | what the plan leaves in each slot is what the description of an eviction without passes says |
| `Eviction.MovedFillsDeepest` | crates/oram/src/circuit_oram.rs:279-396 | the deepest level with a free slot and a candidate block above it gains a block, and nothing moves below it |
| `Eviction.MovedStaysLegal` | crates/oram/src/circuit_oram.rs:341-395 | a block only moves to levels that its position shares with the path |
| `Eviction.ChainEndsFillable` | crates/oram/src/circuit_oram.rs:326-339 | a chain of arrows ends in a level that has a free slot |
| `EvictionSpec.FillableIs` | crates/oram/src/circuit_oram.rs:326-339 | a level counts as fillable exactly when it has a free slot and some block above it may lie there |
| `EvictionSpec.EvictionsAgree` | crates/oram/src/circuit_oram.rs:279-396 | an eviction determines every slot, up to what is left in empty ones |
| `EvictionSpec.FillableIsCrossed` | crates/oram/src/circuit_oram.rs:326-339 | every fillable level is crossed into, not only the deepest one |
| `HeapTree.SameNodeIffSharedBits` | crates/oram/src/heap_tree.rs:45-50 | two paths meet in a node of depth d exactly when their positions agree in the low d bits |
| `HeapTree.DepthsAreDisjoint` | crates/oram/src/heap_tree.rs:45-50 | nodes of different depths have different indices |
| `HeapTree.WithPathExchanges` | crates/oram/src/circuit_oram.rs:96-104 | writing a path exchanges exactly the blocks of that path |
| `HeapTree.ReadPath` | crates/oram/src/circuit_oram.rs:83-91 | the buckets of the path in order, root first |
| `HeapTree.WritePath` | crates/oram/src/circuit_oram.rs:96-104 | the tree with the buckets of the path replaced |
| `HeapTree.PathOfWritten` | crates/oram/src/circuit_oram.rs:83-104 | reading a path back after writing it gives what was written |
| `HeapTree.FlipSplits` | crates/oram/src/heap_tree.rs:72-75 | below a node the paths go through the child of the path or through its sibling |
| `CircuitOram.CircuitOram.Read` | crates/oram/src/circuit_oram.rs:440-456 | returns the value of the key as the map has it, moves the key to the new position, leaves all other keys alone; the result `ok` says whether the stash kept an empty slot; the stash and the tree afterwards are those that taking the block out, putting the new one into the first free slot, and evicting along the path, then along the path of the counter and along the next one leave, and the counter is two further |
| `CircuitOram.CircuitOram.Write` | crates/oram/src/circuit_oram.rs:471-493 | replaces the value of a stored key and nothing else; `found` says whether it was stored; the stash and the tree afterwards are those that taking the block out, putting the new one into the first free slot, and evicting along the path, then along the path of the counter and along the next one leave, and the counter is two further |
| `CircuitOram.CircuitOram.WriteOrInsert` | crates/oram/src/circuit_oram.rs:508-532 | stores the key whether or not it was there; the stash and the tree afterwards are those that taking the block out, putting the new one into the first free slot, and evicting along the path, then along the path of the counter and along the next one leave, and the counter is two further |
| `CircuitOram.CircuitOram.Update` | crates/oram/src/circuit_oram.rs:544-570 | applies the function to the stored value, or to the default value, and stores the result; the stash and the tree afterwards are those that taking the block out, putting the new one into the first free slot, and evicting along the path, then along the path of the counter and along the next one leave, and the counter is two further |
| `CircuitOram.CircuitOram.PerformDeterministicEvictions` | crates/oram/src/circuit_oram.rs:409-426 | one eviction along the path of the counter and one along the next path, cyclically, with the represented map left alone; the counter advances by two modulo the number of leaves |
| `CircuitOram.CircuitOram.PerformEviction` | crates/oram/src/circuit_oram.rs:399-404 | stash and tree afterwards are those that an eviction along the path leaves: the path is loaded behind the stash, one pass is made, and the path is written back; the represented map is left alone |
| `CircuitOram.CircuitOram.FinishAccess` | crates/oram/src/circuit_oram.rs:451-453 | every access ends with an eviction along its loaded path and two along the paths of the counter |
| `CircuitOram.CircuitOram.PlaceBlock` | crates/oram/src/circuit_oram.rs:449 | the block goes to the first free slot of the stash proper, and no other slot changes |
| `CircuitOram.CircuitOram.constructor` | crates/oram/src/circuit_oram.rs:217-235 | an empty map, with an empty stash slot; in working order exactly up to 2^31 blocks, above which the number of leaves is 0 as a 32-bit number |
| `CircuitOram.NewWithPositionsAndValues` | crates/oram/src/circuit_oram.rs:248-264 | the map of the given keys, positions and values, for every list whose blocks are written where they are looked for, as different keys are; `ok` says exactly whether the stash kept room, and above 2^31 blocks the first write stops; at least as many leaves as blocks asked for |
| `CircuitOram.ReadAndRemoveElement` | crates/oram/src/circuit_oram.rs:127-140 | takes the one block with the key out of the slots |
| `CircuitOram.RemoveElement` | crates/oram/src/circuit_oram.rs:146-158 | the same without reading the value |
| `CircuitOram.WriteBlockToEmptySlot` | crates/oram/src/circuit_oram.rs:163-175 | fills the first empty slot, if there is one |
| `CircuitOram.LoadedKeyIsInStash` | crates/oram/src/circuit_oram.rs:440-456 | once the path of its position is loaded, a stored key is among the stash slots |
| `CircuitOram.LoadedPathIsLegal` | crates/oram/src/circuit_oram.rs:83-91 | a loaded path holds only blocks that may lie where they lie |
| `CircuitOram.WrittenPathIsHome` | crates/oram/src/circuit_oram.rs:96-104 | writing back a legal path keeps every block of the tree on its own path |
| `CircuitOram.WritingBackKeepsBlocks` | crates/oram/src/circuit_oram.rs:273-276 | stash and tree together hold the same blocks before and after a path is written back |
| `RecursiveOram.RecursivePositionMap.AccessPosition` | crates/oram/src/recursive_oram.rs:145-189 | for every key: returns the position last stored for it and stores the new one; no other key changes, a key past the last one being taken for its remainder below the number of keys of the last level |
| `RecursiveOram.ReorderedOfRemainder` | crates/oram/src/recursive_oram.rs:149-186 | the digits that an access uses are those of the remainder of the key |
| `RecursiveOram.NewPositionMap` | crates/oram/src/recursive_oram.rs:73-133 | a position map for n keys, up to all that 32-bit positions allow, whose levels are linked; `ok` says exactly whether the stashes of its levels kept room |
| `RecursiveOram.ReorderedIsInjective` | crates/oram/src/recursive_oram.rs:145-189 | the digit-reordered keys of one level are different for different keys |
| `RecursiveOram.AccessKeepsLinks` | crates/oram/src/recursive_oram.rs:145-189 | after an access each slot of a level still holds the position of the block below it |
| `RecursiveOram.AccessUpdatesOneKey` | crates/oram/src/recursive_oram.rs:145-189 | an access changes what the map holds for its key and for no other |
| `RecursiveOram.LevelsForFits` | crates/oram/src/recursive_oram.rs:73-133 | the number of levels is enough for n keys and no level is superfluous |
| `DynamicArray.DynamicArray.Read` | crates/datastructures/src/array.rs:294-298 | the element last written at the index, if any; `ok` says exactly whether all stashes kept room |
| `DynamicArray.DynamicArray.Write` | crates/datastructures/src/array.rs:301-305 | writes one element and changes no other, in an array in step; past the end it stores the element and takes over a position; `ok` says exactly whether all stashes kept room |
| `DynamicArray.DynamicArray.Update` | crates/datastructures/src/array.rs:308-315 | updates one element and changes no other; `ok` says exactly whether all stashes kept room |
| `DynamicArray.DynamicArray.Resize` | crates/datastructures/src/array.rs:282-291 | for every new length: the same elements, all of them stored; the positions are in step when every old index has a place of its own in the new position map, and otherwise an index has the position of the last old index that shares its place; `ok` says exactly whether the stashes of both arrays kept room |
| `DynamicArray.LastOfIsOwn` | crates/datastructures/src/array.rs:282-291 | after a resize, an index has its own position exactly when the old length is not above the index by more than the number of places in the new position map |
| `MultiWayArray.RealIndexIsInjective` | crates/datastructures/src/array.rs:348-352 | different elements of the subarrays get different keys, all in range |
| `MultiWayArray.AccessOne` | crates/datastructures/src/array.rs:355-357 | an access to one position map changes one position of it and no other map |
| `MultiWayArray.StoreStep` | crates/datastructures/src/array.rs:355-377 | storing an element under its key changes no other element of any subarray and keeps all of them where they are looked for |
| `MultiWayArray.MultiWayArray.Read` | crates/datastructures/src/array.rs:355-360 | the element last written at the index of the subarray, if any; nothing changes in any subarray |
| `MultiWayArray.MultiWayArray.Write` | crates/datastructures/src/array.rs:363-368 | writes one element of one subarray and changes no other; `ok` says exactly whether all stashes kept room |
| `MultiWayArray.MultiWayArray.Update` | crates/datastructures/src/array.rs:371-379 | updates one element of one subarray and changes no other |
| `MultiWayArray.NewMultiWayArray` | crates/datastructures/src/array.rs:343-346 | subarrays with nothing written; without room in the stashes of some position map, that map is named |
| `LinearOram.ObliviousReadUpdateIndex` | crates/oram/src/linear_oram.rs:32-38 | reads and overwrites one slot; out of range nothing happens |
| `LinearOram.ObliviousReadIndex` | crates/oram/src/linear_oram.rs:51-56 | reads one slot; out of range the output stays |
| `LinearOram.ObliviousWriteIndex` | crates/oram/src/linear_oram.rs:69-74 | overwrites one slot; out of range nothing happens |
| `LinearOram.ObliviousMemcpy` | crates/oram/src/linear_oram.rs:90-99 | slot j gets `src[offset + j]` where that exists; otherwise a known slot of the old destination; nothing changes when the offset is past the source |
| `LinearOram.LinearOram.Read` | crates/oram/src/linear_oram.rs:110-116 | the slot at the index |
| `LinearOram.LinearOram.Write` | crates/oram/src/linear_oram.rs:118-123 | one slot overwritten |
| `ObliviousHeap.Heap.FindMin` | crates/datastructures/src/heap.rs:69-78 | a real block of least key over stash and tree, or an empty block exactly when no stored key is below the largest one |
| `ObliviousHeap.Heap.UpdateMin` | crates/datastructures/src/heap.rs:112-137 | after a change along one path, every metadata node holds a minimum of its subtree again |
| `ObliviousHeap.Heap.Insert` | crates/datastructures/src/heap.rs:142-161 | for every key up to the largest: adds the element under a fresh timestamp and returns where it is; stash and tree afterwards are those that putting the element into the first free slot and evicting along each of the two paths drawn leave |
| `ObliviousHeap.Heap.Delete` | crates/datastructures/src/heap.rs:166-176 | removes the element with the given timestamp exactly when it is in the stash or on the given path, which it is if that is its path; stash and tree afterwards are those that evicting along the given path and along the path drawn leave |
| `ObliviousHeap.Heap.Evict` | crates/datastructures/src/heap.rs:80-84 | an eviction along the path; every element is kept, and only the metadata along the path is out of date |
| `ObliviousHeap.Heap.ExtractMin` | crates/datastructures/src/heap.rs:179-182 | removes the element that FindMin returns when some key is below the largest; otherwise it removes the element of timestamp 0 exactly when that is in the stash or on the dummy path; the path visited is one of the tree, as a debug assertion demands, exactly in the first case; it evicts as Delete does |
| `ObliviousHeap.InnerMin` | crates/datastructures/src/heap.rs:112-137 | the best of a node's bucket, its child on the path and the sibling is a minimum of the node's subtree |
| `ObliviousHeap.MinimumFound` | crates/datastructures/src/heap.rs:69-78 | the root's minimum and the stash together give a minimum of everything stored |
| `ObliviousHeap.OffPathStaysRight` | crates/datastructures/src/heap.rs:112-137 | metadata away from the changed path needs no update |
| `Networks.ZeroOnePrinciple` | crates/sort/src/bitonic.rs:171-180 | a network of compare-swaps that sorts all bit sequences of a length sorts every sequence of that length, for every total preorder, and only rearranges |
| `Networks.CompareSwap` | crates/sort/src/utils.rs:5-9 | exchanges two elements exactly when they are out of order |
| `Bitonic.HalfClean` | crates/sort/src/bitonic.rs:20-36 | comparing the halves of a bitonic sequence leaves two bitonic sequences, one below the other |
| `Bitonic.StageStep` | crates/sort/src/bitonic.rs:20-36 | a stage halves the blocks, keeping them bitonic and in order |
| `Bitonic.MergeSorts` | crates/sort/src/bitonic.rs:50-75 | the merge sorts every range of bits that goes down and then up, for every size |
| `Bitonic.SortSorts` | crates/sort/src/bitonic.rs:86-99 | sorting the halves in opposite directions and merging sorts every range of bits |
| `Bitonic.BitonicSorts` | crates/sort/src/bitonic.rs:171-180 | the network of the sort yields a sorted permutation for every length above one and every order; BitonicSort covers shorter arrays |
| `Bitonic.SortWithin` | crates/sort/src/bitonic.rs:86-99 | every compare-swap stays inside the range it is meant for |
| `BitonicSort.MergePow2` | crates/sort/src/bitonic.rs:10-39 | the triple loop carries out the network of stages, with and without payload |
| `BitonicSort.Merge` | crates/sort/src/bitonic.rs:42-76 | the merge carries out its network |
| `BitonicSort.SortInner` | crates/sort/src/bitonic.rs:79-100 | the recursive sort carries out its network |
| `BitonicSort.BitonicSort` | crates/sort/src/bitonic.rs:171-180 | the array ends up sorted and a permutation of what it was, and is what the sorting network makes of it |
| `BitonicSort.BitonicPayloadSort` | crates/sort/src/bitonic.rs:271-283 | the keys end up sorted, and the pairs of key and payload are the ones there were, in the order that the sorting network gives them |
| `BitonicSort.KeysOfApply` | crates/sort/src/bitonic.rs:214-255 | the payload does not influence what happens to the keys |
| `BitonicSort.ApplyMap` | crates/sort/src/bitonic.rs:214-255 | a network moves elements as it moves what they are compared by |
| `TiedSort.UpKeeps` | crates/sort/src/bitonic.rs:30-35 | ascending comparators leave equal elements where they are |
| `TiedSort.MergeFetches` | crates/sort/src/bitonic.rs:50-75 | a descending merge of equal elements brings one of the upper half to the front |
| `TiedSort.TiedFront` | crates/sort/src/bitonic.rs:86-99 | a sort of four or more equal elements brings one of the second quarter to the front |
| `TiedSort.ThreeReversed` | crates/sort/src/bitonic.rs:86-99 | a sort of three elements, the first above two equal ones, reverses them |
| `Batcher.StaircaseStep` | crates/sort/src/batcher.rs:62-85 | halving the rows of a block and comparing each odd row with the next keeps rows and columns sorted and each row below the whole row after the next |
| `Batcher.PhaseSorts` | crates/sort/src/batcher.rs:62-85 | if blocks of p are sorted, then after the rounds at distances p, p/2, ..., 1 blocks of 2p are |
| `Batcher.BatcherSorts` | crates/sort/src/batcher.rs:62-85 | the network yields a sorted permutation for every length and order |
| `Batcher.BatcherSortPaper` | crates/sort/src/batcher.rs:62-85 | the loops carry out the network, and the array ends up sorted and a permutation |
| `Batcher.BatcherSortUntrustedButFaster` | crates/sort/src/batcher.rs:23-49 | the variant with one test for each row and descending rows does to every array what the published form does |
| `Batcher.DescendingStep` | crates/sort/src/batcher.rs:37-41 | comparing a slot after the later slots of its row has the same effect as before them |
| `Batcher.SameForRow` | crates/sort/src/batcher.rs:36-36 | all slots of a row agree on whether they are compared |
| `BoseNelson.CutsAreBalanced` | crates/sort/src/bose_nelson.rs:19-41 | the sizes of all three recursive merges are positive and at most one apart |
| `BoseNelson.MergeMerges` | crates/sort/src/bose_nelson.rs:19-41 | merging two sorted ranges, adjacent or not, puts all zeros of both first |
| `BoseNelson.BoseNelsonSorts` | crates/sort/src/bose_nelson.rs:51-64 | the network yields a sorted permutation for every length and order |
| `BoseNelson.BnMerge` | crates/sort/src/bose_nelson.rs:19-41 | the recursion carries out the merge network and ends |
| `BoseNelson.BnSort` | crates/sort/src/bose_nelson.rs:51-64 | the recursion carries out the sort network |
| `BoseNelson.BoseNelsonSort` | crates/sort/src/bose_nelson.rs:76-82 | the array ends up sorted and a permutation of what it was |
| `Compaction.CompactOffsetPlaces` | crates/sort/src/compaction.rs:86-116 | for a power-of-two length, the marked elements land cyclically from z on, in their order |
| `Compaction.CompactPlaces` | crates/sort/src/compaction.rs:129-158 | for every length, each marked element lands at its rank |
| `Compaction.CompactPermutes` | crates/sort/src/compaction.rs:129-158 | compaction only rearranges |
| `Compaction.DistributeUndoesCompact` | crates/sort/src/compaction.rs:216-246 | distribution undoes compaction with the same prefix sum |
| `Compaction.CompactUndoesDistribute` | crates/sort/src/compaction.rs:216-246 | compaction undoes distribution with the same prefix sum |
| `Compaction.DistributePlaces` | crates/sort/src/compaction.rs:216-246 | distribution sends the j-th leading element to the j-th marked place |
| `CompactedRest.CompactOffsetRest` | crates/sort/src/compaction.rs:86-116 | for a power-of-two length, the elements that are not marked follow the marked ones cyclically, by pairs from the end, each pair in its order |
| `CompactedRest.CompactRest` | crates/sort/src/compaction.rs:129-158 | for every length, the elements that are not marked follow the marked ones, by pairs from the end, each pair in its order |
| `CompactedRest.CompactSends` | crates/sort/src/compaction.rs:129-158 | compaction sends every element to a place that the prefix sum alone tells |
| `CompactedRest.DistributeTakes` | crates/sort/src/compaction.rs:216-246 | distribution takes every element from the place that compaction would send it to |
| `Compaction.SwapPairIs` | crates/sort/src/compaction.rs:94-96 | the bitwise test of the two-element case |
| `CompactInPlace.ComputePrefixSum` | crates/sort/src/compaction.rs:17-29 | the prefix sum counts the elements that are not dummies |
| `CompactInPlace.CompactPayloadOffset` | crates/sort/src/compaction.rs:86-116 | the slice becomes its compaction to the offset, the rest of the array stays |
| `CompactInPlace.CompactPayload` | crates/sort/src/compaction.rs:129-158 | the leading part becomes its compaction, the rest of the array stays |
| `CompactInPlace.DistributePayloadOffset` | crates/sort/src/compaction.rs:182-211 | the slice becomes its distribution from the offset, the rest of the array stays |
| `CompactInPlace.DistributePayload` | crates/sort/src/compaction.rs:216-246 | the leading part becomes its distribution, the rest of the array stays |
| `CompactInPlace.CompactIsStable` | crates/sort/src/compaction.rs:172-180 | the kept elements come first, in order; the dummies fill the rest |
| `CompactInPlace.CompactArray` | crates/sort/src/compaction.rs:172-180 | the array is compacted stably, and the result is the number of kept elements |
| `Goodrich.PlacesIncrease` | crates/sort/src/compaction.rs:66-75 | after every pass the kept elements are in order, so no two collide |
| `Goodrich.SlotMoves` | crates/sort/src/compaction.rs:66-75 | the slot an element moves to holds no kept element |
| `Goodrich.CompactGoodrich` | crates/sort/src/compaction.rs:41-78 | the array is compacted stably, and the result is the number of kept elements |
| `Goodrich.CompactionsAgree` | crates/sort/src/compaction.rs:41-78 | two stable compactions agree on the kept elements and on their number |
| `Rotate.ThreeReversals` | crates/sort/src/rotate.rs:50-55 | reversing both parts and then the whole rotates |
| `Rotate.RotateLeft` | crates/sort/src/rotate.rs:38-58 | the array is rotated left by k, for every length and every k up to it |
| `Rotate.ReverseRegion` | crates/sort/src/rotate.rs:15-29 | the region is reversed when enabled and untouched otherwise |
| `PowerOfTwo.GetStrictlyBiggerPowerOfTwo` | crates/primitives/src/utils.rs:28-37 | the least power of two above the argument below 2^63; at 2^63 the sum saturates and is no power of two |
| `PowerOfTwo.GetSmallerOrEqualPowerOfTwo` | crates/primitives/src/utils.rs:41-43 | the greatest power of two that is not above the argument, from 1 to below 2^63; 0 for 0, and 2^63 - 1 for 2^63 |
| `PowerOfTwo.GetStrictlyBiggerPowerOfTwoLoop` | crates/primitives/src/utils.rs:55-61 | the loop form computes the same number below 2^63 and overflows from there on |
| `PowerOfTwo.SmearStep` | crates/primitives/src/utils.rs:28-37 | each shift-or doubles the width by which the bits are smeared |
| `ShortQueue.ShortQueue.MaybePush` | crates/datastructures/src/queue.rs:84-105 | a real push appends to the queue, in the first empty slot; a push that is not real changes nothing |
| `ShortQueue.ShortQueue.MaybePop` | crates/datastructures/src/queue.rs:108-124 | a real pop removes and returns the oldest element; a pop that is not real changes nothing |
| `ShortQueue.RoomForOne` | crates/datastructures/src/queue.rs:84-105 | a queue that is not full has an empty slot |
| `ShortQueue.OldestIs` | crates/datastructures/src/queue.rs:84-105 | the least timestamp seen by a push is that of the oldest element |
| `ShortQueue.SecondIs` | crates/datastructures/src/queue.rs:108-124 | the least timestamp but one is that of the oldest element after a pop |
| `UnsortedMap.InsertIfAvailable` | crates/datastructures/src/map.rs:104-113 | the element goes to the first free slot of the bucket exactly when it is real and there is one |
| `UnsortedMap.UnsortedMap.TryInsertEntry` | crates/datastructures/src/map.rs:205-222 | tables and element in hand together keep their entries; every entry stays in the bucket its hash names; the new tables are determined by the random slots drawn |
| `UnsortedMap.UnsortedMap.DeamortizeInsertionQueue` | crates/datastructures/src/map.rs:225-235 | all entries of tables and queue stay; the queue does not grow |
| `UnsortedMap.UnsortedMap.Insert` | crates/datastructures/src/map.rs:240-246 | tables and queue together gain exactly the inserted pair, within the capacity of the queue |
| `UnsortedMap.UnsortedMap.InsertCond` | crates/datastructures/src/map.rs:254-260 | the same if the insertion is real, and otherwise no entry is gained or lost |
| `UnsortedMap.UniqueAfterInsert` | crates/datastructures/src/map.rs:236-260 | inserting a new key keeps keys unique |
| `UnsortedMap.UnsortedMap.Get` | crates/datastructures/src/map.rs:177-199 | a lookup goes through the slots of the bucket of the key in the first table, those of its bucket in the second and the first `size` queue slots, and returns the value at the last of these places that holds the key; it finds one exactly when there is such a place, and what it finds is stored |
| `UnsortedMap.ReadIfExists` | crates/datastructures/src/map.rs:88-96 | the value in the last slot of the bucket that holds the key |
| `UnsortedMap.LastMatchConcat` | crates/datastructures/src/map.rs:177-199 | a match in later places goes before those in earlier ones |
| `UnsortedMap.UnsortedMap.FindsAllIffNoHoles` | crates/datastructures/src/map.rs:191-196 | a lookup finds every stored key exactly when no queue slot from `size` on is in use |
| `UnsortedMap.UnsortedMap.ScanQueue` | crates/datastructures/src/map.rs:190-196 | the value in the last of the first `size` queue slots that holds the key |
| `MissedKey.MissStoredKey` | crates/datastructures/src/map.rs:177-260 | eleven insertions of different keys into an empty map after which a lookup of the last key does not find it |
| `MissedKey.AllEleven` | crates/datastructures/src/map.rs:225-246 | where that run leaves the keys: an element waits in a queue slot past the size |
| `MissedKey.InsertedLooks` | crates/datastructures/src/map.rs:205-246 | an insertion moves keys as the steps on keys alone say |
| `UnsortedMap.UnsortedMap.constructor` | crates/datastructures/src/map.rs:150-163 | an empty map; each table has room for the capacity at load factor 0.9 |
| `InsertionLaws.TriedBalance` | crates/datastructures/src/map.rs:205-222 | a try loses nothing, and leaves an element over only when it met a full bucket in each table |
| `InsertionLaws.RetriedBalance` | crates/datastructures/src/map.rs:225-235 | a new try for the oldest waiting element loses nothing, and leaves an element waiting only if others waited or two buckets were full |
| `InsertionLaws.InsertedBalance` | crates/datastructures/src/map.rs:254-260 | an insertion adds its element; if elements waited only with two full buckets before, so they do after |
| `InsertionLaws.FreeSlotTakes` | crates/datastructures/src/map.rs:240-246 | with an empty queue and a free slot in the bucket of the second table, the element goes to the first such slot, nothing else changes, and the queue is empty |
| `InsertionLaws.RunsAreSteady` | crates/datastructures/src/map.rs:240-260 | in every map that insertions into an empty one lead to, for all hash functions and random numbers, elements wait only when the tables hold at least two full buckets |
| `InsertionLaws.FullQueueMeans` | crates/datastructures/src/map.rs:254-256 | the assertion that the queue has room fails only in maps that hold at least two buckets and a queue of elements |
| `BatchRouting.CmpCtIsLexicographic` | crates/datastructures/src/sharded_map.rs:280-288 | the branch-free comparison is the lexicographic order of partition and key |
| `BatchRouting.Segments` | crates/datastructures/src/sharded_map.rs:528-541 | partition j is the stretch of the sorted first items that the running sum of the loads names |
| `BatchRouting.ShareSlots` | crates/datastructures/src/sharded_map.rs:542-549 | the second prefix sum counts the first load[j] slots of share j, in order |
| `BatchRouting.LoadIsCount` | crates/datastructures/src/sharded_map.rs:511-525 | the load of a partition is the number of different keys it gets |
| `BatchRouting.OthersAreDummies` | crates/datastructures/src/sharded_map.rs:812-812 | slots that are not counted hold padding |
| `BatchSteps.SortByPartition` | crates/datastructures/src/sharded_map.rs:496-507 | the batch sorted by partition and key, with the place each item came from, both as the sorting network determines them |
| `BatchSteps.FindRepeats` | crates/datastructures/src/sharded_map.rs:511-525 | the first prefix sum counts the first occurrence of each key, and the loads are counted |
| `BatchSteps.SharePrefix` | crates/datastructures/src/sharded_map.rs:542-549 | the second prefix sum |
| `BatchSteps.DistributeRoutes` | crates/datastructures/src/sharded_map.rs:550-550 | slot i of share j gets item i of partition j |
| `BatchSteps.RestIsPadding` | crates/datastructures/src/sharded_map.rs:774-812 | past its load a share holds items of no partition, repeated keys included |
| `BatchSteps.SortBack` | crates/datastructures/src/sharded_map.rs:598-599 | sorting the results by original index puts each in its place |
| `BatchPipeline.CollectReplies` | crates/datastructures/src/sharded_map.rs:571-583 | whatever the order in which the replies arrive, every slot ends up with its answer |
| `Slotwise.CompactMap` | crates/sort/src/compaction.rs:129-158 | compaction moves slots without looking at what they hold |
| `Slotwise.SideBySide` | crates/datastructures/src/sharded_map.rs:587-588 | two sequences that go the same way back stay side by side |
| `BatchPipeline.Route` | crates/datastructures/src/sharded_map.rs:496-550 | the batch is sorted, cut into shares and distributed; the way back takes the routed items to where they came from; fails exactly when a load exceeds the share |
| `BatchPipeline.NewComesBack` | crates/datastructures/src/sharded_map.rs:587-588 | what comes back to a new item was made in the share of its partition |
| `BatchPipeline.AnswersComeBack` | crates/datastructures/src/sharded_map.rs:587-588 | what comes back to any item was answered for its key, repeated or not |
| `BatchPipeline.RepeatedElsewhere` | crates/datastructures/src/sharded_map.rs:542-588 | a repeated item whose partition has a full share is answered by another share |
| `BatchPipeline.RepeatedAnswer` | crates/datastructures/src/sharded_map.rs:541-604 | a repeated item is answered by the share with the padding slot that has as many padding slots behind it, by pairs, as the item has repeated items behind it |
| `BatchPipeline.SourceIs` | crates/datastructures/src/sharded_map.rs:592-596 | the propagation loop takes the result of a slot from the slot itself, unless the item before it is not new: then from a slot with the key of that item |
| `BatchPipeline.PropagationIffDistinct` | crates/datastructures/src/sharded_map.rs:592-596 | the propagation loop gives repeated keys the value of their first occurrence, for all results, exactly when no key is repeated |
| `BatchKeys.NewAfterRepeated` | crates/datastructures/src/sharded_map.rs:511-525 | a new item after one that is not new has a key that comes after a repeated key |
| `BatchKeys.RepeatedIsBefore` | crates/datastructures/src/sharded_map.rs:511-525 | the item before a key that comes after a repeated key is not new |
| `BatchKeys.BookIsRight` | crates/datastructures/src/sharded_map.rs:511-588 | the first item with a key is answered by the share of its partition, and a second item by some share, by another one if that share is full |
| `BatchKeys.ResultIs` | crates/datastructures/src/sharded_map.rs:592-604 | every result, for every batch: the first place of a key gets the answer to its first item, or the answer to the second item of the key before it if that is repeated; all other places get the answer to the second item of the key |
| `Workers.AnswerGet` | crates/datastructures/src/sharded_map.rs:171-178 | a worker answers each key of a stretch in order, with the value at the last place that holds the key, where its cuckoo map looks |
| `ShardedMap.ShardedMap.AnsweredIsOnly` | crates/datastructures/src/sharded_map.rs:171-178 | a lookup of a key in its partition has one result |
| `Workers.HandleInsert` | crates/datastructures/src/sharded_map.rs:179-185 | one insertion for each item, in order, real for the items of the worker's own partition: tables and queue end up as these insertions with the random numbers drawn leave them, and the entries are those delivered; it stops only at a full queue |
| `Workers.InsertedHolds` | crates/datastructures/src/sharded_map.rs:179-185 | a run of insertions adds the items of the partition and nothing else |
| `ShardedMap.ShareDelivers` | crates/datastructures/src/sharded_map.rs:742-824 | a worker is sent exactly the first items of its partition, each once, whatever the map holds |
| `ShardedMap.ShareInOrder` | crates/datastructures/src/sharded_map.rs:742-812 | a share begins with the items of its partition, by increasing keys, and holds no others of it |
| `ChosenValues.FirstsAreChosen` | crates/datastructures/src/sharded_map.rs:742-824 | these are one entry for each key of the batch in the partition, with one of the values given for the key |
| `ChosenValues.FirstsSentIff` | crates/datastructures/src/sharded_map.rs:739-772 | batches of n keys send the value of the first occurrence of each key, as documented, for all keys and values, exactly when n is at most 2 |
| `ChosenValues.DistinctSendFirsts` | crates/datastructures/src/sharded_map.rs:739-772 | batches without repeated keys send the values given, whatever their length |
| `ChosenValues.TiedSendLater` | crates/datastructures/src/sharded_map.rs:739-772 | four or more items with one key send a value of the second quarter, so never the first |
| `ChosenValues.ThreeSendLast` | crates/datastructures/src/sharded_map.rs:739-772 | three items, the first with a greater key than the other two, send the last value of the repeated key |
| `ShardedMap.ShardedMap.GetBatch` | crates/datastructures/src/sharded_map.rs:485-604 | for every batch, where each result comes from: the first place of a key, as the sorting network chooses it, gets the right answer, unless the key before it is repeated, whose second answer it gets; all other places get the second answer, which is right or none, and none if the share is full; with different keys all results are right; fails exactly when a partition gets more than b different keys |
| `RepeatedKeys.MissedByBatch` | crates/datastructures/src/sharded_map.rs:592-596 | for every map that stores x and not k: a batch that asks twice for k and once for x, the next key, does not find x |
| `RepeatedKeys.MissedInOnePlace` | crates/datastructures/src/sharded_map.rs:485-604 | with shares of one slot, a batch that asks twice for a stored key finds it in one place only |
| `RepeatedKeys.MissedEverywhere` | crates/datastructures/src/sharded_map.rs:485-604 | with shares of one slot, a batch that asks twice for k and twice for x, of a later partition, does not find x at all, whatever the map stores |
| `RepeatedKeys.LaterValueSent` | crates/datastructures/src/sharded_map.rs:739-833 | for every map: inserting a key with four or more values sends one of the second quarter, for four values the second one |
| `ShardedMap.ShardedMap.InsertBatch` | crates/datastructures/src/sharded_map.rs:742-833 | for every batch: each worker gains exactly one entry for each different key of its partition, with the value that the sorting network brings forward, which is the first one for different keys and for batches of one or two, unless it stops with a full queue; its tables and queue are those that inserting its keys in increasing order and then its padding leave; all workers finish if each holds and is sent together less than two buckets and a queue; the size grows by the number of different keys |
| `ShardedMap.SendInserts` | crates/datastructures/src/sharded_map.rs:814-824 | every worker gets its share in stretches of 32 and makes one insertion for each item in order; the batch is done when all shares are, and stops only at a full queue |
| `ShardedMap.StoppedHasNoRoom` | crates/datastructures/src/sharded_map.rs:814-833 | a batch stops only if some worker holds and is sent at least two buckets and a queue of elements together |
| `ShardedMap.NewKeysStayUnique` | crates/datastructures/src/sharded_map.rs:742-833 | after a batch of new keys no key is stored twice |
| `ShardedMap.ShardedMap.constructor` | crates/datastructures/src/sharded_map.rs:375-394 | an empty map with one worker for each partition, each with tables for its part of the capacity, rounded up |

## Left out

- CircuitOram.CircuitOram.Read: stash and tree after an access are stated, but not that `ok` is true again, because the bound on the stash holds only with high probability.
- DynamicArray.DynamicArray.Resize: more than 2^31 elements are excluded, because a data ORAM of that size has no position to draw, its number of leaves being 0 as a 32-bit number.
- CircuitOram.NewWithPositionsAndValues: a list with a repeated key whose first block is not where the second is written is excluded, because the scans rely on a key occurring once.
- RecursiveOram.NewPositionMap: 2^32 keys and more are excluded, because positions are 32-bit numbers.
- ShardedMap.ShardedMap.GetBatch: the contract says which share answers the second item of a repeated key only when the share of its partition is full; in general, `RepeatedAnswer` says so of the routed batch.
- ShardedMap.ShardedMap.InsertBatch: when a worker stops, how far it and the others got is a ghost result that is not bounded, because it depends on the random slots drawn and on the threads.
- UnsortedMap.UnsortedMap.Insert: the failure of the assertion that the queue has room is the precondition; the workers model it.
- Obliviousness itself: traces, timing, and the assembly and byte-wise forms of conditional moves.
- Probabilities: stash overflow, loads of a batch, uniformity of a shuffle; `compute_safe_batch_size` is only a bound of that kind.
- Threads, priorities, channels and shutdown of the workers.
- `Stack`, whose pops leave their blocks in the ORAM.
- `UnsortedMap::write` and `Bucket::update_if_exists`, which scan like `get`.
- `get_batch_distinct`, `get_batch_leaky` and `insert_batch_distinct`: earlier forms of the batch operations, without shares.
- The tables of the cuckoo map are plain sequences of buckets; `MultiWayArray`, in which the source keeps them, is proved to behave as such by itself.
- `FixedArray`, `EagerVector`, `MemStore` and the shuffle.
- The heap's timestamps are taken not to wrap around.
- The clz form of the next power of two.
