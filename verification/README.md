# Toocal: a verified model of the paged B-tree

Toocal is a key-value store in one file. A collection is a B-tree of pages; a node is a slotted page; pages come from
a free list; integers go through endian streams. This project models the four layers and proves what they keep, and
says exactly when they keep it.

## Layout

| file | part of the program |
|---|---|
| `KeyOrder.dfy` | bytes, items, the comparison of keys |
| `Sizing.dfy` | node sizes, thresholds, the split index |
| `Freelist.dfy`, `FreelistCodec.dfy` | the page allocator, its bytes, and what an allocator read back from them answers |
| `Trees.dfy` | the abstraction: the tree that a page store unfolds to, its in-order sequence, shape and pages |
| `Store.dfy` | every step of `put` and `remove` as a function of the store, the allocator and the nodes in memory |
| `Lookup.dfy` | the search |
| `Splitting.dfy`, `Putting.dfy`, `ExistingKeys.dfy` | one split, the split loop, root growth, insertion |
| `ShadowedKeys.dfy` | what `find` answers after a second insertion of a key |
| `Rebalancing.dfy`, `StaleCopies.dfy`, `Removing.dfy` | rotations, merge, the rebalancing loop, root collapse, removal |
| `StepResults.dfy`, `PageCounts.dfy`, `Conditions.dfy` | splits, steps, allocations and preconditions in plain numbers of bytes |
| `FreshCopies.dfy` | the two loops as they are documented, with nodes read again |
| `StepShapes.dfy`, `NodeProperties.dfy` | what a rebalancing step comes to; properties of every node of a tree, through merges, steps and grafts |
| `InsertionEnds.dfy`, `RemovalEnds.dfy` | exactly when every node has a property after an operation, in terms of the nodes before it |
| `Populations.dfy`, `UnderPopulations.dfy` | when nodes are above the maximum after either operation, or below the minimum after a removal, with the program's loops and with the documented ones |
| `Runs.dfy` | runs of operations against a map, and page safety over runs |
| `PageFit.dfy`, `RemovalFit.dfy` | when everything an operation writes fits its page |
| `InsertionRoom.dfy`, `RemovalRoom.dfy`, `RemovalImages.dfy` | the room that an operation needs: what it reads again and what it leaves must fit, what it writes must stay inside its buffer |
| `PagedOperations.dfy` | the operations and runs on pages of a given size |
| `RoomyPages.dfy`, `RoomyRemovals.dfy` | pages on which insertion, or removal, always has room |
| `Endian.dfy`, `ByteNumbers.dfy`, `Streams.dfy` | integers as bytes, streams over a buffer |
| `NodeCodec.dfy`, `PageFiles.dfy` | nodes as slotted pages, pages in the file |
| `BTree.dfy` | the program's classes (data access layer, node, collection) over a real byte file |
| `Witnesses.dfy`, `RefillWitnesses.dfy`, `PageWitnesses.dfy`, `RotationWitnesses.dfy` | sessions from a new database that end where a condition fails |

## How it fits together

The classes in `BTree.dfy` work on a byte file and change nodes in place, with the branches, the order of writes and
the copies of the program. Every method is proved to do to the store what a function in `Store.dfy`, `Putting.dfy` or
`Removing.dfy` does, and the file is proved to hold, page by page, the nodes of that store. The theorems are about
these functions. A collection is valid when its root page unfolds to one tree (`Collections.Valid`): nodes stored, one
more child than items, all leaves at one depth, keys strictly increasing in order, and pages that are all different,
allocated and not free. Such a tree is unique, so "the items of the collection" is well defined.

In this store a node can be of any size. What a page holds comes on top of it: a node fits its page (`NodeCodec.Fits`)
if its keys, values, counts and page numbers are within their widths on the page, and the two cursors of the slotted
page never cross. `PagedOperations` puts both together: from a collection whose nodes all fit, it says exactly when an
operation does what it is for and leaves such a collection, reading no node that does not fit. `PageFit` and
`RemovalFit` show exactly when everything that an operation writes fits, in terms of the nodes before it; the classes
in `BTree.dfy` demand this of their callers. For `put` it is the same condition, for `remove` a stronger one.

## What is proved, and where the code differs from its documentation

The model follows the code. Where the documented behaviour fails, the exact condition is proved.

* Both loops work on copies from before the loop (core/collection.cpp:72-78, core/collection.cpp:153-164). In the
  store, `put` of a fresh key always leaves a valid collection, but it loses items exactly when two neighbours on the
  path are over-populated together. `remove` is exact deletion unless an under-populated node whose child on the path
  is under-populated too is rebalanced from its old copy; then a free page stays reachable and no valid tree is left.
  The one exception is a first child whose right sibling cannot spare an item, because that step never looks at the
  copy. With nodes read again at every level both conditions disappear (`FreshCopies`).
* Pages have a size, and the program never looks whether a node fits (core/node.h:219-277). So an operation does what
  it is for if and only if, besides, there is room. For `put` the leaf with its new item, every parent that adopts
  one, and the new root have to fit (`PagedOperations.PutOnPagesIff`). For `remove` these are the inner node that
  takes over a predecessor, every merged node, a right sibling that has given an item away, and the parents as they
  stay after the loop; and parents in between, with the separator of a rotation, have to stay inside their buffer,
  because they are written over before anybody reads them (`PagedOperations.RemoveOnPagesIff`). What a rotation from
  the left hands up never stays, because the merge that follows takes this separator down again
  (`RemovalEnds.ParentAfterIs`). That everything written fits is therefore more than `remove` needs:
  `RotationWitnesses.OverwrittenParentMayOverrun` removes an item as it should while one of the parents that it writes
  does not fit.
* The thresholds do not see to it that there is room: with those of `BEST_FILE_SIZE` the 512th item of four bytes in a
  root leaf overruns its page, because slots do not count for a node's size, and after 61 items of 100 bytes the
  removal of the smallest key does, because the merge that always follows joins 28 and 29 items (`PageWitnesses`, with
  the sessions that lead there). Where pages are roomy enough for the items, insertion always has room while no node
  on its path is over-populated (`RoomyPages.RoomyPutFits`), and removal while no node at all is
  (`RoomyRemovals.RoomyRemoveFits`). For insertion each of the three option sets is such a case for items of certain
  sizes (`RoomyPages.OptionSetsAreRoomy`); for removal two of them are, and `BEST_FILE_SIZE` is for none, because its
  two thresholds together are more than a page (`RoomyRemovals.OptionSetsForMerges`).
* A parent that adopts an item, or gives one up, is judged by its old copy, so it can stay outside the thresholds.
  `Populations.PutSettlesIff` and `UnderPopulations.RemoveRefillsIff` say exactly when a node does. This is one
  ordinary way to a crowded path: in `Witnesses.PutCanLoseAnItem` the fourth insertion leaves the root over-populated,
  and the fifth one loses an item. The other is removal: nothing splits a merged node that is above the maximum, and
  `Populations.RemoveStaysWithinIff` says exactly when one is left. With nodes read again `put` leaves no
  over-populated node, if items are small for the thresholds and there was none before
  (`Populations.PutFreshStaysWithin`). `remove` with nodes read again still leaves a node with too little, exactly
  where a right sibling gives away an item that it needs itself, because whether it can spare one is judged by its
  other items (`UnderPopulations.RemoveFreshRefillsIff`, `RefillWitnesses.RemoveCanLeaveTooLittle`); it leaves no
  under-populated node below the root where that judgement means what is documented
  (`UnderPopulations.RemoveFreshStaysEnough`).
* Rebalancing does not stop after a rotation: it rotates from the left if it can, then from the right if it can, and
  then always merges (core/node.cpp:333-377, against core/node.h:131-137). In the store contents, order and shape are
  kept, and one separator, one child and one page go; whether the merged node fits its page is another matter, as
  above. A rotation from the left never leaves a trace in the tree, since the merge undoes it
  (`StepShapes.StepIsMerge`).
* `put` with an existing key inserts a second item in front of the first one (core/collection.cpp:55-62). The
  collection is then never valid, unless items are lost as above. `find` answers the new item from then on, except
  where the node that has both is split exactly between them: then the old one is handed up and hides it
  (`ShadowedKeys.FoundAfterDuplicate`). In an inner node the item comes without a child; the node is written with its
  last child twice (core/node.h:226-277), and the model keeps this.
* A split does not look whether there is a split index (core/node.cpp:182-183), and rebalancing a first child reads
  the second one (core/node.cpp:373-375). These are preconditions (`Putting.CanPut`, `Removing.CanRemove`; in plain
  numbers `Conditions.CanPutIff`, `Conditions.CanRemoveIff`); with small items the first one always holds
  (`Putting.SmallItemsCanPut`).
* The size that decides about a split and the size that decides where to split count page numbers differently
  (core/node.cpp:33-40, core/node.cpp:20-31), so a left half can be under-populated (`Sizing.LeftHalfSize`,
  `Witnesses.LeftHalfCanBeUnder`).
* Keys and values of 256 bytes and more are cut to their length modulo 256 when they are written
  (`NodeCodec.AsReadIsWritten`); such a node does not fit in the sense above.
* `remove` gives the root up exactly if it had no items already before (`PageCounts.RemoveReleases`), because its copy
  from before the loop decides (core/collection.cpp:166-171); the removal that takes its last separator leaves it. A
  dropped root's page is neither used nor free afterwards, and page 2 of a new database holds an empty node that
  nothing points to. Both are leaks that the page theorems state.
* The free list is written once, before the first node gets its page (core/data_access_layer.cpp:39-47), so an
  allocator read back from the file gives out pages in use (`Witnesses.StoredFreelistIsStale`).

## Model

| member | source | states |
|---|---|---|
| `KeyOrder.BytesCmp` | core/utils.cpp:18-26 | the answer is -1 if and only if after some common prefix the first key ends and the second does not, or both go on and the first with the smaller byte; 1 is the same the other way round, 0 is equality |
| `KeyOrder.LessIs` | core/utils.cpp:18-26 | the same for the order that all other results use: in particular a proper prefix is smaller |
| `KeyOrder.LessTrichotomy` | core/utils.cpp:18-26 | of smaller, equal and greater exactly one holds for any two keys |
| `KeyOrder.LessTransitive` | core/utils.cpp:18-26 | the key order is transitive |
| `Sizing.SplitIndexIsLeast` | core/data_access_layer.cpp:192-207 | the split index is the least proper prefix above the minimum; there is one exactly if all items but the last are above it |
| `Sizing.SplitIndexIs` | core/data_access_layer.cpp:192-207 | in bytes: the split index is s exactly if 3 + (bytes of the first s items) + 8s is above the minimum, for fewer items it is not, and an item is left |
| `Sizing.CanSpareIs` | core/node.cpp:380-385 | in bytes: a node can spare an item exactly if it has n >= 2 of them and 3 + (bytes of all but the last) + 8(n - 1) is above the minimum |
| `Sizing.PopulationIs` | core/data_access_layer.cpp:182-190 | both decisions compare one number with a threshold, 11 and the bytes of all keys and values, for all thresholds |
| `Sizing.AllBytesAround` | core/node.cpp:33-40 | what counts as the bytes of items: an item adds those of its key and of its value, wherever it stands |
| `RoomyPages.OptionSetThresholds` | core/data_access_layer.h:41-55 | the thresholds of the three option sets in bytes: 51.2 and 102.4, 3072 twice, 512 twice |
| `Sizing.OverCanBeSplit` | core/data_access_layer.cpp:187-207 | an over-populated node of n >= 2 items of at most M bytes has a split index if M <= max - min + 8(n - 2) |
| `Sizing.HalvesNotEmpty` | core/data_access_layer.cpp:187-207 | for n >= 3 both halves keep items if 2M <= max - min + 8(n - 3) |
| `Sizing.RightHalfEmptyIff` | core/node.cpp:130-150 | the right half of a split is empty exactly if all items but one are needed to get above the minimum |
| `Sizing.LeftHalfSize` | core/node.cpp:20-40 | the left half can miss the minimum only by the page numbers that were counted too often |
| `Freelists.Freelist.GetNextPage` | core/freelist.cpp:5-16 | the last returned page if there is one, which is then no longer free, else the maximum and one, which is then the maximum |
| `Freelists.Freelist.Release` | core/freelist.cpp:18-21 | the page becomes the last of the free pages, and the maximum stays |
| `FreelistCodec.NthAfterRelease` | core/freelist.cpp:5-21 | a returned page is the next one given out, and what would have come comes after it |
| `Freelists.NextPageIsFresh` | core/freelist.cpp:5-16 | an allocated page was neither used, nor free, nor reserved, and using it keeps all pages different |
| `Freelists.ReleaseIsSafe` | core/freelist.cpp:18-21 | returning a used page keeps all pages different |
| `FreelistCodec.Serialize` | core/freelist.h:51-73 | the bytes: two-byte maximum and count, eight bytes for every free page |
| `FreelistCodec.FreelistBytesAre` | core/freelist.h:51-73 | every byte: two of the maximum, two of the count, eight of each free page, lowest byte first |
| `FreelistCodec.Deserialize` | core/freelist.h:75-91 | from any buffer that starts with these bytes: numbers modulo two bytes, and as many first pages as the count says |
| `FreelistCodec.Survivor` | core/freelist.h:51-91 | what comes back: the maximum modulo 65536 and as many of the first pages as the count modulo 65536; unchanged exactly if both are below 65536 |
| `FreelistCodec.SurvivorIsAlikeIff` | core/freelist.h:51-91 | exactly when an allocator that was written and read answers every sequence of allocations and releases as before |
| `FreelistCodec.SameNthIsAlike` | core/freelist.cpp:5-21 | two allocators whose pure allocations agree agree on every sequence of requests |
| `Trees.StoredUnique` | core/collection.cpp:100-120 | a store and a root page determine the tree |
| `Lookup.SearchIsExact` | core/node.cpp:53-107 | the search ends at the item with the key, or at the leaf index that is the key's place among all items |
| `Lookup.SearchFindsKeys` | core/node.cpp:53-107 | the search succeeds exactly for the keys in the tree |
| `Lookup.SearchTurns` | core/node.cpp:53-75 | in any tree, sorted or not, the search goes on to the child before the first key that is not smaller, at nodes where this key is not equal |
| `Lookup.SearchEnds` | core/node.cpp:53-96 | in any tree it ends at the first key of a node that is not smaller, if this is equal or there is no child to go on to |
| `Lookup.RankIsCount` | core/node.cpp:77-96 | on a sorted node the index found is the number of smaller keys, and it decides membership |
| `Collections.FindIsLookup` | core/collection.cpp:12-23 | `find` answers an item exactly if it is in the sequence with this key, and nothing exactly if the key is absent |
| `Store.RebalanceStep` | core/node.cpp:329-378 | one step returns exactly one page, that of the child at the index, or of the second child for the first |
| `StepResults.LaterStepIs` | core/node.cpp:329-378 | each page after a step with a later child: left sibling, separator and child become one node; if and only if 3 + (bytes of all items of the right sibling but the last) + 8(n - 1) is above the minimum, that sibling loses exactly its first item to the parent, whose separator goes to the end of that node |
| `StepResults.FirstStepIs` | core/node.cpp:329-378 | each page after a step with the first child: child, separator and right sibling become one node, the child from its copy exactly if the sibling can spare an item, else from the store |
| `Splitting.HalvesMakeUpNode` | core/node.cpp:130-176 | left half, middle item and right half make up the node, in order and depth, for leaves and inner nodes |
| `Splitting.AdoptInOrder` | core/node.cpp:178-205 | the parent reads left, middle, right where it read the child, at any child index |
| `Splitting.SplitOne` | core/node.cpp:178-205 | one split keeps the parent's sequence, arity, depth and the difference of all pages; the new page is fresh |
| `StepResults.SplitStepIs` | core/node.cpp:130-205 | what a split writes, page by page and in order: at the least index above the minimum, the items after it to the next page, its item into the parent, the items before it stay, children with the items around them |
| `StepResults.GrowRootIs` | core/collection.cpp:80-93 | what the growth of the root writes: the next page is the new root's, with the middle item and two children, and the one after it the right half's |
| `Splitting.SplitUpTree` | core/collection.cpp:70-78 | what the whole loop makes of a tree, with the items that are lost when neighbours are over-populated together |
| `Putting.SplitAll` | core/collection.cpp:70-93 | the loop and the growth of the root: depth rises by one exactly if the root was over-populated |
| `Putting.PutInserts` | core/collection.cpp:25-98 | in the store, where a node can have any size: `put` of a fresh key leaves a valid tree with the item at its sorted place, or fewer items if neighbours were over-populated together |
| `Putting.PutIsInsertionIff` | core/collection.cpp:25-98 | in the store: `put` of a fresh key is exact sorted insertion if and only if no two neighbours on the path are over-populated |
| `Putting.SmallItemsCanPut` | core/node.cpp:182-183 | with items of at most M bytes, M + 11 <= max, and M <= max - min or M(M - (max - min) + 16) <= 8(max - 11), every split on every path has its index |
| `Conditions.CanPutIff` | core/node.cpp:178-183 | `put` can run if and only if, with the item in place, every node on the path with more than the maximum has n >= 2 items and 3 + (bytes of all but the last) + 8(n - 1) is above the minimum |
| `Conditions.CrowdedIff` | core/collection.cpp:72-78 | neighbours are over-populated together if and only if two nodes in a row on the path have more than the maximum |
| `PageCounts.PutTakes` | core/collection.cpp:25-98 | `put` takes one page for every node on the path with more than the maximum, and one for a new root exactly if the root has; and which page the new root gets |
| `ExistingKeys.PutDuplicates` | core/collection.cpp:55-62 | `put` of an existing key leaves an unsorted tree that reads as before up to the key's place, then the new item, before every other item with this key; the node that had the key has the new item in front of the old one, and an inner node its last child twice |
| `ShadowedKeys.FoundAfterDuplicate` | core/collection.cpp:12-23 | after such a `put`, `find` answers the new item, except exactly where the node that has both is over-populated and its split index is that of the old one: then it answers the old one |
| `ExistingKeys.PutIsValidIffFresh` | core/collection.cpp:25-98 | in the store: without over-populated neighbours `put` leaves a valid collection if and only if the key was absent |
| `ExistingKeys.PutIsInsertionExactly` | core/collection.cpp:25-98 | in the store: `put` inserts its item at the key's place and keeps the collection valid if and only if the key is fresh and there are no over-populated neighbours |
| `ExistingKeys.SplitUpShared` | core/collection.cpp:70-78 | the split loop keeps the sequence also when subtrees away from the path are shared |
| `Rebalancing.BorrowLeftTree` | core/node.cpp:335-349 | the rotation from the left keeps the parent's sequence, shape and pages |
| `Rebalancing.BorrowRightTree` | core/node.cpp:351-366 | the rotation from the right does too |
| `Rebalancing.MergeTree` | core/node.cpp:305-327 | in the store: the merge keeps the sequence and depth; one separator, one child and one page go |
| `Rebalancing.RebalanceTree` | core/node.cpp:329-378 | in the store: one rebalancing step keeps sequence, arity, depth and pages, for every combination of rotations and every child |
| `Rebalancing.RebalanceUpTree` | core/collection.cpp:151-164 | in the store: the whole loop keeps sequence, depth and the pages used and free together, if no stale copy is used |
| `StaleCopies.LoopIsDefined` | core/collection.cpp:151-164 | the loop finds every page it reads, stale copies or not |
| `StaleCopies.ClashReachesReleased` | core/collection.cpp:151-164 | if a stale copy is used, child pointers lead from the top to a page that was returned |
| `Removing.LastPathIsRightmost` | core/node.cpp:216-237 | the descent along last children ends in the rightmost leaf after as many steps as the height |
| `Removing.ShrunkFacts` | core/node.cpp:207-248 | replacing an item by its predecessor and popping the leaf takes exactly this item out of the sequence |
| `Removing.ShrunkIs` | core/node.cpp:207-248 | in a leaf the item is erased; in an inner node the last item below the child before it takes its place and is gone there, and no other child or item changes |
| `Removing.FullPathIsPath` | core/collection.cpp:135-150 | the path of the search with the affected nodes appended can be followed from the root |
| `Removing.FullPathEnds` | core/node.cpp:207-248 | that path ends at the node that actually lost an item: the node of the key, or the predecessor's leaf |
| `Removing.DeletedFacts` | core/collection.cpp:135-148 | before any rebalancing exactly the item at the search's end is gone, and the shape is kept |
| `Removing.RemoveIsDefined` | core/collection.cpp:122-175 | `remove` can run on every valid collection on which its preconditions hold |
| `Conditions.CanRemoveIff` | core/node.cpp:216-248 | `remove` can run if and only if the rightmost leaf before the item has one, and no node on the path with less than the minimum is an only child |
| `Conditions.ClashesIff` | core/collection.cpp:151-164 | a stale copy is used if and only if two nodes in a row below the root have less than the minimum, and the upper one is not a first child whose right sibling cannot spare an item |
| `PageCounts.RemoveReleases` | core/collection.cpp:150-174 | `remove` returns one page for every node below the root on the path that has less than the minimum, and the root moves to its only child exactly if the root had no items before |
| `Removing.RemoveDeletes` | core/collection.cpp:122-175 | in the store, without a clash: exactly the item gone, still valid, no page gained or lost but a dropped root's, depth one less exactly then |
| `Removing.RemoveWithClash` | core/collection.cpp:151-164 | with a clash a free page is reachable from the root |
| `Removing.NoFreePageBelow` | core/data_access_layer.cpp:209-212 | in a valid collection child pointers never lead to a free page |
| `Removing.RemoveIsDeletionIff` | core/collection.cpp:122-175 | in the store: `remove` of a present key is exact deletion if and only if no stale copy is used, and otherwise no valid tree is left |
| `Removing.RemoveAbsent` | core/collection.cpp:131-133 | an absent key is reported and nothing changes |
| `FreshCopies.SplitUpFreshTree` | core/collection.h:43-48 | with nodes read again, the split loop keeps all items whatever is over-populated |
| `FreshCopies.PutFreshInserts` | core/collection.h:43-48 | insertion with nodes read again is exact for every valid tree and fresh key |
| `FreshCopies.RebalanceUpFreshTree` | core/collection.h:63-70 | with nodes read again, the rebalancing loop keeps sequence, shape and pages whatever is under-populated |
| `FreshCopies.RemoveFreshDeletes` | core/collection.h:63-70 | removal with nodes read again is exact for every valid tree and present key |
| `Populations.HalvesAreWithin` | core/data_access_layer.cpp:187-207 | a node that is at most one item beyond the maximum splits into halves and a middle item that are all within it, if items are small for the thresholds |
| `Populations.PutSettlesIff` | core/collection.cpp:72-93 | exactly when `put`, where it loses nothing, leaves no over-populated node: halves are within the maximum, and so is every parent that is not split after what it has adopted |
| `Populations.PutStaysWithinIff` | core/collection.cpp:72-93 | from a tree without over-populated nodes and with small items, `put` loses nothing, and it leaves an over-populated node if and only if the leaf is split and its parent then has too much |
| `Populations.PutFreshStaysWithin` | core/node.h:102-114 | with nodes read again, such a `put` leaves no over-populated node at all |
| `Populations.RemoveStaysWithinIff` | core/collection.cpp:122-175 | from a tree without over-populated nodes, exactly when `remove`, where it is exact deletion, leaves one: a merged node, or a node that was given a larger separator |
| `StepShapes.StepIsMerge` | core/node.cpp:329-378 | a whole rebalancing step comes to one merge: the rotation from the left leaves no trace, and the one from the right none for a first child |
| `NodeProperties.StepEvery` | core/node.cpp:329-378 | for any property of nodes: exactly when all nodes below the parent have it after a step, namely those that were not touched, the merged node, and a right sibling that has given an item away |
| `InsertionEnds.PutEveryIff` | core/collection.cpp:25-98 | for any property of nodes: exactly when all nodes have it after an insertion that loses nothing, seen on the tree before it |
| `RemovalEnds.ParentAfterIs` | core/node.cpp:305-378 | the parent after a whole step, in terms of the nodes before it: the separator that a rotation from the left hands up is never in it |
| `RemovalEnds.RemoveEveryIff` | core/collection.cpp:122-175 | for any property of nodes: exactly when all nodes have it after a removal that is exact deletion, seen on the tree before it |
| `UnderPopulations.StepEnough` | core/node.cpp:329-385 | exactly when a step leaves an under-populated node below the parent: it is never the merged one, but the right sibling that gave an item away |
| `UnderPopulations.RemoveRefillsIff` | core/collection.cpp:150-174 | exactly when `remove`, where it is exact deletion, leaves no under-populated node below the root |
| `UnderPopulations.RemoveFreshRefillsIff` | core/collection.h:63-70 | the same for removal with nodes read again: only a right sibling that gives away what it needs is left with too little |
| `UnderPopulations.RemoveFreshStaysEnough` | core/node.h:125-144 | if every node that can spare an item has enough without it, removal with nodes read again leaves no under-populated node below the root |
| `Runs.StepRefinesMap` | core/collection.cpp:25-190 | in the store: one operation does to the collection what it does to a map |
| `Runs.RunRefinesMap` | core/collection.cpp:25-190 | in the store: a run from a valid collection stays valid, and its meaning is the fold of the operations over a map |
| `Runs.FindAfterRun` | core/collection.cpp:12-23 | after any run `find` answers what the map answers |
| `Runs.RunIsPageSafe` | core/data_access_layer.cpp:209-218 | at every point of a run, free pages are different and unreachable, all pages lie between 2 and the maximum, and the next page given out is neither reachable nor reserved; no page is reached along two different paths of child indexes |
| `PageFit.PutFitsIff` | core/node.h:219-277 | everything that `put` writes fits its page if and only if the node with its new item does, every parent that adopts an item, and the new root |
| `RemovalFit.StepFitsIff` | core/node.cpp:305-378 | everything that a rebalancing step writes fits if and only if the merged node does, and the parent with each separator that a rotation hands up |
| `RemovalFit.LoopFitsIff` | core/collection.cpp:151-164 | everything that the rebalancing loop writes fits if and only if every step that is taken has room, seen on the tree before the loop, stale copies included |
| `RemovalFit.RemoveFitsIff` | core/collection.cpp:122-175 | everything that `remove` writes fits if and only if the node that takes over a predecessor does and every step of the loop has room |
| `InsertionRoom.PutRoomIff` | core/collection.cpp:25-98 | `put` inserts exactly, leaves only nodes that fit and reads again no node that does not, if and only if the key is fresh, the path is not crowded and everything written fits: nothing that it writes is written over unread |
| `RemovalRoom.StepReadsFit` | core/node.cpp:329-378 | a step between siblings that fit, whose merged node fits, reads no node that does not, whatever it writes in between |
| `RemovalRoom.RemoveReadsIff` | core/collection.cpp:122-175 | `remove` deletes exactly, leaves only nodes that fit and reads again no node that does not, if and only if no stale copy is used and the nodes that it leaves changed fit, with the one that takes over a predecessor |
| `RemovalImages.StaysInsideIff` | core/node.h:219-277 | what a removal writes, node by node, and when all of it stays inside its buffers: exactly if every parent that a rotation writes does |
| `RemovalImages.RemoveFitsIsRoom` | core/collection.cpp:122-175 | that everything written fits is enough for a removal |
| `PagedOperations.PutOnPagesIff` | core/collection.cpp:25-98 | on pages of a given size, from a collection whose nodes fit: `put` inserts its item at the key's place, leaves only nodes that fit and reads again no node that does not, if and only if the key is fresh, there are no over-populated neighbours and everything written fits |
| `PagedOperations.RemoveOnPagesIff` | core/collection.cpp:122-175 | on pages of a given size, from a collection whose nodes fit: `remove` of a present key takes out exactly its item, leaves only nodes that fit, reads again no node that does not and writes inside its buffers, if and only if no stale copy is used, the nodes that it leaves changed fit with the one that takes over a predecessor, and rotated parents stay inside |
| `PagedOperations.StepStaysOnPages` | core/collection.cpp:25-190 | an allowed operation that has this room leaves a valid collection whose nodes fit |
| `PagedOperations.RunFitsIff` | core/collection.cpp:25-190 | in a run everything written so far fits, also what is written over unread, if and only if what every operation so far writes does |
| `PagedOperations.RunOnPagesRefinesMap` | core/collection.cpp:25-190 | a run in which every operation has the room that the two conditions above ask for stays valid and on its pages, and its meaning is the fold of the operations over a map |
| `PagedOperations.RunFitsHasRoom` | core/collection.cpp:25-190 | in a run in which everything written fits every operation has had its room |
| `RoomyPages.RoomyPutFits` | core/data_access_layer.cpp:172-190 | if a page has room for the slots of a node of items of m to M bytes one item beyond the maximum, `put` of a fresh key can run and finds room whenever no node on its path is over-populated |
| `RoomyPages.OptionSetsAreRoomy` | core/data_access_layer.h:41-55 | the conditions of `RoomyPutFits` and `PutFreshStaysWithin` hold for the three option sets: for items of 14 to 30 bytes, of 50 to 100, and of 2 to 45 |
| `RoomyRemovals.RoomyRemoveFits` | core/node.cpp:305-327 | if a page has room, slots included, for a node of both thresholds together and two items more, everything that `remove` writes fits, from a tree of items of m to M bytes without over-populated nodes |
| `RoomyRemovals.OptionSetsForMerges` | core/data_access_layer.h:41-55 | this holds with `BALANCE` for items of 14 to 30 bytes, with `BEST_PERFORMANCE` for 5 to 45, and with `BEST_FILE_SIZE` for no items |
| `Runs.ToMapLooksUp` | core/collection.cpp:12-23 | the map of a sorted sequence answers as the sequence does |
| `Runs.NewDatabaseIsEmpty` | core/data_access_layer.cpp:17-48 | a new database means the empty map; it has written an empty node to page 2, which is the maximum, and no page is free |
| `Endian.LittlePut` | libs/endian/src/endian/detail/little.hpp:22-54 | the recursion stores the low bytes, lowest first, and touches no other byte |
| `Endian.LittleGet` | libs/endian/src/endian/detail/little.hpp:22-54 | the recursion reads the value of the bytes |
| `Endian.BigPut` | libs/endian/src/endian/detail/big.hpp:22-54 | the recursion stores the low bytes, highest first, though it shifts the value on the way back |
| `Endian.BigGet` | libs/endian/src/endian/detail/big.hpp:22-54 | the recursion reads the value of the bytes |
| `Endian.LittleRoundTrip` | libs/endian/src/endian/detail/little.hpp:22-54 | a value that fits comes back |
| `Endian.BigRoundTrip` | libs/endian/src/endian/detail/big.hpp:22-54 | a value that fits comes back |
| `Endian.BigIsLittleReversed` | libs/endian/src/endian/detail/big.hpp:22-54 | the two formats are mirror images |
| `ByteNumbers.ByteAt` | libs/endian/src/endian/detail/little.hpp:22-54 | byte i of a number is v / 256^i modulo 256, counted from the left in little endian and from the right in big endian |
| `Streams.StreamWriter.WriteBytes` | libs/endian/src/endian/stream_writer.hpp:34-41 | exactly the bytes of the value at the position, which moves by their number and stays inside |
| `Streams.StreamWriter.WriteRaw` | libs/endian/src/endian/stream_writer.hpp:62-68 | exactly these bytes at the position |
| `Streams.StreamReader.ReadBytes` | libs/endian/src/endian/stream_reader.hpp:35-43 | the value of the bytes at the position, which moves |
| `Streams.StreamReader.PeekBytes` | libs/endian/src/endian/stream_reader.hpp:95-104 | the value of the bytes at an offset; the position stays |
| `Streams.StreamReader.ReadRaw` | libs/endian/src/endian/stream_reader.hpp:81-88 | the bytes at the position |
| `Streams.MixedRoundTrip` | libs/endian/src/endian/detail/stream.hpp:54-79 | any list of values of widths 1 to 8 is decoded from its encoding, in both byte orders |
| `Streams.EncodeJoin` | libs/endian/src/endian/detail/stream.hpp:54-79 | the encoding of a list is that of its values, one after the other |
| `Streams.WriteAll` | libs/endian/src/endian/stream_writer.hpp:70-78 | a chain of writes leaves the encoding of the list, and the position inside |
| `Streams.ReadAll` | libs/endian/src/endian/stream_reader.hpp:138-146 | a chain of reads of the same widths gives the same values, with the position inside throughout |
| `NodeCodec.CursorsApartIff` | core/node.h:224-277 | the two cursors never cross exactly when size + 12n <= B - 1 for inner nodes, size + 4n <= B + 7 for leaves |
| `NodeCodec.FitsIff` | core/node.h:196-280 | a node fits exactly if its numbers are within their widths and its bytes and 4n + 4, or 12n + 12 in an inner node, are at most the page |
| `NodeCodec.InBufferIff` | core/node.h:219-277 | a node stays inside its buffer exactly if its slots and its cells do, each alone |
| `NodeCodec.LayoutIs` | core/node.h:196-280 | every byte of the format by its place: header, child pointers at 3 + 10i, offsets at 3 + 2i or 11 + 10i, cells of length, key, length, value from the last byte but one to the left |
| `NodeCodec.WithinMaximumFits` | core/node.cpp:33-40 | with items of at least m bytes, every node within the maximum fits its page if max + 12(max - 11)/m <= B - 1 |
| `NodeCodec.AsReadIsWritten` | core/node.h:196-280 | what is read back: of n items the first n modulo 65536, of a key or value of k bytes the first k modulo 256, the last child at the end; this is the node itself exactly if lengths and count are within their widths and an inner node has one more child than items |
| `NodeCodec.Serialize` | core/node.h:196-280 | the page holds header, child pointers, offsets and cells of what is read back |
| `NodeCodec.Deserialize` | core/node.h:282-352 | whatever node a page holds is read |
| `NodeCodec.RoundTrip` | core/node.h:196-352 | a node whose cut form fits the page comes back with the first k modulo 256 bytes of each key and value of k bytes, and as it was exactly if nothing is cut and its arity is right |
| `PageFiles.PagesDisjoint` | core/data_access_layer.cpp:80-110 | the byte ranges of different pages do not overlap |
| `PageFiles.WriteAtIs` | core/data_access_layer.cpp:80-94 | every byte of the file after a write: the written ones, those that stood there, and zeros in a gap |
| `PageFiles.WriteMirrors` | core/data_access_layer.cpp:80-170 | writing a page gives this page its node and keeps every other node |
| `PageFiles.WritesMirror` | core/data_access_layer.cpp:80-170 | over any sequence of writes the bytes refine the map from page numbers to nodes |
| `PageFiles.WriteKeepsOthers` | core/data_access_layer.cpp:80-94 | writing a page changes no byte of another page |
| `BTree.DataAccessLayer.constructor` | core/data_access_layer.cpp:17-48 | a new file with the first free list on page 1 and an empty node on page 2, and thresholds that are the two fractions of the page size |
| `BTree.DataAccessLayer.WriteNode` | core/data_access_layer.cpp:146-162 | the node's page holds it, a page is allocated first if it has none, all other pages are unchanged |
| `BTree.DataAccessLayer.GetNode` | core/data_access_layer.cpp:164-170 | the node that was last written to the page |
| `BTree.DataAccessLayer.ReadPage` | core/data_access_layer.cpp:96-110 | the bytes of the page, or nothing past the end of the file |
| `BTree.DataAccessLayer.WriteFreelist` | core/data_access_layer.cpp:119-127 | the page starts with the free list; no node changes |
| `BTree.DataAccessLayer.ReadFreelist` | core/data_access_layer.cpp:112-117 | what survives of the free list that was written |
| `BTree.DataAccessLayer.NewNode` | core/data_access_layer.cpp:214-218 | a node on the allocator's next page |
| `BTree.DataAccessLayer.DeleteNode` | core/data_access_layer.cpp:209-212 | the page is returned to the allocator |
| `BTree.DataAccessLayer.GetSplitIndex` | core/data_access_layer.cpp:192-207 | the loop computes the split index: the least s for which 3 + (bytes of the first s items) + 8s is above the minimum and an item is left, or -1 |
| `BTree.Node.Size` | core/node.cpp:33-40 | eleven and the bytes of all keys and values |
| `BTree.Node.IsOverPopulated` | core/node.cpp:120-123 | 11 + (bytes of all keys and values) is above the maximum |
| `BTree.Node.IsUnderPopulated` | core/node.cpp:125-128 | 11 + (bytes of all keys and values) is below the minimum |
| `BTree.Node.CanSpareAnElement` | core/node.cpp:380-385 | the node has n >= 2 items and 3 + (bytes of all but the last) + 8(n - 1) is above the minimum |
| `BTree.Node.FindKeyInNode` | core/node.cpp:77-96 | the first index whose key is not smaller, and whether it is equal |
| `BTree.Node.FindKeyHelper` | core/node.cpp:53-75 | the descent collects the indexes of the search and ends at its node; an absent expected key gives none |
| `BTree.Node.FindKey` | core/node.cpp:98-107 | the same with the root's index 0 in front |
| `BTree.Node.AddItem` | core/node.cpp:109-118 | appending and inserting agree |
| `BTree.Node.AddChild` | core/node.cpp:193-197 | appending and inserting a child pointer agree |
| `BTree.Node.Split` | core/node.cpp:178-205 | file, allocator and both nodes in memory after a split |
| `BTree.Node.RemoveItemFromLeaf` | core/node.cpp:207-214 | the leaf is written without the item |
| `BTree.Node.RemoveItemFromInternal` | core/node.cpp:216-248 | predecessor replacement and its two writes; the affected indexes lead to the popped leaf |
| `BTree.Node.RightmostLeaf` | core/node.cpp:221-237 | the descent ends at the rightmost leaf with the indexes that lead there |
| `BTree.Node.RotateRight` | core/node.cpp:250-275 | the three nodes after the rotation |
| `BTree.Node.RotateLeft` | core/node.cpp:277-303 | the three nodes after the rotation |
| `BTree.Node.Merge` | core/node.cpp:305-327 | file and allocator after a merge |
| `BTree.Node.RebalanceRemove` | core/node.cpp:329-378 | file and allocator after one rebalancing step, on a copy of the parent |
| `BTree.Collection.Find` | core/collection.cpp:12-23 | an item is the answer exactly if it is in the collection with this key |
| `BTree.Collection.GetNodes` | core/collection.cpp:100-120 | the chain of nodes along the indexes, as separate copies |
| `BTree.Collection.Put` | core/collection.cpp:25-98 | the file after an insertion that has room; for a fresh key the collection's new items |
| `BTree.Collection.Remove` | core/collection.cpp:122-175 | the file after a removal of which everything written fits; success exactly for present keys; without a clash exactly the item gone |
| `BTree.Collection.SplitAncestors` | core/collection.cpp:72-78 | the loop on copies computes the split loop |
| `BTree.Collection.RebalanceAncestors` | core/collection.cpp:153-164 | the loop on copies computes the rebalancing loop |
| `BTree.Collection.GrowIfNeeded` | core/collection.cpp:80-93 | the new root over an over-populated one |
| `BTree.Collection.RebalancePath` | core/collection.cpp:150-174 | the loop, and the root given up if its copy has no items |
| `Witnesses.PutCanLeaveTooMuch` | core/collection.cpp:72-93 | four insertions into a new database, of which only the last one leaves an over-populated node |
| `Witnesses.PutCanLoseAnItem` | core/collection.cpp:72-78 | four insertions into a new database after which the next one loses an item |
| `Witnesses.RemoveCanBreakTheTree` | core/collection.cpp:153-164 | five insertions into a new database after which a removal leaves no valid tree |
| `RefillWitnesses.RemoveCanLeaveTooLittle` | core/node.cpp:351-366 | six insertions into a new database after which every node is within the thresholds, and a removal leaves an under-populated leaf and an over-populated one |
| `PageWitnesses.PutCanOverrunAPage` | core/data_access_layer.h:48 | 511 insertions into a new database that all have room, after which the next one has none although nothing is over-populated |
| `PageWitnesses.RemoveCanOverrunAPage` | core/data_access_layer.h:48 | 61 insertions into a new database that all have room, after which the removal of the smallest key has none although no stale copy is used, and leaves a node that does not fit |
| `RotationWitnesses.OverwrittenParentMayOverrun` | core/node.cpp:335-362 | six insertions into a new database that all have room, after which a removal has room and leaves only nodes that fit, although it writes a parent that does not fit |
| `Witnesses.LeftHalfCanBeUnder` | core/data_access_layer.cpp:192-207 | a split whose left half is under-populated |
| `Witnesses.StoredFreelistIsStale` | core/data_access_layer.cpp:39-47 | an allocator read from a new file gives out the page of the first root |

## Left out

- BTree.Collection.Find: a collection without root is excluded; the program then decodes page 0, which holds meta data, as a node.
- BTree.Collection.Remove: the same, and removals of which not everything written fits (`RemovalFit.RemoveFitsIff` says which these are); this is more than the program needs, since a parent that is written over unread need only stay inside its buffer (`PagedOperations.RemoveOnPagesIff`, `RotationWitnesses.OverwrittenParentMayOverrun`), but the class has no bytes for a node whose cursors cross; the search that follows a removal only to log a warning is not modelled; an absent key is a normal result instead of an error.
- BTree.Collection.Put: insertions that find no room are excluded (`PageFit.PutFitsIff` says which these are); the read of an item one past the end, before a key is appended to a node (core/collection.cpp:58), counts as "not equal"; the key is compared with the empty key because it has been moved from.
- BTree.DataAccessLayer.constructor: the meta page and the write to it are left out; its page is never a node.
- BTree.DataAccessLayer.WriteNode: nodes whose cut form does not fit a page are excluded by a precondition: there the program's cursors cross and it writes over its own slots or past a buffer, and nothing is said about what is read back.
- NodeCodec.Serialize: the same.
- NodeCodec.RoundTrip: the same.
- BTree.Node.Split: splits whose nodes do not fit are excluded, and a node without split index, where the program indexes with the largest 32-bit number.
- BTree.Node.RemoveItemFromInternal: replacements after which the inner node does not fit are excluded.
- BTree.Node.Merge: merges whose result does not fit are excluded.
- BTree.Node.RebalanceRemove: steps of which not everything written fits are excluded, also where a parent is written over unread; `RemovalFit.StepFitsIff` says which these are.
- BTree.Collection.SplitAncestors: loops whose writes do not fit are excluded.
- BTree.Collection.GrowIfNeeded: root splits whose writes do not fit are excluded.
- BTree.Collection.RebalanceAncestors: loops of which not everything written fits are excluded, also where a parent is written over unread; `RemovalFit.LoopFitsIff` says which these are.
- BTree.Collection.RebalancePath: the same.
- Putting.PutInserts: nodes have no size limit in the store; with it: `PagedOperations.PutOnPagesIff`.
- Putting.PutIsInsertionIff: the same.
- ExistingKeys.PutIsValidIffFresh: the same.
- ExistingKeys.PutIsInsertionExactly: the same.
- Rebalancing.MergeTree: nodes have no size limit in the store; with it: `PagedOperations.RemoveOnPagesIff`.
- Rebalancing.RebalanceTree: the same.
- Rebalancing.RebalanceUpTree: the same.
- Removing.RemoveDeletes: nodes have no size limit in the store; with it: `PagedOperations.RemoveOnPagesIff`.
- Removing.RemoveIsDeletionIff: the same.
- Runs.StepRefinesMap: nodes have no size limit in the store; with it: `PagedOperations.RunOnPagesRefinesMap`.
- Runs.RunRefinesMap: the same.
- FreshCopies.PutFreshInserts: it is about contents; what the loop is for is in `Populations.PutFreshStaysWithin`.
- FreshCopies.SplitUpFreshTree: the same.
- FreshCopies.RemoveFreshDeletes: it is about contents; what the loop is for is in `UnderPopulations.RemoveFreshRefillsIff`.
- FreshCopies.RebalanceUpFreshTree: the same.
- Sizing.SplitIndexIsLeast: thresholds are exact reals; the rounding of float is not modelled.
- Removing.CanRemove and Putting.CanPut: they are hypotheses on the path that the program does not check.
- 32-bit sizes and indexes and 64-bit page numbers are unbounded integers in memory; they are cut to their widths in the codecs.
- Page size: nodes are written with the page size of the options; the program uses the system's page size for the node and the option for the page, which agree in all its option sets.
- Opening an existing database: root and free list are written only at the start, so a second session sees none of the first; runs stay within one session.
- File errors, errno texts, directories, closing, and the chaining of expected values: a page read past the end is the one error kept.
- The nodes' tree and height are ghost arguments of the methods that walk it; the program has no counterpart.
- Meta data, the string comparison, file sizes, the command line and the collection's name: they add only easy members.
- Signed and floating-point integers in libs/endian, and its network alias.
