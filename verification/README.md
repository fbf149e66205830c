# Verified models of the ROCr memory manager

This project models, in Dafny, four parts of the ROCR-Runtime repository whose correctness rests
on heap shape, on coverage of an address space, or on interleavings, and proves what they keep.

1. **The red-black tree** of `libhsakmt` (`RbShape`, `RbHeap`, `RbRotate`, `RbInsert`, `RbRemove`,
   `RbFixup`, `RbDelete`, `RbSearch`). `RbHeap.RbTree` is the tree in memory: nodes with left, right
   and parent pointers, a root pointer and a black sentinel. Its ghost field `shape` is the tree as a
   value; `Linked` says that the pointers represent it, `Valid` that it is sorted and red-black. The
   parent field of the root is left open, because deleting a root with at most one child leaves it
   stale. The pointer methods follow the C code step by step; a `Path` (a tree with a hole) gives the
   place where a step works.
2. **The GPU address manager** in five layers. `Areas`, `FirstFit`, `GapFit` and `AreaRuns` are the
   first-fit allocator on values with 64-bit wrap-around; `AreaList` is the doubly linked list that implements
   it in place. `ObjectLookup` is the search for objects in the two trees. `Fmm`, `FmmInvariant` and
   `FmmRuns` are the state machine of concurrent allocations, user-pointer registrations and
   releases, one step for each section under the aperture's mutex; `FmmTrees` and `FmmLookup` tie its
   indexes to the trees and their searches, `FmmAperture` keeps it inside the aperture,
   `FmmUserMemory` relates objects to the user memory they stand for, `FmmCalls` follows whole calls.
   `MappedIds` is the device-id arrays of an object with their node-id caches. `SvmSearch` and
   `SvmApertures` are the search that reserves and splits the managed range.
3. **Indirect links** of the topology (`IndirectLinks`, `IndirectRoutes`): a double loop that appends to
   the arrays it searches.
4. **The test-group protocol** of `rocrtst` (`TestGroup`, `TestGroupProgress`): start, wait and exit of a
   group of workers over one mutex and one condition variable.

The kernel, `mmap`, `munmap` and `malloc` are oracles: parameters, or choices of a step, over which
every result is quantified. `Machine` and `Align` hold machine integers and alignment arithmetic.

Where code and comments disagree the model follows the code:

- A registration of a user pointer that is rejected because it names other nodes has been counted
  already (`libhsakmt/src/fmm.c:3577` comes before 3585-3592), so `FmmRuns.RunCounts` counts it.
- Near the top of the address space the allocator's candidates wrap around and a request can be put
  into an occupied area; `FirstFit.PlaceFits` gives the exact condition for a request to fit where it
  is put and `FirstFit.PlaceOverlaps` an input. `AreaRuns.ModestClear` derives that condition from the
  aperture and the request alone.
- The allocator's last comparison wraps around (`libhsakmt/src/fmm.c:716`), and in front of an area the
  limit is not compared at all (707-709), so a block can lie beyond the limit or cross it;
  `FirstFit.PlaceInAperture` gives the exact condition, `FirstFit.PlaceBeyondLimit` and
  `FirstFit.PlaceAcrossLimit` the inputs.
- The lookup of a user pointer by an address inside it is meant to find one whenever there is one. A
  user pointer of size 0 can hide another at the same address; `ObjectLookup.UserRangeLookupExactly`
  says exactly when, for every sorted tree, `FmmLookup.ReachableUserRange` for every reachable state, and
  `ObjectLookup.EmptyObjectHides` gives an input.
- The lookup by start address without a size is meant to yield an object only if it is alone at its
  address (476). Two user pointers of size 0 at one address have equal keys, and both searches can end at
  the same one of them; `ObjectLookup.KeyAtExactly` says exactly when the answer is alone, and
  `ObjectLookup.SameKeyTaken` gives an input.
- A fixed address that is free can be refused, because it is compared with the next aligned address
  behind the area before it (`libhsakmt/src/fmm.c:720`); `GapFit.FixedExactly` says exactly when.
- User memory whose size in whole pages does not fit in 64 bits gets too few addresses
  (`libhsakmt/src/fmm.c:3474`); `FmmUserMemory.EveryByteHasAddress` gives the exact condition.
- A null user pointer is not rejected (`libhsakmt/src/memory.c:262-275`), but marks an object that has none.
  The indexes agree with the objects if and only if the user pointer is not null
  (`FmmInvariant.RegisteredExactly`); otherwise the object's node is left behind in the user tree
  (`FmmInvariant.NullStaysInTree`).
- Mapping a user pointer to given nodes ignores the nodes (`libhsakmt/src/fmm.c:4037` hands them to 3170,
  which drops them), so `MappedIds.VmObject.MapToNodes` states its result without them.
- If the array of mapped ids cannot be grown, the object loses it but keeps its length (2984-2989);
  `MappedIds.VmObject.AddMapped`, `Map` and `MapToNodes` say exactly when it stays consistent.
- A light PCIe link counts as a link to a CPU wherever it ends (`libhsakmt/src/topology.c:1771-1786`). If
  it ends at a GPU, searches lead through that GPU (`IndirectLinks.SearchThroughGpu`), and can find what
  only a link added before makes possible (`IndirectLinks.SearchUsesNewLink`).

## Model

| member | source | states |
|---|---|---|
| `RbHeap.RbTree.constructor` | libhsakmt/src/rbtree.h:61-63 | a new tree is valid and empty |
| `RbHeap.SetColor` | libhsakmt/src/rbtree.h:72-76 | colouring one node changes that node's colour in the represented tree and nothing else |
| `RbRotate.LeftRotate` | libhsakmt/src/rbtree.c:288-315 | the pointers represent the left-rotated shape with the same nodes in the same order |
| `RbRotate.RightRotate` | libhsakmt/src/rbtree.c:318-345 | the mirror image of a left rotation |
| `RbInsert.InsertValue` | libhsakmt/src/rbtree.c:35-58 | the new red leaf hangs where all keys before it are less or equal and all after it greater |
| `RbInsert.InsertStepKeeps` | libhsakmt/src/rbtree.c:85-127 | each turn of the rebalancing loop keeps all black heights and confines the red-red edge to the focus, which moves towards the root |
| `RbInsert.RebalanceLeft` | libhsakmt/src/rbtree.c:87-105 | the pointer code for a left parent performs exactly that turn and keeps the in-order sequence |
| `RbInsert.RebalanceRight` | libhsakmt/src/rbtree.c:107-126 | the pointer code for a right parent performs exactly that turn and keeps the in-order sequence |
| `RbInsert.Rebalance` | libhsakmt/src/rbtree.c:83-129 | the loop terminates in a red-black tree with the same in-order sequence |
| `RbInsert.InsertedSorted` | libhsakmt/src/rbtree.c:41-53 | a sorted sequence stays sorted with the node placed after every key less than or equal to its own |
| `RbInsert.Insert` | libhsakmt/src/rbtree.c:61-130 | a valid tree stays valid and its in-order sequence gains the node after every key less than or equal to its own |
| `RbRemove.RootRemovedOrder` | libhsakmt/src/rbtree.c:144-214 | taking a node out, by its successor if it has two children, drops that node from the in-order sequence and no other |
| `RbRemove.GapColors` | libhsakmt/src/rbtree.c:169-218 | without the node the tree is red-black if the unlinked colour was red, and otherwise exactly one black node short below the gap |
| `RbRemove.SiblingExists` | libhsakmt/src/rbtree.c:224-225 | while the fixup loop runs, the sibling of the short subtree is a node, never the sentinel |
| `RbRemove.DeleteStepKeeps` | libhsakmt/src/rbtree.c:222-282 | each turn of the fixup loop keeps the tree red-black except for the one missing black node below the focus, and its measure decreases |
| `RbRemove.DeficientDone` | libhsakmt/src/rbtree.c:222-284 | when the loop ends, blackening the focus leaves a red-black tree |
| `RbFixup.FixLeft` | libhsakmt/src/rbtree.c:224-251 | the pointer code for a left gap performs exactly one turn and keeps the in-order sequence |
| `RbFixup.FixRight` | libhsakmt/src/rbtree.c:253-281 | the pointer code for a right gap performs exactly one turn and keeps the in-order sequence |
| `RbFixup.Fixup` | libhsakmt/src/rbtree.c:220-284 | the loop terminates in a red-black tree with the same in-order sequence |
| `RbDelete.Choose` | libhsakmt/src/rbtree.c:144-160 | the node to unlink and the child that takes its place |
| `RbDelete.DeleteRoot` | libhsakmt/src/rbtree.c:162-167 | a root with at most one child is replaced by that child, blackened |
| `RbDelete.SpliceOut` | libhsakmt/src/rbtree.c:171-180 | a node with at most one child is replaced by that child |
| `RbDelete.SpliceMin` | libhsakmt/src/rbtree.c:171-214 | a node with two children is replaced by its in-order successor, in all pointers |
| `RbDelete.Delete` | libhsakmt/src/rbtree.c:133-285 | a valid tree stays valid and its in-order sequence loses exactly the node |
| `RbSearch.Minimum` | libhsakmt/src/rbtree.h:82-90 | the leftmost node of a subtree |
| `RbSearch.Maximum` | libhsakmt/src/rbtree_amd.h:69-76 | the rightmost node of a subtree |
| `RbSearch.MinMax` | libhsakmt/src/rbtree_amd.h:81-96 | the first or last node in order, null if and only if the tree is empty |
| `RbSearch.LookupNearest` | libhsakmt/src/rbtree_amd.h:113-144 | the least key at or above (right), the greatest at or below (left), or an equal one, and null only if there is none; to the right, unless it is equal, the first in order; and which of several equal ones, as a function of the tree's shape |
| `RbSearch.Next` | libhsakmt/src/rbtree.c:348-373 | the in-order successor, null for the last node |
| `RbSearch.Prev` | libhsakmt/src/rbtree.c:376-402 | the in-order predecessor, null for the first node |
| `RbSearch.HeightBound` | libhsakmt/src/rbtree.c:61-130 | the height of a red-black tree with n nodes is at most 2 log2(n + 1) |
| `Align.Boost` | libhsakmt/src/fmm.c:687-688 | the shifting loop computes the boosted alignment, for any nonzero alignment |
| `Align.BoostedIs` | libhsakmt/src/fmm.c:684-688 | the boosted alignment is a power-of-two multiple of the requested one, bounded by the size unless it was bigger already |
| `Align.AlignUpIs` | libhsakmt/src/libhsakmt.h:90 | without wrap-around the macro yields the least multiple at or above its argument |
| `AreaList.ReservedAperture.Find` | libhsakmt/src/fmm.c:569-581 | the first area that contains the address, or null |
| `AreaList.ReservedAperture.RemoveArea` | libhsakmt/src/fmm.c:366-383 | the list stays doubly linked and loses exactly that area |
| `AreaList.ReservedAperture.InsertArea` | libhsakmt/src/fmm.c:409-419 | the list stays doubly linked and gains the area between its neighbours |
| `AreaList.ReservedAperture.Split` | libhsakmt/src/fmm.c:421-440 | two areas stand where there was one; nothing happens without memory |
| `AreaList.ReservedAperture.Reduce` | libhsakmt/src/fmm.c:616-633 | one area is removed, shrunk at either end, split or left, as the value model says |
| `AreaList.ReservedAperture.Release` | libhsakmt/src/fmm.c:603-633 | the list becomes what the value model says, by removal, shrinking at either end or a split |
| `AreaList.ReservedAperture.Search` | libhsakmt/src/fmm.c:701-715 | the loop finds the first hole that fits and its neighbours |
| `AreaList.ReservedAperture.AllocateAligned` | libhsakmt/src/fmm.c:672-745 | address and list are those of the value model; 0 and no change without a place or without memory |
| `Areas.PlacedKeeps` | libhsakmt/src/fmm.c:724-742 | a block put where it fits keeps the areas sorted and disjoint, covers exactly that block in addition, and lies in one area, as does every block that did before |
| `Areas.ReleasedKeeps` | libhsakmt/src/fmm.c:603-633 | giving back any block inside an area uncovers exactly that block and leaves every other block covered |
| `Areas.PlacedReleased` | libhsakmt/src/fmm.c:603-745 | giving a block back right after it was placed restores the exact list |
| `FirstFit.PlaceFits` | libhsakmt/src/fmm.c:701-722 | a placement, at a free or a fixed address, fits with its guard pages into the hole it was found for, and not before it, if and only if nothing wraps around where the search ends |
| `FirstFit.PlaceOverlaps` | libhsakmt/src/fmm.c:713-718 | an aperture, a list and a request for which the candidate wraps around into an occupied area |
| `FirstFit.PlacedExactly` | libhsakmt/src/fmm.c:724-742 | the list gains exactly the block and stays well formed if and only if the block fits |
| `FirstFit.PlaceAligned` | libhsakmt/src/fmm.c:681-705 | the alignment is a multiple of both alignments asked for; start or end of the request is a multiple of it, even when the candidate wraps around |
| `FirstFit.PlaceInAperture` | libhsakmt/src/fmm.c:701-718 | for every list, a placement at a free or a fixed address lies in the aperture with its guard pages if and only if it starts at or after the base and, behind all areas, at most one past the limit, or, in front of an area, that area starts at most one past the limit or the block ends there |
| `FirstFit.InRangeInside` | libhsakmt/src/fmm.c:701-718 | if all areas lie in the aperture, only the start of the block matters |
| `FirstFit.PlaceBeyondLimit` | libhsakmt/src/fmm.c:716 | an aperture and a request for which the wrapped comparison accepts a block beyond the limit |
| `FirstFit.PlaceAcrossLimit` | libhsakmt/src/fmm.c:707-709 | an aperture, an area beyond its limit and a request whose block in front of that area crosses the limit |
| `FirstFit.FirstFitIsLowest` | libhsakmt/src/fmm.c:672-745 | above page alignment and for every well-formed list, an allocation fails only if no address is suitable, never passes over a lower suitable address, and yields a suitable one if and only if its search ended in range |
| `GapFit.PageFitIsLowest` | libhsakmt/src/fmm.c:695-715 | up to page alignment and for every well-formed list, allocation fails only if no gap has room at its first place that ends aligned, never passes over a lower such place, and yields one when it ends in range without wrap-around |
| `GapFit.FixedExactly` | libhsakmt/src/fmm.c:701-722 | a fixed address is refused if and only if the block starts before the next multiple behind the last area before its end, or crosses the limit behind all areas |
| `GapFit.SuitableAccepted` | libhsakmt/src/fmm.c:701-722 | an aligned fixed address with a free block inside the aperture is always accepted |
| `GapFit.PlacedExtends` | libhsakmt/src/fmm.c:724-742 | a block adds an area unless some area ends right before it, which then ends with the block |
| `AreaRuns.NextKeeps` | libhsakmt/src/fmm.c:603-745 | one allocation or release keeps: areas cover exactly the disjoint union of live blocks, each inside one area |
| `AreaRuns.RunKeeps` | libhsakmt/src/fmm.c:603-745 | so does every run |
| `AreaRuns.AllocateThenRelease` | libhsakmt/src/fmm.c:603-745 | an allocation and its release restore the whole state |
| `AreaRuns.ModestClear` | libhsakmt/src/fmm.c:701-722 | in an aperture that ends well below the top of the address space no search wraps around |
| `AreaRuns.WithinRunKeeps` | libhsakmt/src/fmm.c:603-745 | if requests are such and end in range, every run keeps all areas inside the aperture |
| `AreaRuns.ReachableInside` | libhsakmt/src/fmm.c:603-745 | so does every such run from an empty aperture, and nothing in it wraps around |
| `AreaRuns.ReachableFirstFit` | libhsakmt/src/fmm.c:603-745 | in every state that a run reaches from an empty aperture, with fixed addresses anywhere, first fit misses and passes over no suitable address, and yields one if and only if the search ended in range |
| `AreaRuns.ReachablePageFit` | libhsakmt/src/fmm.c:603-745 | in every such state the same holds up to page alignment, with the places that gaps offer |
| `ObjectLookup.FindByStart` | libhsakmt/src/fmm.c:442-485 | in every valid tree: the object with that address and size; for size 0 one at the address if all there have its key, and null only if none is alone there |
| `ObjectLookup.KeyAtExactly` | libhsakmt/src/fmm.c:476-481 | an object found without a size is alone at its address if and only if no other has its key |
| `ObjectLookup.SameKeyTaken` | libhsakmt/src/fmm.c:476-481 | a tree of two empty user pointers at one address in which the lookup yields one as if it were alone |
| `ObjectLookup.ObjectAtUnique` | libhsakmt/src/fmm.c:442-485 | at most one result meets the description of an object alone, if only empty objects have equal keys |
| `ObjectLookup.FindByRange` | libhsakmt/src/fmm.c:488-543 | the walk from one end to the other is a scan of the sorted objects; in the user tree whatever keys repeat |
| `ObjectLookup.RangeLookupFinds` | libhsakmt/src/fmm.c:488-543 | among disjoint objects, empty ones included, the scan yields the unique one that contains the address, null if and only if there is none |
| `ObjectLookup.UserRangeLookupFinds` | libhsakmt/src/fmm.c:508-540 | among overlapping user pointers that are not empty the scan yields one around the address if and only if there is one |
| `ObjectLookup.UserRangeLookupExactly` | libhsakmt/src/fmm.c:508-540 | in every sorted tree of user pointers it misses one around the address if and only if an empty user pointer at the address stands before one that contains it and none before reaches the address |
| `ObjectLookup.EmptyObjectHides` | libhsakmt/src/fmm.c:508-540 | two user pointers for which the lookup returns null although one contains the address |
| `FmmInvariant.ReserveKeeps` | libhsakmt/src/fmm.c:1476-1482 | reserving addresses keeps the invariant and either hands out a block or changes no area |
| `FmmInvariant.UnreserveKeeps` | libhsakmt/src/fmm.c:1489-1500 | giving a block back after a failure keeps the invariant |
| `FmmInvariant.AddObjectKeeps` | libhsakmt/src/fmm.c:1145-1151 | the block moves from the thread to the new object in the tree |
| `FmmInvariant.ReserveVaKeeps` | libhsakmt/src/fmm.c:1524-1550 | an allocation of addresses only keeps the invariant, whether or not the object can be made |
| `FmmInvariant.FindUserKeeps` | libhsakmt/src/fmm.c:3546-3616 | matching a registered object, by whatever address, counting it and noting nodes keep the invariant |
| `FmmInvariant.PublishKeeps` | libhsakmt/src/fmm.c:3504-3520 | making an object a user pointer, or yielding to a faster thread, keeps at most one object for each address and nonzero size |
| `FmmInvariant.RegisteredExactly` | libhsakmt/src/fmm.c:3513-3518 | a registration keeps the indexes in agreement with the objects if and only if its user pointer is not null |
| `FmmInvariant.NullStaysInTree` | libhsakmt/src/fmm.c:403-405 | an object registered under a null user pointer is removed, but its node stays in the user tree |
| `FmmInvariant.ReleaseKeeps` | libhsakmt/src/fmm.c:1931-1964 | a release keeps the invariant, whether registrations are left, the kernel refuses or the object goes |
| `FmmInvariant.NextKeeps` | libhsakmt/src/fmm.c:1109-1166 | every step keeps: areas cover exactly the disjoint blocks of objects and allocations in flight; both trees agree with the objects; no thread holds a dangling pointer |
| `FmmRuns.RunKeeps` | libhsakmt/src/fmm.c:1465-1550 | so does every interleaving |
| `FmmRuns.ObjectsApart` | libhsakmt/src/fmm.c:1465-1550 | in every reachable state no two objects overlap, guard pages included |
| `FmmRuns.NoDanglingPointer` | libhsakmt/src/fmm.c:3939-3969 | in every reachable state an object that some thread is about to use exists |
| `FmmRuns.FailureUncovers` | libhsakmt/src/fmm.c:1489-1500 | a failed allocation uncovers exactly the block it had |
| `FmmRuns.RunCounts` | libhsakmt/src/fmm.c:3504-3577 | the registration counter is the number of register calls that created or matched the object, rejected ones included, less its releases |
| `FmmRuns.InTreesWhileRegistered` | libhsakmt/src/fmm.c:1931-1964 | if kernel frees succeed, a user pointer is in the trees exactly while it has more registrations than releases |
| `FmmRuns.LastReleaseRemoves` | libhsakmt/src/fmm.c:1938-1962 | the release that brings the counter to zero takes the object out of both trees and uncovers exactly its block; any earlier one changes no area |
| `FmmUserMemory.UserMemoryHeld` | libhsakmt/src/fmm.c:3472-3476 | in every reachable state an object with a user pointer, and every allocation on its way to one, has the least number of whole pages that hold the user memory, unless their size overflows |
| `FmmUserMemory.EveryByteHasAddress` | libhsakmt/src/fmm.c:3141-3182 | at the offset inside the page every byte of the user memory has an address in the object, if and only if the size does not overflow |
| `FmmUserMemory.UserBlockAligned` | libhsakmt/src/fmm.c:3489-3497 | the block for user memory starts, or up to page alignment ends, at a multiple of the aperture's alignment |
| `FmmCalls.AllocateCall` | libhsakmt/src/fmm.c:1465-1510 | a request that has a place gets an object there, in areas, heap and tree |
| `FmmCalls.AllocateFails` | libhsakmt/src/fmm.c:1489-1500 | if the kernel refuses or the object cannot be made, the state is as before |
| `FmmCalls.AllocateVaCall` | libhsakmt/src/fmm.c:1524-1550 | addresses without memory: one more object, or the state as before |
| `FmmCalls.ReleaseCall` | libhsakmt/src/fmm.c:1931-1964 | a release that is the last takes the object out of heap, trees and areas |
| `FmmCalls.AllocateAndRelease` | libhsakmt/src/fmm.c:1465-1964 | allocation and release restore areas, objects and indexes |
| `FmmCalls.RegisterCall` | libhsakmt/src/fmm.c:3464-3617 | a registration that finds nothing ends with one object, registered once, under its user pointer and for the nodes asked for |
| `FmmCalls.RegisterAndRelease` | libhsakmt/src/fmm.c:1931-3617 | registration and release restore areas, objects and both indexes |
| `FmmCalls.LostRace` | libhsakmt/src/fmm.c:3506-3523 | a thread that lost the race gives its own object back and counts the other's |
| `FmmCalls.NodesStay` | libhsakmt/src/fmm.c:3585-3610 | once an object is registered for nodes no step changes them |
| `FmmTrees.InsertedIndexes` | libhsakmt/src/rbtree.c:61-130 | inserting the node of a new object adds exactly that object to the index that a tree stands for |
| `FmmTrees.DeletedIndexes` | libhsakmt/src/rbtree.c:133-285 | deleting the node of an object takes exactly that object out of it |
| `FmmTrees.ObjectInserted` | libhsakmt/src/fmm.c:887-905 | the address tree follows the state when an object is made |
| `FmmTrees.UserInserted` | libhsakmt/src/fmm.c:3513-3518 | the user tree follows the state when an object is registered |
| `FmmTrees.ObjectRemoved` | libhsakmt/src/fmm.c:403-405 | both trees follow the state when an object goes, with or without a user pointer |
| `FmmTrees.StepChangesOne` | libhsakmt/src/fmm.c:403-405 | every step of an interleaving leaves each index as it is, adds one new object or takes one out |
| `FmmTrees.FollowsPossible` | libhsakmt/src/rbtree.c:61-285 | a tree that lists an index can follow each such change with one insertion or deletion |
| `FmmTrees.TreesRunLists` | libhsakmt/src/fmm.c:887-905 | over every run of steps with these insertions and deletions both trees stay sorted and hold the nodes of exactly the objects in the two indexes |
| `FmmLookup.UserKeysRepeat` | libhsakmt/src/fmm.c:3504-3520 | the invariant allows equal keys in the user tree only for empty user pointers |
| `FmmLookup.UserLookup` | libhsakmt/src/fmm.c:3509-3511 | an exact search in the user tree, empty sizes included, is the lookup that a registration step relies on |
| `FmmLookup.GuardPagesBetween` | libhsakmt/src/fmm.c:1465-1550 | in every reachable state the guard pages lie between an object and the next |
| `FmmLookup.AddressesDisjoint` | libhsakmt/src/fmm.c:1465-1550 | in every reachable state the objects in the address tree start at different addresses and do not overlap |
| `FmmLookup.ReachableAddressRange` | libhsakmt/src/fmm.c:488-543 | in every reachable state the range lookup in the address tree yields the only object around an address, null if and only if there is none |
| `FmmLookup.ReachableUserRange` | libhsakmt/src/fmm.c:488-543 | in every reachable state the range lookup in the user tree yields a user pointer around the address, and misses one if and only if an empty user pointer at the address stands before one that contains it and none before reaches the address |
| `FmmLookup.ReachableUserRangeFinds` | libhsakmt/src/fmm.c:488-543 | if no call of the run registers an empty user pointer, it is null if and only if there is none around the address |
| `FmmAperture.ObjectsInAperture` | libhsakmt/src/fmm.c:1465-1550 | in every interleaving of requests that end in range all objects lie inside the aperture with their guard pages, and the next such request wraps nothing around |
| `MappedIds.Compact` | libhsakmt/src/fmm.c:2953-2959 | the in-place loop leaves the ids that are not removed, in order |
| `MappedIds.VmObject.RemoveMapped` | libhsakmt/src/fmm.c:2945-2969 | the mapped ids without the given ones; all are forgotten when the object's own array is passed |
| `MappedIds.VmObject.AddMapped` | libhsakmt/src/fmm.c:2974-2996 | the old ids that are not given, then the given ones; without memory the array is lost and the object stays consistent if and only if nothing was left in it |
| `MappedIds.VmObject.Map` | libhsakmt/src/fmm.c:3000-3089 | the devices asked for, else the registered ones, else the default ones are mapped, as far as the kernel says, with the mapping count; both caches stay absent or exact, if and only if memory suffices or no old id was left |
| `MappedIds.VmObject.Unmap` | libhsakmt/src/fmm.c:3253-3317 | which devices are left and the mapping count, for every kernel result; both caches stay absent or exact |
| `MappedIds.VmObject.MapToNodes` | libhsakmt/src/fmm.c:4006-4110 | an unregistered node changes nothing; otherwise success and mapped ids are stated for every kernel result, for user pointers regardless of the nodes, and when the object stays consistent without memory |
| `MappedIds.RemappedExactly` | libhsakmt/src/fmm.c:4060-4104 | if the kernel honours what it is asked to unmap and map, exactly the requested nodes are mapped afterwards, whatever was mapped before |
| `MappedIds.RemappedBounds` | libhsakmt/src/fmm.c:4060-4104 | for every kernel result nothing is mapped that was neither mapped nor requested, and what was both stays mapped |
| `MappedIds.VmObject.Register` | libhsakmt/src/fmm.c:3585-3617 | nodes are set once, again only to the same ones; the cache of node ids is dropped with the change |
| `MappedIds.VmObject.Deregister` | libhsakmt/src/fmm.c:3972-3990 | the registered ids and their cache go together |
| `MappedIds.VmObject.Query` | libhsakmt/src/fmm.c:4143-4180 | the reported node ids are the elementwise translation of the current device ids |
| `SvmSearch.OutcomeExactly` | libhsakmt/src/fmm.c:2264-2284 | nothing is reserved for a length if and only if its asks are answered too high until one is refused or none is left |
| `SvmSearch.EveryHugePageTried` | libhsakmt/src/fmm.c:2264-2266 | if all starts below a huge page are answered too high and the one there is granted, that one is reserved |
| `SvmSearch.FoundExactly` | libhsakmt/src/fmm.c:2262-2302 | the search finds nothing if and only if no length of the halving chain from the whole range to 4 GB yields enough, else what the first of them yields |
| `SvmSearch.GenerousFound` | libhsakmt/src/fmm.c:2262-2302 | if `mmap` grants at the address asked up to some length of the chain, no less than that length in whole pages is reserved below the limit |
| `SvmSearch.GenerousHalf` | libhsakmt/src/fmm.c:2262-2302 | if it does so up to any size from 8 GB on, no less than half of it |
| `SvmApertures.Svm.AskNext` | libhsakmt/src/fmm.c:2266-2283 | one ask is granted, refused or given back because it was answered too high |
| `SvmApertures.Svm.TrySize` | libhsakmt/src/fmm.c:2264-2284 | for every behaviour of `mmap` the inner loop ends with exactly what the asks for the length come to, and with nothing else reserved |
| `SvmApertures.Svm.Search` | libhsakmt/src/fmm.c:2262-2302 | the outer loop ends with exactly what the chain of lengths yields, of which 4 GB are below the limit, or with nothing reserved |
| `SvmApertures.Svm.Take` | libhsakmt/src/fmm.c:2308-2344 | exactly the tail above the limit is given back and the rest is split into two apertures with the alignment and guard pages asked for |
| `SvmApertures.SplitFits` | libhsakmt/src/fmm.c:2324-2340 | the two apertures are adjacent, not empty, and end with the range; base and size of the coherent one are multiples of 64 KB, its size a quarter of the range rounded up |
| `SvmApertures.Svm.Allocate` | libhsakmt/src/fmm.c:748-782 | of a mapping with padding exactly one aligned block in the range stays reserved, with guards given back on both sides; or nothing, if and only if `mmap` fails or the block is out of range |
| `SvmApertures.Svm.Boost` | libhsakmt/src/fmm.c:840-841 | the alignment of a page grows to the page |
| `SvmApertures.Svm.TryPage` | libhsakmt/src/fmm.c:2170-2186 | the trial page is given back, and had if and only if what `mmap` answers lies in the range behind its guard |
| `SvmApertures.Svm.InitUnreserved` | libhsakmt/src/fmm.c:2144-2189 | one aperture over the whole range with its alignment and guard pages and nothing reserved, successful if and only if the alignment allows it and the trial page can be had |
| `SvmApertures.Svm.InitReserved` | libhsakmt/src/fmm.c:2250-2348 | it succeeds if and only if the search finds something; then exactly that, below the limit, stays reserved and is split; otherwise nothing |
| `SvmApertures.Svm.GenerousFindable` | libhsakmt/src/fmm.c:2250-2348 | if `mmap` grants at the address asked up to 8 GB or more, it succeeds with at least half of that |
| `SvmApertures.BoundsAre` | libhsakmt/src/fmm.c:2227-2248 | base and limit are rounded inwards to huge pages, and the limit is at most 1 TB |
| `SvmApertures.Svm.Init` | libhsakmt/src/fmm.c:2213-2348 | inherited apertures are kept; otherwise the unreserved aperture if its trial page can be had, else success if and only if the search finds something; on failure nothing is reserved |
| `IndirectLinks.Topology.DirectCpu` | libhsakmt/src/topology.c:1771-1786 | the end of the first PCIe link of weight at most 20 of a GPU, or -1 |
| `IndirectLinks.Topology.DirectLink` | libhsakmt/src/topology.c:1791-1811 | the first link between two nodes, if there is one |
| `IndirectLinks.Topology.IndirectLink` | libhsakmt/src/topology.c:1813-1911 | weight and kind that a search in the current arrays finds |
| `IndirectLinks.Topology.AddLink` | libhsakmt/src/topology.c:1745-1768 | a link is appended if and only if the node has fewer links than there are other nodes |
| `IndirectLinks.SearchIsChain` | libhsakmt/src/topology.c:1854-1911 | what a search between nodes that are attached to CPUs, or to nothing, finds is a chain of two or three links through CPUs with the sum of their weights |
| `IndirectLinks.SearchThroughGpu` | libhsakmt/src/topology.c:1771-1786 | three GPUs for which a search finds a link although there is no chain through CPUs |
| `IndirectLinks.UnattachedStays` | libhsakmt/src/topology.c:1771-1786 | no link added to a GPU without a CPU of its own looks like one to a CPU, unless weights overflow |
| `IndirectLinks.SameSearch` | libhsakmt/src/topology.c:1813-1938 | a search in the arrays that are being extended finds what it would find in the original ones |
| `IndirectLinks.SearchUsesNewLink` | libhsakmt/src/topology.c:1813-1938 | a topology with GPUs attached to GPUs in which it does not |
| `IndirectLinks.Topology.CreateIndirectLinks` | libhsakmt/src/topology.c:1913-1938 | the arrays become what the searches in the original arrays would have given |
| `IndirectLinks.IndirectLinksAreChains` | libhsakmt/src/topology.c:1913-1938 | original links stay an unchanged prefix, no node exceeds the number of other nodes, every added link between nodes attached to CPUs is such a chain of original links |
| `IndirectRoutes.SearchExactly` | libhsakmt/src/topology.c:1813-1911 | between eligible nodes a search finds the summed weight and the kind of the middle hop of each of the four kinds of routes over first links, and nothing if and only if there is no route |
| `IndirectRoutes.IndirectLinksAreComplete` | libhsakmt/src/topology.c:1913-1938 | every route of the original graph is added as a link unless the node's array is full |
| `IndirectRoutes.IndirectLinksAreRoutes` | libhsakmt/src/topology.c:1913-1938 | every added link is such a route |
| `TestGroup.NextKeeps` | rocrtst/common/concurrent_utils.cc:68-113 | every step keeps: the counter is the number of workers that have not finished the round, and every sleeper has a reason to sleep |
| `TestGroup.OncePerStart` | rocrtst/common/concurrent_utils.cc:241-254 | in every run each worker ran its test once for each accepted start, the current one possibly still due |
| `TestGroup.WaitReturnsWhenDone` | rocrtst/common/concurrent_utils.cc:137-145 | a wait returns only when every worker has finished and ran once for each start |
| `TestGroup.StartAcceptedWhenDone` | rocrtst/common/concurrent_utils.cc:241-254 | a start is accepted only when every worker ran once for each start before it |
| `TestGroupProgress.StartAcceptedExactly` | rocrtst/common/concurrent_utils.cc:241-254 | in every reachable state a start is accepted if and only if no worker is left in the round before |
| `TestGroupProgress.WaitReturnsExactly` | rocrtst/common/concurrent_utils.cc:137-145 | a wait returns if and only if no worker is left in the round |
| `TestGroup.NoLostWakeUp` | rocrtst/common/concurrent_utils.cc:75-102 | in every reachable state a thread asleep without a pending wake-up still has a true wait condition |
| `TestGroup.SomeWorkerCanStep` | rocrtst/common/concurrent_utils.cc:75-102 | while tests are running, some worker that has not finished the round can take a step |
| `TestGroup.RoundCompletes` | rocrtst/common/concurrent_utils.cc:68-113 | left alone, the workers stop after a bounded number of steps in any order, and then the counter is zero |
| `TestGroupProgress.Settle` | rocrtst/common/concurrent_utils.cc:68-113 | from every state steps of the workers bring all of them to rest with no test running |
| `TestGroupProgress.WaitCompletes` | rocrtst/common/concurrent_utils.cc:137-145 | a pending wait can be completed by the workers alone |
| `TestGroupProgress.GroupProgress` | rocrtst/common/concurrent_utils.cc:137-290 | from every reachable state before the exit: the wait completes, one more start is accepted and each worker runs its test once more, and the group can exit |
| `TestGroupProgress.ExitCompletes` | rocrtst/common/concurrent_utils.cc:256-290 | in every reachable state of an exit the workers finish and are joined |

## Left out

- Resetting CPU mappings and NUMA policy at the end of a release (libhsakmt/src/fmm.c:635-665): it does not touch the area list.
- Fixed addresses, memory protection and release in apertures that leave addresses to `mmap` (libhsakmt/src/fmm.c:790-868): they keep no area list.
- Scratch memory, graphics handles and shared memory of other processes: their objects are made by other paths.
- The sections of `Fmm` are functions on values; that the list and the trees are updated in place is modelled in `AreaList` and the `Rb` modules, and `FmmTrees` carries every run of tree updates over to the state.
- `Fmm` assumes memory for area nodes and splits, which `AreaList` does not.
- AreaList.ReservedAperture.AllocateAligned: requires alignments that are zero or powers of two, which libhsakmt/src/memory.c:142 checks for callers; for others the masks round to no multiple.
- AreaList.ReservedAperture.Search: requires the same.
- AreaRuns.RunKeeps: is about runs in which nothing wraps around where a search ends, since otherwise a block can be put into an occupied area (`FirstFit.PlaceOverlaps`).
- FmmInvariant.NextKeeps: assumes the same, that callers release only what they allocated or registered, in numbers that do not exceed the registrations returned to them, that user pointers are not null (`FmmInvariant.RegisteredExactly`), and that counters stay below 2^32.
- MappedIds.VmObject.MapToNodes: models objects with memory that the CPU can reach; the early errors for others (libhsakmt/src/fmm.c:4009-4042) have no effect.
- IndirectLinks.Topology.CreateIndirectLinks: requires that what a GPU is attached to is a CPU, or has all links that searches through it ask for (otherwise `IndirectLinks.SearchUsesNewLink`), and that weights of PCIe links of other GPUs do not overflow when a hop is added.
- SvmApertures.Svm.Allocate: requires page-aligned answers of `mmap` and sizes that do not wrap around, as the trial page has.
- `TestGroup` has one controlling thread, which exits only after a completed wait; kill, resize and affinity are not modelled.
- The key of a tree node is constant in `RbShape.Node`; the source sets it before insertion.
- Parsing of sysfs and `/proc`, and the interfaces for events, queues, performance counters, debugging and profiling: they read files, check arguments and pass them to the kernel.
