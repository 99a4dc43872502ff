# A verified model of the collections library and the heap allocator

This project models the parts of the firmware that carry real data-structure logic: the C collections library under
`src/collect` and the allocator in `src/mem/lib_mem.c`. Each object that the C code updates in place is a class with the
same fields; the loops of the C code are loops here, with the same branches in the same order. Every method is proved against
a specification function or predicate on plain values, and the properties the library is for are proved about those.

| file | what it models |
|---|---|
| `TreeTable.dfy`, `RbTree.dfy`, `RbRules.dfy`, `RbMemory.dfy`, `OrderedMap.dfy` | the red-black tree map `treetable.c`, its fix-up loops, its iterator and its debugging check |
| `Heap.dfy`, `HeapBlocks.dfy`, `HeapLinks.dfy`, `HeapRuns.dfy` | the first-fit allocator with splitting and two-sided coalescing |
| `Lists.dfy`, `ListNodes.dfy`, `ListSort.dfy`, `ListMerge.dfy` | the doubly linked list: in-place merge sort, reversal, splicing, bulk insertion |
| `HashTables.dfy`, `HashIterators.dfy`, `HashChains.dfy`, `KeyMaps.dfy` | the chained hash table, resizing, NULL keys, its iterator |
| `Deques.dfy`, `Bits.dfy` | the ring-buffer deque, the queue on top of it, masks and power-of-two rounding |
| `Arrays.dfy`, `Floats.dfy` | growing by a floating-point factor, in-place and copying filters, reversal of the dynamic array |
| `Common.dfy` | keys, values, status codes, allocation, the laws of comparators |
| `Witnesses.dfy` | one input for each place where the code departs from its documentation |

## How to read it

**Tree.** The nodes are objects with `left`, `right`, `parent` and `color`; one shared sentinel object really has its `parent`
written by `transplant`. A ghost value `tree` is the shape of the nodes, and a ghost copy `mem` of the link fields ties it to them.
A place in the tree is a zipper (`Path`), so each loop of the C code keeps a pair of a subtree and its path.
`TreeTable.Valid` says at once: links in both directions match the shape, the root is black, no red node has a red parent, every path has the
same number of black nodes, the keys are in strictly ascending order, `size` is the number of nodes. `Entries()` is the map, as a sequence in
key order.

**Heap.** Addresses are naturals, headers live in a map from addresses to headers. The heap is the sequence `blocks` that tiles it;
`HeapLinks.Linked` says that following the links from `xStart` visits exactly the free blocks in address order and ends at `pxEnd`.
Sizes are 32-bit words: the two additions that round a request are written with their wrap-around.

**List.** `Linked(s)` says that the nodes `s` are linked both ways in exactly this order, with NULL at the ends.

**Hash table.** Keys are pointers, `None` is NULL. `contents` is a partial map whose keys are told apart only by `key_cmp`;
`HashChains.Holds` says that every entry is in the bucket `hash & (capacity - 1)` and nowhere else. The load factor is a real number
that is not negative; its product with a power of two is exact in floating point as well.

**Status.** `Fault` is no status of the C code. It stands for a call in which that code follows a NULL pointer or leaves a buffer; the contract
says exactly when that happens, and the model does not go on from there.

**Allocation.** An operation that allocates has a parameter `granted`, the allocator's answer, and its contract says for either answer how the
call ends. A request for 0 bytes fails whatever the answer, as in `src/mem/lib_mem.c`.

**Common assumptions.** Comparators, hashes and predicates are pure functions; comparators of the tree and of the sort are total preorders, `key_cmp` decides an equivalence, and equal keys hash equally. Element counts are unbounded numbers, since no
structure can outgrow the address space; capacities, masks and block sizes are 32-bit.

## Model

| member | source | states |
|---|---|---|
| `TreeTable.TreeTable.Add` | src/collect/treetable.c:382-440 | adding a key to any valid table gives the map updated at that key (value replaced if the key compares as 0, otherwise a new entry in its place); CC_ERR_ALLOC exactly when the key is absent and no memory is granted, and then the table is unchanged; all red-black and search-order invariants hold again |
| `TreeTable.TreeTable.constructor` | src/collect/treetable.c:102-129 | for any comparator that is a total preorder the new table is valid and empty |
| `TreeTable.TreeTable.New` | src/collect/treetable.c:102-129 | such a table when memory is granted, otherwise CC_ERR_ALLOC |
| `TreeTable.TreeTable.Remove` | src/collect/treetable.c:673-685 | the table is the old one without that key, which also says what the call returns; an absent key leaves it alone; all invariants hold again |
| `TreeTable.TreeTable.RemoveFirst` | src/collect/treetable.c:698-711 | the map without its least entry, whose value is returned; CC_ERR_KEY_NOT_FOUND exactly when there is none |
| `TreeTable.TreeTable.RemoveLast` | src/collect/treetable.c:724-736 | the map without its greatest entry, whose value is returned; the call faults exactly when there is none |
| `TreeTable.TreeTable.EmptyRoot` | src/collect/treetable.c:593-609 | a table is empty exactly when its root is the sentinel, and exactly then the walks to the least and greatest key start at a NULL child |
| `TreeTable.TreeTable.Get` | src/collect/treetable.c:174-184 | finds exactly what the map has for the key, after at most 2 * log2(n + 1) comparisons |
| `TreeTable.TreeTable.ContainsKey` | src/collect/treetable.c:337-346 | true exactly for the keys of the map |
| `TreeTable.TreeTable.EntriesAscend` | src/collect/treetable.c:382-440 | the entries of every valid table are in strictly ascending order of the comparator |
| `TreeTable.TreeTable.GetTreeNodeByKey` | src/collect/treetable.c:816-842 | a node of the table with an equal key, or NULL if there is none; the loop runs no more often than the tree is high |
| `TreeTable.TreeTable.FindPlace` | src/collect/treetable.c:385-407 | the descent of an insertion ends at the node with an equal key or at the one leaf where the key belongs |
| `TreeTable.TreeTable.AddNode` | src/collect/treetable.c:417-438 | a new red leaf at its place, after rebalancing, leaves a valid tree whose nodes in order are the old ones with it in between |
| `TreeTable.TreeTable.RebalanceAfterInsert` | src/collect/treetable.c:448-500 | the loop ends, and turns a tree whose only fault is a red node below a red parent into a red-black tree with the same nodes in the same order |
| `TreeTable.TreeTable.FixInsertLeft` | src/collect/treetable.c:454-475 | one round on the left arm repairs the tree or moves the fault two levels up |
| `TreeTable.TreeTable.FixInsertRight` | src/collect/treetable.c:476-497 | the mirrored round |
| `TreeTable.TreeTable.RebalanceAfterDelete` | src/collect/treetable.c:509-579 | the loop ends, also when the node that lacks a black is the sentinel, and restores a red-black tree with the same nodes in the same order |
| `TreeTable.TreeTable.FixDeleteLeft` | src/collect/treetable.c:515-545 | one round on the left arm: the missing black moves up, the sibling turns black, or the loop is at its end |
| `TreeTable.TreeTable.FixDeleteRight` | src/collect/treetable.c:546-576 | the mirrored round |
| `TreeTable.TreeTable.BorrowLeft` | src/collect/treetable.c:539-543 | with a red far nephew one rotation pays the missing black for good |
| `TreeTable.TreeTable.BorrowRight` | src/collect/treetable.c:570-574 | the mirrored rotation |
| `TreeTable.TreeTable.RotateLeftAt` | src/collect/treetable.c:786-806 | six pointer writes turn the nodes at any place of the tree into the left-rotated shape and disturb nothing else |
| `TreeTable.TreeTable.RotateRightAt` | src/collect/treetable.c:757-777 | the mirror image |
| `TreeTable.TreeTable.Transplant` | src/collect/treetable.c:581-591 | the link above u leads to v and v back, the sentinel's parent included |
| `TreeTable.TreeTable.TreeMin` | src/collect/treetable.c:593-600 | the first node in order of a subtree |
| `TreeTable.TreeTable.TreeMax` | src/collect/treetable.c:602-609 | the last node in order of a subtree |
| `TreeTable.TreeTable.ReplaceByChild` | src/collect/treetable.c:634-652 | a node whose right child has no left child is replaced by that child, relinked, not copied |
| `TreeTable.TreeTable.ReplaceBySuccessor` | src/collect/treetable.c:634-653 | a node with two children is replaced by its in-order successor node, which keeps its identity |
| `TreeTable.TreeTable.Unlink` | src/collect/treetable.c:622-653 | all three ways of taking a node out leave exactly the other nodes in order, with at most one black missing at one place |
| `TreeTable.TreeTable.RemoveNode` | src/collect/treetable.c:617-659 | node i of a valid table is gone, all other nodes are still there in order, and the table is valid |
| `TreeTable.TreeTable.GetSuccessorNode` | src/collect/treetable.c:852-869 | the next node in key order, or the sentinel after the last |
| `TreeTable.TreeTable.GetGreaterThan` | src/collect/treetable.c:280-291 | succeeds for every present key, and gives the least greater key except for the greatest key, where it succeeds too and gives NULL |
| `TreeTable.TreeTable.Test` | src/collect/treetable.c:1004-1055 | the check of a subtree reports the first broken rule in the order in which it looks, and RB_ERROR_OK if and only if the subtree obeys the red rule and the black rule and every node compares rightly with its own two children |
| `TreeTable.ViolationsMean` | src/collect/treetable.c:1004-1055 | each of the three error codes is among the violations if and only if its own rule is broken somewhere in the subtree |
| `TreeTable.FirstOf` | src/collect/treetable.c:1011-1054 | the order of the tests: own children, own parent, left subtree, right subtree, black heights |
| `TreeTable.TreeTable.AssertRbRules` | src/collect/treetable.c:1057-1062 | the check passes every valid table, and so every one that the constructor, additions and removals lead to |
| `TreeTable.TreeTableIter.Init` | src/collect/treetable.c:942-947 | the iterator stands before the first entry; the call faults exactly when the table is empty |
| `TreeTable.TreeTableIter.constructor` | src/collect/treetable.c:942-947 | the iterator of a non-empty table, whose current node is the sentinel |
| `TreeTable.TreeTableIter.Next` | src/collect/treetable.c:959-971 | gives the entries in order and then IterEnd, whatever was removed behind it |
| `TreeTable.TreeTableIter.Remove` | src/collect/treetable.c:988-1000 | removes the entry returned last; a second time CC_ERR_KEY_NOT_FOUND; the saved next node stays the in-order successor; the call faults exactly when nothing was returned before |
| `TreeTable.Sweep` | src/collect/treetable.c:942-1000 | a whole iteration that removes the returned entry or keeps it, in any pattern, returns every original entry once, in ascending order, and leaves exactly the kept ones: a lookup of a returned key finds its value if it was kept, and nothing otherwise |
| `RbTree.PlugInOrder` | src/collect/treetable.c:757-806 | a change below a path changes the nodes in order only in its own stretch |
| `RbTree.PlugFits` | src/collect/treetable.c:448-500 | a subtree with its path is a red-black tree exactly when each fits the other |
| `RbTree.RotatedInOrder` | src/collect/treetable.c:757-806 | rotations keep the order of the nodes |
| `RbRules.LiftInv` | src/collect/treetable.c:471-473 | with a black uncle the outer rotation with its recolouring keeps the insertion invariant, at a place below a black node |
| `RbRules.TurnInv` | src/collect/treetable.c:466-470 | the inner rotation keeps the insertion invariant |
| `RbRules.UncleInv` | src/collect/treetable.c:457-463 | with a red uncle recolouring parent, uncle and grandparent keeps the insertion invariant two levels up |
| `RbRules.SiblingUpInv` | src/collect/treetable.c:518-524 | rotating a red sibling up keeps the deletion invariant |
| `RbRules.SiblingRedInv` | src/collect/treetable.c:525-529 | a sibling painted red moves the missing black to the parent |
| `RbRules.NephewInv` | src/collect/treetable.c:532-538 | rotating the near nephew up keeps the deletion invariant |
| `RbRules.BorrowInv` | src/collect/treetable.c:539-543 | the rotated subtree of the last round fits its place in a red-black tree |
| `RbRules.SpliceInv` | src/collect/treetable.c:624-633 | taking out a node with at most one child leaves the deletion invariant |
| `RbRules.SuccessorInv` | src/collect/treetable.c:634-653 | replacing a node by its successor leaves the deletion invariant where the successor was |
| `RbTree.SuccessorInOrder` | src/collect/treetable.c:634-653 | and leaves exactly the other nodes in order |
| `RbTree.BlackHeightBound` | src/collect/include/treetable.h:26-29 | the black height is at least half the height and at most log2(n + 1) |
| `RbTree.HeightBound` | src/collect/include/treetable.h:26-29 | a red-black tree of n nodes and height h has 2^(h/2) <= n + 1, h/2 rounded up |
| `RbMemory.RotateAt` | src/collect/treetable.c:757-806 | the writes of a rotation, as a change of the link fields, realise the rotated shape at any place of the tree |
| `RbMemory.SpliceAt` | src/collect/treetable.c:624-633 | the writes of a transplant realise the tree without the node |
| `RbMemory.ReplaceAt` | src/collect/treetable.c:649-652 | the writes that put one node in the place of another realise the renamed tree |
| `OrderedMap.LookupPut` | src/collect/treetable.c:382-440 | after adding, equal keys find the value and all others what they found before |
| `OrderedMap.LookupWithout` | src/collect/treetable.c:673-685 | after removing, equal keys find nothing and all others what they found before |
| `OrderedMap.SearchLeft` | src/collect/treetable.c:394-397 | a key below a node belongs among the nodes left of it |
| `OrderedMap.SearchRight` | src/collect/treetable.c:398-401 | a key above a node belongs among the nodes right of it |
| `OrderedMap.SortedChildren` | src/collect/treetable.c:1011-1023 | an ordered tree passes the comparisons of every node with its children |
| `Heap.Heap.PvPortMalloc` | src/mem/lib_mem.c:167-258 | from any reachable state, initialised or not: the pointer and the new blocks are those of the first-fit specification, a refused request changes neither headers nor counter, and the free list and the counter match the blocks again |
| `Heap.Heap.VPortFree` | src/mem/lib_mem.c:269-305 | an allocated block becomes free and merges with its free neighbours; NULL and a block that is free already change nothing |
| `Heap.Heap.PrvHeapInit` | src/mem/lib_mem.c:320-353 | one free block from the aligned start to `pxEnd`, linked and counted |
| `Heap.Heap.PrvInsertBlockIntoFreeList` | src/mem/lib_mem.c:356-406 | in all cases of touching neighbours, and at the end marker, the headers become those with the merged block linked in its place |
| `Heap.Heap.FindFit` | src/mem/lib_mem.c:206-212 | the walk stops at the first free block of at least n bytes, with the list node before it, or at the end marker |
| `Heap.Heap.Take` | src/mem/lib_mem.c:222-249 | the block is unlinked, split when more than the minimum is left over, marked and uncounted; list and counter match again |
| `Heap.Heap.BlockSize` | src/mem/lib_mem.c:189-200 | adding the header and rounding up to 8 does not wrap around in 32 bits for a request without the top bit |
| `Heap.Heap.PvPortMemDeinit` | src/mem/lib_mem.c:158-164 | the heap is as before its first use |
| `Heap.Heap.XPortGetFreeHeapSize` | src/mem/lib_mem.c:308-311 | the counter is the sum of the sizes of the free blocks |
| `HeapRuns.ServedIff` | src/mem/lib_mem.c:176-258 | a request is refused exactly when it is zero, has the top bit set, or no single free block holds its rounded size |
| `HeapRuns.NoneRemaining` | src/mem/lib_mem.c:202 | the comparison with the number of free bytes never refuses a request that some block would hold |
| `HeapRuns.RoundedLeast` | src/mem/lib_mem.c:189-200 | the rounded size is the least multiple of 8 that holds header and request, and fits 32 bits |
| `HeapRuns.MallocLive` | src/mem/lib_mem.c:206-249 | a served request adds exactly one allocated block, at the lowest address of a free block that holds it; it takes the rounded size if more than 16 bytes would be left over, and otherwise the whole block; its memory is 8-aligned and inside the heap; no other allocated block moves or changes size |
| `HeapRuns.FreeLive` | src/mem/lib_mem.c:287-303 | freeing removes exactly that block from the allocated ones and adds its size to the free bytes |
| `HeapRuns.LiveApart` | src/mem/lib_mem.c:216-249 | no two blocks overlap |
| `HeapRuns.RunInv` | src/mem/lib_mem.c:167-305 | after any run of allocations and frees the blocks tile the heap without gap or overlap, and no two free blocks touch |
| `HeapRuns.RunKeeps` | src/mem/lib_mem.c:167-305 | an allocated block that is not freed keeps its place and size over any run |
| `HeapRuns.MallocFree` | src/mem/lib_mem.c:202-303 | freeing a block right after it was allocated restores every block, split or not |
| `HeapRuns.FreeAll` | src/mem/lib_mem.c:320-406 | freeing all allocated blocks, in any order, leaves the single free block of the initial heap |
| `HeapRuns.InitialInv` | src/mem/lib_mem.c:342-350 | the initial heap satisfies the invariant and is all free, with 999984 bytes |
| `HeapBlocks.CoalesceInv` | src/mem/lib_mem.c:368-396 | merging on both sides keeps the tiling, leaves no free neighbours and loses no byte |
| `HeapBlocks.AllocateInv` | src/mem/lib_mem.c:226-249 | allocation keeps the tiling and takes exactly the bytes of the block out of the free ones |
| `HeapBlocks.ReleaseInv` | src/mem/lib_mem.c:287-303 | release keeps the tiling and adds exactly the bytes of the block |
| `HeapBlocks.AllocateRelease` | src/mem/lib_mem.c:226-303 | release undoes allocation, block for block |
| `HeapBlocks.AllFree` | src/mem/lib_mem.c:342-347 | a heap without allocated blocks is one block |
| `HeapBlocks.TilesDisjoint` | src/mem/lib_mem.c:216-249 | an earlier block ends before a later one begins |
| `HeapLinks.InsertedLinked` | src/mem/lib_mem.c:356-406 | the headers written by the insertion link exactly the coalesced blocks |
| `HeapLinks.TouchesLeft` | src/mem/lib_mem.c:370-375 | the address test on the list node before a block succeeds exactly when the block just below is free |
| `HeapLinks.TouchesRight` | src/mem/lib_mem.c:379-396 | the address test on the next list node succeeds exactly when the block just above is free or the heap ends there |
| `HeapLinks.AroundFree` | src/mem/lib_mem.c:206-224 | the node before a free block leads to it, and it leads to the next free block in address order, or to `pxEnd` |
| `Lists.List.SortInPlace` | src/collect/list.c:1142-1145 | for every total preorder the list holds the same nodes, in order, equal elements as they were, with links, head, tail and size right |
| `Lists.List.Split` | src/collect/list.c:1157-1185 | a stretch of the list is sorted in place and the rest keeps its links; head and tail are set to its ends |
| `ListMerge.MergeInPlace` | src/collect/list.c:1205-1272 | two neighbouring stretches become their stable merge; the loop always leaves by a break, with both output nodes right, also by comparing a node with itself |
| `ListSort.MergeSortSorts` | src/collect/list.c:1142-1272 | merge sort yields a stable sorting: in order, the same nodes, equal elements in their old order |
| `ListSort.SortUnique` | src/collect/list.c:1142-1145 | there is only one such sequence |
| `ListSort.StableSortMeans` | src/collect/list.c:1142-1145 | element by element: every node compares at most as 0 with each later one, no node is lost, and two that compare as 0 are in the order they had |
| `ListSort.MergeInOrder` | src/collect/list.c:1205-1272 | merging sorted sequences gives a sorted one |
| `ListSort.MergeEquals` | src/collect/list.c:1218-1244 | among equal elements those of the left partition come first |
| `ListSort.MergeMembers` | src/collect/list.c:1205-1272 | merging loses and invents no node |
| `ListMerge.TakeRight` | src/collect/list.c:1243-1244 | linking the right node behind the left one is one step of the merge |
| `ListNodes.LinkBehind` | src/collect/list.c:1861-1884 | a node, from elsewhere in the same chain or new, ends up right before the base node, and the chain is well linked |
| `ListNodes.Swap` | src/collect/list.c:1923-1960 | two nodes exchange their places, adjacent or not, at the ends or not |
| `ListNodes.SwapAdjacent` | src/collect/list.c:1969-2004 | two neighbours exchange their places, given in either order |
| `Lists.List.Reverse` | src/collect/list.c:767-797 | the nodes are in reverse for every length, links and ends right |
| `Common.ReversedTwice` | src/collect/list.c:767-797 | reversing is its own inverse |
| `Lists.List.SpliceAt` | src/collect/list.c:447-480 | the nodes of the second list are moved to the index, the second list is empty; an empty second list is accepted at any index, otherwise an index past the end is refused and nothing changes |
| `Lists.List.SpliceBetween` | src/collect/list.c:493-519 | the three cases of neighbours all give the spliced sequence and empty the second list |
| `Lists.List.AddAllAt` | src/collect/list.c:314-365 | new nodes with the elements of the second list, one by one, at the index; the second list keeps its nodes, also when it is the same list; CC_ERR_ALLOC exactly when one of the nodes is not granted, and then the list is unchanged and no node stays allocated; it faults exactly when the copies for index 0 of an empty list are made |
| `Lists.List.AddAll` | src/collect/list.c:266-272 | new nodes with the elements of the second list, one by one, at the end, also of an empty list; nothing exactly when one of the nodes is not granted |
| `Lists.List.AddAllToEmpty` | src/collect/list.c:283-298 | the empty list gets a copy of the second list, element by element, or nothing |
| `Lists.List.LinkAllExternally` | src/collect/list.c:378-415 | a separate chain with the same elements, each at its place, or, exactly when a node is not granted, all its nodes freed again |
| `Lists.List.GetNodeAt` | src/collect/list.c:2074-2096 | the node at the index, from whichever end it is reached |
| `Lists.List.AddLast` | src/collect/list.c:192-215 | one new node behind all others, or nothing changes |
| `Lists.List.AddAt` | src/collect/list.c:231-251 | one new node before the index, which must exist; otherwise nothing changes |
| `Lists.List.Unlink` | src/collect/list.c:2014-2034 | the node is out of the list, its neighbours are linked, head and tail follow, and it is freed |
| `HashTables.HashTable.Add` | src/collect/hashtable.c:170-258 | the value goes to the entry whose key compares as 0 with the given one, NULL to the entry of NULL, and otherwise to a new entry; the table grows exactly when the size has reached the threshold and the buckets are granted; each status exactly when it is due, CC_ERR_MAX_CAPACITY at 2^31 buckets, which no table of the 32-bit target has, since growing never leads to 2^30 or more; on failure the map is unchanged |
| `HashTables.HashTable.Get` | src/collect/hashtable.c:271-317 | the value of the key that compares as 0 with the given one, of NULL for NULL, or CC_ERR_KEY_NOT_FOUND if there is none |
| `HashTables.HashTable.Remove` | src/collect/hashtable.c:331-413 | the map without the key that compares as 0 with the given one, NULL included; returns its value; one entry leaves its chain |
| `HashTables.HashTable.RemoveAll` | src/collect/hashtable.c:420-438 | the map is empty and the size is counted down to 0 |
| `HashTables.HashTable.Resize` | src/collect/hashtable.c:451-474 | twice the buckets, fewer than 2^30, with the same entries and the same map, and a new threshold; each status exactly when it is due; a failure changes nothing |
| `HashTables.MoveEntries` | src/collect/hashtable.c:515-539 | every entry ends up in the bucket of its hash under the new mask, none is lost |
| `HashTables.HashTable.constructor` | src/collect/hashtable.c:83-112 | an empty table whose capacity is the requested one rounded up to a power of two, with the threshold for it |
| `HashTables.HashTable.New` | src/collect/hashtable.c:83-112 | such a table exactly when memory is granted and the request is at most 2^29, otherwise CC_ERR_ALLOC; the bytes of more buckets wrap around to 0 |
| `HashTables.HashTable.FindEntry` | src/collect/hashtable.c:191-202 | the entry of an equal key in its bucket, or the certainty that no bucket has one |
| `HashTables.HashTable.PlaceOf` | src/collect/hashtable.c:694-698 | the entry of every key of the map is in the bucket of its hash modulo the capacity, NULL in bucket 0 |
| `HashTables.DefaultLimit` | src/collect/hashtable.c:24-25 | with the default load factor the threshold is three quarters of the buckets |
| `KeyMaps.StoredNames` | src/collect/hashtable.c:191-202 | the entry of a key is the one entry whose key compares as 0 with it |
| `HashIterators.HashTableIter.constructor` | src/collect/hashtable.c:756-774 | the iterator of a table with entries is before the first entry of all buckets in order; on an empty table only the table is set, and the other fields can have any value |
| `HashIterators.HashTableIter.Next` | src/collect/hashtable.c:786-818 | gives the pending entries one after the other and then IterEnd |
| `HashIterators.HashTableIter.Remove` | src/collect/hashtable.c:835-838 | removes the key of the entry returned last; CC_ERR_KEY_NOT_FOUND exactly when it is not there any more; the call faults exactly when nothing was returned before; the pending entries stay as they are unless the key was added again and its new entry is one of them |
| `HashIterators.Sweep` | src/collect/hashtable.c:756-838 | a whole iteration that removes or keeps each returned entry returns every original entry exactly once and leaves exactly the kept part of the map |
| `HashIterators.FlatIs` | src/collect/hashtable.c:756-819 | the buckets in order hold every entry of the table exactly once |
| `KeyMaps.LookupPut` | src/collect/hashtable.c:170-258 | after adding, every equal key finds the value, all others what they found before; no key is stored twice |
| `KeyMaps.LookupDrop` | src/collect/hashtable.c:331-413 | after removing, every equal key finds nothing, all others what they found before |
| `KeyMaps.RunLookup` | src/collect/hashtable.c:170-438 | after any run of additions and removals a lookup finds what the last change of an equal key left |
| `HashChains.PushHolds` | src/collect/hashtable.c:209-215 | an entry put at the front of its bucket is where lookups look for it, and no other entry is touched |
| `HashChains.CutHolds` | src/collect/hashtable.c:344-367 | a chain that skips one entry holds exactly the others |
| `Bits.UpperPowTwo` | src/collect/deque.c:1047-1069 | 2^k with k < 32; 2 for 0, 2^31 for more than that, and otherwise at least n while its half is below n |
| `Bits.LeastPower` | src/collect/hashtable.c:483-504 | such a number is the least power of two that is at least n |
| `Bits.PowerGranted` | src/collect/hashtable.c:483-504 | it is n itself if and only if n is a power of two |
| `Bits.Smeared` | src/collect/hashtable.c:497-501 | the five steps of shift and disjunction set all bits below the highest one |
| `Bits.OrBits` | src/collect/hashtable.c:497-501 | the disjunction of words, taken as arithmetic, is bitwise |
| `Bits.ShrBits` | src/collect/hashtable.c:497-501 | the operator >> taken as arithmetic moves every bit down |
| `Bits.AndBits` | src/collect/deque.c:168 | the operator & taken as arithmetic is the bitwise conjunction |
| `Bits.AndMask` | src/collect/deque.c:168 | x & (2^k - 1) is x mod 2^k |
| `Bits.MaskPrevious` | src/collect/deque.c:168 | the slot before x, where 0 - 1 wraps around in 32 bits and is masked to the last slot |
| `Bits.MaskNext` | src/collect/deque.c:190 | the slot after x, around the end of the buffer |
| `Deques.Deque.AddFirst` | src/collect/deque.c:163-173 | the element is in front of the others, across wrap-around and growth; CC_ERR_ALLOC, and no change, exactly when the deque is full and its growth not granted; the capacity doubles exactly when it was full |
| `Deques.Deque.AddLast` | src/collect/deque.c:184-194 | the element is behind the others, in the same way |
| `Deques.Deque.RemoveFirst` | src/collect/deque.c:475-489 | gives and removes the first element |
| `Deques.Deque.RemoveLast` | src/collect/deque.c:500-516 | gives and removes the last element |
| `Deques.Deque.ExpandCapacity` | src/collect/deque.c:1016-1038 | twice the slots, the same elements in the same order, exactly when memory is granted for fewer than 2^30 slots; at 2^31 slots CC_ERR_MAX_CAPACITY |
| `Deques.Deque.CopyBuffer` | src/collect/deque.c:966-1003 | the elements in order, or their copies when there is a copy function, whether or not they wrap around the end of the buffer |
| `Deques.Deque.GetAt` | src/collect/deque.c:558-567 | the element at every index below the size; the index equal to the size is accepted too and reads the slot behind the last element |
| `Deques.Deque.IndexOf` | src/collect/deque.c:800-814 | the first index of the element, or none |
| `Deques.Deque.constructor` | src/collect/deque.c:74-98 | an empty deque of the rounded capacity with the slots of the requested one; its slots cover its capacity if and only if the request is a power of two below 2^30 |
| `Deques.Deque.New` | src/collect/deque.c:74-98 | CC_ERR_ALLOC exactly when no memory is granted or the bytes wrap around to 0; otherwise a deque that is usable if and only if the request is a power of two |
| `Deques.SlotsGranted` | src/collect/deque.c:84-90 | the slots whose bytes are counted in 32 bits reach the rounded capacity if and only if the request is a power of two below 2^30 |
| `Deques.RingStretches` | src/collect/deque.c:974-993 | the contents are one stretch of the buffer, or two when they wrap around |
| `Deques.Queue.Enqueue` | src/collect/queue.c:160-163 | the element joins the elements sent, behind all others, unless the deque cannot grow |
| `Deques.Queue.Poll` | src/collect/queue.c:145-148 | over every run the elements received are a prefix of the elements sent: polling gives the next one |
| `Arrays.Array.FilterMut` | src/collect/array.c:591-636 | in place, exactly the accepted elements remain, in order |
| `Arrays.Array.FilterCopy` | src/collect/array.c:652-689 | a new array with exactly the elements that the in-place filter would leave |
| `Arrays.FilterCounts` | src/collect/array.c:652-689 | every accepted element stays as often as it was there, every other one goes |
| `Arrays.Array.constructor` | src/collect/array.c:72-113 | an empty array whose slots cover its capacity if and only if that is below 2^30 |
| `Arrays.Array.New` | src/collect/array.c:72-113 | CC_ERR_INVALID_CAPACITY exactly for 0 and above (2^32 - 2) / 3; otherwise such an array when memory is granted, except for 2^30, whose bytes wrap around to 0 |
| `Arrays.Array.Add` | src/collect/array.c:167-180 | the element at the end, after growing if needed, or nothing changes; how growing ends is decided by the capacity and by whether memory is granted |
| `Arrays.Array.ExpandCapacity` | src/collect/array.c:850-875 | the capacity times 2.0 in single precision and the same contents, or nothing changes; the status is that of `GrowthStatus` |
| `Arrays.GrowthIs` | src/collect/array.c:853-861 | below 2^29 - 16 slots the bytes of the rounded product are counted right; from 2^29 + 33 to 2^30 - 33 they wrap around to a buffer that is too small, which the copy overruns; at all other capacities they wrap around to 0 and nothing is allocated |
| `Arrays.DoubledExact` | src/collect/array.c:853 | the capacity is doubled exactly if and only if single precision holds it, and always up to 2^24 |
| `Floats.RoundIs` | src/collect/array.c:853 | the conversion to floating point gives a multiple of the spacing, within half of it, and the even one of two that are as near |
| `Floats.NoneNearer` | src/collect/array.c:853 | and no multiple of the spacing is nearer |
| `Arrays.Array.Reverse` | src/collect/array.c:696-706 | the elements in reverse, but the two in the middle of an even number of them keep their places; an empty array is left at its bounds |
| `Arrays.ReverseIff` | src/collect/array.c:696-706 | so it reverses if and only if the number of elements is odd or the two in the middle are equal |
| `Witnesses.PairNotReversed` | src/collect/array.c:696-706 | two different elements stay as they are |
| `Witnesses.ReverseNothing` | src/collect/array.c:696-706 | the reversal of an empty array faults |
| `Witnesses.RoundedToNothing` | src/collect/array.c:850-858 | a full array of 2^29 - 16 slots never grows, although the bytes of twice as many can be counted |
| `Witnesses.Overrun` | src/collect/array.c:850-861 | growing from 2^29 + 33 slots asks for no more than 128, so adding an element faults |
| `Witnesses.OneSlotLost` | src/collect/array.c:853 | 2^24 + 1 slots grow to 2^25 |
| `Witnesses.OneSlot` | src/collect/array.c:72-113 | an array that is created for 2^30 + 1 elements has one slot |
| `Witnesses.GetFromNothing` | src/collect/deque.c:558-567 | an empty deque gives out an element at index 0 |
| `Witnesses.ThreeSlots` | src/collect/deque.c:74-98 | a deque for three elements has the capacity 4 and three slots |
| `Witnesses.GreaterThanTheOnly` | src/collect/treetable.c:280-291 | in a table of one entry the search for a greater key than that succeeds, with NULL |
| `Witnesses.RemoveLastOfNone` | src/collect/treetable.c:724-736 | the removal of the last entry of an empty table faults |
| `Witnesses.AddOneToNone` | src/collect/list.c:314-365 | adding a list of one element to an empty list at index 0 faults |

## Where the code and its documentation differ

- `treetable_get_greater_than` reports success for the greatest key and hands out NULL, the key field of the sentinel, exactly then
  (`TreeTable.TreeTable.GetGreaterThan`, `Witnesses.GreaterThanTheOnly`).
- `treetable_remove_last` on an empty table follows the sentinel's NULL child instead of returning CC_ERR_KEY_NOT_FOUND, exactly then
  (`TreeTable.TreeTable.RemoveLast`, `Witnesses.RemoveLastOfNone`).
- `deque_get_at` accepts the index equal to the size, and no greater one (`Deques.Deque.GetAt`, `Witnesses.GetFromNothing`).
- `deque_new_conf` rounds the capacity up but allocates the slots that were asked for: enough exactly for a power of two
  (`Deques.Deque.New`, `Deques.SlotsGranted`, `Witnesses.ThreeSlots`).
- `array_reverse` leaves the middle pair of an even number of elements, which is a reversal exactly when the two are equal
  (`Arrays.ReverseIff`, `Witnesses.PairNotReversed`), and runs out of the buffer of an empty array, exactly then
  (`Arrays.Array.Reverse`, `Witnesses.ReverseNothing`).
- `list_add_all_at` with something to insert into an empty list follows its NULL tail, exactly when the copies were allocated
  (`Lists.List.AddAllAt`, `Witnesses.AddOneToNone`).
- `array_add` on a full array multiplies the capacity in single precision and counts the bytes in 32 bits without looking for an overflow.
  It can grow exactly below 2^29 - 16 slots; from 2^29 + 33 to 2^30 - 33 it overruns the new buffer exactly when one is granted; at the
  other capacities it asks for 0 bytes and is refused (`Arrays.Array.Add`, `Arrays.GrowthIs`, `Witnesses.Overrun`,
  `Witnesses.RoundedToNothing`). The growth is by the factor 2 exactly where single precision holds the capacity (`Arrays.DoubledExact`,
  `Witnesses.OneSlotLost`). Arrays that large fit into the memory of another allocator, not into the heap of `src/mem/lib_mem.c`.
- `array_new_conf` accepts capacities whose bytes it cannot count: its slots cover the capacity exactly below 2^30
  (`Arrays.Array.New`, `Witnesses.OneSlot`).

## Left out

- TreeTable.TreeTable.TreeMin: only for a subtree with a node; its callers say what they do without one.
- TreeTable.TreeTable.TreeMax: the same.
- TreeTable.TreeTable.constructor: that `mem_calloc` clears the sentinel is stated by `KeyField`, the only place that reads such a field; its value is never read.
- treetable_get_lesser_than, treetable_remove_all, treetable_foreach: mirror images or repetitions of what is modelled.
- Heap.Heap.VPortFree: the pointer must be NULL or the memory of a block; for another one the code takes what lies before it for a header.
- HeapRuns.AfterFree: a pointer that is no block changes nothing, so the runs in `HeapRuns` describe the code for runs that free blocks.
- The application's own writes into its memory are not modelled; they touch no header of a block.
- pvPortCalloc: it clears the memory through the pointer without looking at it first.
- HashIterators.HashTableIter.Remove: the key of an entry that is freed already is taken to read as it was.
- HashTables.HashTable.constructor: a load factor that is negative, and a threshold beyond 32 bits, are undefined in C; the model has a requirement for the first and a number without bound for the second.
- The NULL-key variants of hashtable_add, hashtable_get and hashtable_remove share one loop with the others here; they differ in the bucket, which is 0, and in the test of an entry.
- hashtable_contains_key hands NULL keys to the comparison function; it is not part of this model.
- Lists.List.AddAllAt: both lists use the same allocator.
- Lists.List.SpliceAt: for two different lists without common nodes.
- ListNodes.Node: a node keeps its element for life; list_replace_at and the copying sort are not part of this model.
- list iterators, list_remove_all, sublists and copies: easier variants of what is modelled.
- deque_add_at, deque_remove_at, deque_reverse, deque_trim_capacity and the deque iterators are not part of this model.
- Arrays.Array.ExpandCapacity: growth by the factor 2, the default.
- array_add_at, array_remove and their relatives are not part of this model.
- The freeing of buffers and structures, as opposed to list nodes, is not tracked.
- slist.c, stack.c, hashset.c, treeset.c: thin wrappers or easier versions of the modelled structures.
- Hardware, operating-system glue, network, audio and the server are not part of this model.
