# Verified models of the data structures and allocators

This project models, in Dafny, the C modules whose correctness rests on an invariant that no
single function shows, and proves those invariants and what follows from them.

* **The intrusive red-black tree** (`RedBlack`, `RedBlackInsert`, `RedBlackDelete`, `BstLinks`,
  `BstSplice`, `BstContents`, `BstEnds`, `BstSteps`, `BstRuns`, `BinarySearchTree`, `NodeWord`). The class `Bst` keeps node records in
  an arena; a pointer is a position, 0 is the shared sentinel. Every method assigns the same fields
  in the same order as the C code. The two fix-up loops are proved to refine functions on a focused
  tree (a subtree and the path above it), and the red-black laws are proved of those functions. The
  invariant covers links, colours, key order, duplicate chains, the free list and the
  `smallest`/`largest` shortcuts at once.
* **The slab allocator with per-thread caches** (`ObjectLists`, `SlabLists`, `SlabLinks`, `SlabState`,
  `SlabSteps`, `SlabAllocator`, `SlabGeometry`, `TssConfig`). A run is any sequence of atomic steps of any number of threads: a
  thread's own list work, one section under the lock, or a user writing into an object it holds.
  `SlabSteps` says as a relation what each step does to slabs, lists, users and threads; every run
  follows it state by state. Batches in flight between two steps are part of the state. The code works on list heads and on the
  links in the objects' memory; the invariant says which sequence of objects each head spells out,
  that memory exists for exactly the mapped objects, and that no object is in two places. Reading or
  writing a link requires its memory to be mapped, so no step touches an unmapped slab. An object is
  named by its slab and its index there; `SlabGeometry` ties these names to addresses, and `TssConfig`
  shows that every configuration the initialisers accept satisfies what both rely on.
* **The LRU cache over a raw memory block** (`Recency`, `MemoryBlock`, `LruCache`). Slots live in a
  byte array; promotion is read, move, write. The trace results (recency order, stack distance,
  inclusion) are proved on keys and the byte array is proved to follow them.
* **The layout generator** (`Words`, `MemoryLayout`), with 64-bit wrap-around written out.
* **The directory walk** (`FileTree`, `FileWalk`), an explicit stack of path strings that is proved
  to agree with the recursive walk of a finite tree.

Where the code is not what it seems, the model follows the code:

* `cache.previous` of the tree survives the deletion of its node. `Put` states exactly when a stored
  value is lost because of it, and `StaleShortcutLosesValue` reaches such a state from a new tree.
* Taking by key copies a value out without removing it when a shortcut matches. `Take` states exactly
  when a value is removed and when the value copied out is one that is held; `TakeLeavesValue` and
  `StaleTakeRepeatsValue` reach the two surprising cases from a new tree.
* `Put` accepts a key that is not the value's own. It states exactly when the order survives that,
  and `ForeignKeyBreaksOrder` breaks it from a new tree.
* `jfs_bst_make_desc` multiplies the value size by the count and leaves the number of blocks at one, so
  the component it describes has a single node (`TreeDescHasOneBlock`). The tree is modelled over a
  component of any number of blocks.
* `jfs_lru_make_desc` asks for one slot more than objects and nothing keeps that slot free, so a cache
  described for n objects holds n + 1 keys (`DescribedCacheHoldsOneMore`).
* Retiring an empty slab leaves `active_list_count` too high. `AcquireSection` states exactly when
  the assertion at the end of an acquire then fails, and `RetirementReachesStop` gets there from a new
  allocator.
* Masking with `~(size - 1)` finds a slab from every address in it if and only if the slab size is a
  power of two. The configuration accepts any number of pages: with three, a mapping passes every
  assertion and an object still masks to the wrong slab (`ThreePagesLoseSlab`). The allocator's run
  results take finding the slab for granted, so they are about a power-of-two `pages_per_slab`.
* The layout arithmetic is right if and only if the total fits in a word.
* The page-doubling loop covers the need exactly up to 2^63 bytes.
* The tree's `attach` and `detach` calls are read as `bst_attach_node` and `bst_detach_node`, and a
  node's chain as cleared when the node is inserted. The assertion on the root in
  `bst_update_cache_delete` is read as a statement about the tree before the deletion.

## Model

| member | source | states |
|---|---|---|
| `RedBlack.InOrderPlug` | src/modules/binary_search_tree.c:186-210 | the order of a whole tree is what lies before a position, below it and after it |
| `RedBlack.RotationOrder` | src/modules/binary_search_tree.c:443-487 | a rotation with any recolouring keeps the in-order sequence |
| `RedBlack.HeightBound` | src/modules/binary_search_tree.c:324-441 | a red-black tree of n nodes has height at most 2*log2(n+1) |
| `RedBlackInsert.InsertStepInv` | src/modules/binary_search_tree.c:329-377 | one iteration keeps the loop invariant; a red parent always has a black grandparent |
| `RedBlackInsert.InsertStepOrder` | src/modules/binary_search_tree.c:329-377 | no iteration changes the in-order sequence |
| `RedBlackInsert.InsertFixCorrect` | src/modules/binary_search_tree.c:324-380 | the insert fix-up ends with a black root, no red-red edge, equal black heights and the same order |
| `RedBlackInsert.InsertFixLeftLink` | src/modules/binary_search_tree.c:290-291 | the link from the old minimum to a new one below it survives every rotation of the fix-up |
| `RedBlackInsert.InsertFixRightLink` | src/modules/binary_search_tree.c:292-293 | the same for a new maximum |
| `RedBlackDelete.UnlinkOrder` | src/modules/binary_search_tree.c:234-263 | unlinking, with or without moving the successor, takes exactly one node out of the order |
| `RedBlackDelete.UnlinkInv` | src/modules/binary_search_tree.c:234-263 | unlinking leaves one black node missing at the focus, or no damage when the lost colour was red |
| `RedBlackDelete.OneChildIsRed` | src/modules/binary_search_tree.c:308-320 | a node with one child is black and its child is red and childless |
| `RedBlackDelete.SiblingIsNode` | src/modules/binary_search_tree.c:384-418 | the sibling is never the sentinel, neither at first nor after the red sibling is rotated up |
| `RedBlackDelete.DeleteMeasureFalls` | src/modules/binary_search_tree.c:383-438 | twice the depth plus blackness falls on every iteration |
| `RedBlackDelete.DeleteStepInv` | src/modules/binary_search_tree.c:383-438 | one iteration keeps the loop invariant |
| `RedBlackDelete.DeleteFixCorrect` | src/modules/binary_search_tree.c:382-441 | the delete fix-up restores every red-black law and keeps the order |
| `RedBlackDelete.DeletedCorrect` | src/modules/binary_search_tree.c:234-268 | deletion removes exactly the node and leaves a red-black tree |
| `NodeWord.PackReadBack` | src/modules/binary_search_tree.c:520-547 | parent and colour packed into one word are both read back, for every even address |
| `NodeWord.SetOnePart` | src/modules/binary_search_tree.c:525-540 | setting the parent leaves the colour and setting the colour leaves the parent |
| `BstLinks.RotateLeftAt` | src/modules/binary_search_tree.c:443-464 | the records a left rotation leaves spell out the rotated tree at any position, parent links included |
| `BstLinks.RotateRightAt` | src/modules/binary_search_tree.c:466-487 | the same for a right rotation |
| `BstSplice.TransplantAt` | src/modules/binary_search_tree.c:489-504 | moving a subtree up keeps all links, and the sentinel's parent is the place it moved to |
| `BstSplice.FarDone` | src/modules/binary_search_tree.c:247-263 | the deep successor's move leaves the linked tree without the node, with the right focus for the fix-up |
| `BstSplice.NearDone` | src/modules/binary_search_tree.c:247-263 | the same when the successor is the right child, where the sentinel's parent is set by hand |
| `BstEnds.InsertEnds` | src/modules/binary_search_tree.c:288-298 | which end of the order a new node becomes, seen from its slot |
| `BstEnds.NewMinimumLink` | src/modules/binary_search_tree.c:290-291 | reading the old minimum's left child after the rotations gives the new minimum |
| `BstEnds.NewMaximumLink` | src/modules/binary_search_tree.c:292-293 | reading the old maximum's right child after the rotations gives the new maximum |
| `BstEnds.DeleteEnds` | src/modules/binary_search_tree.c:300-322 | the removed node's old child or parent is the new end of the repaired tree |
| `BstEnds.SlotUniqueByKey` | src/modules/binary_search_tree.c:209-229 | only one empty slot of a tree has everything smaller than the key before it and everything larger after it |
| `BstEnds.SearchStep` | src/modules/binary_search_tree.c:192-207 | each comparison narrows the bounds around the next slot |
| `BstSteps.LeastOf` | src/modules/binary_search_tree.c:131-134 | whatever is in the smallest node's group has a key no larger than anything held |
| `BstSteps.GreatestOf` | src/modules/binary_search_tree.c:126-129 | the same for the largest |
| `BstSteps.EmptyContents` | src/modules/binary_search_tree.c:112-132 | nothing is held exactly when there is no tree |
| `BstSteps.InsertKeyed` | src/modules/binary_search_tree.c:212-232 | a new node keeps the key order exactly when its own key leads to the slot it fills |
| `BstSteps.HitPlace` | src/modules/binary_search_tree.c:155-158 | a duplicate has its group's key exactly when its own key leads to the group |
| `BstSteps.StrictWhenDistinct` | src/modules/binary_search_tree.c:126-134 | values of different keys that come out in order come out strictly in order |
| `BinarySearchTree.Bst.constructor` | src/modules/binary_search_tree.c:62-83 | a new tree satisfies the whole invariant, holds nothing and has every block free |
| `BinarySearchTree.Bst.LinkMemory` | src/modules/free_list.c:33-43 | the linking loop threads every block once, the last block first |
| `BinarySearchTree.Bst.FreeListAlloc` | src/modules/free_list.c:17-23 | takes the head of the list, or nothing from an empty one; the count stays the length |
| `BinarySearchTree.Bst.FreeListFree` | src/modules/free_list.c:25-31 | puts a block in front, overwriting its parent word; ignores the null pointer |
| `BinarySearchTree.Bst.RotateLeft` | src/modules/binary_search_tree.c:443-464 | the assignments turn the subtree at any focus and touch nothing else |
| `BinarySearchTree.Bst.RotateRight` | src/modules/binary_search_tree.c:466-487 | the mirror image |
| `BinarySearchTree.Bst.FixupInsertLeft` | src/modules/binary_search_tree.c:334-354 | the left half of the loop body computes one insert step, three-node rotations included |
| `BinarySearchTree.Bst.FixupInsertRight` | src/modules/binary_search_tree.c:355-376 | the right half does too |
| `BinarySearchTree.Bst.FixupInsert` | src/modules/binary_search_tree.c:324-380 | the loop terminates with the fixed tree in the links |
| `BinarySearchTree.Bst.FixupDeleteLeft` | src/modules/binary_search_tree.c:385-410 | the left half of the loop body computes one delete step |
| `BinarySearchTree.Bst.FixupDeleteRight` | src/modules/binary_search_tree.c:411-437 | the right half does too |
| `BinarySearchTree.Bst.FixupDelete` | src/modules/binary_search_tree.c:382-441 | the loop terminates with the fixed tree in the links; the sentinel's parent is always the right one |
| `BinarySearchTree.Bst.Insert` | src/modules/binary_search_tree.c:212-232 | links a red node into the empty slot and repairs the tree; no other block changes |
| `BinarySearchTree.Bst.Transplant` | src/modules/binary_search_tree.c:489-504 | exactly what a transplant writes, the sentinel's parent included |
| `BinarySearchTree.Bst.LocalMinimum` | src/modules/binary_search_tree.c:506-511 | ends at the leftmost node |
| `BinarySearchTree.Bst.LocalMaximum` | src/modules/binary_search_tree.c:513-518 | ends at the rightmost node |
| `BinarySearchTree.Bst.SpliceSuccessor` | src/modules/binary_search_tree.c:247-263 | the successor takes the node's place, and the replacement's parent is right even if it is the sentinel |
| `BinarySearchTree.Bst.Delete` | src/modules/binary_search_tree.c:234-268 | unlinks exactly the node, restores a red-black tree, leaves the node's own record alone |
| `BinarySearchTree.Bst.Find` | src/modules/binary_search_tree.c:186-210 | returns the matching node, or the one empty slot that keeps the key's order, within 2*log2(n+1) comparisons |
| `BinarySearchTree.Bst.CheckCache` | src/modules/binary_search_tree.c:167-184 | answers the first of previous, largest, smallest whose value matches the key, and none exactly when none matches |
| `BinarySearchTree.Bst.AttachDuplicate` | src/modules/binary_search_tree.c:155-158 | a duplicate goes right behind its base in the group, or is out of reach behind a block in no group; the keys stay alike exactly when it has the group's key |
| `BinarySearchTree.Bst.Detach` | src/modules/binary_search_tree.c:159-165 | answers the first duplicate of the chain, taken out of it, or the node when there is none |
| `BinarySearchTree.Bst.UpdateCacheInsert` | src/modules/binary_search_tree.c:288-298 | after the rotations the shortcuts are the ends of the new tree |
| `BinarySearchTree.Bst.UpdateCacheDelete` | src/modules/binary_search_tree.c:300-322 | after the repair the shortcuts are the ends of the smaller tree, or the sentinel |
| `BinarySearchTree.Bst.InsertNew` | src/modules/binary_search_tree.c:103-106 | a new key becomes a tree node, and the order survives exactly when the value's own key leads there; everything else stays held |
| `BinarySearchTree.Bst.Put` | src/modules/binary_search_tree.c:85-109 | full exactly when no block is free; otherwise exactly the value is added, if and only if the last key's shortcut is not stale and matching; its block goes behind the first matching shortcut, else behind the node found, else becomes a node; `previous` is then the matching shortcut or the new block; the order survives if and only if key and value lead to the same place |
| `BinarySearchTree.Bst.DetachAndDelete` | src/modules/binary_search_tree.c:270-286 | exactly one value with the node's key leaves, that of the first duplicate or of the node when there is none, and its block is free again |
| `BinarySearchTree.Bst.GetSmallest` | src/modules/binary_search_tree.c:131-134 | empty exactly when nothing is held; otherwise a value with the least key is removed |
| `BinarySearchTree.Bst.GetLargest` | src/modules/binary_search_tree.c:126-129 | the same for the greatest key |
| `BinarySearchTree.Bst.TakeByKey` | src/modules/binary_search_tree.c:120-123 | past the shortcuts: bad key exactly when no held value has the key, else the value of the group's first duplicate, or of its node, is removed |
| `BinarySearchTree.Bst.Take` | src/modules/binary_search_tree.c:111-124 | which block is read: the first matching of previous, largest, smallest, else the first duplicate or the node of the key's group; a value is removed if and only if no shortcut matches the key; the value returned is a held one if and only if the match is not stale; bad key exactly when neither finds one |
| `BinarySearchTree.Bst.PutAll` | src/modules/binary_search_tree.c:85-109 | any run of puts stores exactly the values there is room for and loses no block |
| `BinarySearchTree.Bst.TakeEnds` | src/modules/binary_search_tree.c:126-134 | over any run of takes each value is the least or greatest of what is held at that moment, values out plus values held are the values there were, and no block is lost |
| `BinarySearchTree.Bst.RunOps` | src/modules/binary_search_tree.c:85-134 | any mixed run, operation by operation: what each does to what is held, a put is refused exactly when the free blocks are used up, a value is lost only after a take and costs one block |
| `BstRuns.RunConserves` | src/modules/binary_search_tree.c:85-134 | over any such run, values there plus values accepted are values taken plus values held plus values lost |
| `BinarySearchTree.Bst.DrainSmallest` | src/modules/binary_search_tree.c:131-134 | taking the smallest until empty outputs everything held in key order |
| `BinarySearchTree.Bst.DrainLargest` | src/modules/binary_search_tree.c:126-129 | taking the largest until empty outputs everything held in reverse order |
| `BinarySearchTree.SortThroughTree` | src/modules/binary_search_tree.c:85-134 | distinct keys put into a new tree come out of get-smallest strictly increasing, the same values |
| `BinarySearchTree.SortDownThroughTree` | src/modules/binary_search_tree.c:85-134 | and out of get-largest strictly decreasing |
| `BinarySearchTree.ForeignKeyBreaksOrder` | src/modules/binary_search_tree.c:99-102 | a value put under another value's key shares its group and breaks the order |
| `BinarySearchTree.TakeLeavesValue` | src/modules/binary_search_tree.c:114-118 | put then take of one key: the value is returned and still held |
| `BinarySearchTree.StaleTakeRepeatsValue` | src/modules/binary_search_tree.c:114-118 | a value already taken is returned again while another one is all that is held |
| `BinarySearchTree.StaleShortcutLosesValue` | src/modules/binary_search_tree.c:91-96 | put, take, put of one value: the second put reports success and nothing is held |
| `BinarySearchTree.PutThenTake` | src/modules/binary_search_tree.c:85-124 | a value put while no shortcut matched its key is what a take of that key returns, and it stays held |
| `SlabState.ExactlyOnePlace` | src/modules/old_thread_safe_slab.c:177-256 | every object of a mapped slab is in exactly one slab list, cache, batch or user's hands, once |
| `SlabState.UsedIsOffList` | src/modules/old_thread_safe_slab.c:451-457 | a slab's `used_count` is the number of its objects that are not on its own list |
| `SlabState.UnmappedIsUnreferenced` | src/modules/old_thread_safe_slab.c:479-492 | no list anywhere holds an object of an unmapped slab |
| `SlabState.HeldSlabIsMapped` | src/modules/old_thread_safe_slab.c:479-484 | an object outside its slab keeps that slab mapped and in use |
| `SlabState.RemainingIsFree` | src/modules/old_thread_safe_slab.c:439 | without retirement, the computed remainder is the total length of all slab lists, without wrap-around |
| `SlabState.EnoughSlabs` | src/modules/old_thread_safe_slab.c:440-442 | the computed number of new slabs always covers the target |
| `SlabState.NeedsExactly` | src/modules/old_thread_safe_slab.c:439-442 | the computed number of new slabs is the one number that more than fills the gap while one fewer would not, for the word congruent to the difference of counts; no other number is |
| `SlabState.QuietUnused` | src/modules/old_thread_safe_slab.c:115-122 | when everything has come back no slab is in use |
| `SlabAllocator.TssAllocator.constructor` | src/modules/old_thread_safe_slab.c:90-113 | a new allocator satisfies the invariant with nothing mapped and every thread idle |
| `SlabAllocator.TssAllocator.AddSlab` | src/modules/old_thread_safe_slab.c:498-508 | a new slab's objects are all free, the last one first, and it heads the active list; a failed mapping changes nothing |
| `SlabAllocator.TssAllocator.AddSlabs` | src/modules/old_thread_safe_slab.c:445-448 | maps slabs up to the first mapping that fails and keeps those made, newest first on the active list; fails exactly when mappings run out or the objects would outgrow the address space |
| `SlabAllocator.TssAllocator.LoadBatch` | src/modules/old_thread_safe_slab.c:451-457 | the batch is the front of all the active slabs' free objects in list order, up to its target; the rest stay where they were |
| `SlabAllocator.TssAllocator.BatchAcquire` | src/modules/old_thread_safe_slab.c:431-460 | maps exactly the slabs the target is short of by the 64-bit estimate, or keeps those made and fails; then the batch is loaded; without retirement it reaches the target |
| `SlabAllocator.TssAllocator.BatchRelease` | src/modules/old_thread_safe_slab.c:462-477 | every object of the batch goes to the front of its own slab's list, the counts fall by their number, and exactly the retired slabs with nothing else in use are unmapped |
| `SlabAllocator.TssAllocator.ReleaseObject` | src/modules/old_thread_safe_slab.c:479-492 | an object goes to its own slab; a retired slab is unmapped with its last object and only then |
| `SlabSteps.OneHome` | src/modules/old_thread_safe_slab.c:466-491 | one object released: its slab's list and count, and unmapping exactly with a retired slab's last object |
| `SlabAllocator.TssAllocator.Unmap` | src/modules/old_thread_safe_slab.c:341-348 | unmapping an unused slab leaves no reference to its objects |
| `SlabAllocator.TssAllocator.RetireSlabs` | src/modules/old_thread_safe_slab.c:516-534 | slabs above the threshold stay as they are in their order, exactly those with 0 < used <= threshold are newly marked and leave the list and the active count, unused ones are unmapped; nobody's objects move |
| `SlabSteps.SweptReads` | src/modules/old_thread_safe_slab.c:516-534 | what one pass of retirement means for each slab, by how much of it is in use |
| `SlabAllocator.TssAllocator.AcquireSection` | src/modules/old_thread_safe_slab.c:221-243 | the locked part of a slow allocation: how many slabs are mapped, what is loaded, and that the active slabs are swept exactly when that is due and nothing failed; an error exactly when the mappings needed are not granted; its assertion fails exactly when the active slabs plus the new ones fall short, never without retirement |
| `SlabAllocator.TssAllocator.UnloadAndPop` | src/modules/old_thread_safe_slab.c:240-243 | the batch goes in front of the cache in order; its first object, which was nobody's, goes to the caller |
| `SlabAllocator.TssAllocator.Pop` | src/modules/old_thread_safe_slab.c:194-205 | a fast allocation hands out the cache's first object, which no user had, and changes nothing else |
| `SlabAllocator.TssAllocator.Free` | src/modules/old_thread_safe_slab.c:207-219 | exactly the object given back leaves the users and heads the cache; at the cap a release batch leaves the cache's front, so the count stays below the cap |
| `SlabAllocator.TssAllocator.FullRelease` | src/modules/old_thread_safe_slab.c:177-192 | empties the cache into a batch, in order |
| `SlabAllocator.TssAllocator.ReleaseSection` | src/modules/old_thread_safe_slab.c:245-256 | the locked part of a release: the batch goes home, and the active list and slab ids stay |
| `SlabAllocator.TssAllocator.ExplicitRetire` | src/modules/old_thread_safe_slab.c:134-139 | retirement on demand is one such pass and keeps the invariant |
| `SlabAllocator.TssAllocator.Do` | src/modules/old_thread_safe_slab.c:177-256 | any one step of any thread, or a user writing into what it holds, keeps the invariant and is the step relation between the states before and after; a step that is not enabled changes nothing |
| `SlabAllocator.TssAllocator.Run` | src/modules/old_thread_safe_slab.c:177-256 | every interleaving keeps ownership, counts, slab lifetime and the links in memory, and its states follow the step relation one by one until an assertion fails; one without retirement fails no assertion |
| `SlabSteps.UsersChange` | src/modules/old_thread_safe_slab.c:194-219 | what users hold changes by an object nobody had, by the one given back, or not at all |
| `SlabSteps.HeldUntilGivenBack` | src/modules/old_thread_safe_slab.c:207-213 | over any run, an object stays with users until a step gives exactly it back |
| `SlabSteps.NeverTwice` | src/modules/old_thread_safe_slab.c:194-219 | over any run, an object handed out twice was given back in between |
| `SlabAllocator.TssAllocator.Destroy` | src/modules/old_thread_safe_slab.c:115-132 | once everything has come back, every slab ever mapped has been unmapped exactly once and no memory is left |
| `SlabAllocator.RetirementStopsNextAcquire` | src/modules/old_thread_safe_slab.c:516-522 | retiring an idle allocator that could serve a batch makes the next slow allocation fail its assertion |
| `SlabAllocator.RetirementReachesStop` | src/modules/old_thread_safe_slab.c:221-256 | from a new allocator: allocate, free, release, retire; the next slow allocation fails its assertion |
| `SlabAllocator.TssAllocator.LoadFromSlab` | src/modules/old_thread_safe_slab.c:452-456 | the links and counts of a load agree: exactly the slab's first objects move behind the batch |
| `SlabSteps.LoadingOne` | src/modules/old_thread_safe_slab.c:452-457 | one slab's load moves the front of what all active slabs have free behind the batch |
| `SlabAllocator.TssAllocator.MoveHome` | src/modules/old_thread_safe_slab.c:479-484 | one link puts the batch's first object in front of its own slab's list |
| `SlabAllocator.TssAllocator.DropSlab` | src/modules/old_thread_safe_slab.c:519-528 | an empty slab is unmapped without lowering the active count, a little-used one is set aside |
| `SlabSteps.SweepingOne` | src/modules/old_thread_safe_slab.c:519-532 | one slab looked at: unmapped, marked or kept, with the list, the count and the record of unmapped slabs to match |
| `SlabAllocator.TssAllocator.UnloadBatch` | src/modules/old_thread_safe_slab.c:240-242 | a whole batch goes in front of the thread's cache, in order |
| `SlabAllocator.TssAllocator.LoadFromCache` | src/modules/old_thread_safe_slab.c:248-251 | a batch of the target size leaves the front of the cache |
| `SlabAllocator.TssAllocator.PopCache` | src/modules/old_thread_safe_slab.c:201-204 | following one link hands out the cache's first object, which no user had |
| `SlabAllocator.TssAllocator.PushCache` | src/modules/old_thread_safe_slab.c:211-213 | one link puts a user's object in front of the cache |
| `SlabAllocator.TssAllocator.Scribble` | src/modules/old_thread_safe_slab.c:201-213 | whatever users write into objects they hold, no list is disturbed |
| `SlabLinks.SpelledChange` | src/modules/old_thread_safe_slab.c:375-425 | a change to the links of two lists leaves what every other head spells out |
| `SlabLinks.LoadSpelled` | src/modules/old_thread_safe_slab.c:375-405 | after a load every head spells out its list |
| `SlabLinks.ReleaseSpelled` | src/modules/old_thread_safe_slab.c:479-484 | after a release every head spells out its list |
| `SlabLinks.UnmapSpelled` | src/modules/old_thread_safe_slab.c:341-348 | taking a slab's memory away breaks no list, since none has its objects |
| `ObjectLists.ListCut` | src/modules/old_thread_safe_slab.c:400-402 | writing one null link cuts a list in two |
| `ObjectLists.ListJoin` | src/modules/old_thread_safe_slab.c:417-418 | writing one link joins two lists |
| `ObjectLists.ObjectMemory.LinkBlock` | src/modules/old_thread_safe_slab.c:350-366 | the linking loop threads all objects of a slab, the last one first |
| `ObjectLists.ObjectMemory.BatchLoad` | src/modules/old_thread_safe_slab.c:375-405 | exactly the first objects of the list, up to the target, are appended to the batch in order |
| `ObjectLists.ObjectMemory.BatchUnload` | src/modules/old_thread_safe_slab.c:407-425 | the whole batch goes in front of the list and the batch is empty |
| `ObjectLists.ObjectMemory.LoadThenUnload` | src/modules/old_thread_safe_slab.c:375-425 | unloading undoes a load |
| `SlabGeometry.SizeSlab` | src/modules/slab_allocator.c:135-142 | the doubling loop gives the least power-of-two number of pages that covers the need, if and only if the need is at most 2^63 |
| `SlabGeometry.MappingTrimmed` | src/modules/slab_allocator.c:163-167 | the aligned slab lies inside the double-size mapping and both trims are whole pages |
| `SlabGeometry.FindSlabInverts` | src/modules/slab_allocator.c:191-193 | masking any address in a slab gives the slab |
| `SlabGeometry.FindSlabOnlyForPow2` | src/modules/old_thread_safe_slab.c:494-496 | masking finds the slab from every address in it if and only if the slab size is a power of two, wherever the slab lies |
| `SlabGeometry.ThreePagesLoseSlab` | src/modules/old_thread_safe_slab.c:290-305 | with three pages a mapping at 0x90000 passes every assertion and the object at 0x91000 masks to itself |
| `SlabGeometry.ObjectsInSlab` | src/modules/old_thread_safe_slab.c:258-277 | for any number of pages all linked objects lie behind the header, inside the slab, aligned, without overlap; for a power of two they find their slab |
| `SlabGeometry.ObjectsApart` | src/modules/old_thread_safe_slab.c:350-366 | objects of different slabs, or different objects of one, share no byte |
| `TssConfig.OffsetAsserts` | src/modules/old_thread_safe_slab.c:268-269 | the assertion on the header's offset lets only powers of two through as alignments, unless the sum wraps |
| `TssConfig.HugeAlignRefused` | src/modules/old_thread_safe_slab.c:268-270 | an alignment that makes the sum wrap fails one of the assertions |
| `TssConfig.ConfigSound` | src/modules/old_thread_safe_slab.c:258-287 | an accepted configuration has a power-of-two alignment, a header that fits, the object count of its geometry, and satisfies all the allocator assumes |
| `TssConfig.ConfigExact` | src/modules/old_thread_safe_slab.c:258-287 | a request is accepted if and only if it meets the stated conditions, and then every field of the configuration is what was asked for or the default |
| `Words.ValidAlignIsPow2` | src/modules/memory_layout_generator.c:8-10 | the alignment test accepts exactly the powers of two |
| `Words.MaskRoundsDown` | src/modules/old_thread_safe_slab.c:494-496 | for a power of two, masking rounds down to a multiple |
| `Words.RoundUpIsLeast` | src/modules/memory_layout_generator.c:25-29 | rounding up gives the least multiple at or above |
| `MemoryLayout.AlignSizeIsRoundUp` | src/modules/memory_layout_generator.c:25-29 | the expression is the least multiple at or above the size, or 0 when that does not fit in a word |
| `MemoryLayout.AppendIsIdeal` | src/modules/memory_layout_generator.c:31-39 | what an append computes, and when it is exact |
| `MemoryLayout.ComputedIsIdeal` | src/modules/memory_layout_generator.c:49-58 | while the total fits, repeated appends compute the layout without wrap-around |
| `MemoryLayout.OffsetsApart` | src/modules/memory_layout_generator.c:31-39 | offsets are aligned, in order and do not overlap |
| `MemoryLayout.OverflowBreaks` | src/modules/memory_layout_generator.c:31-39 | a total that does not fit puts some part at offset 0 or past the end |
| `MemoryLayout.LayoutCorrect` | src/modules/memory_layout_generator.c:41-58 | memory header, component list, user header and components are disjoint and in bounds if and only if the total fits in a word |
| `MemoryLayout.MaxAlignDivides` | src/modules/memory_layout_generator.c:37 | the block's alignment is a power of two that every part's alignment divides |
| `MemoryLayout.PartsAligned` | src/modules/memory_layout_generator.c:60-70 | every part starts at a multiple of its own alignment in memory |
| `MemoryLayout.FittingRuns` | src/modules/memory_layout_generator.c:20-39 | a layout whose total fits fails none of the assertions on sizes and offsets |
| `MemoryLayout.MemoryInit` | src/modules/memory_layout_generator.c:41-77 | exactly when it refuses, when an assertion on a wrapped size or offset stops it, and when it succeeds; then every pointer is the block plus a positive computed offset, and the stretches behind the pointers are disjoint and in bounds if and only if the total fits |
| `MemoryLayout.MemoryApart` | src/modules/memory_layout_generator.c:60-77 | the stretches that the returned pointers name are apart exactly when the total fits, and then lie in order, aligned |
| `MemoryLayout.TreeOffsetRecovered` | src/modules/binary_search_tree.c:51-79 | the value offset recomputed from the combined alignment is the one the append used |
| `MemoryLayout.TreeDescHasOneBlock` | src/modules/binary_search_tree.c:52-59 | the described component has one block, and its value size is that of one value exactly when the count is one |
| `MemoryLayout.BlocksTile` | src/modules/free_list.c:33-43 | every byte of a component is in exactly one of the linked blocks |
| `Recency.RecencyUnique` | src/modules/lru_cache.c:35-57 | a list is the recency list exactly when it has each key once in order of last access |
| `Recency.CacheHoldsRecent` | src/modules/lru_cache.c:35-57 | after any trace a cache holds the min(capacity, distinct) most recent keys in order |
| `Recency.HitByDistance` | src/modules/lru_cache.c:35-43 | an access hits exactly when fewer than capacity distinct keys came since the last access to its key |
| `Recency.LargerCacheIncludes` | src/modules/lru_cache.c:35-57 | a smaller cache's contents are a prefix of a larger one's and its hits are hits there |
| `Recency.MissesAre` | src/modules/lru_cache.c:45-56 | the list of misses names exactly the accesses that do not hit, once each |
| `MemoryBlock.RemapRotates` | src/modules/lru_cache.c:59-64 | read, move up, write back is a rotation of bytes |
| `MemoryBlock.RotateMovesToFront` | src/modules/lru_cache.c:59-64 | that rotation moves one slot to the front and changes no byte behind it or outside the slots |
| `MemoryBlock.PatchSlot` | src/modules/memory_block.c:17-19 | writing one slot leaves every other slot |
| `MemoryBlock.Block.Write` | src/modules/memory_block.c:17-19 | the bytes after a write |
| `MemoryBlock.Block.Read` | src/modules/memory_block.c:21-23 | reads the slot |
| `MemoryBlock.Block.Remap` | src/modules/memory_block.c:25-27 | the bytes after an overlapping move |
| `LruCache.Lru.Promote` | src/modules/lru_cache.c:59-64 | slots 0..index rotate right by one and all other bytes stay |
| `LruCache.Lru.Search` | src/modules/lru_cache.c:36-43 | the loop finds the slot with the key exactly when there is one |
| `LruCache.Lru.Access` | src/modules/lru_cache.c:35-57 | the slots after a hit, a fill and an eviction, unused ones included; the keys held are the most recent ones of the whole trace, in order |
| `LruCache.Lru.AccessAll` | src/modules/lru_cache.c:35-57 | the same over any trace |
| `LruCache.Lru.Free` | src/modules/lru_cache.c:29-33 | what is left is evicted, and what `evict` leaves stays in the slots; by then every entry a miss installed has been evicted exactly once |
| `LruCache.Lifetime` | src/modules/lru_cache.c:18-57 | over a whole life, entry i is evicted once if access i missed and never if it hit, with the key it was installed for |
| `LruCache.MakeDescRefuses` | src/modules/lru_cache.c:7-16 | refused exactly for a bad size or alignment or a count that wraps; otherwise one slot more than asked for |
| `LruCache.DescribedCacheHoldsOneMore` | src/modules/lru_cache.c:7-16 | a cache described for n objects holds the n + 1 most recent keys |
| `FileTree.ComposeInjective` | src/modules/file_io.c:100-107 | composed paths agree only if both pieces agree, because names hold no slash |
| `FileTree.WalkIsReached` | src/modules/file_walk.c:131-161 | the walk records exactly the directories that readable directories lead to by paths within PATH_MAX, each with its regular files and subdirectories in entry order |
| `FileTree.WalkApart` | src/modules/file_walk.c:131-161 | no path is recorded twice |
| `FileTree.ScanErrorIs` | src/modules/file_walk.c:372-399 | a scan's error is that of the first entry that cannot pass, or a failed read after the last |
| `FileTree.RecordedUnique` | src/modules/file_walk.c:372-399 | the entries fix the files recorded: each such entry once, in entry order |
| `FileTree.RecordedMembers` | src/modules/file_walk.c:198-219 | a file is recorded if and only if some entry has its name and inode, is no dot entry and is regular or a directory as its type says |
| `FileTree.WalkOrder` | src/modules/file_walk.c:131-161 | a directory is recorded before all below it, and of two subdirectories the later entry comes first |
| `FileTree.PathInit` | src/modules/file_io.c:40-54 | the path less one trailing slash unless it is the root, refused exactly when that is longer than PATH_MAX |
| `FileWalk.PendingBelow` | src/modules/file_walk.c:401-423 | the stack that a directory's entries leave stands for the recursive walk below it |
| `FileWalk.ComposedInit` | src/modules/file_walk.c:408-415 | turning a composed path into a path of its own changes nothing |
| `FileWalk.ScanDir` | src/modules/file_walk.c:372-399 | the files recorded, each passing entry once in order, or the first bad entry's error; the dot entries and unsupported types are skipped |
| `FileWalk.FileWalk.constructor` | src/modules/file_walk.c:91-110 | the walk starts with the start path alone on the stack |
| `FileWalk.FileWalk.PushDirPaths` | src/modules/file_walk.c:401-423 | pushes the subdirectories with short enough paths, in order, and every path pushed resolves to its directory |
| `FileWalk.FileWalk.Step` | src/modules/file_walk.c:131-171 | what one step records and pushes, its files stated on the entries; a directory that does not open, or cannot be scanned, is dropped with all below it and its error is the remapped one, case by case; what is left shrinks |
| `FileWalk.FileWalk.Run` | src/modules/file_walk.c:131-171 | stepping until the stack is empty terminates with the recursive walk, siblings reversed |
| `FileWalk.FileWalk.TakeRecord` | src/modules/file_walk.c:173-184 | refuses an unfinished walk and an empty record |
| `FileWalk.WalkTree` | src/modules/file_walk.c:91-184 | a whole walk records each reachable directory once, with its regular files and subdirectories in entry order, every directory before those below it |

## Left out

- `thread_safe_queue.c` and `thread_message.c`: the enqueue body is unfinished and its callers use fields that do not exist.
- `jfs_tss_cache_refresh`: it empties the list without lowering the count, so the agreement of count and list does not hold through it.
- The rest of `slab_allocator.c` behind the sizing at line 142: line 143 refuses every size the loop makes large enough, and batches and buffers are declared but not written.
- `jfs_fio_read`, `jfs_fio_write`, `net_socket.c`, `error.c`, `server.c`, `daemon.c`: wrappers of system calls, with no invariant of their own.
- The return value of `jfs_fw_state_step`: success and error exits use opposite senses; the model is driven by the emptiness of the stack.
- The walked tree is finite and does not change during the walk; names in it are not empty, hold no slash and differ within a directory, as the system guarantees.
- Opening the empty path is taken to fail as the system makes it fail, with a missing path.
- The float ratio that triggers retirement is a choice of the schedule; whether a mapping succeeds is a parameter of the step, and mapping also fails when the objects would outgrow the address space.
- Locks are modelled as atomic sections; `mmap`, `aligned_alloc` and `malloc` addresses are parameters; allocation failures other than a failed slab mapping are not modelled.
- The growth of the walk's vectors, and the transfer and freeing of names and paths: vectors are sequences.
- In `Bst` the packed parent-and-colour word of a tree node is two fields, which `NodeWord` justifies; a freed block shows the colour that the overwritten word would.
- Addresses in the allocator: an object is its slab and index, and finding its slab is reading the first; that masking the address does the same is `SlabGeometry`. While a batch is released its head moves along with the loop's own pointer.
- The 32-bit cache and batch counters are natural numbers: they are proved to stay at or below the configured caps, which are 32-bit values themselves.
- `cmp` is taken to return -1, 0 or 1 and to order keys totally, because the tree tests for exactly these values; the LRU `cmp` is taken to be 0 exactly for the slot's own key.
- `LruCache.Lru.Access`: the model's log of evictions stands for the user's `evict` callback; side effects of callbacks outside the slot are not modelled.
