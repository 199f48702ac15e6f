# A model of the data structures, allocators and kernel algorithms of this repository

Each module models one source file, in the source's own form: what the C code
does step by step to linked nodes, arrays and records is done here by methods
on classes and arrays, and proved against functions of the old state; what it
computes by expressions is a function. Every loop and recursion terminates.

| part | modules |
|---|---|
| red-black tree (sentinel configuration) | `RedBlackTheory`, `RedBlackErase`, `RedBlackTree` |
| malloc lab, explicit free list | `HeapBytes`, `BlockMap`, `HeapLayout`, `HeapSteps`, `RequestSizes`, `MallocLab` |
| 64-bit division | `Arithmetic64` |
| kernel list and its merge sort | `KernelList` |
| scheduler, synchronization, and both together | `Scheduler`, `Synch`, `KernelSteps` |
| four-level page tables | `PageTables` |
| kernel block allocator | `SlabMalloc` |
| hash table | `HashTable` |
| bitmap, free map and inodes | `Bitmaps`, `DiskLayout`, `Inodes` |
| heap sort, binary search | `HeapSort` |
| printf conversions and atoi | `Printf` |
| web cache of the proxy | `ProxyCache` |
| binary search tree traversals and removal | `SearchTree` |

`dafny verify dfyconfig.toml` checks the whole project.

How to read it. A red-black tree is a value `Tree`, seen from a pointer as a
subtree and the `Context` around it; `Focus(ctx, t)` says that the nodes in
memory are linked exactly so. The malloc-lab heap is its bytes, with ghost
fields `blocks` and `free` for what they mean; `Formed` ties them together and
`Valid` adds what holds between calls. A kernel run is a sequence of steps, each
a stretch of code with interrupts off. In a file system `owner` says which file
has a sector. Page tables, arenas and caches are read the same way: a class with
the source's fields, a predicate that says what they mean, and methods that
state the whole new state. Parameters such as `memory` or `mallocOk` stand for
whether an allocation succeeds.

## What the code does not do

Where the code falls short of its comments or its evident purpose, the model
keeps the code and a lemma says exactly when it is right.

- `rbtree_delete_fixup` reads the new sibling from the wrong parent at
  rbtree-lab/src/rbtree.c:221 (its mirror at line 249 is right). Erasing always
  removes exactly the node and keeps order and links; it keeps the red-black
  properties exactly when `EraseRepairs` holds.
- `mm_malloc` serves a request exactly when `Servable` holds: not for 1 to 8
  bytes, whose 16-byte block cannot hold the list pointers, and not for sizes
  whose block size wraps or is cut to an `int` small enough to be granted.
- `umod64` and `smod64` return 32 bits and are right for all dividends exactly
  up to divisors of 2^32 and of magnitude 2^31; `sdiv64` wraps for the least
  number divided by -1.
- `pml4_set_dirty` and `pml4_set_accessed` clear a bit with a mask made in 32
  bits, which keeps the frame exactly when the entry is below 2^32.
- The page count of a big block and the product in `calloc` wrap; the test in
  `calloc` does not catch all of that.
- `%0*d` with a negative width pads on both sides.
- A bitmap scan for zero bits returns its start, not 0.
- `inode_write_at` has a branch that clears the bounce buffer; no chunk reaches
  it.
- The second-chance move of the proxy cache would link a lone block to itself;
  the size limits keep that from happening.

## Model

| member | source | states |
|---|---|---|
| `RedBlackTree.RBTree.constructor` | rbtree-lab/src/rbtree.c:6-23 | a new tree is empty and its sentinel black |
| `RedBlackTree.RBTree.LeftRotate` | rbtree-lab/src/rbtree.c:325-358 | pointer for pointer, the subtree at the focus becomes its left rotation and the rest of the linked tree is untouched, with all parent links right again |
| `RedBlackTree.RBTree.RightRotate` | rbtree-lab/src/rbtree.c:360-392 | the mirror image |
| `RedBlackTheory.RotateKeeps` | rbtree-lab/src/rbtree.c:325-392 | a rotation keeps the in-order sequence and the set of nodes |
| `RedBlackTree.RBTree.Insert` | rbtree-lab/src/rbtree.c:117-140 | a valid tree stays valid (links, sentinel and root black, no red-red edge, equal black heights, keys in order), and the in-order sequence is the old one with the new node put in behind every key that is not larger |
| `RedBlackTree.RBTree.Fixup` | rbtree-lab/src/rbtree.c:56-114 | from one possible red-red edge at `z` the loop ends, with the same nodes in the same order and a red-black tree with black root |
| `RedBlackTheory.RecolorStep` | rbtree-lab/src/rbtree.c:64-69 | case 1 moves the one possible violation two levels up and creates no other |
| `RedBlackTheory.StraightenStep` | rbtree-lab/src/rbtree.c:75-78 | case 2 turns an inner grandchild into an outer one, with the violation still the only one |
| `RedBlackTheory.LiftStep` | rbtree-lab/src/rbtree.c:80-85 | case 3 leaves no violation |
| `RedBlackTheory.InsertedSorted` | rbtree-lab/src/rbtree.c:117-140 | inserting at that place keeps the keys in non-strict order |
| `RedBlackTheory.HeightIsLogarithmic` | rbtree-lab/src/rbtree.c:144-157 | 2^height <= (size + 1)^2 for every red-black tree, that is height <= 2 log2(size + 1) |
| `RedBlackTree.RBTree.Find` | rbtree-lab/src/rbtree.c:144-169 | returns a node with the key exactly when the tree has one, otherwise the sentinel, within height many steps |
| `RedBlackTree.RBTree.Min` | rbtree-lab/src/rbtree.c:171-182 | the first node in order |
| `RedBlackTree.RBTree.Max` | rbtree-lab/src/rbtree.c:190-202 | the last node in order |
| `RedBlackTree.RBTree.Transplant` | rbtree-lab/src/rbtree.c:205-210 | `v` takes the place of `u` below the parent of `u`, and points back to it |
| `RedBlackTree.RBTree.Erase` | rbtree-lab/src/rbtree.c:275-309 | exactly node `z` leaves the in-order sequence and the node set, the links are right and the keys in order, always; the result is a valid red-black tree if and only if `EraseRepairs` held of the old tree |
| `RedBlackTree.RBTree.DeleteFixup` | rbtree-lab/src/rbtree.c:212-273 | the loop ends with the same nodes in the same order; the tree comes out red-black if and only if the loop's path avoids the faulty re-read of line 221 or meets it in the one harmless configuration (`Repairs`) |
| `RedBlackErase.RedSiblingStep` | rbtree-lab/src/rbtree.c:246-250 | the red-sibling case done right keeps the one missing black where it was, now beside a black sibling |
| `RedBlackErase.BlackNephewsStep` | rbtree-lab/src/rbtree.c:251-254 | painting the sibling red moves the missing black one level up |
| `RedBlackErase.NearRedStep` | rbtree-lab/src/rbtree.c:256-261 | the near-nephew rotation prepares the far-nephew case without moving the missing black |
| `RedBlackErase.FarRedStep` | rbtree-lab/src/rbtree.c:262-266 | the far-nephew case supplies the missing black for good |
| `RedBlackErase.MisledLuck` | rbtree-lab/src/rbtree.c:217-236 | if the uncle has a red near and a black far child, the wrong sibling still leads to a red-black tree if and only if the real sibling has a red right child |
| `RedBlackErase.MisledLost` | rbtree-lab/src/rbtree.c:217-236 | where the wrong sibling is the sentinel or the old sibling, the tree is not red-black afterwards |
| `RedBlackErase.MisledFarLost` | rbtree-lab/src/rbtree.c:217-236 | with a red far child of the uncle, the uncle is mispainted and the tree is not red-black |
| `RedBlackErase.EraseCanFail` | rbtree-lab/src/rbtree.c:217-222 | a concrete five-node red-black tree on which erasing the left child violates the invariants: the unconditional claim is false |
| `RedBlackErase.RemovedSorted` | rbtree-lab/src/rbtree.c:275-309 | removing one node from the sequence keeps the keys in order |
| `RedBlackTree.RBTree.InorderTraversal` | rbtree-lab/src/rbtree.c:311-316 | writes exactly the keys below a node, in order, from the index on, and nothing else in the array |
| `RedBlackTree.RBTree.ToArray` | rbtree-lab/src/rbtree.c:318-323 | all keys in order at the start of the array; the size argument is not looked at |
| `HeapBytes.WordOfBytes` | malloc-lab/mm.c:61-62 | a stored 4-byte word reads back as itself |
| `MallocLab.Allocator.constructor` | malloc-lab/memlib.c:25-35 | an empty heap of MAX_HEAP bytes |
| `MallocLab.Allocator.MemSbrk` | malloc-lab/memlib.c:55-66 | grows the break by the increment or refuses, exactly by the two tests |
| `MallocLab.Allocator.Init` | malloc-lab/mm.c:209-230 | a valid heap in which nothing is live |
| `MallocLab.Allocator.RemoveFromFreeList` | malloc-lab/mm.c:94-114 | unlinks one block from the doubly linked list in memory: the others stay in order with NEXT and PREV inverse, and no payload byte changes |
| `MallocLab.Allocator.AddToFreeList` | malloc-lab/mm.c:121-129 | puts a block at the front of the list likewise |
| `MallocLab.Allocator.Coalesce` | malloc-lab/mm.c:132-185 | from one unlisted free block, all four cases restore: blocks tile the heap, headers equal footers, no two free neighbours, each free block listed once; live blocks and their payloads are as before |
| `MallocLab.Allocator.ExtendHeap` | malloc-lab/mm.c:187-207 | fails exactly when the break cannot grow, and then changes nothing; otherwise there is a free block of the new bytes |
| `MallocLab.Allocator.BestFit` | malloc-lab/mm.c:276-292 | the smallest free block that fits, among equals the first listed; null exactly when none fits |
| `MallocLab.Allocator.Place` | malloc-lab/mm.c:296-317 | the block becomes live with the asked size or, if the rest is below 24 bytes, whole; payloads of other live blocks are untouched |
| `MallocLab.Allocator.Malloc` | malloc-lab/mm.c:325-380 | null exactly for size 0 or when nothing fits and the heap cannot grow; otherwise one more live block, 8-aligned, disjoint from all others, large enough, best fit if one fits, and no other payload byte changes |
| `MallocLab.Allocator.Free` | malloc-lab/mm.c:385-392 | exactly that block stops being live, all invariants hold and all other payloads are as before |
| `MallocLab.Allocator.GrowForward` | malloc-lab/mm.c:409-421 | succeeds exactly when the next block is free and large enough; the block then has both sizes |
| `MallocLab.Allocator.GrowBackward` | malloc-lab/mm.c:423-436 | succeeds exactly when the previous block is free and large enough; all bytes of the payload survive the overlapping move |
| `MallocLab.Allocator.Relocate` | malloc-lab/mm.c:438-443 | fails exactly when `mm_malloc` would; otherwise the new block starts with the first min(old, new) bytes |
| `MallocLab.Allocator.Realloc` | malloc-lab/mm.c:397-444 | which of the four paths is taken, by sizes and neighbours alone; on each the first min(old, new) bytes are kept, other payloads are untouched and the result is large enough; null leaves everything as it was |
| `BlockMap.Covered` | malloc-lab/mm.c:132-185 | every byte between the first block and the break lies in exactly one block |
| `BlockMap.WalkIsExact` | malloc-lab/mm.c:73-74 | walking by NEXT_BLKP from the first block ends exactly at the epilogue |
| `BlockMap.MergeTiles` | malloc-lab/mm.c:140-170 | swallowing the next block keeps the tiling |
| `BlockMap.SplitTiles` | malloc-lab/mm.c:296-317 | splitting a block keeps the tiling |
| `BlockMap.GrowTiles` | malloc-lab/mm.c:187-207 | growing the heap by a block keeps the tiling |
| `HeapSteps.ValidMeans` | malloc-lab/mm.c:132-185 | validity spelled out: live payloads are 8-aligned, in the heap and pairwise disjoint, no two adjacent blocks are free, and each free block is listed exactly once |
| `HeapSteps.SweepFinds` | malloc-lab/mm.c:65-74 | reading the bytes by GET_SIZE from any block meets exactly the blocks of the model, up to the epilogue |
| `HeapSteps.CallersMayWrite` | malloc-lab/mm.c:325-380 | whatever callers write inside their payloads, the heap stays valid |
| `RequestSizes.AdjustedIsEnough` | malloc-lab/mm.c:331-348 | the block size has room for the request and for the list pointers if and only if the request is above 8 bytes and its sum does not wrap; unless it is one of the two special sizes it is less than 16 bytes more than asked |
| `RequestSizes.ServableIsExact` | malloc-lab/mm.c:325-375 | the requests for which the size arithmetic in `size_t` and `int` serves the caller: exactly those that get a block of at least 24 bytes and room, and that the heap can really grow by |
| `RequestSizes.ExtensionCovers` | malloc-lab/mm.c:187-196 | the heap grows by at least the block that is missing |
| `RequestSizes.ExtensionIs` | malloc-lab/mm.c:356-375 | by how much: 2 KB, or 512 bytes more than twice the block, or a twelfth more than twice the block, by the size of the block |
| `RequestSizes.OversizedCanBeGranted` | malloc-lab/mm.c:187-196 | a concrete size just under 2^31 for which the conversion to `int` lets the heap grow by less than was asked |
| `Arithmetic64.Nlz` | pintos_22.04_lab_docker/pintos/lib/arithmetic.c:40-67 | the number of doublings that bring the top bit up, for every nonzero 32-bit value |
| `Arithmetic64.Udiv64` | pintos_22.04_lab_docker/pintos/lib/arithmetic.c:70-117 | the quotient n / d for all 64-bit n and all d > 0; neither 64/32 division traps |
| `Arithmetic64.EstimateClose` | pintos_22.04_lab_docker/pintos/lib/arithmetic.c:82-114 | the estimate is the quotient or one more, so (q - 1) * d does not overflow |
| `Arithmetic64.HighQuotient` | pintos_22.04_lab_docker/pintos/lib/arithmetic.c:82-114 | the corrected estimate is the quotient |
| `Arithmetic64.Umod64IsExact` | pintos_22.04_lab_docker/pintos/lib/arithmetic.c:119-123 | the 32-bit result is the remainder for every dividend if and only if d <= 2^32 |
| `Arithmetic64.Sdiv64IsExact` | pintos_22.04_lab_docker/pintos/lib/arithmetic.c:125-133 | truncates toward zero if and only if the operands are not the least number and -1, where the result wraps |
| `Arithmetic64.Smod64Keeps` | pintos_22.04_lab_docker/pintos/lib/arithmetic.c:135-141 | the result is the low 32 bits, as a signed number, of the remainder that truncation leaves, even in the wrapping case |
| `Arithmetic64.Smod64IsExact` | pintos_22.04_lab_docker/pintos/lib/arithmetic.c:135-141 | so it is that remainder for every dividend if and only if the magnitude of d is at most 2^31 |
| `KernelList.Splice` | pintos_22.04_lab_docker/pintos/lib/kernel/list.c:170-190 | moves a stretch in front of another element, forward or backward, with all links in both directions right |
| `KernelList.SplicedAt` | pintos_22.04_lab_docker/pintos/lib/kernel/list.c:170-190 | which element stands where afterwards: the same elements, rearranged |
| `KernelList.FindEndOfRun` | pintos_22.04_lab_docker/pintos/lib/kernel/list.c:338-352 | the end of the maximal non-decreasing run |
| `KernelList.InplaceMerge` | pintos_22.04_lab_docker/pintos/lib/kernel/list.c:357-374 | merges two adjacent runs stably and leaves everything around them alone |
| `KernelList.MergePass` | pintos_22.04_lab_docker/pintos/lib/kernel/list.c:387-409 | one pass merges runs two by two: half as many, rounded up, stably |
| `KernelList.List.Sort` | pintos_22.04_lab_docker/pintos/lib/kernel/list.c:380-413 | the list is sorted, holds the same nodes, is stable, has intact links, and needs at most about log2 of the number of runs passes |
| `KernelList.StableSortIsUnique` | pintos_22.04_lab_docker/pintos/lib/kernel/list.c:376-380 | there is only one stable sorted arrangement, so this one is it |
| `Scheduler.Threads.NextThreadToRun` | pintos_22.04_lab_docker/pintos/threads/thread.c:419-425 | the front of the ready list, or the idle thread when it is empty |
| `Scheduler.Threads.ThreadBlock` | pintos_22.04_lab_docker/pintos/threads/thread.c:219-225 | the scheduler's whole next state is the one the event semantics gives for a block |
| `Scheduler.Threads.ThreadUnblock` | pintos_22.04_lab_docker/pintos/threads/thread.c:235-246 | likewise for an unblock: queued once, at the end |
| `Scheduler.Threads.ThreadYield` | pintos_22.04_lab_docker/pintos/threads/thread.c:297-309 | likewise for a yield; the idle thread is not queued |
| `Scheduler.Threads.ThreadExit` | pintos_22.04_lab_docker/pintos/threads/thread.c:280-294 | likewise for an exit: dying, and listed for destruction |
| `Scheduler.Threads.ThreadCreate` | pintos_22.04_lab_docker/pintos/threads/thread.c:179-215 | likewise for a new thread |
| `Scheduler.EventSound` | pintos_22.04_lab_docker/pintos/threads/thread.c:219-309 | every event keeps: one running thread, every ready thread but the idle one queued exactly once, dead threads awaiting destruction queued once |
| `Scheduler.ReachableIsSound` | pintos_22.04_lab_docker/pintos/threads/thread.c:528-577 | so in every state reachable after start-up |
| `Scheduler.FreedWhenDead` | pintos_22.04_lab_docker/pintos/threads/thread.c:528-577 | a thread's page is freed exactly at the first rescheduling at which it is dead, the first thread's excepted, and then it is neither running nor listed for destruction again |
| `Scheduler.EventMeans` | pintos_22.04_lab_docker/pintos/threads/thread.c:219-309 | what each event does to every thread's status: the one that blocks, yields or exits is blocked, ready or dead unless picked again at once, the one unblocked or created is ready, all others but the one picked are as before |
| `Scheduler.IdleIsLast` | pintos_22.04_lab_docker/pintos/threads/thread.c:419-425 | the idle thread is picked only when no other thread is ready |
| `Scheduler.ExitIsFinal` | pintos_22.04_lab_docker/pintos/threads/thread.c:280-294 | an exiting thread is dead, off the CPU and off the ready list, and, the first thread excepted, waits to be freed |
| `Scheduler.DeadStaysDead` | pintos_22.04_lab_docker/pintos/threads/thread.c:528-577 | a dead thread stays dead and is never picked; the next yield or exit frees it, the first thread excepted |
| `Scheduler.ExitedForGood` | pintos_22.04_lab_docker/pintos/threads/thread.c:280-294 | in every legal continuation an exited thread never runs again while its page is not given to a new thread, and is gone once any thread has yielded or exited |
| `Scheduler.FirstComeFirstServed` | pintos_22.04_lab_docker/pintos/threads/thread.c:419-425 | a thread with p others before it has p - n before it after n picks, for n up to p, whatever else happens |
| `Scheduler.ServedNext` | pintos_22.04_lab_docker/pintos/threads/thread.c:419-425 | and the (p+1)-th pick runs it |
| `Synch.StepConsistent` | pintos_22.04_lab_docker/pintos/threads/synch.c:60-323 | every step of semaphores, locks and condition variables keeps all the invariants below together |
| `Synch.QueuesKept` | pintos_22.04_lab_docker/pintos/threads/synch.c:60-116 | exactly the sleeping threads are queued, each on its own semaphore, once |
| `Synch.WakeupsKept` | pintos_22.04_lab_docker/pintos/threads/synch.c:60-116 | no wakeup is lost: while threads wait, each unit of value has a woken thread about to test it |
| `Synch.CountedKept` | pintos_22.04_lab_docker/pintos/threads/synch.c:45-116 | value = initial value + ups - completed downs, at every step |
| `Synch.ExclusiveKept` | pintos_22.04_lab_docker/pintos/threads/synch.c:170-235 | value plus owners of a lock is 1 |
| `Synch.SignalledKept` | pintos_22.04_lab_docker/pintos/threads/synch.c:276-323 | a signal to a waiter is in exactly one place: not sent, under way, or in its semaphore |
| `Synch.ConditionsKept` | pintos_22.04_lab_docker/pintos/threads/synch.c:276-323 | condition lists hold waiting threads of their lock, each once |
| `Synch.OneOwner` | pintos_22.04_lab_docker/pintos/threads/synch.c:186-230 | at most one thread is between acquire and release of a lock |
| `Synch.SomeoneWillTake` | pintos_22.04_lab_docker/pintos/threads/synch.c:60-116 | if threads wait although the value is positive, a woken thread will take it |
| `Synch.ValuesMove` | pintos_22.04_lab_docker/pintos/threads/synch.c:60-116 | an up adds one, a test or try takes one unless the value is 0, and nothing else changes a value, a waiter's fresh semaphore excepted |
| `Synch.WaitersMove` | pintos_22.04_lab_docker/pintos/threads/synch.c:60-116 | an up takes the first waiter off the line and wakes it, a test that finds 0 goes to the end, nothing else changes a line |
| `Synch.ConditionMoves` | pintos_22.04_lab_docker/pintos/threads/synch.c:276-308 | a signal takes the first waiter of the condition, a wait goes to the end |
| `Synch.TestMeans` | pintos_22.04_lab_docker/pintos/threads/synch.c:60-76 | a test of the value passes exactly if it is not 0; otherwise the thread sleeps on the semaphore |
| `Synch.HoldersMove` | pintos_22.04_lab_docker/pintos/threads/synch.c:186-235 | a lock's holder changes only when a thread records itself, or clears itself to release or to wait |
| `Synch.PromiseKept` | pintos_22.04_lab_docker/pintos/threads/synch.c:186-290 | a call that is to return with a lock goes on until its thread holds it, through every step of any thread |
| `KernelSteps.InSynchValid` | pintos_22.04_lab_docker/pintos/threads/synch.c:60-116 | steps of synch.c through the block and unblock calls of thread.c keep the combined state valid: a thread is blocked exactly when it sleeps in `sema_down` |
| `KernelSteps.SwitchValid` | pintos_22.04_lab_docker/pintos/threads/thread.c:219-309 | so do yield, exit, creation and idling |
| `KernelSteps.EveryInterleaving` | pintos_22.04_lab_docker/pintos/threads/synch.c:60-323 | the combined invariant holds after every finite interleaving from boot on |
| `KernelSteps.OneListEach` | pintos_22.04_lab_docker/pintos/threads/thread.c:219-309 | no thread is on two of the ready list, a semaphore's waiters and the destruction list |
| `KernelSteps.NeverStuck` | pintos_22.04_lab_docker/pintos/threads/synch.c:60-116 | while threads wait on a positive semaphore, one that will take it is running or ready |
| `KernelSteps.WaitReturnsHolding` | pintos_22.04_lab_docker/pintos/threads/synch.c:276-290 | in every interleaving, a thread that comes back from `cond_wait` holds the lock |
| `KernelSteps.AcquireReturnsHolding` | pintos_22.04_lab_docker/pintos/threads/synch.c:186-214 | likewise from `lock_acquire`, and from a `lock_try_acquire` that finds the lock free |
| `KernelSteps.ReleaseReturnsWithout` | pintos_22.04_lab_docker/pintos/threads/synch.c:221-229 | a thread that comes back from `lock_release` does not hold the lock |
| `KernelSteps.WaitersInTurn` | pintos_22.04_lab_docker/pintos/threads/synch.c:60-116 | in every interleaving a waiter with p others before it has p - n before it after n ups |
| `KernelSteps.WokenNext` | pintos_22.04_lab_docker/pintos/threads/synch.c:106-116 | and the (p+1)-th up wakes it |
| `KernelSteps.SignalsInTurn` | pintos_22.04_lab_docker/pintos/threads/synch.c:276-308 | likewise for a condition's waiters and its signals |
| `PageTables.Mmu.Walk` | pintos_22.04_lab_docker/pintos/threads/mmu.c:11-88 | with `create`, fails exactly when there are fewer free pages than missing tables, and then tables and free pages are exactly as before; otherwise returns the entry's place, and no mapping changes |
| `PageTables.Unhung` | pintos_22.04_lab_docker/pintos/threads/mmu.c:24-58 | unhooking a new table and freeing its page undoes the hanging, whatever the freed page holds |
| `PageTables.Mmu.Pml4GetPage` | pintos_22.04_lab_docker/pintos/threads/mmu.c:213-226 | the frame's address plus the offset if the page is mapped, otherwise nothing |
| `PageTables.Mmu.Pml4SetPage` | pintos_22.04_lab_docker/pintos/threads/mmu.c:232-244 | succeeds exactly when the missing tables can be had; then that page maps to the frame, present and for users, writable exactly if asked, with no other flag, and every other page maps as before; otherwise nothing changes |
| `PageTables.SetThenGet` | pintos_22.04_lab_docker/pintos/threads/mmu.c:213-244 | the entry stored for a frame reads back as present and as that frame |
| `PageTables.LeafEntryMeans` | pintos_22.04_lab_docker/pintos/threads/mmu.c:242 | the flags of a stored entry, bit by bit, and its frame |
| `PageTables.TableEntryMeans` | pintos_22.04_lab_docker/pintos/threads/mmu.c:20 | a new table is entered as present, writable and for users, with no other flag |
| `PageTables.PageIndices` | pintos_22.04_lab_docker/pintos/threads/mmu.c:11-88 | the four indices are the digits of the page number to base 512, the highest first |
| `PageTables.IndicesTellPages` | pintos_22.04_lab_docker/pintos/threads/mmu.c:11-88 | two user addresses share all four indices exactly when they are on the same page |
| `PageTables.Mmu.Pml4ClearPage` | pintos_22.04_lab_docker/pintos/threads/mmu.c:251-263 | the page is absent, its other bits kept, other pages as before |
| `PageTables.Mmu.Pml4SetDirty` | pintos_22.04_lab_docker/pintos/threads/mmu.c:277-289 | setting sets bit 6 of the entry and nothing else; clearing clears it, and all bits from 32 on as well; nothing without a table |
| `PageTables.Mmu.Pml4SetAccessed` | pintos_22.04_lab_docker/pintos/threads/mmu.c:303-315 | likewise for bit 5 |
| `PageTables.BitOffKeepsFrame` | pintos_22.04_lab_docker/pintos/threads/mmu.c:277-315 | clearing a flag keeps the frame if and only if the entry is below 2^32, since the mask is made in 32 bits |
| `PageTables.BitOnKeepsFrame` | pintos_22.04_lab_docker/pintos/threads/mmu.c:277-315 | setting one always keeps the frame |
| `PageTables.BitOnMeans` | pintos_22.04_lab_docker/pintos/threads/mmu.c:277-315 | setting a bit of an entry sets just it |
| `PageTables.BitOffMeans` | pintos_22.04_lab_docker/pintos/threads/mmu.c:277-315 | clearing a bit clears it and the bits from 32 on, and no other |
| `PageTables.Mmu.DestroyTable` | pintos_22.04_lab_docker/pintos/threads/mmu.c:158-186 | frees exactly the pages below a table, none twice, and touches nothing else |
| `PageTables.Mmu.Pml4Destroy` | pintos_22.04_lab_docker/pintos/threads/mmu.c:189-201 | frees every table and mapped frame once: afterwards exactly they and the pages that were free are free |
| `SlabMalloc.Kernel.FindDesc` | pintos_22.04_lab_docker/pintos/threads/malloc.c:95-97 | the smallest size class that holds the request, or none exactly above 1024 bytes |
| `SlabMalloc.Kernel.Malloc` | pintos_22.04_lab_docker/pintos/threads/malloc.c:84-144 | null exactly for size 0 or when neither a listed block nor pages can be had; otherwise the front block of its class, or pages of its own, not in use before, large enough; all other blocks in use are as before, and the only pages no longer free are those of its arena |
| `SlabMalloc.Kernel.NewArena` | pintos_22.04_lab_docker/pintos/threads/malloc.c:119-136 | a page becomes an arena with all of its blocks listed in order |
| `SlabMalloc.Kernel.Free` | pintos_22.04_lab_docker/pintos/threads/malloc.c:201-241 | exactly that block stops being in use; if it was the only one of its arena the arena's pages, and no others, are free again, otherwise it is at the front of its list; no page is lost |
| `SlabMalloc.Kernel.DropArena` | pintos_22.04_lab_docker/pintos/threads/malloc.c:221-231 | all blocks of the arena leave the list and its page is free again |
| `SlabMalloc.OnePlaceEach` | pintos_22.04_lab_docker/pintos/threads/malloc.c:84-241 | a page is never both free and in an arena, nor in two arenas |
| `SlabMalloc.NothingInUse` | pintos_22.04_lab_docker/pintos/threads/malloc.c:201-241 | when no block is in use there is no arena left |
| `SlabMalloc.Kernel.AllBack` | pintos_22.04_lab_docker/pintos/threads/malloc.c:201-241 | once every block has been freed, the free pages are the whole pool again |
| `SlabMalloc.PushedPages` | pintos_22.04_lab_docker/pintos/threads/malloc.c:218-222 | the arena is full exactly when the freed block was the only one in use in it |
| `SlabMalloc.SizesDouble` | pintos_22.04_lab_docker/pintos/threads/malloc.c:68-80 | the size classes are 16 bytes and its doublings below half a page |
| `SlabMalloc.PoppedFormed` | pintos_22.04_lab_docker/pintos/threads/malloc.c:138-141 | taking a block keeps the invariants: each arena's count equals its blocks on the list, which holds each block once |
| `SlabMalloc.PushedFormed` | pintos_22.04_lab_docker/pintos/threads/malloc.c:218-219 | so does giving one back |
| `SlabMalloc.UsedApart` | pintos_22.04_lab_docker/pintos/threads/malloc.c:243-268 | two blocks in use do not overlap |
| `SlabMalloc.UsedInside` | pintos_22.04_lab_docker/pintos/threads/malloc.c:243-268 | a block in use lies inside its arena's pages, behind the header |
| `SlabMalloc.CountBound` | pintos_22.04_lab_docker/pintos/threads/malloc.c:222 | an arena's count never exceeds its blocks, and when equal all its blocks are free |
| `SlabMalloc.PageCntIsEnough` | pintos_22.04_lab_docker/pintos/threads/malloc.c:99-113 | the page count of a big request holds it if and only if the sum does not wrap |
| `SlabMalloc.CallocSizeIsRight` | pintos_22.04_lab_docker/pintos/threads/malloc.c:148-164 | a product that the overflow test of `calloc` lets through is right if and only if it does not wrap, and is never smaller than a factor; a concrete pair wraps and is let through |
| `ProxyCache.Cache.GiveSecondChance` | webproxy-lab/proxy.c:298-318 | the tail moves to the front with its bit clear; on a list of one block it would link to itself |
| `ProxyCache.TenBlocks` | webproxy-lab/proxy.c:285-334 | when something must go, there are at least ten blocks, so that never happens |
| `ProxyCache.Cache.EvictTail` | webproxy-lab/proxy.c:321-333 | the tail, whose bit is clear, is unlinked and its size subtracted |
| `ProxyCache.Cache.MakeRoom` | webproxy-lab/proxy.c:290-335 | the loop ends; the blocks that go are a prefix of the clock order, no longer than needed, and the rest keeps its order |
| `ProxyCache.SecondChance` | webproxy-lab/proxy.c:298-318 | a second chance does not change the clock order: unreferenced from the tail, then referenced from the tail |
| `ProxyCache.Stored` | webproxy-lab/proxy.c:338-357 | a stored block is last in the clock order |
| `ProxyCache.Cache.Lookup` | webproxy-lab/proxy.c:190-210 | a hit returns a block with the URL and sets just its bit; a miss means there is none |
| `ProxyCache.Cache.Store` | webproxy-lab/proxy.c:338-357 | list consistent, total size right and within the bound, the body stored under its URL, and no other new block |
| `ProxyCache.ReadResponse` | webproxy-lab/proxy.c:245-267 | the buffer is the exact concatenation of the chunks if they fit in it |
| `ProxyCache.Cache.Handle` | webproxy-lab/proxy.c:190-358 | a hit answers with the cached body of that URL and sets just its reference bit; otherwise the answer is the response, stored last in the clock order exactly if it fits, the first of that order going as needed; too large a response changes nothing |
| `HashTable.MaskIsRemainder` | pintos_22.04_lab_docker/pintos/lib/kernel/hash.c:280-286 | masking with a power of two less one is the remainder |
| `HashTable.TurnOffKeepsTop` | pintos_22.04_lab_docker/pintos/lib/kernel/hash.c:301-310 | turning off the lowest set bit keeps the highest, unless it is the same one |
| `HashTable.IdealCount` | pintos_22.04_lab_docker/pintos/lib/kernel/hash.c:322-341 | the largest power of two at most max(4, n / 2): twice it is more |
| `HashTable.Hash.Find` | pintos_22.04_lab_docker/pintos/lib/kernel/hash.c:122-128 | the element equal under `less`, exactly if there is one |
| `HashTable.Hash.Insert` | pintos_22.04_lab_docker/pintos/lib/kernel/hash.c:91-103 | inserts exactly if no equal element is there, which is otherwise returned and nothing changes; bucket count ideal if memory for a resize can be had |
| `HashTable.Hash.Replace` | pintos_22.04_lab_docker/pintos/lib/kernel/hash.c:106-119 | the equal element, if any, is returned and gone, the new one is there |
| `HashTable.Hash.Delete` | pintos_22.04_lab_docker/pintos/lib/kernel/hash.c:134-142 | the equal element, if any, is returned and gone |
| `HashTable.Hash.Rehash` | pintos_22.04_lab_docker/pintos/lib/kernel/hash.c:321-379 | the same elements, each in the bucket its hash names, under the ideal count, or everything as before when the allocation fails |
| `HashTable.Hash.MoveBucket` | pintos_22.04_lab_docker/pintos/lib/kernel/hash.c:363-377 | an old bucket's elements all arrive in their new buckets |
| `HashTable.Iterator.Next` | pintos_22.04_lab_docker/pintos/lib/kernel/hash.c:184-218 | each element once, and then none |
| `Bitmaps.WordSteps` | pintos_22.04_lab_docker/pintos/lib/kernel/bitmap.c:142-176 | or, and-not and xor with a mask change exactly the one bit of the 64-bit word |
| `Bitmaps.Bitmap.Mark` | pintos_22.04_lab_docker/pintos/lib/kernel/bitmap.c:142-151 | the bit is set and no other changes |
| `Bitmaps.Bitmap.Reset` | pintos_22.04_lab_docker/pintos/lib/kernel/bitmap.c:154-164 | the bit is cleared and no other changes |
| `Bitmaps.Bitmap.Flip` | pintos_22.04_lab_docker/pintos/lib/kernel/bitmap.c:168-177 | the bit is flipped and no other changes |
| `Bitmaps.Bitmap.Test` | pintos_22.04_lab_docker/pintos/lib/kernel/bitmap.c:180-185 | the bit |
| `Bitmaps.Bitmap.SetMultiple` | pintos_22.04_lab_docker/pintos/lib/kernel/bitmap.c:198-208 | exactly the range has the value |
| `Bitmaps.Bitmap.Count` | pintos_22.04_lab_docker/pintos/lib/kernel/bitmap.c:212-225 | how often the value occurs in the range |
| `Bitmaps.Bitmap.Contains` | pintos_22.04_lab_docker/pintos/lib/kernel/bitmap.c:229-242 | whether the value occurs in the range |
| `Bitmaps.Bitmap.Scan` | pintos_22.04_lab_docker/pintos/lib/kernel/bitmap.c:270-283 | the first group at or after the start, or the error value exactly when there is none |
| `Bitmaps.Bitmap.ScanAndFlip` | pintos_22.04_lab_docker/pintos/lib/kernel/bitmap.c:292-299 | finds the first group and flips exactly it; without one nothing changes |
| `Bitmaps.FlipUndone` | pintos_22.04_lab_docker/pintos/filesys/free-map.c:28-33 | setting the group back after a failed write gives the old bits |
| `Bitmaps.EmptyGroup` | pintos_22.04_lab_docker/pintos/lib/kernel/bitmap.c:285-299 | a scan for zero bits returns its start, not 0 as the comment has it |
| `Bitmaps.LastMaskBits` | pintos_22.04_lab_docker/pintos/lib/kernel/bitmap.c:60-64 | the mask keeps the bits in use of the last word and clears the others |
| `Bitmaps.StoredAndLoaded` | pintos_22.04_lab_docker/pintos/lib/kernel/bitmap.c:311-329 | a bitmap written to its file and read back is the same |
| `DiskLayout.SectorCountIsExact` | pintos_22.04_lab_docker/pintos/filesys/inode.c:24-27 | the fewest sectors that hold the bytes, if and only if the 32-bit sum does not wrap, and otherwise more than any disk has |
| `DiskLayout.InodeBack` | pintos_22.04_lab_docker/pintos/filesys/inode.c:11-18 | an inode's sector reads back as the start and length written |
| `DiskLayout.LaidApart` | pintos_22.04_lab_docker/pintos/filesys/free-map.c:25-37 | no sector belongs to two files, and every file's sectors are marked |
| `DiskLayout.ChunkWritten` | pintos_22.04_lab_docker/pintos/filesys/inode.c:243-277 | writing one chunk into its sector patches the file's flat bytes at the offset |
| `DiskLayout.DataWritten` | pintos_22.04_lab_docker/pintos/filesys/inode.c:256-275 | and leaves the layout and every other file as they were |
| `DiskLayout.ReadAfterWrite` | pintos_22.04_lab_docker/pintos/filesys/inode.c:182-285 | a read after a write sees the written bytes where it wrote and the old ones elsewhere |
| `DiskLayout.FileMade` | pintos_22.04_lab_docker/pintos/filesys/inode.c:67-97 | reserved sectors become a file apart from all others |
| `DiskLayout.FileGone` | pintos_22.04_lab_docker/pintos/filesys/inode.c:149-169 | a removed file's sectors, and no others, return |
| `Inodes.TransferIsExact` | pintos_22.04_lab_docker/pintos/filesys/inode.c:182-285 | the count is min(size, bytes to end of file) if and only if there is memory for the bounce buffer or only whole sectors are moved |
| `Inodes.FileSystem.ReadAt` | pintos_22.04_lab_docker/pintos/filesys/inode.c:182-227 | the exact count, and the bytes of the file at the offset |
| `Inodes.FileSystem.WriteAt` | pintos_22.04_lab_docker/pintos/filesys/inode.c:233-285 | the exact count, 0 while writes are denied; the file is the old one with those bytes laid over, every other file is as before, and the whole layout stays sound |
| `Inodes.FileSystem.constructor` | pintos_22.04_lab_docker/pintos/filesys/free-map.c:12-20 | only the two fixed inode sectors are marked |
| `Inodes.FileSystem.BitmapWrite` | pintos_22.04_lab_docker/pintos/lib/kernel/bitmap.c:324-329 | succeeds exactly when the free map's file takes all bytes, and then holds the map |
| `Inodes.FileSystem.FreeMapAllocate` | pintos_22.04_lab_docker/pintos/filesys/free-map.c:25-37 | succeeds exactly when there is a free group and the map can be written; then the first group is marked and nobody's, otherwise the map is as before |
| `Inodes.FileSystem.FreeMapRelease` | pintos_22.04_lab_docker/pintos/filesys/free-map.c:40-45 | exactly those sectors are free again; its assertion holds |
| `Inodes.FileSystem.InodeCreate` | pintos_22.04_lab_docker/pintos/filesys/inode.c:67-97 | succeeds exactly when memory, sectors and map write do; then there is a file of that many zero bytes on the first free group, and no other file has changed |
| `Inodes.FileSystem.InodeOpen` | pintos_22.04_lab_docker/pintos/filesys/inode.c:102-130 | one inode in memory for each file: the same one if it is open, otherwise a fresh one with the place the disk says |
| `Inodes.FileSystem.InodeReopen` | pintos_22.04_lab_docker/pintos/filesys/inode.c:133-138 | one more opener |
| `Inodes.FileSystem.InodeRemove` | pintos_22.04_lab_docker/pintos/filesys/inode.c:173-177 | marked as removed, nothing else |
| `Inodes.FileSystem.InodeDenyWrite` | pintos_22.04_lab_docker/pintos/filesys/inode.c:292-297 | one more opener denies writes, at most once for each opener; nothing else |
| `Inodes.FileSystem.InodeAllowWrite` | pintos_22.04_lab_docker/pintos/filesys/inode.c:302-307 | one fewer denies them; nothing else |
| `Inodes.FileSystem.InodeClose` | pintos_22.04_lab_docker/pintos/filesys/inode.c:149-169 | one opener fewer and the inode otherwise as it was; with the last opener exactly its entry leaves the list, and if it was removed exactly its sectors are free again, with every other file as before |
| `Inodes.FileSystem.Perform` | pintos_22.04_lab_docker/pintos/filesys/inode.c:102-177 | one open, reopen, remove or close, where its caller may ask for it |
| `Inodes.FileSystem.Run` | pintos_22.04_lab_docker/pintos/filesys/inode.c:102-177 | over any run of these, a file is gone exactly if it had been marked as removed and nobody has it open; every other file is in its place with the bytes it had, the free map's excepted |
| `Inodes.FileSystem.FreeMapCreate` | pintos_22.04_lab_docker/pintos/filesys/free-map.c:65-77 | the free map gets a file of its own that holds it |
| `Inodes.FileSystem.FreeMapOpen` | pintos_22.04_lab_docker/pintos/filesys/free-map.c:48-55 | on a disk whose map was saved, the very same map is in memory again and the layout sound |
| `HeapSort.SiftStep` | pintos_22.04_lab_docker/pintos/lib/stdlib.c:96-124 | moving the larger child up moves the one hole in the heap down |
| `HeapSort.RootIsMax` | pintos_22.04_lab_docker/pintos/lib/stdlib.c:96-124 | the root of a heap is at least every element |
| `HeapSort.Heapify` | pintos_22.04_lab_docker/pintos/lib/stdlib.c:96-124 | a heap from i + 1 on becomes a heap from i on, by rearranging its elements only |
| `HeapSort.Sort` | pintos_22.04_lab_docker/pintos/lib/stdlib.c:131-157 | an ordered permutation of the input, for every total preorder |
| `HeapSort.BinarySearch` | pintos_22.04_lab_docker/pintos/lib/stdlib.c:184-207 | a matching position exactly if there is one |
| `Printf.FormatInteger` | pintos_22.04_lab_docker/pintos/lib/stdio.c:436-510 | puts out exactly sign, prefix, zeros, digits and padding; the 64-byte buffer is never overrun, for every 64-bit value, base, flag set, width and precision |
| `Printf.DigitsFit` | pintos_22.04_lab_docker/pintos/lib/stdio.c:466-477 | a value below 8^k takes at most 2k characters in any base, separators included |
| `Printf.DigitsDenote` | pintos_22.04_lab_docker/pintos/lib/stdio.c:466-477 | decimal digits, put in order, denote the value |
| `Printf.DigitsDenoteIn` | pintos_22.04_lab_docker/pintos/lib/stdio.c:466-477 | in every base the digits, by what the characters stand for, denote the value; capitals exactly for `X` |
| `Printf.GroupedDigits` | pintos_22.04_lab_docker/pintos/lib/stdio.c:466-477 | grouping only adds commas |
| `Printf.CommasStand` | pintos_22.04_lab_docker/pintos/lib/stdio.c:466-477 | a comma stands exactly behind each full group, counted from the last digit, that more digits follow |
| `Printf.DigitsShown` | pintos_22.04_lab_docker/pintos/lib/stdio.c:479-488 | zeros in front up to the precision, as far as the buffer allows; an octal number with `#` begins with 0 |
| `Printf.HeadMeans` | pintos_22.04_lab_docker/pintos/lib/stdio.c:448-464 | which sign the text begins with, if any, and when the `0x` prefix follows |
| `Printf.Justified` | pintos_22.04_lab_docker/pintos/lib/stdio.c:490-510 | on which side the padding goes, and of what: the text is the same conversion without a width, padded |
| `Printf.FlagsMean` | pintos_22.04_lab_docker/pintos/lib/stdio.c:334-390 | which flags are in force after parsing, by what was written |
| `Printf.ParseConversion` | pintos_22.04_lab_docker/pintos/lib/stdio.c:320-431 | the text read is that of a specification whose parts are each read as far as they go, and the result is that specification's meaning, with the flags settled against each other |
| `Printf.Atoi` | pintos_22.04_lab_docker/pintos/lib/stdlib.c:9-41 | the number at the start of the string, behind spaces and a sign, down to the least `int` |
| `Printf.RoundTrip` | pintos_22.04_lab_docker/pintos/lib/stdlib.c:9-41 | `atoi` of what `%d` prints is the value, for every 32-bit value and all flags but grouping, widths and precisions |
| `Printf.WidthIsRight` | pintos_22.04_lab_docker/pintos/lib/stdio.c:490-510 | the text has the asked width, or that of its parts if larger, if and only if `-` and `0` are not both in force with room to pad |
| `Printf.WidthCanBeWrong` | pintos_22.04_lab_docker/pintos/lib/stdio.c:348-360 | they can both be: `%0*d` with width -5 pads twice |
| `Printf.Vsnprintf` | pintos_22.04_lab_docker/pintos/lib/stdio.c:25-54 | at most size - 1 characters and a terminator are stored, and the full length returned |
| `SearchTree.InOrderIterative` | Data-Structures/tests/binary_search_tree.c:51-76 | prints the recursive in-order, for every tree in memory, and ends |
| `SearchTree.PrintedAscending` | Data-Structures/tests/binary_search_tree.c:51-76 | the items so printed are those of the tree in order, ascending for a search tree |
| `SearchTree.PostOrderIterativeS1` | Data-Structures/tests/binary_search_tree.c:106-138 | with one stack and the last visited node, prints the recursive post-order and ends |
| `SearchTree.PrintedOnce` | Data-Structures/tests/binary_search_tree.c:121-133 | why comparing with the last visited node is enough: no node is printed twice |
| `SearchTree.PostOrderIterativeS2` | Data-Structures/tests/binary_search_tree.c:140-173 | with two stacks, prints the same sequence |
| `SearchTree.LevelOrderTraversal` | Data-Structures/tests/binary_search_tree.c:19-44 | prints the levels, top down, each from left to right |
| `SearchTree.RemoveNodeFromTree` | Data-Structures/tests/binary_search_tree.c:180-231 | the items in order are the old ones without one occurrence of the value, if any, the nodes are the old ones less at most one, freed exactly if the value was there, and all links are right |
| `SearchTree.WithoutMeans` | Data-Structures/tests/binary_search_tree.c:180-231 | so the order is kept, and the multiset of items has one occurrence fewer |
| `SearchTree.RemovedInner` | Data-Structures/tests/binary_search_tree.c:205-219 | copying the successor and removing it from the right subtree removes exactly the value |

## Left out

- Sockets, HTTP parsing, process control and terminal output: calls into the system, taken as parameters or results.
- The configuration of the red-black tree without a sentinel: its insertion does not handle the empty tree. `delete_rbtree` only frees what there is.
- `first_fit`, `next_fit`, `mm_free` of null and pointers that were not handed out: outside what the modelled paths call or their callers may do. `memcpy` is read as an ascending copy, as the overlapping move in `mm_realloc` needs.
- MallocLab.Allocator.Malloc: stated for the servable requests, which `ServableIsExact` shows to be exactly those that get a sound block.
- The loop bodies of long functions are methods of their own here (`FixupLeft`, `PushPlaced`, `ReadChunk` and the like); the three page-table walks, alike but for the level, are one method over the indices that are left, and so are the three destroy functions.
- Arithmetic64: the `divl` instruction stands by its specification, with its trap as a precondition; the libgcc entry points only call the four functions.
- KernelList: `list_reverse`, `list_unique`, `list_insert_ordered`, `list_max` and `list_min`, one pass each.
- KernelList.List.Sort: `less` is a strict weak order and the list has no element twice, as the source demands of its callers.
- Synch: a system of steps over values, not objects updated in place, because what matters are the interleavings; values are not bounded by `unsigned`. The spinning test functions are not modelled.
- Scheduler: priorities (the source ignores them), ticks, the lock around thread ids, and the context switch itself. A created thread is unblocked in one step with its creation.
- PageTables: the kernel's half of the table and user addresses from 2^39 up, `pml4_for_each`, activation and the invalidation of cached translations; the dirty and accessed bits that the hardware sets.
- SlabMalloc: the contents of blocks, hence `realloc`, and the locks of the descriptors. The page allocator may choose any run of free pages.
- SlabMalloc.Kernel.Malloc: for sizes whose page count does not wrap; `PageCntIsEnough` says what happens to the others.
- ProxyCache: the reader-writer lock, which the source never takes, so requests are modelled one after the other; URLs that do not fit their buffer; responses of 2^31 bytes and more; `move_to_front`, which is not called.
- HashTable: `hash_clear`, `hash_destroy`, `hash_apply` and the hash functions; an iterator's table must not change, as the source demands. The first allocation of buckets succeeds.
- Inodes: files above the inodes (names, directories, positions), and closing the free map's file, which leaves the pointer to it behind. Offsets are not negative: the source's remainder would be.
- Inodes.FileSystem.FreeMapCreate: where the kernel would stop, the result is false and nothing is said of the state.
- Inodes.FileSystem.FreeMapOpen: likewise.
- Bitmaps: atomicity of single-bit updates, dumping, and creation in a given buffer.
- Printf: strings, pointers and the dispatch on conversion letters; width and precision are unbounded.
- Printf.Atoi: for numbers that fit an `int`; its assertions on a null pointer are not modelled.
- SearchTree: `preOrderIterative`, which prints at the wrong place and so in order; insertion and the stack and queue helpers, whose nodes are sequences here. The traversals yield the nodes, whose items are what is printed.
- The virtual memory stubs, the FAT chain, and the exercise files without bodies: nothing to model.
