# The memory manager behind Racket, and two smaller parts beside it

A Dafny model of the conservative garbage collector under `racket/src/racket/gc`, of calls from other places into
the original one (`racket/src/foreign/foreign.c`), and of the launcher's command line
(`racket/src/racket/dynsrc/start.c`), with proofs of what these parts promise each other.

| file | models | main results |
|---|---|---|
| `MarkModel.dfy`, `Marker.dfy` | the mark state machine over a bounded stack that drops entries, roots among them, when it overflows; dirty bits, and a program that runs and writes between any two calls | full and incremental marking end with exactly the reachable objects marked, however often the stack overflowed and whatever an honest program did meanwhile (`FullMark`, `IncrementalFinish`, `CollectALittle`); every `MarkSome` makes a lexicographic measure smaller |
| `ParallelMark.dfy` | helpers that steal from and give back to a shared stack, one step per shared access | in every interleaving nothing is lost, the initiator returns only when no work is left anywhere, and until then some thread can go on (`RunSafety`, `ReturnIsSafe`, `NeverStuck`) |
| `ParallelCycle.dfy` | parallel phases in place of the sequential drain | repeated phases with overflows and rescans between them end with exact marks (`ParallelMarking`) |
| `FullCollection.dfy` | marking, then finalization with the same marks | what finalization keeps is what roots or registered objects reach (`Collect`, `KeptByFinalization`) |
| `HeapLayout.dfy`, `FreeLists.dfy`, `HblkAllocator.dfy` | heap blocks, segregated doubly linked free lists, splitting, coalescing, dropping | every operation keeps the heap tiled, each free block on the one list for its size, the counters exact and bytes conserved; allocation is complete (`Allochblk`, `RoomIsAcceptable`) |
| `BlackList.dfy` | the black lists and the scan that skips words | the fast scan equals the scan block by block |
| `AddressIndex.dfy` | the two-level index with saturating forwarding counts | it agrees with the allocator's blocks across allocation, freeing, dropping and growth; its searches return the block that is wanted (`NextUsedBlock`, `PrevBlock`, `Base`, ...) |
| `ChainedTable.dfy`, `Finalize.dfy` | the hash tables of links and finalizers, and `GC_finalize` | what is queued, marked and cleared, as functions of sets, so that chain order cannot matter (`Finalize`, `QueueExact`, `EagersQueued`, `LinksLeftAlive`) |
| `SizeMap.dfy`, `FreeListBuild.dfy` | size classes; the builders of small-object free lists | requests always fit; the unrolled builders equal the general one |
| `Exclusions.dfy`, `HeapSections.dfy` | root exclusions, root sets, heap sections | interval subtraction is exact |
| `StopWorld.dfy` | stopping and starting threads on Darwin, with other threads going on meanwhile | the fixpoint loop catches every thread; a start undoes a stop, also when the others suspend and resume each other |
| `OrigPlaceQueue.dfy` | requests queued, withdrawn and queued again while the original place drains the queue | each call is executed once and before it returns; requests are never freed or reused while queued |
| `CommandLine.dfy` | quoting, joining and parsing in place | printing and parsing are inverse to each other exactly when stated |

`Collections.dfy` and `Units.dfy` hold what several of them use.

Parts that change things step by step are classes and methods on their fields and arrays, proved against functions and
predicates on values; the concurrent parts are state machines whose steps are critical sections or single shared
accesses. Addresses are natural numbers: bytes in `Marker`, `Finalize`, `Exclusions` and `HeapSections`, heap blocks in
the allocator, the index and the black lists.

The configuration is fixed: 64-bit words, heap blocks of 4096 bytes, a top-level index without hash chains, no unmapping, no leak finding,
the parallel marker only in `ParallelMark` and `ParallelCycle`.

## Results that come with a condition

* `CommandLine.RoundTrip` is an equivalence: empty arguments are lost, and an argument that needs quotes and ends in a backslash is never read back,
  because the backslashes before the closing quote are taken to protect it.
* `Finalize.ClosedIff` is an equivalence: an object registered at an eager level above 2 is queued, but nothing is
  marked from it. The condition speaks of the state before the collection only, as does the closed form of the final
  marks, `FinalMarksAre`. `LevelThreeLeavesGap` is an instance. With levels 0, 1 and 2 everything a queued object
  reaches is marked (`QueueReachesMarked`).
* `Exclusions.ExclusionTable.ExcludeStaticRoots` says exactly when a full table is written past its end;
  `FullTableOverruns` is an instance. So do `Finalize.Finalizer.UnregisterLink`, for following a table that is not there,
  and `CommandLine.MakeCommandLine`, for writing past an empty buffer.
* An allocation that black lists count for is black listed only where the code punts: request and remainder are both
  beyond `BL_LIMIT`, and every place in the block is listed (`Search.Punts`).
* `Marker.Marker.IncrementalFinish` needs the write barrier to have seen every pointer from a marked to an unmarked object;
  `BarrierAllowsUnmarked` shows that such pointers may exist. `Mutate` and `CollectALittle` derive the condition from
  the program's writes (`Writes`): marked objects stay allocated, and what an object or static data pointed to when the
  dirty bits were last read it still points to unless its block or range has become dirty. `StoreWrites` and
  `WritesTrans` show that stores with a barrier are such writes.
* `StopWorld.World.StopWorld` and `StartWorld` hold while no thread is set running that was suspended when the collector
  came to it: such a thread is not recorded. `FoundRunningIsLost` is the step that would go wrong.
* `HblkAllocator.Allocator.Allochblk` succeeds, with empty black lists, if and only if the size needed is a positive signed
  word and a free block of that size, or a bigger one on a list within the split limit, exists. With use of the entire heap allowed that means
  enough consecutive free heap blocks anywhere (`RoomIsAcceptable`).

## Where the code and its comments disagree

The model follows the code.

* `GC_add_to_fl` is said to keep lists sorted by address; it pushes in front (`racket/src/racket/gc/allchblk.c:358-388`).
* A forwarding entry is said to be greater than 1; the second heap block of a block gets 1
  (`racket/src/racket/gc/include/private/gc_hdrs.h:125`, `racket/src/racket/gc/headers.c:267-281`).
* `GC_suspend_thread_list` means to record threads that were suspended already; the record is overwritten by the next one,
  because the loop goes on before counting it. They are left alone all the same
  (`racket/src/racket/gc/darwin_stop_world.c:361-440`).
* When `GC_add_roots_inner` merges root sets, the entry that moves into a gap does not take its kind along
  (`racket/src/racket/gc/mark_rts.c:169-252`).
* Registering a disappearing link again changes its object, but a normal link stays normal and a late one late
  (`racket/src/racket/gc/finalize.c:186-196`).
* `GC_exclude_static_roots` makes room in the table before it looks whether there is any
  (`racket/src/racket/gc/mark_rts.c:419-450`).

## Model

| member | source | states |
|---|---|---|
| MarkModel.SplitRange | racket/src/racket/gc/mark.c:687-700 | cutting a long range as the marker does gives two disjoint parts whose locations are together those of the whole |
| MarkModel.PositionsAre | racket/src/racket/gc/mark.c:640-869 | which words an entry stands for: those wholly inside a range, those whose bit is set, those at the offsets of a procedure |
| MarkModel.MarkOne | racket/src/racket/gc/include/private/gc_pmark.h:155-166 | marking an object and making its words pending keeps "every pointer of a marked object, and of static data already seen, is pending or leads to a marked object", and keeps the marks exact |
| MarkModel.Advance | racket/src/racket/gc/mark.c:1818-1829 | a heap scan may move past blocks once the marked objects of the one pushed are pending and the others have nothing to push |
| MarkModel.ClosedMarks | racket/src/racket/gc/mark.c:304-425 | marks that contain the seeds, with nothing pending and only reachable objects marked, are exactly what the seeds reach |
| MarkModel.MarksAreReachable | racket/src/racket/gc/mark.c:304-425 | the same when the seeds are kept objects and the targets of the roots |
| MarkModel.BarrierFromWrites | racket/src/racket/gc/mark.c:1799-1812 | what the barrier owes a collection it still owes after any writes that set dirty bits: every pointer from a marked to an unmarked object lies in a written block, in written static data or on a stack |
| MarkModel.WritesKeep | racket/src/racket/gc/alloc.c:424-452 | whatever state a collection is in, writes that set dirty bits keep its invariant, which leaves out the objects and static data written to |
| MarkModel.StoreWrites | racket/src/racket/gc/os_dep.c:2703-2707 | a store that marks its block dirty is such a write |
| MarkModel.WritesTrans | racket/src/racket/gc/alloc.c:424-452 | and so is one such write after another |
| MarkModel.BarrierRead | racket/src/racket/gc/os_dep.c:2673-2678 | once dirty bits are read, what the barrier has kept is the invariant with which the scan of dirty blocks starts |
| MarkModel.BarrierAllowsUnmarked | racket/src/racket/gc/mark.c:1799-1812 | a concrete heap: the barrier condition admits a marked object in a dirty block that points to an unmarked one |
| Marker.Marker.constructor | racket/src/racket/gc/mark.c:1236-1239 | the state after initialisation: nothing marked, an empty stack of the initial size |
| Marker.Marker.PushObj | racket/src/racket/gc/include/private/gc_pmark.h:137-149 | a push on a full stack discards exactly the topmost entries, pushes, and invalidates the mark state; otherwise it only pushes |
| Marker.Marker.SignalOverflow | racket/src/racket/gc/mark.c:578-587 | state invalid, stack too small, top lowered by the number of discards |
| Marker.Marker.PushContents | racket/src/racket/gc/include/private/gc_pmark.h:155-166 | marks exactly the object pointed into, pushes its entry unless it is empty, discards and invalidates only if the stack is full, and keeps the marking invariant; an already marked target changes nothing |
| Marker.Marker.ScanRange | racket/src/racket/gc/mark.c:796-866 | the loop with the deferred word considers each plausible word of the range once and keeps the invariant; seen is the ascending list of the plausible ones |
| Marker.Marker.ScanBits | racket/src/racket/gc/mark.c:702-732 | the bitmap loop considers the words whose bit is set and keeps the invariant |
| Marker.Marker.ScanProc | racket/src/racket/gc/mark.c:733-748 | a mark procedure considers all the words it is meant to mark from and keeps the invariant |
| Marker.Marker.MarkEntry | racket/src/racket/gc/mark.c:640-869 | one entry, whatever its descriptor, is taken or shortened, at the cost that the code charges: the invariant holds and either something has been marked or the bytes on the stack have decreased; the state is lost only if what was pushed did not fit |
| Marker.Marker.MarkFrom | racket/src/racket/gc/mark.c:618-872 | as MarkEntry for the whole loop, which goes on until the stack is empty or the cost exceeds a heap block |
| Marker.Marker.PushMarked | racket/src/racket/gc/mark.c:1747-1795 | exactly the marked objects of the block are pushed, in order, and become covered, whatever was on the stack |
| Marker.Marker.PushNextMarked | racket/src/racket/gc/mark.c:1818-1829 | the rescan moves on, or with 0 has shown that the invariant holds for the whole heap |
| Marker.Marker.PushNextMarkedDirty | racket/src/racket/gc/mark.c:1833-1860 | the same for the scan of dirty blocks |
| Marker.Marker.PushNextMarkedUncollectable | racket/src/racket/gc/mark.c:1865-1881 | the same for the scan of uncollectable blocks |
| Marker.Marker.PushRange | racket/src/racket/gc/mark.c:1248-1266 | a range of static data becomes one stack entry; its words become pending, nothing is marked |
| Marker.Marker.PushRoots | racket/src/racket/gc/mark_rts.c:564-632 | all static data, or what is dirty, is pushed, and all thread stack words have marked targets afterwards; the state is lost only if something has been marked that did not fit |
| Marker.Marker.AllocMarkStack | racket/src/racket/gc/mark.c:1181-1234 | the stack gets the new capacity or, without memory, keeps the old one |
| Marker.Marker.MarkSome | racket/src/racket/gc/mark.c:304-425 | every call keeps the invariant of the state it ends in; TRUE only in MS_NONE; every other call makes (unmarked objects, phase, blocks left, bytes on the stack) smaller; the state is lost only if roots and newly marked objects did not fit on the stack, which then grows once it is empty |
| Marker.Marker.InvalidateMarkState | racket/src/racket/gc/mark.c:572-576 | invalid state, empty stack |
| Marker.Marker.ClearMarks | racket/src/racket/gc/mark.c:244-250 | an object stays marked if and only if it was and its block is of the kind Uncollectable or AUncollectable; the state is a valid start of a full mark |
| Marker.Marker.ReadDirty | racket/src/racket/gc/os_dep.c:2673-2678 | what has been written is dirty and nothing has been written since |
| Marker.Marker.InitiateGc | racket/src/racket/gc/mark.c:255-276 | a full mark stays invalid; an incremental one starts on a heap that has changed, with the marks of the earlier cycle kept and every pointer from a marked to an unmarked object still to be considered |
| Marker.Marker.MarkUntil | racket/src/racket/gc/alloc.c:516-528 | the marking loop ends unless the stop function, asked before each step, says so; at its end exactly the objects reachable from roots and kept objects are marked |
| Marker.Marker.StoppedMark | racket/src/racket/gc/alloc.c:481-556 | a world-stopped mark, from the barrier condition or from cleared marks: if it is not abandoned exactly what roots and earlier marks reach is marked; abandoned, it leaves a state that marking can go on from |
| Marker.Marker.FullMark | racket/src/racket/gc/alloc.c:481-528 | from any state, clearing the marks and marking to the end marks exactly what roots and uncollectable objects reach, however often the stack overflowed; marked objects of both uncollectable kinds stay marked |
| Marker.Marker.IncrementalFinish | racket/src/racket/gc/alloc.c:481-528 | if dirty blocks, dirty static data and stacks hold every pointer from a marked to an unmarked object, the finish marks exactly what roots and earlier marks reach and keeps the earlier marks |
| Marker.Marker.Mutate | racket/src/racket/gc/alloc.c:424-452 | in every state of a collection the program may run and write, and the invariant still holds |
| Marker.Marker.NextCycle | racket/src/racket/gc/alloc.c:481-528 | after a collection the program may change the heap in any way the barrier sees, and the next incremental finish is exact for the changed heap |
| Marker.Marker.CollectALittle | racket/src/racket/gc/alloc.c:423-453 | for every program whose writes set dirty bits, running before each call of GC_mark_some and before the finish: marks only grow, as many calls are made as the budget says unless a finish is due, and after a finish exactly what roots and the marks made so far reach is marked |
| ParallelMark.StepKeepsMarks | racket/src/racket/gc/mark.c:893-999 | no step of any thread loses an entry while the marks are valid; marks only grow and stay reachable |
| ParallelMark.StealKeepsMarks | racket/src/racket/gc/mark.c:893-922 | a steal, in its two unsynchronised halves, may duplicate an entry but never loses one |
| ParallelMark.GiveBackKeepsMarks | racket/src/racket/gc/mark.c:926-954 | returning local entries to the global stack loses none, or invalidates the marks |
| ParallelMark.HalvesCover | racket/src/racket/gc/mark.c:665-686 | the two halves made of a big range for sharing cover all its locations |
| ParallelMark.StepCounts | racket/src/racket/gc/mark.c:1012-1109 | the active and helper counters equal the number of threads in the corresponding parts of the code after every step |
| ParallelMark.StepFirst | racket/src/racket/gc/mark.c:1030-1046 | all slots below GC_first_nonempty are empty after every step, the compare-and-swap included |
| ParallelMark.DrainedIsQuiet | racket/src/racket/gc/mark.c:1053-1095 | no active thread and an exhausted stack imply that no thread and no slot holds an entry |
| ParallelMark.QuietStays | racket/src/racket/gc/mark.c:1053-1095 | once there is no work left no step but a new start makes any |
| ParallelMark.StepKeepsStructure | racket/src/racket/gc/mark.c:1012-1175 | every step of every thread keeps the protocol invariant |
| ParallelMark.StepValid | racket/src/racket/gc/include/private/gc_pmark.h:137-149 | a step makes valid marks invalid if and only if it pushes a non-empty entry onto a full local stack or returns more entries than the global stack has room for, and none makes them valid again |
| ParallelMark.ValidIff | racket/src/racket/gc/mark.c:926-954 | at the end of every run the marks are valid if and only if no step has been such an overflow |
| ParallelMark.RunSafety | racket/src/racket/gc/mark.c:893-1175 | in every interleaving: a thread that holds work is counted active, slots below GC_first_nonempty are empty, and unless a stack has overflowed no entry is lost |
| ParallelMark.ReturnIsSafe | racket/src/racket/gc/mark.c:1115-1148 | when GC_do_parallel_mark returns no entry is left anywhere, no helper is at work or wanted and, if no stack overflowed, no pointer is left to follow: the marks are exactly the reachable objects |
| ParallelMark.NeverStuck | racket/src/racket/gc/mark.c:1012-1148 | in every reachable state before the initiator has returned some thread can take a step other than waiting |
| ParallelMark.StealStarts | racket/src/racket/gc/mark.c:1050-1105 | a thread goes stealing only if there is a slot to look at; it may take one entry if fewer than ten slots are left, and five otherwise |
| ParallelMark.StealAdvances | racket/src/racket/gc/mark.c:893-922 | after a steal the thread looks further up, and it has taken no more than it may and one |
| ParallelMark.StealUsesUp | racket/src/racket/gc/mark.c:893-922 | each step of a steal brings it closer to its end |
| ParallelMark.LookUsesUp | racket/src/racket/gc/mark.c:618-872 | each word looked at, and each mark set, uses up the entry in hand |
| ParallelMark.TakeUsesUp | racket/src/racket/gc/mark.c:640-869 | taking an entry leaves less work on the local stack |
| ParallelMark.StepsHaveReasons | racket/src/racket/gc/mark.c:956-1148 | threads leave, go on, return entries, share ranges, help and finish only for the reasons the code gives |
| ParallelMark.HelpersComeAndGo | racket/src/racket/gc/mark.c:1152-1175 | every other thread can help when it is asked and there is room, and can go once it has left |
| ParallelMark.PhaseNumber | racket/src/racket/gc/mark.c:1115-1148 | the phase number goes up by one when the phase is finished, and not before |
| ParallelCycle.ParallelDrain | racket/src/racket/gc/mark.c:360-378 | a phase of the parallel marker takes the place of draining the stack: it completes the marks if and only if no step of it overflowed, and otherwise leaves the invalid state from which the heap is scanned again |
| ParallelCycle.SameAsSequential | racket/src/racket/gc/mark.c:687-700 | a thread takes its top entry as the sequential marker does, splitting it at the same place |
| ParallelCycle.ParallelMarkSome | racket/src/racket/gc/mark.c:304-425 | GC_mark_some with parallel phases keeps the invariant of the state it ends in, whatever courses they take; a phase that ends is in vain only if a stack overflowed, and every other step is one of the sequential machine |
| ParallelCycle.ParallelMarking | racket/src/racket/gc/alloc.c:516-528 | a loop of such calls that ends has marked exactly the reachable objects, however many phases overflowed; it goes on for the rounds it is given unless it ends or a phase does not |
| FullCollection.SameReach | racket/src/racket/gc/finalize.c:588-714 | the reachability of marking and that of finalization are the same relation, but for the starting objects |
| FullCollection.MarkedIsClosed | racket/src/racket/gc/alloc.c:637-680 | the marks with which marking ends are closed, as finalization demands |
| FullCollection.KeptByFinalization | racket/src/racket/gc/finalize.c:588-714 | for levels 0 to 2, what is marked after finalization is exactly what roots or registered objects reach |
| FullCollection.FinalizeMarked | racket/src/racket/gc/alloc.c:637-680 | finalization of the marks of a complete mark phase: with levels 0 to 2 they stay a valid end of a mark phase, from which an incremental collection can start |
| FullCollection.Collect | racket/src/racket/gc/alloc.c:481-680 | a full mark followed by finalization on the same mark bits: the marks before, the queue, and exactly what is kept; with levels 0 to 2 the marker is ready for the next, incremental collection |
| HeapLayout.FlIndexOrder | racket/src/racket/gc/allchblk.c:86-93 | bigger blocks never sit on earlier lists, and the first lists hold one size each |
| HeapLayout.FlIndexGroups | racket/src/racket/gc/allchblk.c:86-93 | sizes up to 32 heap blocks have a list each, then eight share one, and all from 256 on share the last |
| HeapLayout.FreeOk | racket/src/racket/gc/allchblk.c:828-889 | freeing a block and joining it with both neighbours keeps the tiling, leaves no adjacent free blocks and moves exactly its heap blocks to the free region |
| HeapLayout.AllocOk | racket/src/racket/gc/allchblk.c:490-515 | carving a place out of a free block keeps the tiling, leaves no adjacent free blocks and moves exactly the wanted heap blocks to the used region |
| HeapLayout.ChoppedRegion | racket/src/racket/gc/allchblk.c:745-762 | cutting a free block up into used blocks of one heap block each moves exactly its heap blocks to the used region |
| FreeLists.UnlinkLinked | racket/src/racket/gc/allchblk.c:303-324 | the doubly linked list with one block taken out of it, wherever it was |
| FreeLists.PushLinked | racket/src/racket/gc/allchblk.c:378-385 | the list with a block pushed in front |
| FreeLists.ReplaceLinked | racket/src/racket/gc/allchblk.c:529-563 | the list with a block replaced by another one in its place |
| HblkAllocator.Allocator.constructor | racket/src/racket/gc/allchblk.c:86-93 | the empty heap meets the allocator invariant |
| HblkAllocator.Allocator.RemoveFromFl | racket/src/racket/gc/allchblk.c:289-325 | list n loses exactly that block and its bytes; all lists stay linked and every other block is on the list for its size |
| HblkAllocator.Allocator.AddToFl | racket/src/racket/gc/allchblk.c:361-388 | the block is in front of the list for its size and marked free; the counters grow by its bytes |
| HblkAllocator.Allocator.SplitBlock | racket/src/racket/gc/allchblk.c:529-563 | the block is cut in two; the second part has its place in the list that was searched, the first is on its own list; free bytes unchanged |
| HblkAllocator.Allocator.GetFirstPart | racket/src/racket/gc/allchblk.c:490-515 | all but the first part goes back to the free lists; the bytes taken are exactly the wanted ones |
| HblkAllocator.Allocator.Freehblk | racket/src/racket/gc/allchblk.c:828-889 | keeps the whole invariant (tiling, lists, counters, no adjacent free blocks, free plus used equals heap size, an index that agrees); frees exactly the block; other used blocks untouched; refuses a block that is free already |
| HblkAllocator.Allocator.FreeJoined | racket/src/racket/gc/allchblk.c:843-888 | the new layout is the old one with the block freed and joined with its free neighbours |
| HblkAllocator.Allocator.AddToHeap | racket/src/racket/gc/alloc.c:823-870 | the usable heap blocks of the section, and no others, become free; the invariant with index, heap size and plausible bounds is kept; a full section table changes nothing |
| HblkAllocator.Allocator.SearchPlace | racket/src/racket/gc/allchblk.c:688-694 | the first place in the block that is not black listed over the length that counts; all starts before it are |
| HblkAllocator.Allocator.CarveAt | racket/src/racket/gc/allchblk.c:772-818 | the new layout is the old one with the place taken out of the block, and its remainders freed |
| HblkAllocator.Allocator.DropBlock | racket/src/racket/gc/allchblk.c:734-769 | a wholly black-listed block becomes used, heap block by heap block, in the index as well; the dropped bytes are counted; nothing else changes |
| HblkAllocator.Allocator.TryBlock | racket/src/racket/gc/allchblk.c:677-782 | the first place that will do is taken; a black-listed one is taken only if the request is exempt by its kind, or if request and remainder are beyond BL_LIMIT and all places are listed; otherwise every place in the block is black listed, that counts for the request and the code does not punt; each fourth single-block failure drops the block |
| HblkAllocator.Allocator.Skips | racket/src/racket/gc/allchblk.c:655-676 | a block is skipped exactly if it does not suit or the next one is smaller, big enough and not black listed |
| HblkAllocator.Allocator.AllochblkNth | racket/src/racket/gc/allchblk.c:640-818 | a result that is black listed over its effective length, though that counts, is a free block on which the code punts; only free heap blocks are taken; 0 only if all blocks left on the list are hopeless; with empty black lists the first block that is tried |
| HblkAllocator.Allocator.EnoughLargeBytesLeft | racket/src/racket/gc/allchblk.c:61-73 | the highest list from which on enough large bytes are free |
| HblkAllocator.Allocator.SplitLimit | racket/src/racket/gc/allchblk.c:598-627 | the one split limit the policy inputs call for |
| HblkAllocator.OneLimit | racket/src/racket/gc/allchblk.c:598-627 | these inputs allow no other limit |
| HblkAllocator.RoundingExact | racket/src/racket/gc/include/private/gc_priv.h:796 | the number of heap blocks computed for a size is right if and only if adding a block less one does not wrap around; otherwise it is 0 |
| HblkAllocator.Allocator.Allochblk | racket/src/racket/gc/allchblk.c:579-632 | invariant, index and conservation kept; a black-listed result only for exempt kinds, or where the code punts; with empty black lists it succeeds if and only if an acceptable block exists, and which one it takes; with use of the entire heap allowed it fails only if every place with enough free heap blocks is black listed; told on the tables: where pointers to it matter, no heap block of the result that counts is black listed, unless request and rest exceed BL_LIMIT |
| HblkAllocator.RoomIsAcceptable | racket/src/racket/gc/allchblk.c:579-632 | with no split limit an acceptable block exists if and only if somewhere enough consecutive heap blocks are free |
| BlackList.BlackLists.constructor | racket/src/racket/gc/blacklst.c:80-103 | four clear, distinct tables |
| BlackList.BlackLists.IsBlackListed | racket/src/racket/gc/blacklst.c:221-250 | the scan that skips clear words answers what a scan of one block at a time would, also where the table wraps around |
| BlackList.NextPlausibleMeaning | racket/src/racket/gc/blacklst.c:221-250 | 0 exactly if nothing in the length is listed; otherwise every start from h up to the answer is listed for that length |
| HblkAllocator.NothingListedIff | racket/src/racket/gc/allchblk.c:666-732 | nothing is black listed if and only if no bit of the tables that are in use is set |
| BlackList.BlackLists.Clear | racket/src/racket/gc/blacklst.c:105-108 | a clear table |
| BlackList.BlackLists.AddNormal | racket/src/racket/gc/blacklst.c:164-188 | a false pointer lists exactly the blocks that share the entry of the one it points to, if that has no header; with a header it renews an old entry; nothing else changes |
| BlackList.BlackLists.AddStack | racket/src/racket/gc/blacklst.c:191-212 | the same for pointers from stacks |
| BlackList.BitSet | racket/src/racket/gc/include/private/gc_priv.h:642-645 | a set bit reads as set, and the other bits of the word as before |
| BlackList.BlackLists.Promote | racket/src/racket/gc/blacklst.c:119-130 | the incomplete tables become the old ones and start clear, the normal one only if it is in use; what was old is forgotten |
| AddressIndex.OneDescription | racket/src/racket/gc/include/private/gc_hdrs.h:120-130 | a tiling of blocks allows only one entry for each heap block |
| AddressIndex.Index.constructor | racket/src/racket/gc/headers.c:189-199 | the empty index agrees with the empty heap |
| AddressIndex.Index.GetIndex | racket/src/racket/gc/headers.c:202-248 | the new bottom index is linked in at its place in both directions; no entry changes |
| AddressIndex.Index.InstallHeader | racket/src/racket/gc/headers.c:253-264 | one entry becomes a header, all others stay |
| AddressIndex.Index.InstallCounts | racket/src/racket/gc/headers.c:267-281 | the inner heap blocks, and only they, get their saturating counts |
| AddressIndex.Index.RemoveHeader | racket/src/racket/gc/headers.c:284-291 | one entry becomes nil, all others stay |
| AddressIndex.Index.RemoveCounts | racket/src/racket/gc/headers.c:294-301 | the inner heap blocks, and only they, become nil |
| AddressIndex.Index.ApplyToAllBlocks | racket/src/racket/gc/headers.c:305-329 | every used block is visited, exactly once, and nothing else is |
| AddressIndex.Index.NextUsedBlock | racket/src/racket/gc/headers.c:333-364 | the least used block at or after h, or 0 if there is none |
| AddressIndex.Index.PrevBlock | racket/src/racket/gc/headers.c:369-398 | the greatest block, free or used, at or before h, or 0 if there is none |
| AddressIndex.Index.BlockStart | racket/src/racket/gc/allchblk.c:330-340 | following the counts from any inner heap block leads to the start of its block |
| AddressIndex.Index.FreeBlockEndingAt | racket/src/racket/gc/allchblk.c:330-355 | the free block that ends at h if there is one, otherwise 0 |
| AddressIndex.Index.Base | racket/src/racket/gc/misc.c:332-369 | the start of the object that contains the byte, or 0 if no object does |
| AddressIndex.Index.RecordAllocation | racket/src/racket/gc/allchblk.c:695-808 | the index operations of an allocation keep the index in agreement with the layout |
| AddressIndex.Index.RecordFree | racket/src/racket/gc/allchblk.c:828-889 | those of freeing and coalescing do as well |
| AddressIndex.Index.RecordSection | racket/src/racket/gc/alloc.c:823-855 | so do those of adding a section |
| AddressIndex.Index.RecordDrop | racket/src/racket/gc/allchblk.c:750-762 | so do those of dropping a black-listed block |
| ChainedTable.Grow | racket/src/racket/gc/finalize.c:100-134 | rehashing into twice the chains keeps the contents, each item on the chain for its key |
| ChainedTable.Find | racket/src/racket/gc/finalize.c:186-196 | found exactly if the key is registered |
| Finalize.Finalizer.constructor | racket/src/racket/gc/finalize.c:38-60 | empty tables, empty queue |
| Finalize.Finalizer.MarkFrom | racket/src/racket/gc/finalize.c:260-266 | the normal mark procedure and an emptied stack: the targets, and what they reach, are marked; nothing else is |
| Finalize.Finalizer.FinalizeEagers | racket/src/racket/gc/finalize.c:499-571 | exactly the unmarked objects of the level are queued, once each, and their closure marked, in whatever order the chains hold them |
| Finalize.Finalizer.MarkNonEager | racket/src/racket/gc/finalize.c:645-683 | the marks grow by exactly what the unmarked non-eager objects reach in one or more steps |
| Finalize.Finalizer.TakeUnmarked | racket/src/racket/gc/finalize.c:684-714 | exactly the unmarked registrations leave the table and are queued, once each |
| Finalize.Finalizer.ClearLinks | racket/src/racket/gc/finalize.c:606-635 | links of one kind to unmarked objects, and only they, are zeroed and forgotten |
| Finalize.Finalizer.DropDangling | racket/src/racket/gc/finalize.c:716-738 | links whose holder is an unmarked heap object are forgotten, not zeroed |
| Finalize.Finalizer.Finalize | racket/src/racket/gc/finalize.c:588-773 | the whole new state as functions of the sets of registrations: marks, queue, both tables with their counters, and the words zeroed; link by link: a normal one is zeroed if and only if its object was unmarked before, a late one if and only if its object is unmarked afterwards and its holder alive, and one that is not zeroed stays if and only if its holder is alive |
| Finalize.QueueExact | racket/src/racket/gc/finalize.c:645-714 | a non-eager object is queued if and only if it is unmarked after the eager phases and no unmarked non-eager object, itself included, reaches it in one or more steps |
| Finalize.EagersQueued | racket/src/racket/gc/finalize.c:499-571 | level 1: queued if and only if unmarked; level 2: if and only if unmarked and beyond the reach of the unmarked objects of level 1 |
| Finalize.FinalMarksAre | racket/src/racket/gc/finalize.c:588-714 | all phases together mark exactly the registered objects and what the unmarked ones at levels 0 to 2 reach |
| Finalize.QueueReachesMarked | racket/src/racket/gc/finalize.c:588-714 | for levels 0 to 2 everything reachable from a queued object is marked afterwards, whether this collection or an earlier one has queued it |
| Finalize.ClosedIff | racket/src/racket/gc/finalize.c:645-714 | for arbitrary levels the marks are closed if and only if the unmarked objects above level 2 that lower levels do not reach point only to marked or registered objects, or what lower levels reach, all told before the collection |
| Finalize.LevelThreeLeavesGap | racket/src/racket/gc/finalize.c:645-714 | a concrete heap where an object of level 3 is queued although what it points to stays unmarked |
| Finalize.LinksLeftAlive | racket/src/racket/gc/finalize.c:606-768 | every link left has a marked object, and a holder that is marked or outside the heap |
| Finalize.Finalizer.RegisterLink | racket/src/racket/gc/finalize.c:162-222 | each outcome exactly: refused if misaligned, no table or no entry for want of memory, updated if registered already, created otherwise; the counter equals the size across growth |
| Finalize.Finalizer.UnregisterLink | racket/src/racket/gc/finalize.c:224-256 | removed exactly if registered, and then exactly that entry is gone; a fault exactly if aligned and there is no table yet |
| Finalize.Finalizer.RegisterFinalizer | racket/src/racket/gc/finalize.c:313-459 | the registration replaces the old one, is removed, is added, or is lost for want of memory; the old function and data are returned; a removal also withdraws a queued finalizer |
| Finalize.Finalizer.InvokeFinalizers | racket/src/racket/gc/finalize.c:850-901 | everything queued is called once, what the calls lead to included, in order; while calls are being made another invocation does nothing |
| OrigPlaceQueue.PushLinked | racket/src/foreign/foreign.c:3281-3291 | the queue with a request pushed in front is a well-formed doubly linked list |
| OrigPlaceQueue.PopLinked | racket/src/foreign/foreign.c:3757-3768 | so is the queue without its last request |
| OrigPlaceQueue.WithdrawLinked | racket/src/foreign/foreign.c:3314-3323 | so is the queue with any request withdrawn, and all others keep their order |
| OrigPlaceQueue.StepKeeps | racket/src/foreign/foreign.c:3239-3344 | every step of every caller and of the original place keeps the invariant |
| OrigPlaceQueue.RunSafety | racket/src/foreign/foreign.c:3239-3344 | in every interleaving the queue is well formed, no call is executed twice, a call that has returned has been executed, and a queued or served request is allocated, not cached and owned by a waiting caller |
| OrigPlaceQueue.NothingLeaks | racket/src/foreign/foreign.c:3249-3310 | in every interleaving each allocated request belongs to a call under way or is cached for the next one of its place |
| OrigPlaceQueue.ReleaseCaches | racket/src/foreign/foreign.c:3304-3310 | a place that has made a call has a request for its next one |
| OrigPlaceQueue.NeverStuck | racket/src/foreign/foreign.c:3752-3782 | no step ever finds a request missing or a link broken |
| CommandLine.BodyFits | racket/src/racket/dynsrc/start.c:120-139 | the bound computed for the quoted text is never exceeded |
| CommandLine.SpacesAre | racket/src/racket/dynsrc/start.c:165-214 | white space is blank, tab, line feed, vertical tab, form feed and carriage return |
| CommandLine.CountQuotes | racket/src/racket/dynsrc/start.c:120-132 | the bound, and whether the argument needs quotes |
| CommandLine.Protect | racket/src/racket/dynsrc/start.c:115-163 | the quoted argument, for every input; each write is inside the buffer |
| CommandLine.MakeCommandLine | racket/src/racket/dynsrc/start.c:216-235 | the joined line with its terminator, inside the buffer; the terminator is written past the end exactly if there are no arguments |
| CommandLine.ScanWord | racket/src/racket/dynsrc/start.c:175-199 | one argument is read in place; the write cursor never passes the read cursor and unread text is intact |
| CommandLine.ParseCommandLine | racket/src/racket/dynsrc/start.c:165-214 | for every text the words but the first skip ones, as many as there is room for, stand zero-terminated in the buffer at the places entered into command |
| CommandLine.RoundTrip | racket/src/racket/dynsrc/start.c:115-235 | parsing the printed line gives the arguments back if and only if none is empty and none of those that need quotes ends in a backslash |
| StopWorld.World.SuspendThreadList | racket/src/racket/gc/darwin_stop_world.c:361-440 | no thread of the list runs afterwards but the exempt ones, each suspension is recorded, and the result tells whether the list has a thread the old one lacks |
| StopWorld.World.StopWorld | racket/src/racket/gc/darwin_stop_world.c:479-503 | the loop ends, and then every live thread but the caller and the handler is suspended, with threads created meanwhile, and those two have not been touched; all suspensions made are recorded, and every other count is as the program has made it |
| StopWorld.World.StartWorld | racket/src/racket/gc/darwin_stop_world.c:530-593 | every surviving thread has the suspend count that the program alone would have given it, with foreign suspensions and resumptions before and meanwhile, and the one from before the stop if there were none; no kernel call on a live thread fails |
| StopWorld.AfterCall | racket/src/racket/gc/darwin_stop_world.c:479-503 | while the collector waits for the kernel nothing that it has recorded becomes wrong, and threads that cannot run stay so |
| StopWorld.FoundRunningIsLost | racket/src/racket/gc/darwin_stop_world.c:374-431 | suspending a thread that runs although it has been found before would break the record: nothing takes that suspension back |
| Exclusions.ExclusionTable.constructor | racket/src/racket/gc/mark_rts.c:385-398 | an empty table |
| Exclusions.ExclusionTable.NextExclusion | racket/src/racket/gc/mark_rts.c:400-417 | the first range that ends after the address, by binary search, if there is one |
| Exclusions.ExclusionTable.ExcludeStaticRoots | racket/src/racket/gc/mark_rts.c:419-450 | each outcome exactly: overlap or a full table, with the table as before; a full table whose shift writes past its end, with what the table then holds; or a table that stays sorted and disjoint and covers exactly the old addresses and the new range |
| Exclusions.MakesRoomIff | racket/src/racket/gc/mark_rts.c:419-450 | room is made in the middle, which overruns a full table, if and only if some range ends after the new one begins and all those begin after it ends |
| Exclusions.FullTableOverruns | racket/src/racket/gc/mark_rts.c:419-450 | a concrete full table and a range for which the shift writes past the end |
| Exclusions.ExclusionTable.PushWithExclusions | racket/src/racket/gc/mark_rts.c:453-467 | the pushed ranges are ordered, disjoint and cover exactly the range minus the exclusions |
| Exclusions.StaticRoots.AddRoots | racket/src/racket/gc/mark_rts.c:169-252 | the first set of the same kind that meets the range takes it in and absorbs later ones, or else a new set is added; the sets cover exactly the old addresses and the new ones; a full table changes nothing |
| Exclusions.AbsorbedGrows | racket/src/racket/gc/mark_rts.c:205-228 | merging leaves earlier sets alone, only widens the one that absorbs, and never adds a set |
| Exclusions.AddedTwice | racket/src/racket/gc/mark_rts.c:169-204 | a range added a second time is found where it was and widens nothing |
| HeapSections.SortHeapSects | racket/src/racket/gc/dyn_load.c:251-273 | a sorted permutation |
| HeapSections.SortedApart | racket/src/racket/gc/dyn_load.c:251-273 | sorting disjoint sections puts them in order without overlap and covers the same addresses |
| HeapSections.RegisterMapping | racket/src/racket/gc/dyn_load.c:328-355 | the ranges registered cover exactly the mapping minus the sections, no address twice |
| SizeMap.RoundedUpLeast | racket/src/racket/gc/include/private/gc_priv.h:583-584 | the least number of granules that holds a request and the extra bytes |
| SizeMap.FittedFits | racket/src/racket/gc/misc.c:193-199 | the final fitting keeps the number of objects per block, never shrinks an even size and yields an even size that is small |
| SizeMap.Map.constructor | racket/src/racket/gc/misc.c:143-155 | the prefilled range holds the rounded sizes; the rest is empty |
| SizeMap.Map.Extend | racket/src/racket/gc/misc.c:161-206 | the entries from the first unfilled one on, an eighth or a quarter below i, up to what the new size holds are set to it, and no other; the size is even, holds i, and fits a block as often as the even size chosen before the fitting, at least as often as one an eighth above the least; no hole is left just below i |
| FreeListBuild.BuildClear2 | racket/src/racket/gc/new_hblk.c:31-48 | the block as the general description has it for two words, cleared |
| FreeListBuild.BuildClear4 | racket/src/racket/gc/new_hblk.c:51-68 | the same for four words, cleared |
| FreeListBuild.Build2 | racket/src/racket/gc/new_hblk.c:71-84 | the same for two words, not cleared |
| FreeListBuild.Build4 | racket/src/racket/gc/new_hblk.c:87-101 | the same for four words, not cleared |
| FreeListBuild.BuildGeneral | racket/src/racket/gc/new_hblk.c:144-171 | the general loop meets that description for every size |
| FreeListBuild.BuildFl | racket/src/racket/gc/new_hblk.c:112-172 | whatever builder is chosen, memory and head are those of the description |
| FreeListBuild.OneResult | racket/src/racket/gc/new_hblk.c:112-172 | the description fixes every word, so the special builders leave what the general one would |
| FreeListBuild.ListVisitsAll | racket/src/racket/gc/new_hblk.c:112-172 | from the head the list visits every whole object once, in descending address order, then goes on to the old list |

## Left out

- Marker.Marker.MarkFrom: the mark stack is a sequence with a capacity instead of an array; mark procedures mark from a fixed list of words of their object and push nothing else.
- Marker.Marker.AllocMarkStack: giving the memory of the old stack back to the heap.
- Marker.Marker.PushRoots: static data comes in at most 2048 ranges that are wholly dirty or clean, so that there is always room to push them and the abort for want of room does not happen; thread stacks and registers are a list of words; free-list headers are left out.
- Marker.Marker.PushMarked: one loop over the marked objects of a block; the unrolled `GC_push_marked1`, `2` and `4` for small sizes are not modelled.
- Marker.Marker.Mutate: objects that are born marked (uncollectable ones allocated during a collection) and marks cleared by explicit deallocation; a word in an unwritten object that happened to hold the address of a new object would count as changed.
- Marker.Marker.CollectALittle: the deficit and the number of attempts, which only choose the budget and the stop function.
- ParallelCycle.ParallelMarking: that the loop ends; a phase can overflow without having marked anything, by returning stolen entries to a full stack.
- FullCollection.Collect: the sweep, and the free lists that are unmarked after finalization.
- ParallelMark: memory ordering weaker than sequential consistency; clocks and statistics.
- HblkAllocator.Allocator.AllocateAt: the index is brought up to date in one go with each operation, not header by header.
- HblkAllocator.Allocator.Freehblk: sizes never reach the sign bit, so blocks are always joined; unmapped blocks do not exist.
- HblkAllocator.Allocator.Allochblk: header allocation succeeds; sizes for which rounding up to blocks wraps around, and gives 0 blocks (`RoundingExact`), are excluded; `GC_should_collect` and incremental mode are an input.
- HblkAllocator.Allocator.DropBlock: clearing the block when debugging has started.
- BlackList.BlackLists.Promote: the tables only; spacing and statistics are left out.
- AddressIndex.Index: the top level is a finite map by the high-order part of the address; hash chains of bottom indices are not modelled, their list in address order is.
- Finalize.Finalizer.InvokeFinalizers: finalizers that withdraw others from the queue.
- Finalize.Finalizer.Finalize: the mark stack does not overflow, the hooks that push roots again and custom finalization do nothing, only the normal mark procedure is modelled (ignore-self, no-order and unreachable finalizers are not), table entries are not heap objects themselves, and pointers are not hidden.
- Finalize.Finalizer.RegisterLink: that another thread changes the table while the out-of-memory function runs.
- OrigPlaceQueue: the call into the library is one step; waiting, signals and pauses for a collection have no effect of their own, and liveness (that a caller is served at last) is not stated.
- CommandLine.ParseCommandLine: white space is that of the C locale, and characters from 128 on are no white space.
- StopWorld.World.StopWorld: kernel calls fail only for threads that have quit, `task_threads` does not fail, at most 256 threads ever exist, and only the thread itself ends a thread; what other threads do is a finite script. They resume only what the program has suspended and, while the world is being stopped, do not set a thread running that the collector has found suspended: it would be missed, or suspended and never resumed. The exception handler creates, suspends and resumes no threads.
- StopWorld.World.SuspendThreadList: the same assumptions about the other threads.
- StopWorld.World.StartWorld: the same assumptions about the kernel.
- Exclusions.ExclusionTable.ExcludeStaticRoots: the word that an overrun writes past the end of the table.
- Exclusions.StaticRoots.AddRoots: root sizes and the hash index.
- HeapSections.RegisterMapping: mappings are given; reading them, and skipping stacks, is left out.
- FreeListBuild.BuildFl: prefetches.
- The sweep phase, dirty-bit hardware, fault handlers, register and stack scanning, clocks and statistics.
- `dbg_mlc.c`, `checksums.c`, `gcj_mlc.c`, `backgraph.c` and the other loaders in `dyn_load.c`: debugging, wrappers or platform variants of what is modelled.
- The rest of `foreign.c`: calls into libffi and conversion tables.
