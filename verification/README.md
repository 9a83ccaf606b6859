# A verified model of the Eta runtime's collector core and demangler

The Eta runtime ships a conservative mark-sweep collector (`runtime/gc-7.6.4`) and a small filter
that turns symbol names back into source form (`runtime/demangle`). This project models their
hardest parts in Dafny and proves what each of them promises. `dafny verify dfyconfig.toml` checks
all of it.

## What is modelled

* **Marking** (`MarkHeap`, `MarkRun`, `Marker`, `DeepHeap`, `MarkLimits`): the heap as an object
  graph with roots, the bounded mark stack that drops entries when it is full, and the resumable
  state machine that recovers by rescanning the heap. A mark phase always ends; a completed one has
  marked exactly the live objects, for every graph and every number of overflows. Short of the
  caller's stop function giving up, the one way not to complete is that root ranges to be pushed do
  not fit on the stack.
* **Parallel marking** (`ParallelMark`, `ParallelLimits`, `ActiveCount`, `PhaseEnds`): markers that
  steal from a shared stack and share back, as a state machine over atomic steps. No interleaving
  loses work unless a stack is full, marks too much, or gets stuck, and every one can be continued
  to the end of the phase.
* **Stopping the world** (`StopWorld`, `StopProgress`): the signal and semaphore handshake, as a
  state machine over the steps of the collecting thread and of every handler. Stopped threads are
  held, and a stop can return exactly if no thread vanishes between its signal and its answer.
* **The block allocator** (`Lists`, `FreeList`, `Tiles`, `FreeBlocks`, `Pages`, `HeapLayout`,
  `BlackList`, `BlockSearch`, `ListSweep`, `Merging`, `Allocator`): headers, size-class free lists
  with links in both directions, byte counters, splitting, coalescing, black-list skipping,
  dropping, unmapping and merging, over whole runs; what a request is given, and that one which
  could be met is met.
* **The header index** (`HeaderIndex`, `IndexedHeap`): the two-level table that answers "which
  block owns this address", against the plain list of blocks, and kept in agreement with it by
  every change to the layout.
* **Finalization** (`HashChains`, `DisappearingLinks`, `EntryWords`, `KeptObjects`, `Finalizers`,
  `EntryHeap`, `FinalizerCases`): growing intrusive hash tables that stand for maps, the choice of
  objects that are ready, and the conservation of entries between table and queue in both modes.
  Table entries are objects of the heap themselves; the word that names an entry's object is hidden from the
  marker while the entry is in the table.
* **Smaller cores**: the exclusion table (`Exclusions`), the size map (`SizeMap`), small objects
  and their free-list builders (`SmallObjects`).
* **Symbol names** (`Mangling`, `MangledSymbols`, `CutSymbols`, `Demangle`, `SymbolFilter`): the
  encoding of types and signatures, the parsers that read it, the mangler of the compiler itself,
  and the filter that replaces symbols in lines of text.

Components that work step by step are classes and methods with loops; the specifications they are
proved against are functions and predicates on values, and the lemmas are about those. Mutable
links (the `hb_next` and `hb_prev` fields, chain links, object links) are maps from block, entry or
object numbers, with 0 for the null pointer. Answers of the operating system and of other
allocators (whether a larger table or stack can be had, which fresh block or entry is handed out,
whether the stop function gives up) are parameters or arbitrary choices.

## What the code does differently from its documentation

* `GC_finalize` is documented to select unmarked objects that no registered object leads to. When
  marking from a registered object overflows the mark stack, `GC_MARK_FO` sets the object's own
  mark bit (`runtime/gc-7.6.4/include/private/gc_pmark.h:422-430`), so it is not queued in this
  cycle. That takes at least as many reachable unmarked objects as the stack has entries
  (`Finalizers.SelectedIsReady`); `FinalizerCases.NotQueued` is such a heap. An object registered
  without an order is queued without what it leads to being marked, so the marks need not be closed
  afterwards: `Finalizers.ClosedExactly` and `FinalizerCases.LeavesOpen`.
* Objects registered to be finalized when unreachable are documented not to be finalized if they
  are reachable by other finalizable objects (`runtime/gc-7.6.4/finalize.c:625-629`). Under Java
  rules they can also be kept back without that: entries show their objects once they are queued
  (`runtime/gc-7.6.4/finalize.c:1020-1022`), so when marking from a queued object overflows the mark
  stack, the rescan marks every queued object through its own entry, and unreachable-kind entries go
  back to the table. `Finalizers.Finalization.MarkQueue` says exactly when, `Finalizers.JavaSmall`
  when not, and `FinalizerCases.RescanRevives` is such a heap.
* A root range that finds the mark stack full aborts the collector. `Marker.Marker.PushRoots` says
  when that happens, and `MarkLimits.CollectFirst` when a first collection does.
* The comment on `GC_active_count` (`runtime/gc-7.6.4/mark.c:913-916`) says that it stays zero once
  it has returned to zero; a helper that joins late can raise it again, exactly if there are at
  least three markers (`ActiveCount.RisesExactly`). No work is lost by that.
* Under Java rules the revive pass also takes back entries that were queued in earlier cycles and
  subtracts their sizes from `GC_bytes_finalized`, which counts only the current cycle and can
  therefore wrap around (`Finalizers.BytesWrap`). Reviving can also give an object a second table
  entry when it was registered again while the first entry was queued
  (`Finalizers.UniqueAfterJava`). `FinalizerCases.TwoEntries` shows both.
* The compiler's mangler copies record names as they are while the demangler expects doubled
  underscores, so types with an underscore in a record name are not read back
  (`Mangling.MangleExactly`, `MangledSymbols.MangledSignatureExactly`). Names may contain quotes,
  which the demangler does not accept: function symbols are then not demangled at all
  (`Mangling.SignatureExactly`), those of globals, vtables, sizes and initializers to something else
  or not at all (`Mangling.GlobalExactly`, `Mangling.SetupExactly`, `Mangling.QuotesMisread`).
* Copying a record name does not look for the end of the string. The model ends such a parse with
  the outcome `Overrun`; `Mangling.RecordOverrunExactly`, `Mangling.SymbolOverrun` and, for symbols
  that have been cut off, `CutSymbols.SymbolCutExactly` say when it happens, and
  `Mangling.OverrunSample` is a symbol for which it does.
* `GC_exclude_static_roots_inner` moves the table entries up before it checks that there is room
  for one more, so with a full table it can write one entry too far before it aborts.
  `Exclusions.ExclusionTable.Exclude` says exactly when, on a table with one slot more, and
  `Exclusions.FullTable` is such a table.

## Model

| member | source | states |
|---|---|---|
| MarkHeap.Heap.LiveSetClosed | runtime/gc-7.6.4/mark.c:308-427 | the objects live from roots and kept marks are closed under pointers and hold every root target |
| MarkHeap.Heap.LiveStaysInside | runtime/gc-7.6.4/mark.c:308-427 | every closed set that holds the roots' targets and the kept marks holds all live objects: liveness is the least such set |
| MarkHeap.Heap.DescendantsClosed | runtime/gc-7.6.4/finalize.c:973-992 | adding to a closed set everything an object leads to, with or without the object, leaves it closed |
| MarkHeap.Heap.DescendantsStayInside | runtime/gc-7.6.4/finalize.c:973-992 | a closed set in which the words of an object are done holds everything it leads to |
| Marker.MarkStack.Push | runtime/gc-7.6.4/mark.c:607-622 | a push on a full stack first discards the top entries; the new entry is always stacked |
| Marker.MarkStack.TakePart | runtime/gc-7.6.4/mark.c:658-720 | an entry that is too long is split: a leading part is handed out and the rest stays stacked, nothing in between is lost |
| Marker.TakePartFacts | runtime/gc-7.6.4/mark.c:658-720 | taking a part keeps every word either waiting or in hand, and counts each word once |
| Marker.MarkStack.Grow | runtime/gc-7.6.4/mark.c:1270-1311 | growing keeps the stack usable and at least as large |
| Marker.Marker.PushObj | runtime/gc-7.6.4/include/private/gc_pmark.h:123-135 | stacks the scanned part of an object; on overflow the mark state becomes invalid and entries may be lost |
| Marker.Marker.PushContents | runtime/gc-7.6.4/include/private/gc_pmark.h:233-330 | considers one word: what it designates ends up marked, and stacked if it was not marked before; marks and stack afterwards are determined |
| Marker.Marker.ScanRange | runtime/gc-7.6.4/mark.c:807-901 | considers each plausible word of the range exactly once, implausible ones never, in spite of backward skipping and the deferred candidate: the outcome is that of considering all words in ascending order |
| Marker.Marker.MarkFrom | runtime/gc-7.6.4/mark.c:639-905 | any number of entries is processed; without overflow no pending work is lost, with overflow something was newly marked; what running the stack empty leads to stays the same |
| MarkRun.RunPaid | runtime/gc-7.6.4/mark.c:607-622 | without overflow each stacked range is an old one or belongs to a newly marked object; an overflow needs more new marks than the stack has room for |
| MarkRun.ScanUpTail | runtime/gc-7.6.4/mark.c:807-860 | words at the far end that designate nothing make no difference, so skipping them backwards is sound |
| MarkRun.OverrunsNeed | runtime/gc-7.6.4/include/private/gc_pmark.h:422-430 | marking from one object overflows the stack only if at least as many objects get marked as it has entries |
| DeepHeap.DeepOverflows | runtime/gc-7.6.4/mark.c:607-622 | a chain of nodes with a leaf each, longer than the stack, does overflow it |
| Marker.Marker.PushMarked | runtime/gc-7.6.4/mark.c:1829-1877 | the marked objects of a block are stacked |
| Marker.Marker.PushAll | runtime/gc-7.6.4/mark.c:1325-1345 | a root range is stacked whole, or the collector aborts because the stack is full |
| Marker.Marker.MarkEagerly | runtime/gc-7.6.4/mark.c:1565-1587 | every plausible word of an eager root range is considered in turn |
| Marker.Marker.PushRoots | runtime/gc-7.6.4/mark_rts.c:785-853 | all root words are considered or stacked unless an overflow invalidates the marks; outcome, marks and stack are those of going through the ranges in order, so it aborts exactly when that finds the stack full; when the ranges to be pushed come first, that is if and only if they do not fit on the stack together |
| Marker.Marker.PushNextMarked | runtime/gc-7.6.4/mark.c:1937-1952 | the next used block's marked objects are stacked and the scan position moves behind it |
| Marker.Marker.PushNextMarkedUncollectable | runtime/gc-7.6.4/mark.c:2005-2034 | the same for the next uncollectable block |
| Marker.Marker.FindUncollectable | runtime/gc-7.6.4/mark.c:2005-2034 | the next used uncollectable block behind the scan position, or none |
| Marker.PhaseAdvance | runtime/gc-7.6.4/mark.c:308-427 | what each mark state promises about scanned blocks and roots survives further marking |
| Marker.ScanAdvance | runtime/gc-7.6.4/mark.c:405-421 | moving the scan position over a block extends what is scanned by exactly that block |
| Marker.ScanComplete | runtime/gc-7.6.4/mark.c:405-421 | when the scan has passed the last block everything marked is scanned or stacked |
| Marker.MarksClosed | runtime/gc-7.6.4/mark.c:390-404 | with an empty stack in the states RootsPushed and None the marks are closed and hold the roots' targets |
| Marker.Marker.MarkSome | runtime/gc-7.6.4/mark.c:308-427 | one step keeps the invariant of every mark state and decreases (unmarked objects, phase, blocks left, pending work) lexicographically; it finishes only with closed marks and an empty stack; the stack doubles exactly if it was found too small, is empty at the end or before a new search, and memory is available; it aborts only when the roots find the stack full, and never when the ranges to be pushed come first and fill at most three quarters of it |
| Marker.Marker.Collect | runtime/gc-7.6.4/alloc.c:624-720 | a mark phase always ends, whatever overflows happen; when completed, exactly the live objects are marked and every word stacked was considered or discarded by an overflow; it completes when the ranges to be pushed come first and fill at most three quarters of the stack; when no marks are kept, it completes only if the roots fit on the unused stack, and fails only if they do not, for ranges to be pushed that come first; it never fails unless the roots find the stack full |
| MarkLimits.CollectFirst | runtime/gc-7.6.4/mark.c:1325-1345 | a first collection of any heap whose ranges to be pushed come first completes if and only if these are at most as many as a new stack has entries |
| Marker.FullFirst | runtime/gc-7.6.4/mark_rts.c:785-853 | going through root ranges of which those to be pushed come first finds the stack full if and only if they exceed the room left |
| MarkLimits.ManyPushed | runtime/gc-7.6.4/mark_rts.c:785-853 | there are such root lists of any length |
| Marker.Marker.ClearMarks | runtime/gc-7.6.4/mark.c:237-249 | starts a collection: only marks in uncollectable blocks are kept, the state is invalid, and the live objects are what those marks and the roots lead to |
| Marker.StartFacts | runtime/gc-7.6.4/mark.c:237-249 | clearing marks leaves marks only in uncollectable blocks, from which the phase may start |
| Marker.Marker.MarkDescendants | runtime/gc-7.6.4/include/private/gc_pmark.h:422-430 | when the marks are closed: marks exactly what the object leads to through one or more pointers, and the object itself exactly if marking overran the stack, for which at least as many unmarked objects must be reachable as the stack has entries; aborts only after that and only if the roots to be pushed do not fit |
| Marker.Marker.MarkFo | runtime/gc-7.6.4/include/private/gc_pmark.h:422-430 | the same for any marks: without overflow exactly what is reached without passing through marked objects is added, after one everything live from the marks, the object and the roots is marked; overflow has its exact condition |
| MarkHeap.Heap.OnwardStaysInside | runtime/gc-7.6.4/include/private/gc_pmark.h:422-430 | what is reached without passing through marked objects is the least set after which nothing remains to be done for the object and what is new |
| MarkHeap.Heap.OnwardFromClosed | runtime/gc-7.6.4/include/private/gc_pmark.h:422-430 | from closed marks that adds exactly all the object leads to |
| MarkRun.RunStaysInside | runtime/gc-7.6.4/mark.c:639-905 | running the stack empty marks nothing beyond any set that covers the stacked words and all new members |
| MarkRun.RunSame | runtime/gc-7.6.4/mark.c:639-905 | a run is the same on two heaps that differ only in words of objects marked before |
| ParallelMark.StepCompareFirst | runtime/gc-7.6.4/mark.c:1109-1118 | a marker raises its own or the global first index only past empty slots |
| ParallelMark.StepTakeLock | runtime/gc-7.6.4/mark.c:1122-1131 | going inactive under the lock keeps counts, lock and emptiness facts |
| ParallelMark.StepLeaveOrStay | runtime/gc-7.6.4/mark.c:1134-1164 | leaving or becoming active again keeps the invariant |
| ParallelMark.StepStealRead | runtime/gc-7.6.4/mark.c:956-991 | reading a slot keeps the invariant |
| ParallelMark.StepStealClear | runtime/gc-7.6.4/mark.c:956-991 | taking an entry moves its work from the slot to the local stack |
| ParallelMark.StepTakeEntry | runtime/gc-7.6.4/mark.c:658-720 | splitting a local entry keeps all its fields pending |
| ParallelMark.StepExamine | runtime/gc-7.6.4/mark.c:807-901 | passing a field whose target is marked loses nothing |
| ParallelMark.StepMarkAndPush | runtime/gc-7.6.4/include/private/gc_pmark.h:233-330 | marking a target keeps its fields pending unless the local stack overflows, which invalidates the phase |
| ParallelMark.StepQuietly | runtime/gc-7.6.4/mark.c:1025-1131 | reading the first index, ending a steal, emptying the local stack and deciding to share keep the invariant |
| ParallelMark.StepDoCopyBack | runtime/gc-7.6.4/mark.c:994-1021 | a copy-back keeps the invariant, by which no work is lost while the phase is valid |
| ParallelMark.InvStep | runtime/gc-7.6.4/mark.c:1084-1178 | every action of every marker keeps the whole invariant: emptied slots, counts, lock, each deposited entry still there or taken, and no lost work unless invalid |
| ParallelMark.RunInv | runtime/gc-7.6.4/mark.c:1184-1217 | the invariant holds in every state of every interleaving |
| ParallelMark.LeavesOnlyWhenQuiescent | runtime/gc-7.6.4/mark.c:1134-1158 | a marker leaves only when the global stack is empty and no marker is active or holds entries |
| ParallelMark.NoWorkLost | runtime/gc-7.6.4/mark.c:1184-1217 | when the initiator returns, all markers have left, every deposited entry was taken, and the marks are closed unless the phase was invalidated |
| ParallelMark.NoEntriesStable | runtime/gc-7.6.4/mark.c:1134-1158 | once no entry is left anywhere none appears again |
| ParallelLimits.CopyBackExactly | runtime/gc-7.6.4/mark.c:994-1021 | returned entries stand on the global stack behind what was there, in their order, exactly if there is room, and are gone with the phase invalid if not; with room no work is lost, whatever happened before |
| ParallelLimits.InvalidIff | runtime/gc-7.6.4/mark.c:1005-1018 | in every run the phase is invalid exactly if some step so far returned more entries than the global stack had room for or pushed an object with fields on a full local stack |
| ParallelLimits.MarksClosedAtEnd | runtime/gc-7.6.4/mark.c:1184-1217 | a finished phase in which no such step occurred has closed marks, without reservation |
| ParallelLimits.RunWithin | runtime/gc-7.6.4/mark.c:1084-1178 | marks never leave a closed set that holds the marks and the entries' targets at the start, in any interleaving and after any overflow, and none is taken back |
| ParallelLimits.MarksExactly | runtime/gc-7.6.4/mark.c:1184-1217 | a finished phase without discards has marked exactly what its first marks lead to: a closed set inside every other |
| ParallelLimits.RunFits | runtime/gc-7.6.4/mark.c:1025-1073 | a local stack never outgrows its array, a steal takes at most one entry more than it asks for, and a marker that shares gives some of its entries away and keeps some |
| ActiveCount.RisesExactly | runtime/gc-7.6.4/mark.c:907-916 | some run of a phase has the active count return to zero and rise again if and only if there are three markers or more, against the comment beside its declaration |
| ActiveCount.RiseNeedsThree | runtime/gc-7.6.4/mark.c:1134-1164 | with no active marker the count can only rise because a third marker joins late |
| ActiveCount.WatchedStep | runtime/gc-7.6.4/mark.c:1084-1131 | while slots remain behind the global first index an active marker is certain to look at them or to raise the index, in spite of failing compare-and-swaps |
| ActiveCount.NeverStuck | runtime/gc-7.6.4/mark.c:1084-1217 | a phase that is not over always has a marker that can take a step other than a vain wake-up |
| PhaseEnds.WorksAlone | runtime/gc-7.6.4/mark.c:1084-1178 | from every reachable state a marker whose knowledge is up to date, working alone, comes to wait for active ones or to leave: unmarked objects, stacked work, distance from the end of the stack and order of steps decrease |
| PhaseEnds.PhaseCanEnd | runtime/gc-7.6.4/mark.c:1184-1217 | every run of a phase can be continued to one in which the initiator returns, and then no work is lost |
| StopWorld.InvStep | runtime/gc-7.6.4/pthread_stop_world.c:242-339 | every action of the collecting thread and of every handler keeps the handshake's invariant |
| StopWorld.RunInv | runtime/gc-7.6.4/pthread_stop_world.c:618-683 | the invariant holds over every run, including back-to-back stops |
| StopWorld.WorldIsStopped | runtime/gc-7.6.4/pthread_stop_world.c:741-826 | when the stop returns, each live other thread has saved its stack pointer, acknowledged this stop exactly once and sits in its handler, and the semaphore is zero |
| StopWorld.HeldWhenStopped | runtime/gc-7.6.4/pthread_stop_world.c:300-339 | a stopped thread stays in its handler whatever stray signals arrive |
| StopWorld.NoDuplicateSignal | runtime/gc-7.6.4/pthread_stop_world.c:262-275 | the duplicate-signal exit of the handler is never taken in the mode without retries |
| StopWorld.NoLostWakeup | runtime/gc-7.6.4/pthread_stop_world.c:993-1053 | after a restart no thread is left waiting without a pending restart signal |
| StopWorld.SuspendsExactly | runtime/gc-7.6.4/pthread_stop_world.c:618-683 | a suspend signal becomes pending exactly when the loop comes to a live thread other than the collector's that has not answered yet, and is taken on entering the handler |
| StopWorld.RestartsExactly | runtime/gc-7.6.4/pthread_stop_world.c:993-1053 | a restart signal becomes pending exactly when the loop comes to a live thread other than the collector's, and is taken by waking up or outside the handler |
| StopWorld.RunSaved | runtime/gc-7.6.4/pthread_stop_world.c:242-339 | in every run a stored stack pointer counts for one stay in the handler only |
| StopWorld.AcksAreComing | runtime/gc-7.6.4/pthread_stop_world.c:790-805 | every acknowledgement still waited for has a thread on its way to give it |
| StopProgress.StopReturnsExactly | runtime/gc-7.6.4/pthread_stop_world.c:741-826 | at any point of any run a stop in progress can still return if and only if no thread vanished between its signal and its acknowledgement |
| StopProgress.Settle | runtime/gc-7.6.4/pthread_stop_world.c:618-683 | from every such point a finite continuation leads to the return of the same stop, each step decreasing a measure |
| StopProgress.MissingForever | runtime/gc-7.6.4/pthread_stop_world.c:655-670 | a thread that vanished after its signal keeps the collector waiting in every continuation |
| StopProgress.HandlerLeaves | runtime/gc-7.6.4/pthread_stop_world.c:300-339 | after the restart every thread still in its handler gets out of it by its own steps alone |
| BlackList.ZeroWordUnlisted | runtime/gc-7.6.4/blacklst.c:238-243 | in an all-zero table word none of the following entries is set, so skipping the word is sound |
| BlackList.IsBlackListed | runtime/gc-7.6.4/blacklst.c:229-258 | the result is non-null exactly if a block-by-block test finds the range listed, and every start up to the result is listed too |
| FreeList.Unlink | runtime/gc-7.6.4/allchblk.c:296-319 | relinking the neighbours takes exactly one element out of a doubly linked list |
| FreeList.LinkFront | runtime/gc-7.6.4/allchblk.c:370-384 | linking in front adds exactly one element |
| FreeList.Replace | runtime/gc-7.6.4/allchblk.c:539-562 | an element's place is taken over by another |
| FreeList.FlIndexMonotone | runtime/gc-7.6.4/allchblk.c:84-91 | longer blocks belong to the same or a later list, strictly later below the unique threshold |
| FreeList.FreeLists.RemoveAt | runtime/gc-7.6.4/allchblk.c:296-319 | one list loses one element and its length from the byte count; all other lists stay well linked |
| FreeList.FreeLists.AddFront | runtime/gc-7.6.4/allchblk.c:355-386 | one list gains one element in front; all other lists stay well linked |
| FreeList.FreeLists.ReplaceAt | runtime/gc-7.6.4/allchblk.c:539-562 | the split-off tail replaces the block on its list |
| FreeBlocks.TakeListed | runtime/gc-7.6.4/allchblk.c:296-324 | taking a block off its list keeps the agreement of headers, lists and byte counts for all others |
| FreeBlocks.GiveListed | runtime/gc-7.6.4/allchblk.c:355-386 | putting a block on the list for its length restores the agreement |
| FreeBlocks.PutListed | runtime/gc-7.6.4/allchblk.c:539-568 | replacing a block by its tail keeps byte counts equal to their lists |
| FreeBlocks.ListsHoldAllFree | runtime/gc-7.6.4/allchblk.c:102-119 | the lengths on all lists add up to the lengths of all free blocks |
| FreeBlocks.TotalIsListTotal | runtime/gc-7.6.4/allchblk.c:62-66 | the byte counts add up to the lengths on the lists |
| Tiles.Merge | runtime/gc-7.6.4/allchblk.c:868-888 | joining neighbours keeps the tiling and the covered memory |
| Tiles.Split | runtime/gc-7.6.4/allchblk.c:498-568 | splitting keeps the tiling and the covered memory |
| Tiles.Extend | runtime/gc-7.6.4/alloc.c:1132-1167 | adding fresh memory keeps the tiling and covers exactly the new blocks in addition |
| Tiles.UsedPlusFree | runtime/gc-7.6.4/checksums.c:158-172 | used and free extents together make up the heap |
| HeapLayout.NextJoined | runtime/gc-7.6.4/allchblk.c:864-871 | after the merge with the successor only the predecessor can still be a free neighbour |
| HeapLayout.PrevJoined | runtime/gc-7.6.4/allchblk.c:872-885 | after the merge with the predecessor no two neighbours are free, below the size limit |
| HeapLayout.CutLayout | runtime/gc-7.6.4/allchblk.c:498-568 | splitting and giving out the first part keeps the layout, creates no free neighbours, and moves exactly that part from free to used |
| HeapLayout.ChopKeeps | runtime/gc-7.6.4/allchblk.c:746-775 | dropping a block in single pieces keeps layout and sums |
| HeapLayout.MergedKeeps | runtime/gc-7.6.4/allchblk.c:433-481 | merging keeps the layout and changes the unmapped sum by exactly the two old and the one new extent |
| HeapLayout.StaysStuck | runtime/gc-7.6.4/allchblk.c:444-447 | a pair that was too large to merge stays too large when other blocks are merged |
| Pages.DownGreatest | runtime/gc-7.6.4/os_dep.c:2454-2457 | rounding down gives the greatest multiple of the page size |
| Pages.Whole | runtime/gc-7.6.4/os_dep.c:2444-2451 | when the start is not refused at least one whole page fits |
| Pages.ExtentOf | runtime/gc-7.6.4/os_dep.c:2471-2532 | unmapping and remapping move the counter by the page-aligned extent of the block |
| Pages.GapOf | runtime/gc-7.6.4/os_dep.c:2589-2639 | the gap completes the extents of two unmapped neighbours to the extent of their union, in all four cases of blocks too small to be unmapped |
| Allocator.Heap.FreeBlockEndingAt | runtime/gc-7.6.4/allchblk.c:326-351 | the free block ending at a block, or none |
| Allocator.Heap.FreeHblk | runtime/gc-7.6.4/allchblk.c:834-893 | the block leaves the used part, nothing else does, and the headers are exactly those of joining it with its mapped free neighbours where the sum does not overflow; lists and counters agree again, the covered memory is unchanged |
| HeapLayout.FreedCoalesced | runtime/gc-7.6.4/allchblk.c:853-890 | the freed block ends up in a mapped one of the current age, and a free mapped neighbour outside it would have made it too large |
| Allocator.Heap.Coalesce | runtime/gc-7.6.4/allchblk.c:864-885 | the two merges only rearrange free memory and leave no free neighbours below the size limit |
| Allocator.Heap.AddToHeap | runtime/gc-7.6.4/alloc.c:1132-1167 | exactly the given blocks, without the lowest two and the highest of the address space, join the heap, as one section and one freed block |
| Allocator.Heap.SplitBlock | runtime/gc-7.6.4/allchblk.c:539-568 | the tail takes the block's place on the list while the front goes to the list for its length |
| Allocator.Heap.GetFirstPart | runtime/gc-7.6.4/allchblk.c:498-524 | the block leaves its list, the rest goes to the list for its length |
| Allocator.Heap.Carve | runtime/gc-7.6.4/allchblk.c:709-717 | one extent becomes used with the given header, what is left of the free block stays free in front and behind, all other headers and the covered memory stay |
| Allocator.Heap.NextIsBetter | runtime/gc-7.6.4/allchblk.c:668-683 | the search skips a block exactly if the next one is smaller, large enough and clear of the black lists over the whole request |
| Allocator.Heap.SkipBlackListed | runtime/gc-7.6.4/allchblk.c:696-703 | every skipped start is black listed, and the start found is not |
| Allocator.Heap.ChooseStart | runtime/gc-7.6.4/allchblk.c:685-743 | a block is accepted exactly if the request minds no black list, or some start is clear that needs no avoided remapping, or both request and slack exceed the spacing limit; the result starts at the first clear place; a block is hopeless exactly if it is mapped and listed all over for a request of one block |
| Allocator.Heap.Drop | runtime/gc-7.6.4/allchblk.c:746-775 | a dropped block becomes single used blocks, leaves its list, and is counted as dropped |
| Allocator.Heap.GiveUp | runtime/gc-7.6.4/allchblk.c:738-775 | every fourth hopeless block is dropped, becoming single used blocks; the walk then goes on where it was, or starts over exactly when that was the first of the list |
| Allocator.Heap.AllocHblkNth | runtime/gc-7.6.4/allchblk.c:649-825 | searching one list ends; it takes the first block of what is left of the list that is accepted and not passed over for a better one, and nothing only if no block of the list was acceptable; free blocks disappear otherwise only by being hopeless |
| BlockSearch.AllRefused | runtime/gc-7.6.4/allchblk.c:668-683 | a list that has been passed to its end holds no acceptable block, in spite of skipping to better ones |
| BlockSearch.StateDropped | runtime/gc-7.6.4/allchblk.c:738-775 | dropping a hopeless block leaves the search where it is and loses no block that could have been taken |
| BlockSearch.StateAgain | runtime/gc-7.6.4/allchblk.c:759-775 | starting over after a drop finds what the first search would have found |
| Allocator.Heap.EnoughLargeBytesLeft | runtime/gc-7.6.4/allchblk.c:70-81 | the largest index from which on the lists make up the bytes, or 0 |
| Allocator.Heap.AllocHblk | runtime/gc-7.6.4/allchblk.c:585-638 | keeps the heap valid; an exact match is preferred, then the lists go up to a split limit with its exact condition; it takes nothing only if no block up to that limit was acceptable: with the whole heap open to splitting, every start in every free block is black listed and no block exceeds the request by more than the spacing limit, and for exempt kinds no free block is large enough |
| ListSweep.SweptList | runtime/gc-7.6.4/allchblk.c:631-637 | after one more list nothing acceptable is left on the lists so far, counting blocks dropped meanwhile |
| ListSweep.ExactRefused | runtime/gc-7.6.4/allchblk.c:598-630 | when the exact pass fails the lists before the one where splitting starts hold nothing acceptable |
| ListSweep.NothingLeft | runtime/gc-7.6.4/allchblk.c:685-743 | what refusing every free block means for the black lists and the lengths |
| Allocator.FreshMemory | runtime/gc-7.6.4/allchblk.c:585-638 | what is handed out belonged to the heap and to no block in use |
| Allocator.Heap.ComputeLargeFree | runtime/gc-7.6.4/allchblk.c:102-119 | walking all lists gives GC_large_free_bytes |
| Allocator.Heap.Conservation | runtime/gc-7.6.4/checksums.c:158-172 | used blocks plus GC_large_free_bytes equal GC_heapsize, and each byte counter is the sum of its list |
| Allocator.Heap.Coalesced | runtime/gc-7.6.4/allchblk.c:355-370 | without unmapping no free block of a heap below the limit has a free successor, and each is on the list for its length and on no other |
| Allocator.Heap.UnmapOld | runtime/gc-7.6.4/allchblk.c:396-420 | exactly the free blocks older than the threshold, in 16-bit arithmetic, become unmapped, and the counter follows |
| Allocator.Heap.Harmonize | runtime/gc-7.6.4/allchblk.c:445-471 | of two neighbours that differ the longer keeps its mapping, the second when they are equally long, with the age that goes with it; the counter moves by exactly the extents involved |
| Allocator.Heap.MergeUnmapped | runtime/gc-7.6.4/allchblk.c:425-485 | ends, by merges of neighbours only, keeps the heap valid and the counter exact, and leaves no two neighbours that could be merged; what is mapped or unmapped on the way is at most the free blocks times the number of times that can be halved |
| Merging.FlipsFew | runtime/gc-7.6.4/allchblk.c:445-471 | what a merge maps or unmaps is never the longer of the two |
| Merging.FlippedFew | runtime/gc-7.6.4/allchblk.c:425-485 | however merges follow each other, together they map or unmap at most the free blocks times the logarithm of their number |
| Allocator.StuckBelowMerged | runtime/gc-7.6.4/allchblk.c:425-485 | a merge in one list leaves the lists before it done, since lists grow with length |
| HashChains.Table.Grow | runtime/gc-7.6.4/finalize.c:96-134 | every entry is re-linked into the bucket of its key in the larger table, none is lost; without room nothing happens |
| HashChains.Table.Find | runtime/gc-7.6.4/finalize.c:168-176 | the walk finds an entry with the key exactly if there is one |
| HashChains.Table.Unlink | runtime/gc-7.6.4/finalize.c:244-255 | exactly one entry leaves its chain |
| HashChains.Table.LinkIn | runtime/gc-7.6.4/finalize.c:205-209 | one entry joins the chain of its key in front |
| HashChains.PlacedRemove | runtime/gc-7.6.4/finalize.c:244-255 | unlinking keeps every other entry in the bucket of its key |
| DisappearingLinks.LinkTable.Register | runtime/gc-7.6.4/finalize.c:146-212 | has the effect of a map update, with the status the map prescribes, also across growth, which happens exactly when there are more entries than buckets and memory can be had |
| DisappearingLinks.LinkTable.Unregister | runtime/gc-7.6.4/finalize.c:231-257 | removes the link from the map and returns an entry exactly if it was there |
| DisappearingLinks.LinkTable.Move | runtime/gc-7.6.4/finalize.c:494-546 | renames a link in the map, or reports that the old one is missing or the new one taken |
| DisappearingLinks.LinkTable.Sweep | runtime/gc-7.6.4/finalize.c:888-915 | deletes exactly the entries that satisfy the condition and counts the others |
| DisappearingLinks.LinkTable.MakeDisappear | runtime/gc-7.6.4/finalize.c:919-934 | exactly the links whose object is unmarked are zeroed and leave the map |
| DisappearingLinks.LinkTable.RemoveDangling | runtime/gc-7.6.4/finalize.c:936-949 | exactly the links inside unmarked objects leave the map |
| Finalizers.Finalization.Register | runtime/gc-7.6.4/finalize.c:640-767 | replaces, removes or adds the entry of the object and returns the old finalizer; a new entry, and nothing else, hides its object in its first word; the table grows exactly when it has more entries than buckets and memory can be had; nothing else changes |
| Finalizers.RegisterUnique | runtime/gc-7.6.4/finalize.c:640-767 | registering never gives an object two entries and touches no other object's |
| Finalizers.Finalization.MarkFromRegistered | runtime/gc-7.6.4/finalize.c:975-992 | marks exactly what unmarked objects registered with an order lead to, plus those from which marking overran the mark stack; it overflows for none of them if and only if no entry, in the order of the chains, overruns the stack after those before it; an overflowed object leads to at least as many unmarked objects as the stack has entries |
| Finalizers.Finalization.MoveToQueue | runtime/gc-7.6.4/finalize.c:1006-1026 | an entry leaves its bucket for the front of the queue, and its first word shows its object from then on |
| Finalizers.Finalization.EnqueueUnmarked | runtime/gc-7.6.4/finalize.c:993-1032 | the table is divided into entries with marked objects, which stay, and the others, which are queued once each, whatever their mark procedures |
| Finalizers.ReadySelected | runtime/gc-7.6.4/finalize.c:973-1032 | queued are exactly the unmarked registered objects that no object registered with an order, itself included, leads to and from which marking did not overflow |
| Finalizers.SelectedIsReady | runtime/gc-7.6.4/finalize.c:635-639 | when fewer unmarked objects can be reached from registered ones than the mark stack has entries, nothing overflows and exactly the ready objects are queued |
| FinalizerCases.NotQueued | runtime/gc-7.6.4/finalize.c:975-992 | a ready object from which marking overflows the stack is not queued |
| Finalizers.ClosedExactly | runtime/gc-7.6.4/finalize.c:1003-1006 | the marks that result are closed if and only if everything behind objects registered without an order was marked, is registered, or is behind an object with an order; so always when every object has an order |
| FinalizerCases.LeavesOpen | runtime/gc-7.6.4/finalize.c:1003-1006 | an object registered without an order that points to an unmarked object leaves the marks open |
| Finalizers.ReadyAreUnordered | runtime/gc-7.6.4/finalize.c:635-639 | no object registered with an order leads to a queued one, so with normal finalizers no queued object leads to another and none on a cycle is queued |
| Finalizers.Finalization.Finalize | runtime/gc-7.6.4/finalize.c:954-1032 | for entries of every kind: the selection above, exactly the ready objects when fewer unmarked ones can be reached than the stack has entries, conservation of entries, the marks that result, and when they are closed, as known from marks and table before |
| Finalizers.Finalization.MarkQueue | runtime/gc-7.6.4/finalize.c:1034-1048 | without an overflow marks exactly all queued objects but the unreachable kind and what those without an order lead to; with one all queued objects, through their own entries, and what they lead to; it overflows if and only if an entry without an order overruns the stack after those before it |
| EntryWords.LiveShown | runtime/gc-7.6.4/finalize.c:1034-1048 | when marking starts over, the marked entries lead to their unhidden objects: everything marked then is what was marked, those objects and what they lead to |
| EntryWords.OnwardShown | runtime/gc-7.6.4/finalize.c:1034-1048 | as long as nothing overflows, the unhidden words of marked entries make no difference |
| Finalizers.JavaSmall | runtime/gc-7.6.4/finalize.c:954-1087 | when fewer unmarked objects than the stack has entries are behind registered ones, neither pass overflows |
| FinalizerCases.RescanRevives | runtime/gc-7.6.4/finalize.c:625-629 | an overflow in the pass over the queue marks an unreachable-kind object to which nothing leads, and its entry goes back to the table |
| Finalizers.Finalization.ReturnToTable | runtime/gc-7.6.4/finalize.c:1063-1080 | a queue entry goes back to the bucket of its key, hides its object and is counted again |
| Finalizers.Finalization.Revive | runtime/gc-7.6.4/finalize.c:1050-1086 | back to the table go exactly the unreachable-kind entries whose objects are marked when their turn comes, the rest stay with their objects marked; none is lost or doubled |
| Finalizers.UniqueAfterJava | runtime/gc-7.6.4/finalize.c:1050-1086 | an object has two table entries after the passes if and only if a queued unreachable-kind entry has its object registered, or two of them share an object, as known from table and queue before |
| Finalizers.BytesWrap | runtime/gc-7.6.4/finalize.c:1074-1075 | GC_bytes_finalized ends as the bytes newly queued and not revived less those of the unreachable-kind entries queued before; it wraps around if and only if that is negative, so never when the queue held no such entry |
| FinalizerCases.TwoEntries | runtime/gc-7.6.4/finalize.c:1050-1086 | an object registered again while its first entry is queued is marked by the next collection through that entry, ends up with two entries, and the count of bytes wraps around |
| Finalizers.Finalization.FinalizeJava | runtime/gc-7.6.4/finalize.c:954-1087 | queued are exactly the entries of unmarked objects, revived exactly the unreachable-kind entries with marked objects, with the marks given exactly with and without overflow in either pass; none is lost, duplicated or changed; the marks are closed again when all queued objects are marked; GC_bytes_finalized follows modulo the word size |
| Finalizers.Finalization.EnqueueAll | runtime/gc-7.6.4/finalize.c:1112-1145 | at any time and for any marks the table is emptied into the queue and every object kept; without overflow, which has its exact condition, exactly the least set is marked that holds the marks and the objects and leaves nothing to be done for the objects and what is new; after one, exactly what is live from the marks and the objects; it cannot abort when the roots to be pushed are few |
| KeptObjects.LeastReached | runtime/gc-7.6.4/finalize.c:1126-1127 | in that least set nothing is new but the objects and what they lead to |
| KeptObjects.KeptNext | runtime/gc-7.6.4/finalize.c:1122-1142 | keeping one object more, in a heap that shows its entry from then on, leads from the set for the objects so far to the set for all of them |
| HeaderIndex.Index.GetIndex | runtime/gc-7.6.4/headers.c:210-256 | makes sure of a bottom index, keeps the list sorted with inverse links and every entry's meaning |
| HeaderIndex.LinkBetween | runtime/gc-7.6.4/headers.c:240-254 | inserting between two neighbours keeps the list linked both ways |
| HeaderIndex.Index.GetBi | runtime/gc-7.6.4/include/private/gc_hdrs.h:173-181 | the hash chain leads to the bottom index exactly if it exists |
| HeaderIndex.Index.InstallHeader | runtime/gc-7.6.4/headers.c:261-274 | changes one entry |
| HeaderIndex.Index.InstallCounts | runtime/gc-7.6.4/headers.c:277-292 | inner blocks get their capped counts, and bottom indices appear for blocks of the extent only |
| HeaderIndex.Index.RemoveHeader | runtime/gc-7.6.4/headers.c:295-301 | changes one entry |
| HeaderIndex.Index.RemoveCounts | runtime/gc-7.6.4/headers.c:304-311 | clears exactly the inner blocks' entries, also where no bottom index exists |
| HeaderIndex.AgreesUsed | runtime/gc-7.6.4/headers.c:277-292 | the index agrees with the list of blocks when a free block is put to use |
| HeaderIndex.AgreesFreed | runtime/gc-7.6.4/headers.c:304-311 | and when a block is freed |
| HeaderIndex.AgreesInstalled | runtime/gc-7.6.4/headers.c:261-274 | and when free memory is split or added |
| HeaderIndex.AgreesRemoved | runtime/gc-7.6.4/headers.c:295-301 | and when free neighbours are merged |
| HeaderIndex.Index.ApplyToAll | runtime/gc-7.6.4/headers.c:315-343 | each used block is visited exactly once, no free one ever |
| HeaderIndex.Index.NextUsedBlock | runtime/gc-7.6.4/headers.c:347-377 | the first used block at or after the given one |
| HeaderIndex.Index.PrevBlock | runtime/gc-7.6.4/headers.c:382-406 | the last block, used or free, at or before the given one |
| HeaderIndex.Index.FreeBlockEndingAt | runtime/gc-7.6.4/allchblk.c:326-351 | the true free neighbour before a block, through forwarding counts or the backward search |
| HeaderIndex.Index.Base | runtime/gc-7.6.4/misc.c:430-467 | the start of the one object slot that holds the address, or null exactly if there is none |
| HeaderIndex.JumpSkips | runtime/gc-7.6.4/include/private/gc_hdrs.h:207-209 | a forwarding count leads back within the extent, over blocks that start nothing |
| IndexedHeap.IndexedHeap.Add | runtime/gc-7.6.4/headers.c:261-274 | adding memory keeps index and layout in agreement |
| IndexedHeap.IndexedHeap.PutToUse | runtime/gc-7.6.4/headers.c:277-292 | so does putting a free extent to use |
| IndexedHeap.IndexedHeap.Release | runtime/gc-7.6.4/headers.c:304-311 | so does freeing it |
| IndexedHeap.IndexedHeap.SplitBlock | runtime/gc-7.6.4/allchblk.c:539-568 | so does splitting, with the layout that the allocator's split gives |
| IndexedHeap.IndexedHeap.TakeFirst | runtime/gc-7.6.4/allchblk.c:498-524 | so does giving out the first part of an extent |
| IndexedHeap.IndexedHeap.Join | runtime/gc-7.6.4/allchblk.c:868-885 | so does merging two free neighbours |
| IndexedHeap.IndexedHeap.Chop | runtime/gc-7.6.4/allchblk.c:746-775 | so does dropping an extent in single blocks |
| IndexedHeap.IndexedHeap.FreeHblk | runtime/gc-7.6.4/allchblk.c:834-893 | freeing a block with the merges that the index search finds gives exactly the allocator's headers and keeps the agreement and the layout condition |
| IndexedHeap.IndexedHeap.FreeNeighbour | runtime/gc-7.6.4/allchblk.c:326-351 | on every layout reached so, the search through the index finds the one free neighbour before a block |
| IndexedHeap.IndexedHeap.Base | runtime/gc-7.6.4/misc.c:430-467 | and GC_base the one slot that holds an address |
| Mangling.NameRoundTrip | runtime/demangle/demangle.c:39-92 | a name with doubled underscores is read back and ends where it ends |
| Mangling.NumberRoundTrip | runtime/demangle/demangle.c:96-107 | a decimal length is read back |
| Mangling.TypeRoundTrip | runtime/demangle/demangle.c:112-189 | every encoded type prints its source form and its encoding is consumed exactly, whatever follows |
| Mangling.SignatureExactly | runtime/demangle/demangle.c:300-388 | a function symbol is demangled to its signature, consuming exactly the symbol, if and only if the function's name has no quote |
| Mangling.GlobalExactly | runtime/demangle/demangle.c:238-275 | a global variable's symbol is demangled to its name and type, consuming exactly the symbol, if and only if the name has no quote |
| Mangling.SetupExactly | runtime/demangle/demangle.c:194-233 | vtable, size and initializer symbols are demangled to their description if and only if the name has no quote |
| Mangling.SetupTexts | runtime/demangle/demangle.c:194-233 | the texts shown for vtables, sizes and initializers |
| Mangling.RuntimeTexts | runtime/demangle/demangle.c:306-319 | the texts shown for the two symbols of the runtime |
| Mangling.QuotesMisread | runtime/demangle/demangle.c:300-388 | a global's symbol that is demangled to a function signature, and a vtable symbol that is demangled to a shorter name |
| Mangling.OverrunExactly | runtime/demangle/demangle.c:125-143 | copying a record name reads past the end of the string exactly if all that is left is a properly escaped text that is shorter than announced |
| Mangling.RecordOverrunExactly | runtime/demangle/demangle.c:125-143 | reading a record type does so exactly if its number announces more than that |
| Mangling.SymbolOverrun | runtime/demangle/demangle.c:300-388 | a symbol is read past its end only if it holds such a record |
| CutSymbols.TypeCut | runtime/demangle/demangle.c:112-189 | the encoding of any type, cut off anywhere, is read past its end if and only if the cut leaves a record with at least one digit of its length and does not part two underscores; it is no type otherwise |
| CutSymbols.SymbolCutExactly | runtime/demangle/demangle.c:300-388 | a function symbol cut off anywhere is read past its end if and only if the cut lies in such a record |
| Mangling.OverrunSample | runtime/demangle/demangle.c:300-388 | a symbol cut off within a record name is read past its end |
| Mangling.MangleExactly | src/main/kotlin/ir/IRTranslator.kt:107-115 | a type mangled by the compiler is read back if and only if no record name in it has an underscore |
| MangledSymbols.MangledSignatureExactly | src/main/kotlin/ir/IRTranslator.kt:117-134 | a function symbol mangled by the compiler is demangled to its signature if and only if the name has no quote and no record name in it has an underscore |
| Demangle.TryName | runtime/demangle/demangle.c:39-92 | reads a name; otherwise the position is unchanged |
| Demangle.TryNumber | runtime/demangle/demangle.c:96-107 | reads a number |
| Demangle.TryType | runtime/demangle/demangle.c:112-189 | reads a type; otherwise the position is unchanged |
| Demangle.TrySetup | runtime/demangle/demangle.c:194-233 | reads a setup symbol; otherwise the position is unchanged |
| Demangle.TryGlobal | runtime/demangle/demangle.c:238-275 | reads a global; otherwise the position is unchanged |
| Demangle.TrySymbol | runtime/demangle/demangle.c:300-388 | reads a symbol; otherwise the position is unchanged |
| SymbolFilter.FilterLine | runtime/demangle/demangle.c:409-429 | one line is gone through from the left: what is read as a symbol is replaced by its text, every other character copied |
| SymbolFilter.LineFiltered | runtime/demangle/demangle.c:409-429 | in a line of text with any number of mangled function symbols in it exactly these are replaced, each by its signature |
| Exclusions.ExclusionTable.NextExclusion | runtime/gc-7.6.4/mark_rts.c:424-441 | binary search finds the first range that ends behind the address |
| Exclusions.ExclusionTable.Exclude | runtime/gc-7.6.4/mark_rts.c:445-481 | the excluded addresses grow by exactly the new range and the table stays sorted and disjoint; it aborts exactly for an overlap or when a full table would need a new entry; the slot behind a full table is written exactly if some range ends behind the new one's start and all that do begin beyond its end |
| Exclusions.FullTable | runtime/gc-7.6.4/mark_rts.c:470-477 | a full table to whose front a range is added: the slot behind it is written |
| Exclusions.ExclusionTable.PushWithExclusions | runtime/gc-7.6.4/mark_rts.c:519-535 | the pieces pushed are in order, disjoint, and cover exactly the range minus all exclusions |
| SizeMap.Map.constructor | runtime/gc-7.6.4/misc.c:231-245 | all tiny sizes are filled in, exactly rounded up, and no others |
| SizeMap.Map.Extend | runtime/gc-7.6.4/misc.c:253-298 | exactly the entries from the lowest empty one behind the search start to the bytes of the new size are filled in with it; that size is the largest even one that fits a block as often as the size asked for, or as nine eighths of the lowest entry's when a smaller size is in use |
| SizeMap.WidenedFits | runtime/gc-7.6.4/misc.c:282-290 | the rounding up keeps the number of objects in a block |
| SmallObjects.BuildAny | runtime/gc-7.6.4/new_hblk.c:118-166 | links every object of the block to the one before it, the first to the old list |
| SmallObjects.Build2 | runtime/gc-7.6.4/new_hblk.c:27-75 | the two-word versions give the same block |
| SmallObjects.BuildClear4 | runtime/gc-7.6.4/new_hblk.c:49-69 | the clearing four-word version gives the same block |
| SmallObjects.Build4 | runtime/gc-7.6.4/new_hblk.c:88-108 | the four-word version gives the same block |
| SmallObjects.Build | runtime/gc-7.6.4/new_hblk.c:118-166 | every version gives the block that the general one prescribes |
| SmallObjects.ChainDown | runtime/gc-7.6.4/new_hblk.c:145-165 | the links of a fresh block lead from its last object down to the old list |
| SmallObjects.SlotsDisjoint | runtime/gc-7.6.4/malloc.c:109-150 | two different objects have no word in common |
| SmallObjects.SmallHeap.NewBlock | runtime/gc-7.6.4/new_hblk.c:172-191 | the objects of a fresh block, the last one first, all go in front of the list for their size |
| SmallObjects.SmallHeap.Malloc | runtime/gc-7.6.4/malloc.c:109-150 | hands out the first object of the list for the size, which was not in use, or of a fresh block if that list is empty, and nothing only if there is none; it leaves its list, its link is cleared, and it is at least as large as asked |
| SmallObjects.SmallHeap.Free | runtime/gc-7.6.4/malloc.c:534-554 | the object goes to the front of the list for its size |
| SmallObjects.SmallHeap.InUse | runtime/gc-7.6.4/malloc.c:109-150 | over any run, objects in use are disjoint and on no free list |

## Left out

- Marker.Marker.MarkSome: does not model the state MS_PUSH_RESCUERS or dirty pages; only full collections in a stopped world are covered.
- Marker.Marker.MarkFrom: does not model bitmap, procedure or per-object descriptors; every entry is a range of words, as for normal objects.
- Marker.Marker.PushMarked: does not model the versions for one-, two- and four-granule objects, which are compiled only without mark bytes.
- Marker.Marker.PushRoots: registers, stacks, static data and the collector's own roots appear only as ranges, in the order given.
- Marker.Marker.Collect: when marks of uncollectable objects are kept and the ranges to be pushed fill between three quarters and all of the stack, whether it completes depends on what those objects have stacked by then and is not stated.
- Marker.MarkStack.Grow: does not model recycling the old stack into the heap.
- Marker.Marker.PushContents: which word designates which object is a given map; HeaderIndex.Index.Base models that lookup.
- ParallelMark.StepTakeEntry: a split may fall anywhere, which covers the source's fixed split size.
- ParallelMark.NoWorkLost: what follows when the phase was invalidated is the sequential recovery, the subject of Marker.
- PhaseEnds.PhaseCanEnd: says that a phase can end from every state, not that it does under every schedule; markers that steal and share back in turn can delay the end.
- StopWorld.InvStep: does not model resending of lost signals, external suspension, or saving of registers.
- IndexedHeap.IndexedHeap.Add: headers always can be had, as everywhere in the model.
- Allocator.Heap.AllocHblk: does not model failing header allocation, heap growth on failure, or the collection it may trigger; the policy flags are parameters.
- Allocator.Heap.FreeHblk: an extent of half the address space or more aborts in the source and cannot arise here.
- Allocator.Heap.AddToHeap: does not model the limit on the number of heap sections or the bookkeeping of address bounds.
- Allocator.Heap.UnmapOld: the system calls that map and unmap pages have no effect besides the counter and the flag.
- Allocator.Heap.FreeBlockEndingAt: chosen by its meaning; HeaderIndex.Index.FreeBlockEndingAt models the walk, and IndexedHeap.IndexedHeap.FreeNeighbour has the same meaning on the same layouts.
- HeaderIndex.Index.GetIndex: a bottom index is named by its key instead of an address, and its entries are a sequence in a map rather than an array of its own.
- HashChains.Table.Grow: keys are the pointers themselves, not their hidden forms; collection of table memory is not modelled.
- DisappearingLinks.LinkTable.Register: the second search, once the out-of-memory callback has returned memory, is not part of it; it is a further call of DisappearingLinks.LinkTable.Enter in the state by then.
- Finalizers.Finalization.Register: likewise the second search is a further call of Finalizers.Finalization.Enter, and the entry stays in its chain while it is overwritten.
- Finalizers.Finalization.MoveToQueue: of the words of an entry only the one that names its object is written; links between entries and client data are not words of the heap.
- Finalizers.Finalization.MarkFromRegistered: when more than one object overflows, which ones do is bounded but not determined, since the stack may or may not have grown in between; does not model the ignore-self mark procedure, toggle references or the object-finalized callback.
- SmallObjects.SmallHeap.Malloc: does not model sweeping, object kinds, large requests or byte counters; a fresh block is taken when the list is empty.
- SmallObjects.SmallHeap.NewBlock: does not model object kinds or the marking of uncollectable objects.
- SmallObjects.SmallHeap.Free: does not model clearing of the freed object or byte counters.
- Demangle.TryNumber: lengths are unbounded, so integer overflow of decoded lengths is not modelled.
- SymbolFilter.FilterLine: does not model reading the lines and writing what comes out.
- Incremental collection, reclaiming, thread-local allocation, debugging, statistics and all operating system code are not modelled.
