# Gardens: a verified model of the kernel's core data structures

Gardens is a small embedded kernel. This project models the parts of it that keep state in linked
structures and proves what they promise, for every input and over whole runs of calls.

* **Memory pool** (`MemChain`, `MemRun`, `MemIndex`, `MemHeaders`, `MemLinks`, `MemBlock`, `MemSimple`, `MemAgree`,
  `MemCases`). Blocks tile one address range; allocation uses the unused tail of a block and splits it on the next
  allocation; freeing merges to the left. `MemChain` and `MemRun` work on the chain of blocks and on whole
  runs, `MemIndex` on the size-class index, `MemHeaders` on the headers in memory and `MemLinks` on the list
  link inside each header. The classes
  `MemBlockPool` and `MemSimplePool` update headers, class lists and links in place and are tied to the
  chain; `MemAgree` compares them and `MemCases` shows two runs. What a user writes into its regions is a step
  of its own (`MemBlockPool.Store`).
* **Scheduler and timed sleep** (`Sched`, `SchedProps`, `SchedTable`, `Sleep`, `TimerQueue`). One running
  slot and three priority lists, with the configured mode of preemption on and round-robin polling off.
  `Sched` is the state machine, `SchedTable` the table updated in place, `SchedProps` what holds over runs.
  `Sleep` adds ticks, timers and the steps of a delay.
* **Radix tree and trie** (`PathTree`, `NodeStore`, `RadixPath`, `RadixTree`, `TrieTree`, `TrieCases`). `PathTree` is the
  tree as a map from paths, `NodeStore` the nodes in memory with their parent and branch pointers, and the
  two classes walk, grow and prune them.
* **Device-number map** (`KobjMap`). Intervals copied into one bucket for each major number, against a naive
  search of all registered intervals.
* **Circular list** (`ListHead`), on heap objects.
* **Number printing and formatting** (`Numbers`, `Positional`, `Printers`, `Format`, `Directives`), into character
  arrays. `Positional` says what a numeral is, `Directives` what each part of a format prints.

Some of what the code seems to promise is false as it stands, and the model keeps the code:

* A request close to 2^32 bytes wraps the size computation of the pools (`MemRun.WrappedRequestBreaksPool`;
  `MemChain.AllocKeepsGood` and `MemRun.AllocMeetsRequest` give the exact condition).
* The header of an exact-fit split is never attached, so its list link is not written. Unless an earlier
  header at the same place left an initialised link there, freeing the block, or its right neighbour, follows
  bytes nobody has initialised (`MemCases.ExactFitIsWild`; `MemLinks.WildAfterRun` gives the exact condition
  over runs). What is said of runs of the indexed pool holds up to such a free.
* The pointer test of the kernel takes the top 4 KiB of the address space for error codes. A pool that
  reaches there loses blocks to the linear scan, ignores some frees, and can break its headers
  (`MemCases.ScanStopsAtTop`, `TopRegionStays`, `TopNeighbourLost`; the contracts of `Alloc` and `Free` are
  exact, and `MemBlock.LowPool` says that a pool which ends below is not affected).
* A delay asked for by idle returns at once (`Sleep.IdleDelayReturnsAtOnce`).
* A trie add that runs out of memory can leave an empty branch array; the node it hangs on then survives its
  own deletion (`TrieCases.StarvedAddKeepsNode`; `TrieTree.TrieTree.Add` and `Delete` give the exact
  conditions).
* A mapping that reaches major 255 is not found by every lookup it covers (`KobjMap.LookupNeedsFit`), and a
  mapping that starts there cannot be undone (`KobjMap.TopMajorStays`).
* Numbers of 2^31 and more do not survive printing and reading (`Numbers.DecimalRoundTrip` and the two
  beside it).
* The formatter measures in 32 bits: a text of 2^32 - 1 characters or more is measured short
  (`Format.PassesDisagree`; `Format.TwoPassesAgree` gives the exact condition).
* A 64-bit number that does not fit in the buffer leaves the letter d of its directive behind as text
  (`Directives.LongPrints`).
* A format that ends in a percent sign, or is a lone level mark, can be read past its terminator
  (`Format.HarmlessFormats`).

## Model

| member | source | states |
|---|---|---|
| `MemChain.AllocKeepsGood` | common/mempool/mem_block.c:230-299 | serving `d` bytes from a block keeps the chain well formed (tiling the pool, every block used for at least a header or the idle first block) if and only if `d` is at least a header, or is zero on the idle block |
| `MemChain.AllocAddsRegion` | common/mempool/mem_block.c:262-298 | an allocation adds exactly one live region, at the returned pointer and of the requested extent, and changes no other |
| `MemChain.FreeKeepsGood` | common/mempool/mem_block.c:357-391 | merging a block into its left neighbour, or making the first block idle, keeps the chain well formed |
| `MemChain.FreeDropsRegion` | common/mempool/mem_block.c:343-392 | a free takes away exactly the live region at the freed pointer |
| `MemChain.FreeUndoesAlloc` | common/mempool/mem_block.c:230-392 | freeing what was just allocated gives back the very chain from before |
| `MemChain.LiveRegionInside` | common/mempool/mem_block.c:268-298 | every live region lies inside the pool, behind a header, 8-aligned |
| `MemChain.LiveRegionsApart` | common/mempool/mem_block.c:268-298 | two live regions of a well-formed chain are disjoint |
| `MemChain.LiveRegionOffHeaders` | common/mempool/mem_block.c:268-298 | no live region overlaps the header of any block |
| `MemRun.StepKeeps` | common/mempool/mem_block.c:230-392 | one call keeps the layout and changes the live regions exactly as the caller's ledger does |
| `MemRun.RunKeepsLedger` | common/mempool/mem_block.c:104-392 | after every run of allocs and frees the chain tiles the pool, no block but the first is idle, and the live regions are exactly those the calls account for |
| `MemRun.RunIsSafe` | common/mempool/mem_block.c:104-392 | after every run any two regions a caller holds are aligned, inside the pool and disjoint from each other and from all headers |
| `MemRun.LengthsSumToPool` | common/mempool/mem_block.c:268-391 | the block lengths of a tiling chain add up to the pool length |
| `MemRun.FreeAllRestores` | common/mempool/mem_block.c:343-392 | freeing the live regions in any order leaves one idle block of the whole pool |
| `MemRun.AllocMeetsRequest` | common/mempool/mem_block.c:243-246 | the region served is at least as large as the request if and only if the 32-bit size computation does not wrap |
| `MemRun.WrappedRequestBreaksPool` | common/mempool/mem_block.c:243-298 | a concrete request whose size computation wraps and leaves the chain ill formed |
| `MemIndex.ClassListAscends` | common/mempool/mem_block.c:66-84 | the exact index lists every class in strictly ascending address order |
| `MemIndex.UnlinkBlock` | common/mempool/mem_block.c:93-96 | detaching a block takes it, and nothing else, out of the index: what is left is exact for the other blocks |
| `MemIndex.AttachBlock` | common/mempool/mem_block.c:53-85 | attaching a block makes the index exact for the chain that has it between its neighbours |
| `MemIndex.AllocKeepsIndex` | common/mempool/mem_block.c:262-297 | detaching the block, cutting it and attaching what is left keeps every class list exact |
| `MemIndex.FreeKeepsIndex` | common/mempool/mem_block.c:362-391 | detaching both blocks, merging and attaching the result keeps every class list exact |
| `MemIndex.FreeHeadKeepsIndex` | common/mempool/mem_block.c:372-391 | making the first block idle keeps every class list exact |
| `MemIndex.ClassIsPower` | include/common/mem_manage.h:55-75 | class k holds the sizes from 2^k up to 2^(k+1), with one class below 32 and one from 8192 on |
| `MemIndex.ClassesAscend` | include/common/mem_manage.h:55-75 | a size is in no higher class than another if and only if it is below every limit from 32 to 8192 that the other is below |
| `MemIndex.ChosenByClass` | common/mempool/mem_block.c:191-222 | the block to serve from, described by power-of-two ranges and addresses, is the one the search by class number finds |
| `MemHeaders.CutMirrors` | common/mempool/mem_block.c:269-295 | the header writes of a split leave headers that mirror the new chain, forward and backward |
| `MemHeaders.MergeMirrors` | common/mempool/mem_block.c:364-388 | the header writes of a merge leave headers that mirror the new chain |
| `MemHeaders.FreeMirrors` | common/mempool/mem_block.c:366-389 | with the pointer test of the code, which takes the top 4 KiB for error codes, the headers mirror the chain after a free if and only if the block is the first, the last, or its right neighbour lies below |
| `MemBlock.GetHash` | common/mempool/mem_block.c:31-45 | the list number found bit by bit: 4 below 32 bytes, 13 from 8192 on, and between them the power of two at or below the size |
| `MemBlock.InsertAddress` | common/mempool/mem_block.c:66-84 | the walk inserts an address before the first higher one |
| `MemBlock.MemBlockPool.SearchClass` | common/mempool/mem_block.c:171-183 | the first large enough block of a class, in address order, or nothing if the class has none |
| `MemBlock.MemBlockPool.GetAvailable` | common/mempool/mem_block.c:191-222 | nothing is returned only if no block of the whole chain is large enough; otherwise a block such that no large enough one has its unused size in a lower power-of-two range, and none in the same range is at a lower address |
| `MemBlock.MemBlockPool.Attach` | common/mempool/mem_block.c:53-85 | a block joins the list of its class at its address; a block with nothing unused is left alone, link included |
| `MemBlock.MemBlockPool.Create` | common/mempool/mem_block.c:104-147 | one idle block over the aligned pool, exact index; refused if the pool exists, as far as the pointer test can tell, or is not larger than a header; well formed if and only if alignment leaves a header |
| `MemBlock.MemBlockPool.TakeTail` | common/mempool/mem_block.c:262-298 | the in-place split or first use of a block: headers, lists and initialised links afterwards; a new header's link is only written when it is attached |
| `MemBlock.MemBlockPool.Alloc` | common/mempool/mem_block.c:230-299 | serves the lowest block of the lowest power-of-two range that has a large enough one, and keeps headers, chain, index and links sound for every request that does not wrap; gives the initialised links exactly, in every state; fails without a change exactly when nothing fits |
| `MemBlock.MemBlockPool.GiveBack` | common/mempool/mem_block.c:357-391 | follows an uninitialised link exactly if the block's own or its left neighbour's is one; otherwise the in-place merge: headers, lists and links afterwards, with a right neighbour in the top 4 KiB left out |
| `MemBlock.MemBlockPool.Free` | common/mempool/mem_block.c:307-392 | ignores null and the top 4 KiB; wild exactly when the link of the freed block or of its left neighbour is not initialised; otherwise frees the region a live pointer names, ignores every other pointer, and keeps the pool sound if and only if the right neighbour is told or needs no telling |
| `MemBlock.LowPool` | common/mempool/mem_block.c:343-392 | in a pool that ends below the top 4 KiB every free sees all it needs and no pointer to a block is ignored |
| `MemLinks.LinksAfterCut` | common/mempool/mem_block.c:53-63 | every block with unused space has an initialised link, and no link that counts as initialised is overwritten by header fields, after every allocation |
| `MemLinks.LinksAfterStore` | common/mempool/mem_block.c:297-298 | a user that writes inside a region it holds spoils no link of a block |
| `MemLinks.LinkBytes` | include/common/mem_manage.h:37-52 | the list link of a header survives a write if and only if the write touches none of the last eight bytes of the header |
| `MemLinks.ReadyAfterCut` | common/mempool/mem_block.c:57-63 | an allocation leaves all links initialised if and only if it is made in place, leaves something unused, or puts its header where an initialised link was left over |
| `MemLinks.WildAfterRun` | common/mempool/mem_block.c:53-392 | over every run of allocs, frees and user writes without a wild free: some free would now be wild if and only if some allocation was an exact fit whose header lies where no initialised link was left |
| `MemCases.ExactFitIsWild` | common/mempool/mem_block.c:53-63 | a run on which a free is wild: a new pool, an allocation, an exact fit, and its free |
| `MemCases.RecycledHeaderIsTame` | common/mempool/mem_block.c:266-391 | a run with the same exact fit at the place of an earlier header, on which no free is wild |
| `MemCases.ScanStopsAtTop` | common/mempool/mem_simple.c:125-163 | a run in the top 8 KiB: the linear scan fails although a block has 0xFB8 bytes unused |
| `MemCases.TopRegionStays` | common/mempool/mem_block.c:349-350 | a run in the top 8 KiB: the free of a region is ignored |
| `MemCases.TopNeighbourLost` | common/mempool/mem_block.c:378-389 | a run in the top 8 KiB after which the headers no longer spell out a chain |
| `MemSimple.MemSimplePool.Create` | common/mempool/mem_simple.c:29-72 | one idle block over the aligned pool; refused as the indexed pool refuses |
| `MemSimple.MemSimplePool.FirstBlock` | common/mempool/mem_simple.c:125-132 | the linear scan finds the first block with enough unused space, or no block below the top 4 KiB has it |
| `MemSimple.MemSimplePool.Alloc` | common/mempool/mem_simple.c:96-166 | first fit below the top 4 KiB: same chain change as the indexed pool on the block found, failure exactly when nothing there fits |
| `MemSimple.MemSimplePool.Employed` | common/mempool/mem_simple.c:174-202 | a pointer is employed if and only if it is the first byte behind some header of the chain that lies below the top 4 KiB |
| `MemSimple.MemSimplePool.Free` | common/mempool/mem_simple.c:210-252 | ignores null and the top 4 KiB, frees the named block, ignores every other pointer, and keeps the pool sound if and only if the right neighbour is told or needs no telling |
| `MemAgree.AllocAgree` | common/mempool/mem_block.c:191-299 | on the same chain each allocator succeeds if and only if a block its search can see has the space |
| `MemAgree.SearchesAgree` | common/mempool/mem_simple.c:125-163 | in a pool that ends below the top 4 KiB the two searches agree if and only if the size computation does not wrap to zero or some block has unused space |
| `Sched.StepInv` | kernel/sched.c:258-1045 | every call has a closed effect and keeps the invariant: lists sorted, each thread in the one place its status names |
| `Sched.RunInv` | kernel/sched.c:258-1045 | the invariant holds in every state of every run |
| `Sched.MoveInv` | kernel/sched.c:507-608 | moving a waiting thread between lists is refused or done, and keeps the invariant |
| `Sched.ScheduleIs` | kernel/sched.c:992-1045 | every outcome of a schedule: the first run, a granted request, a plain yield into the ready list, or nothing to switch to |
| `SchedProps.OnePlaceEach` | kernel/sched.c:507-681 | in every reachable state each registered thread is in exactly one of the running slot and the three lists, once, as its status says |
| `SchedProps.ThreadsKept` | kernel/sched.c:929-970 | no call loses a thread or changes a priority; only registering adds one |
| `SchedProps.RunKeeps` | kernel/sched.c:258-1045 | over every stretch of a run all threads and priorities are kept |
| `SchedProps.SchedulePicksBest` | kernel/sched.c:656-681 | a successful schedule runs the ready thread of the highest priority that has waited longest at it |
| `SchedProps.PlainScheduleReadies` | kernel/sched.c:1019-1028 | a schedule without a request succeeds, puts the thread that ran, idle included, in the ready list, runs the first ready thread and leaves the suspended and sleeping threads alone |
| `SchedProps.StaysRunnable` | kernel/sched.c:992-1045 | over every run, a thread that nobody suspends or puts to sleep and that asks for neither is never suspended or asleep |
| `SchedProps.RegisterReadies` | kernel/sched.c:929-970 | a new thread is ready with the priority it was given, and no other thread changes; a number in use or a missing stack changes nothing |
| `SchedProps.MoveArrives` | kernel/sched.c:288-330 | a thread moved by another is then in the list asked for, idle is not moved, and no other thread changes |
| `SchedProps.WakeupReadies` | kernel/sched.c:338-359 | a suspended or sleeping thread that is woken is ready, any other is left alone, and no other thread changes |
| `SchedProps.IdleStaysAwake` | kernel/sched.c:517-532 | once idle is registered and something runs, idle is running or ready for ever, and the slot is never empty |
| `SchedProps.SelfRequestSucceeds` | kernel/sched.c:258-280 | a running thread other than idle that asks to be suspended or put to sleep gets it at the schedule that follows |
| `SchedProps.RequestServed` | kernel/sched.c:1003-1027 | the schedule after a request puts the thread in the list it asked for |
| `SchedProps.IdleRequestRefused` | kernel/sched.c:992-1027 | a request of idle is dropped |
| `SchedProps.WaitStep` | kernel/sched.c:861-904 | one call never moves a top-priority ready thread back, and a switch moves it forward |
| `SchedProps.BoundedWaiting` | kernel/sched.c:656-1045 | while a thread stays ready and nothing outranks it, its position drops by one at every context switch of the run, whatever else happens |
| `SchedProps.RunsInTurn` | kernel/sched.c:656-1045 | such a thread runs after at most its position plus one switches |
| `SchedTable.SchedulerTable.FindThread` | kernel/sched.c:837-852 | the list walk finds a thread exactly if it is in the list |
| `SchedTable.SchedulerTable.AddStatusList` | kernel/sched.c:861-904 | the walk inserts a thread behind the last one of the same or higher priority |
| `SchedTable.SchedulerTable.AddList` | kernel/sched.c:861-904 | a thread joins the list of a status, refused when its status already says so |
| `SchedTable.SchedulerTable.UnlinkThread` | include/common/list_types.h:283-295 | the membership walk unlinks the thread where it finds it and leaves a list without it alone |
| `SchedTable.DetachClears` | kernel/sched.c:913-920 | a detached thread is in no list, every other thread is where it was, and the order is kept |
| `SchedTable.SchedulerTable.ReinstallWorkRole` | kernel/sched.c:656-681 | the running slot passes to the first ready thread, refused when none is ready |
| `SchedTable.SchedulerTable.DespoilWorkRole` | kernel/sched.c:616-648 | a ready thread takes the slot and the thread that ran joins the ready list |
| `SchedTable.SchedulerTable.ThreadSwitch` | kernel/sched.c:507-608 | the in-place switch is the one of the state machine, flag included |
| `SchedTable.SchedulerTable.RegisterNewThread` | kernel/sched.c:929-970 | a free id with a stack becomes a ready thread; anything else is refused |
| `SchedTable.SchedulerTable.ScheduleThread` | kernel/sched.c:992-1045 | the in-place schedule is the one of the state machine; without a request it runs the first ready thread, leaves the one that ran in the ready list and suspends nobody |
| `SchedTable.SchedulerTable.SelfRequest` | kernel/sched.c:258-280 | a self-suspend or self-sleep is a request followed by a schedule |
| `SchedTable.SchedulerTable.MoveThread` | kernel/sched.c:288-330 | suspending or putting another thread to sleep; on the running thread it is a request of its own |
| `SchedTable.SchedulerTable.WakeupThread` | kernel/sched.c:338-359 | a suspended or sleeping thread becomes ready; others are refused |
| `Sleep.FireAllEffect` | common/generic/time.c:279-294 | a pass over the timers wakes exactly the suspended threads that have a due timer |
| `Sleep.TickWakesDue` | kernel/sleep.c:31-41 | a tick with the scheduler lock free wakes every suspended sleeper whose time has passed |
| `Sleep.TickWakesOnlyDue` | kernel/sleep.c:31-41 | a tick changes a thread only by waking it from its own due timer, after more than the time it asked for |
| `Sleep.TimerStaysLinked` | kernel/sleep.c:49-69 | a timer stays linked until its own sleeper, running again, deletes it |
| `Sleep.GoodStep` | kernel/sleep.c:49-69 | every event keeps the scheduler's invariant and one timer for every thread inside a delay |
| `Sleep.WaitsOutStep` | kernel/sleep.c:49-111 | no event but an explicit wakeup lets a sleeper run before its time |
| `Sleep.DelayNotCutShort` | kernel/sleep.c:98-111 | over whole runs, a delay of a thread other than idle ends only after its milliseconds have passed, at 10 milliseconds a tick, unless somebody wakes the thread |
| `Sleep.WakeupNotLost` | kernel/sleep.c:31-69 | over whole runs, until the delay of a thread is finished every tick with the lock free, from one tick per 10 milliseconds and one more on, leaves the thread not suspended |
| `Sleep.IdleDelayReturnsAtOnce` | kernel/sleep.c:49-111 | a delay asked for by idle runs through without a tick, whatever its length and whoever is ready, and leaves no timer behind |
| `Sleep.GoodStart` | kernel/sleep.c:49-69 | a scheduler in order with no delay under way is a state the properties above start from |
| `Sleep.JiffiesCover` | include/common/time.h:219-222 | the ticks of a delay cover its milliseconds with at most one tick to spare |
| `TimerQueue.TimerList.DelayMs` | kernel/sleep.c:98-111 | the start of a delay is the one of the system: exactly one timer for the thread, due one tick per 10 milliseconds and one more from now, unless the milliseconds are zero |
| `TimerQueue.TimerList.Delete` | common/generic/time.c:222-228 | the walk unlinks the timer of the thread and no other, which is the end of a delay in the system |
| `TimerQueue.TimerList.Tick` | common/generic/time.c:279-294 | the walk over the list fires every due timer, in list order, and unlinks none |
| `RadixPath.PathInjective` | common/generic/radix_tree.c:28-74 | two numbers with the same digit path are equal, although one path may be a prefix of another |
| `RadixPath.ProperPrefixExists` | common/generic/radix_tree.c:28-74 | the path of 0 is a proper prefix of the path of 8 |
| `RadixPath.PathIsNumeral` | common/generic/radix_tree.c:28-74 | the path of a number is its base-8 numeral, lowest digit first, without leading zeros |
| `RadixPath.NumLen` | common/generic/radix_tree.c:28-52 | the bit count rounded up to whole digits is three times the number of base-8 digits, at most 33 |
| `PathTree.AddDelGet` | common/generic/radix_tree.c:154-268 | add binds one path, delete unbinds one path, neither touches any other |
| `PathTree.DelCanonical` | common/generic/radix_tree.c:199-233 | pruning leaves no node without a link or a linked descendant |
| `PathTree.CanonicalUnique` | common/generic/radix_tree.c:199-233 | a tree without dead nodes is determined by its bindings |
| `PathTree.DelUndoesAdd` | common/generic/radix_tree.c:154-268 | deleting what was just added gives back the tree from before, node for node |
| `PathTree.RunIsMap` | common/generic/radix_tree.c:137-268 | after every run, adds that fail midway included, every lookup answers as a finite map |
| `PathTree.RunIsCanonical` | common/generic/radix_tree.c:154-268 | after every run whose calls complete, every node but the root carries a link or leads to one |
| `NodeStore.LinkedShape` | common/generic/radix_tree.c:167-178 | linking a new node keeps parent pointers and branch pointers in step |
| `NodeStore.LeafCut` | common/generic/radix_tree.c:207-218 | clearing the branch to a leaf takes exactly that leaf out of the tree |
| `NodeStore.FreeShape` | common/generic/radix_tree.c:225-231 | freeing an unlinked node changes nothing reachable |
| `NodeStore.ScanBranches` | common/generic/radix_tree.c:207-221 | the scan clears the branch to a child and tells whether any branch is left, early exit included |
| `RadixTree.RadixTree.Walk` | common/generic/radix_tree.c:106-129 | following the digits leads to the node of the number's path, or nowhere |
| `RadixTree.RadixTree.LookUp` | common/generic/radix_tree.c:137-146 | the link bound to the number |
| `RadixTree.RadixTree.Add` | common/generic/radix_tree.c:154-191 | binds an absent number when the allocator has a node for every missing level; otherwise no binding changes and exactly as many levels appear as there was memory for; a step of the runs of `PathTree` |
| `RadixTree.RadixTree.DelNode` | common/generic/radix_tree.c:199-233 | the recursion through parent pointers prunes exactly the dead branch and frees its nodes |
| `RadixTree.RadixTree.Delete` | common/generic/radix_tree.c:241-268 | unbinds a bound number and prunes, and leaves no freed node linked and no dead node allocated; a step of the runs of `PathTree` |
| `RadixTree.RadixRunIsMap` | common/generic/radix_tree.c:137-268 | over whole runs the radix tree is a finite map keyed by numbers |
| `TrieTree.OffsetsInjective` | common/generic/trie_tree.c:30-39 | different printable names have different paths |
| `TrieTree.NamesAre` | common/generic/trie_tree.c:30-39 | the names that have a path are those of characters from 32 to 126, and each character branches by its distance from 32 |
| `TrieTree.TrieRunIsMap` | common/generic/trie_tree.c:91-270 | over whole runs, failed adds included, the trie is a finite map keyed by printable names |
| `TrieTree.TrieTree.Find` | common/generic/trie_tree.c:91-113 | finds a bound name; faults exactly when the search reaches a character without a branch |
| `TrieTree.TrieTree.LookUp` | common/generic/trie_tree.c:121-130 | the link bound to a printable name; nothing for any other |
| `TrieTree.TrieTree.Add` | common/generic/trie_tree.c:138-183 | binds an absent name when the allocator has every node and branch array that is missing; an add that runs out of memory changes no binding; says exactly which node has an array and no child afterwards, and which no longer |
| `TrieTree.TrieTree.DelNode` | common/generic/trie_tree.c:191-235 | the leaf test, the array hand-back and the recursion together prune exactly the dead branch |
| `TrieTree.TrieTree.Walk` | common/generic/trie_tree.c:251-262 | the deletion walk reaches the node of a printable name or gives up |
| `TrieTree.TrieTree.Delete` | common/generic/trie_tree.c:243-270 | unbinds a bound, non-empty name; prunes exactly, unless the name's own node has an array and no child, and then exactly leaves it in place; a step of the runs of `PathTree` |
| `TrieTree.LooseIsStale` | common/generic/trie_tree.c:205-235 | the set kept beside the nodes is exactly that of the nodes with an array and no child |
| `TrieTree.LooseOverRun` | common/generic/trie_tree.c:138-270 | over whole runs, a node is one of those if and only if some add ran out of memory between its array and its child and no add has hung a child below it since |
| `TrieCases.StarvedAddKeepsNode` | common/generic/trie_tree.c:138-270 | in every trie: a bound name that leads nowhere, an add one character further with memory for the array only, and the deletion of the name leave the name unbound and its node in place |
| `TrieCases.StaleNode` | common/generic/trie_tree.c:138-270 | the same at one input: "a" is bound, "ab" fails, "a" is deleted, and its node is still there |
| `TrieTree.ArrayMeansChild` | common/generic/trie_tree.c:47-62 | while no add has failed midway, a node has a branch array exactly when it has a child |
| `KobjMap.NaiveIsBest` | platform/fwk_kobjmap.c:221-246 | the naive search returns the covering mapping with the smallest range, the newest of several |
| `KobjMap.LookupIsNaive` | platform/fwk_kobjmap.c:98-246 | when every mapping fits below major 255, or starts in major 0, the bucket of any device answers as the naive search of all mappings |
| `KobjMap.LookupBelowTop` | platform/fwk_kobjmap.c:98-246 | mappings of at least one device that end at or below device number 0xFF00000 are looked up as by the naive search |
| `KobjMap.LookupNeedsFit` | platform/fwk_kobjmap.c:112-149 | for a mapping on its own the buckets agree with the naive search on all devices if and only if it fits |
| `KobjMap.RemoveIsUndo` | platform/fwk_kobjmap.c:191-206 | removing the first match from a bucket is removing the newest match from the registry |
| `KobjMap.UndoAfterOthers` | platform/fwk_kobjmap.c:164-213 | undoing a mapping gives the registry in which it was never made, whatever other intervals were mapped since |
| `KobjMap.ReachableIsLive` | platform/fwk_kobjmap.c:208-210 | every probe that can be reached lies in an array that has not been freed |
| `KobjMap.Domain.Link` | platform/fwk_kobjmap.c:144-149 | the pointer walk inserts a probe in front of the first whose range is not smaller |
| `KobjMap.Domain.Map` | platform/fwk_kobjmap.c:98-156 | a mapping is copied into every bucket of its majors; data or memory that is null or an error code is refused without a change |
| `KobjMap.Domain.Unlink` | platform/fwk_kobjmap.c:191-206 | the pointer walk unlinks the first probe of exactly this interval |
| `KobjMap.Domain.Unmap` | platform/fwk_kobjmap.c:164-213 | the newest mapping of the interval is gone from every bucket, and its array, named by its first probe, is freed once |
| `KobjMap.Domain.Find` | platform/fwk_kobjmap.c:221-246 | the bucket walk returns the data of the first hit, which is the naive answer when all mappings fit |
| `KobjMap.TopMajorStays` | platform/fwk_kobjmap.c:110-153 | a mapping of the first device of major 255 survives its unmap, and so does its array |
| `ListHead.AddHead` | include/common/list_types.h:204-213 | the ring gains the entry in front |
| `ListHead.AddTail` | include/common/list_types.h:221-230 | the ring gains the entry at the end |
| `ListHead.DelHead` | include/common/list_types.h:238-244 | the ring loses its first entry, if any |
| `ListHead.DelTail` | include/common/list_types.h:252-258 | the ring loses its last entry, if any |
| `ListHead.Del` | include/common/list_types.h:266-275 | the entry leaves the ring and becomes a ring of its own |
| `ListHead.ForEach` | include/common/list_types.h:100-103 | the two-ended scan terminates and is exact for every length |
| `ListHead.DelSafe` | include/common/list_types.h:283-295 | an entry is unlinked if and only if it is in this ring; otherwise nothing at all changes |
| `ListHead.Turned` | include/common/list_types.h:221-230 | seen from any entry the ring is the same ring, turned |
| `ListHead.RingUnique` | include/common/list_types.h:100-103 | the pointers of a head determine its sequence |
| `Numbers.AsciiToDec` | common/generic/generic.c:172-236 | the parser computes what the text denotes, 32-bit wrap-around included; -1 for a text that denotes nothing, 0 for no text; the three members of `Positional` below say which texts denote what |
| `Positional.ReadsDecimal` | common/generic/generic.c:175-212 | a text without a prefix denotes nothing if and only if it has a character outside 0..9; otherwise the sum of its digits by place, in 32 bits |
| `Positional.ReadsHex` | common/generic/generic.c:179-224 | a text behind 0x or 0X denotes nothing if and only if it is empty or has a character outside 0..9, a..z and A..Z; otherwise the sum of its digits by place, in 32 bits |
| `Positional.ReadsBinary` | common/generic/generic.c:182-206 | a text behind 0b or 0B denotes nothing if and only if it is empty or has a character other than 0 and 1; otherwise the sum of its digits by place, in 32 bits |
| `Numbers.DecimalRoundTrip` | common/generic/api_string.c:258-287 | reading undoes decimal printing if and only if the number is below 2^31 |
| `Numbers.HexRoundTrip` | common/generic/generic.c:99-130 | reading undoes hexadecimal printing, in either case, if and only if the number is below 2^31 |
| `Numbers.BinaryRoundTrip` | common/generic/generic.c:138-164 | reading undoes binary printing if and only if the number is below 2^31 |
| `Positional.TextIsNumeral` | common/generic/api_string.c:258-287 | a printed number consists of digits of its base, without leading zeros, whose sum by place is the number |
| `Positional.NumeralIsText` | common/generic/api_string.c:258-287 | and no other text does |
| `Positional.HexIsNumeral` | common/generic/generic.c:99-130 | a printed hexadecimal number is 0x and lower-case digits, or 0X and upper-case digits, of that sum |
| `Positional.BinaryIsNumeral` | common/generic/generic.c:138-164 | a printed binary number is 0b and binary digits of that sum |
| `Printers.StringReverse` | common/generic/api_string.c:229-250 | the in-place reversal of a stretch of the buffer, or of the string up to its terminator when the size is zero, and nothing outside it |
| `Printers.ConvertNumber` | common/generic/api_string.c:258-287 | writes exactly the decimal digits at the given place, or only counts them |
| `Printers.DecToHex` | common/generic/generic.c:99-130 | writes exactly the prefixed hexadecimal text, never overruns its scratch array, or only counts |
| `Printers.DecToBinary` | common/generic/generic.c:138-164 | writes exactly the prefixed binary text, never overruns its scratch array, or only counts |
| `Format.MeasuredIsWhole` | common/generic/api_string.c:342-524 | the measuring pass, with its 32-bit length, reports the length of the whole text if and only if that is at most 2^32 - 2 |
| `Format.TwoPassesAgree` | common/generic/api_string.c:342-554 | writing with the measured length gives the whole text if and only if that is at most 2^32 - 2 characters long |
| `Format.PassesDisagree` | common/generic/api_string.c:342-554 | an input at which 4 characters are measured and none is written |
| `Format.SameDecisions` | common/generic/api_string.c:342-524 | a writing pass depends on its capacity only up to what it emits |
| `Format.OutputIsWhole` | common/generic/api_string.c:342-524 | nothing of the text is dropped if and only if all of it fits |
| `Format.HarmlessFormats` | common/generic/api_string.c:357-374 | a format is never read past its terminator, for all arguments and capacities, if and only if it is not a lone level mark and does not end in a percent sign; then the measuring pass does not either |
| `Format.RoomKeepsInside` | common/generic/api_string.c:357-374 | with room for the whole text only the lone level mark is read past its end |
| `Format.Directive` | common/generic/api_string.c:395-516 | one directive: what it emits, which argument it uses, and where the scan goes on when it does not fit; the members of `Directives` below say what that is, letter by letter |
| `Directives.PlainPrints` | common/generic/api_string.c:382-393 | plain text is copied, and cut off where the room ends |
| `Directives.LevelPrintsNothing` | common/generic/api_string.c:362-373 | the mark and the level at the start print nothing; a mark anywhere else is plain text |
| `Directives.CharPrints` | common/generic/api_string.c:401-411 | %c: the low byte of the argument as a character, or nothing if it does not fit |
| `Directives.DecimalPrints` | common/generic/api_string.c:413-426 | %d: the decimal numeral of the low 32 bits of the argument, or nothing if it does not fit |
| `Directives.LongPrints` | common/generic/api_string.c:428-457 | %ld: the decimal numeral of the low 64 bits; if it does not fit the argument is used up and the letter d is printed as plain text |
| `Directives.StringPrints` | common/generic/api_string.c:459-474 | %s: the string, or nothing if it does not fit |
| `Directives.HexPrints` | common/generic/api_string.c:476-490 | %x and %p: the lower-case hexadecimal numeral of the low 32 bits with its prefix, or nothing if it does not fit |
| `Directives.BinaryPrints` | common/generic/api_string.c:492-505 | %b: the binary numeral of the low 32 bits with its prefix, or nothing if it does not fit |
| `Directives.PercentPrints` | common/generic/api_string.c:507-516 | before any other letter, and at the end, a percent sign prints itself, uses no argument, and the scan goes on with the letter |
| `Directives.PercentSkips` | common/generic/api_string.c:507-516 | without room for it the percent sign takes the character behind it along |
| `Directives.WholeChar` | common/generic/api_string.c:401-411 | the whole text of plain text, %c, plain text and a rest: the parts in order, the rest with the arguments shifted by one |
| `Directives.WholeDecimal` | common/generic/api_string.c:413-426 | the same for %d |
| `Directives.WholeLong` | common/generic/api_string.c:428-457 | the same for %ld |
| `Directives.WholeString` | common/generic/api_string.c:459-474 | the same for %s |
| `Directives.WholeHex` | common/generic/api_string.c:476-490 | the same for %x |
| `Directives.WholePointer` | common/generic/api_string.c:476-490 | the same for %p |
| `Directives.WholeBinary` | common/generic/api_string.c:492-505 | the same for %b |
| `Directives.WholePercent` | common/generic/api_string.c:507-516 | the same for a percent sign before any other letter, with the arguments not shifted |
| `Format.FmtConvert` | common/generic/api_string.c:342-524 | the buffer holds exactly the scan's output, which the members of `Directives` describe part by part, and a terminator, never more than its capacity; without a buffer the length is measured in 32-bit arithmetic |
| `Format.VasPrintk` | common/generic/api_string.c:532-554 | measure, allocate, write: the result is the whole text, as the members of `Directives` give it, with a terminator if and only if the text is at most 2^32 - 2 characters long; otherwise its exact beginning |

## Left out

- Board and driver code, FatFs, the boot jump, console output and the assembly context switch are not modelled; `__schedule_thread` is one step.
- The allocator behind the trees, the device map and the formatter is a parameter: the addresses it will hand out, or whether it has memory.
- Header size is 32 bytes, words are 32 bits and pointers are integers; a header is told from other bytes by an entry of the memory map, so bytes of user data that imitate a magic word are not modelled.
- Class lists, status lists, timer lists and buckets are sequences in their models; the pointer form of the circular list is proved once, in `ListHead`. The bucket lists are singly linked in the code and not proved at pointer level.
- Changing a thread to an arbitrary status through `thread_set_state`, deleting threads, and priorities that change while a thread is registered are not modelled.
- The scheduler's lock is a parameter of a tick; the tick counter does not wrap, and the conversion of milliseconds does not overflow.
- The depth field that an add stores in the link of a tree is not modelled.
- Trie names end at their terminator, so a name has no NUL character; the branch function is the default one for printable characters.
- Formats, string arguments and the texts given to the number parser are the characters before their terminator, so they have no NUL character.
- Probe arrays and tree nodes lie below the top 4 KiB, where the allocator hands out nothing the kernel takes for a pointer.
- After a wild free nothing is promised: where the uninitialised bytes point is not modelled.
- Mutexes, semaphores, mailboxes, the work queue, bitmaps, ring buffers, the kobject path tree and the descriptor table are not modelled.
- MemBlock.MemBlockPool.Create: demands that the pool ends within the 32-bit address space, because the code computes its end without a check.
- TrieTree.TrieTree.Add: demands that a name with a character that has no branch is caught by the search, because the code otherwise indexes outside the branch array.
- KobjMap.Domain.Map: demands that the interval ends within 32 bits, because the bucket count of a wrapped interval is not meaningful; the code relies on registration for this.
- KobjMap.Domain.Unmap: demands that the interval ends within 32 bits, for the same reason.
- Numbers.AsciiToDec: models overflow of the signed accumulator as two's-complement wrap-around, which C leaves undefined.
- Format.FmtConvert: demands that the scan does not run past the terminator, which `Format.HarmlessFormats` ties to the format alone, and that a buffer and the string arguments lie side by side in the address space.
- Format.VasPrintk: demands the same of both passes.
