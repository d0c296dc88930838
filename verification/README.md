# Verified models of RT-Thread Nano and its tools

The project models the kernel core and two host tools of an STM32 application on
RT-Thread Nano, and proves what they promise. Each component has a value model (a
module named `...Spec`), theorems about it, and a class with the fields of the
source whose methods are proved to do what the value model says.

- **Heaps.** `SmallMem*` is `mem.c`: first fit over in-band headers in an array,
  contents of the payloads included. `MemHeap*` is `memheap.c`: a ring of headers
  and a free list through the free blocks. `SlabPages*` and `Slab*` are `slab.c`:
  zones of chunks over runs of pages. `Blocks`, `Rings`, `RtList` (`rtservice.h`)
  and `Memory` (`rt_memcpy`, `rt_memmove`) are what they share. `Common` and
  `Sequences` hold small types and list facts used throughout.
- **Timers.** `TimerSpec` and `TimerList` are `timer.c`: a skip list ordered by tick
  counts that wrap, against one sorted list in unbounded time.
- **Kernel objects.** `ReadyGroup`, `Scheduler*`, `Event*`, `Mutex*`, `MessageQueue*`
  (with `WaitList` and `BitSets`) are `scheduler.c`, `thread.c`, `clock.c` and parts
  of `ipc.c` as step systems.
- **Kconfig.** `KconfigSpec`, `KconfigCache` and `Kconfig` are the value cache of
  `kconfiglib.py`, `KconfigLoops` its search for dependency loops, `KconfigExpr` its
  expression printer and parser. `KconfigMeaning` says what the values of `KconfigSpec` mean,
  by when each is at least m or y.
- **ROM image.** `Romfs*` is the binary layout of `mkromfs.py`, with a reader.
- **AT commands.** `AtSpec` and `At` are the retry protocol of `myat_sever.c`, with its two
  threads on an event object of `Event`.

`dafny verify dfyconfig.toml` checks everything.

## What turned out false, and when it holds

- `mem.c`: `rt_realloc` leaves `lfree` above the block it splits off, so a later
  `rt_malloc` can refuse although a block fits (`ShrunkTailIsNotFound`);
  `ShrinkKeepsLowestIff` says exactly when. A size close to 2^32 is rounded to a
  small one (`MallocCapacity`), and for `rt_realloc` to 0, which frees the block
  (`ReallocFreesIff`). On a heap of less than 12 bytes, and on no other, the
  scan does not end (`ScanEndsIff`).
- `memheap.c`: sizes within 3 bytes of 2^32 are rounded to 12 (`AllocCapacity`,
  `AllocWraps`). The test for growing in place wraps for sizes within 12 bytes of it
  (`ReallocKeepsInvariantIff`, `OverflowIsReached`). A request for exactly all free bytes
  is refused even if a block fits it (`RefusedOnlyForTheLastByte`). A pool of less than
  48 bytes is not refused and not sound (`FreshIsSoundIff`).
- `slab.c`: the file comment promises that all power-of-two sizes are aligned to
  themselves; `MallocAlignedIff` says when they are, `LargePowerMisaligned` is a case in
  which they are not. It also promises that `malloc(0)` gives a pointer; the code returns
  NULL, and so does the model.
- `scheduler.c`: the count of nested locks is 16 bits wide (`LockHoldsIff`).
- `ipc.c`: the hold count of a mutex is 8 bits wide and wraps at the 256th nested take
  (`TakeKeepsInvariantIff`, `WrapIsReached`). A waiter that times out leaves its priority to the owner
  unless another waiter accounts for it (`ExpireIsExactIff`, `BoostOutlivesTimeout`).
- `myat_sever.c`: at most four transmissions lie between two calls of `ATSend` unless a
  wake-up of the transmitting thread is outstanding at the first, and then up to five;
  `AT_TNOCMD` gets the retries that were left instead of three (`BoundIsReached`,
  `MoreThanFourIff`). An acknowledgement does not end the retries if a timeout, but no
  second packet, comes between the matching packet and its round (`MatchEndsRetriesIff`).
  A timeout that is set together with a packet is forgotten, and with a packet that does
  not match the command stalls (`TimeoutCountsIff`, `StallsIff`).
- `kconfiglib.py`: the search for loops does not follow that the type of a tristate depends
  on `MODULES` (`ModulesFirstIff`, `FedModulesPass`).
- `kservice.c`: `rt_memcpy` repeats cells when the destination starts inside the source
  (`CopyIsMoveIff`).
- `timer.c`: tick comparison is right exactly within half the tick range
  (`ComparisonIsExact`).

## Model

| member | source | states |
|---|---|---|
| SmallMemTheorems.RunsKeepInvariant | RTT_NANAO_AT/rt-thread/src/mem.c:143-596 | after any run of malloc, realloc and free on live pointers from a fresh heap: the blocks tile the heap upwards without gap or overlap, no two free neighbours, `lfree` is a free block or the end, `used_mem` is the summed extent of used blocks and at most the peak; without realloc in the run, `lfree` is the lowest free block |
| SmallMemTheorems.PeakIsMostUsed | RTT_NANAO_AT/rt-thread/src/mem.c:259-596 | in any run of malloc and free `max_mem` is the greatest value `used_mem` ever had |
| SmallMemTheorems.FreshIsSound | RTT_NANAO_AT/rt-thread/src/mem.c:191-244 | a heap just initialised satisfies all of that |
| SmallMemTheorems.StepKeepsLowest | RTT_NANAO_AT/rt-thread/src/mem.c:259-596 | malloc and free keep `lfree` at the lowest free block |
| SmallMemTheorems.SearchIsFirst | RTT_NANAO_AT/rt-thread/src/mem.c:292-392 | the scan stops at the first block of the chain that is free, large enough and below the bound, and passes over none |
| SmallMemTheorems.MallocTakesFirstFromLfree | RTT_NANAO_AT/rt-thread/src/mem.c:259-397 | rt_malloc takes the first fitting block from `lfree` on, and fails exactly if there is none there |
| SmallMemTheorems.MallocIsFirstFit | RTT_NANAO_AT/rt-thread/src/mem.c:259-397 | while `lfree` is lowest: NULL if and only if no block of the heap fits below the bound, else the lowest one that does |
| SmallMemTheorems.MallocCapacity | RTT_NANAO_AT/rt-thread/src/mem.c:259-397 | a returned block is live and holds the size asked for if and only if rounding the size up did not wrap past 2^32 |
| SmallMemTheorems.MallocIsTight | RTT_NANAO_AT/rt-thread/src/mem.c:300-374 | it is larger than the rounded request by less than a header and a smallest block, as more would have been split off, and `used_mem` grows by exactly the block and its header |
| SmallMemTheorems.MallocWraps | RTT_NANAO_AT/rt-thread/src/mem.c:259-397 | the wrap is reachable: a request of 4294967293 bytes is answered with 12 bytes |
| SmallMemTheorems.LivePayloadsDisjoint | RTT_NANAO_AT/rt-thread/src/mem.c:259-397 | live payloads are 4-aligned, inside the heap, and apart by at least a header |
| SmallMemTheorems.MallocKeepsInvariant | RTT_NANAO_AT/rt-thread/src/mem.c:259-397 | rt_malloc keeps the heap invariant for every request |
| SmallMemTheorems.AllocKeepsLive | RTT_NANAO_AT/rt-thread/src/mem.c:259-397 | rt_malloc leaves every live block where and as large as it was and returns none of them |
| SmallMemTheorems.FreeKeepsLive | RTT_NANAO_AT/rt-thread/src/mem.c:533-596 | rt_free leaves every other live block where and as large as it was |
| SmallMemTheorems.FreeUndoesMalloc | RTT_NANAO_AT/rt-thread/src/mem.c:259-596 | freeing what was just allocated restores blocks, `lfree` and `used_mem` exactly |
| SmallMemTheorems.MallocKeepsLowest | RTT_NANAO_AT/rt-thread/src/mem.c:259-397 | rt_malloc keeps `lfree` at the lowest free block |
| SmallMemTheorems.FreeKeepsLowest | RTT_NANAO_AT/rt-thread/src/mem.c:143-181 | rt_free with its merging keeps `lfree` at the lowest free block |
| SmallMemTheorems.ShrinkKeepsLowestIff | RTT_NANAO_AT/rt-thread/src/mem.c:458-484 | the split in rt_realloc keeps `lfree` lowest if and only if a free block lay below the shrunk one or the tail merges with a free successor |
| SmallMemTheorems.ShrunkTailIsNotFound | RTT_NANAO_AT/rt-thread/src/mem.c:458-484 | a run of one malloc and one realloc on a fresh heap of 88 bytes after which a request is refused although a block fits it |
| SmallMemTheorems.ResizeMoves | RTT_NANAO_AT/rt-thread/src/mem.c:486-497 | a realloc that has to move finds its old block still live after allocating, frees it, and changes nothing if the allocation fails |
| SmallMemTheorems.ResizeStaysIff | RTT_NANAO_AT/rt-thread/src/mem.c:446-497 | a resized block stays in place if and only if it has the size already or what is cut off exceeds a header and a smallest block |
| SmallMemTheorems.ResizeIsTight | RTT_NANAO_AT/rt-thread/src/mem.c:446-497 | a resized block is larger than asked for by less than that, too |
| SmallMemTheorems.OwnSizeStays | RTT_NANAO_AT/rt-thread/src/mem.c:446-456 | resizing a live block to the size it has changes nothing |
| SmallMemTheorems.ReallocKeepsInvariant | RTT_NANAO_AT/rt-thread/src/mem.c:408-497 | rt_realloc of a live block keeps the heap invariant for every size |
| SmallMemTheorems.ReallocKeepsLive | RTT_NANAO_AT/rt-thread/src/mem.c:408-497 | rt_realloc returns a live block of at least the rounded size, leaves every other live block in place, and changes nothing when it refuses |
| SmallMemTheorems.ReallocFreesIff | RTT_NANAO_AT/rt-thread/src/mem.c:408-435 | rt_realloc frees the block and returns NULL if and only if the size is 0 or within 3 bytes of 2^32, where rounding it up gives 0 |
| SmallMemTheorems.TinyHeapSpins | RTT_NANAO_AT/rt-thread/src/mem.c:292-298 | on a heap below 12 bytes no accepted request lets the scan end: after any number of steps, from block to block and the sentinel to itself, it is inside the wrapped bound at a block that does not serve |
| SmallMemTheorems.ScanEnds | RTT_NANAO_AT/rt-thread/src/mem.c:292-298 | on any other heap the same scan ends, at the block the first-fit search names or behind the bound |
| SmallMemTheorems.ScanEndsIff | RTT_NANAO_AT/rt-thread/src/mem.c:292-298 | so the scan for the first request on a heap ends if and only if the heap has room for a block |
| SmallMemTheorems.FourByteHeapSpins | RTT_NANAO_AT/rt-thread/src/mem.c:191-244 | a region of 28 bytes and a request for one byte are such a case |
| SmallMem.SmallMem.constructor | RTT_NANAO_AT/rt-thread/src/mem.c:191-244 | the heap has the bytes between the rounded addresses less two headers, or is not set up; with room for a block it starts valid and empty |
| SmallMem.SmallMem.PlugForward | RTT_NANAO_AT/rt-thread/src/mem.c:152-167 | absorbing a free successor by rewriting links in the array yields the merged chain, moves `lfree` only off the vanished header, and writes to no live payload |
| SmallMem.SmallMem.PlugBack | RTT_NANAO_AT/rt-thread/src/mem.c:169-180 | the same for being absorbed by a free predecessor |
| SmallMem.SmallMem.PlugHoles | RTT_NANAO_AT/rt-thread/src/mem.c:143-181 | both merges together, on the array, with the links of all other headers intact |
| SmallMem.SmallMem.Scan | RTT_NANAO_AT/rt-thread/src/mem.c:292-298 | the loop over the in-band headers stops at the block that the first-fit search names, or past the bound |
| SmallMem.SmallMem.Take | RTT_NANAO_AT/rt-thread/src/mem.c:303-374 | splitting or taking the found block in the array gives a valid heap, advances `lfree`, and leaves all live cells alone |
| SmallMem.SmallMem.Advance | RTT_NANAO_AT/rt-thread/src/mem.c:367-374 | `lfree` ends at the next free block or the end |
| SmallMem.SmallMem.Malloc | RTT_NANAO_AT/rt-thread/src/mem.c:259-397 | the array code returns what first fit on the block list returns, leaves the matching heap, and changes no live byte |
| SmallMem.SmallMem.Free | RTT_NANAO_AT/rt-thread/src/mem.c:533-596 | the array code leaves the heap that freeing and merging on the block list gives, and every byte of what stays live |
| SmallMem.SmallMem.ShrinkInPlace | RTT_NANAO_AT/rt-thread/src/mem.c:458-484 | the in-place half of rt_realloc leaves a valid heap and every live byte, those kept in the block included |
| SmallMem.SmallMem.Resize | RTT_NANAO_AT/rt-thread/src/mem.c:446-497 | the first bytes of the block, up to the smaller of old and new size, are found at the returned address; every other live block keeps its bytes |
| SmallMem.SmallMem.ReallocLive | RTT_NANAO_AT/rt-thread/src/mem.c:408-497 | the same for any requested size, with the free and the refusal on size 0 and on too large a size |
| SmallMem.SmallMem.ReallocOther | RTT_NANAO_AT/rt-thread/src/mem.c:417-444 | NULL allocates; a pointer outside the heap comes back unchanged with the heap untouched |
| Memory.MemCpy | RTT_NANAO_AT/rt-thread/src/kservice.c:210-280 | by words and by bytes alike, cell i of the destination gets cell i of the source, or, where the destination starts p cells inside the source, cell i modulo p; nothing else changes |
| Memory.CopyIsMoveIff | RTT_NANAO_AT/rt-thread/src/kservice.c:210-280 | that is a move of the old contents if and only if the source is periodic, with the distance as period, where the destination overlaps its end; it always is where the destination does not start inside it |
| Memory.OverlapSmears | RTT_NANAO_AT/rt-thread/src/kservice.c:210-280 | a concrete overlap for which it is not |
| Memory.MemMove | RTT_NANAO_AT/rt-thread/src/kservice.c:293-312 | for every overlap, and in either direction, the destination gets the old contents of the source and nothing else changes |
| Rings.InsertOk | RTT_NANAO_AT/rt-thread/include/rtservice.h:58-65 | storing four links puts a new node into a circular list behind a given one, all other links still consistent in both directions |
| Rings.RemoveOk | RTT_NANAO_AT/rt-thread/include/rtservice.h:86-92 | storing two links takes a node out and leaves a consistent circular list of the others in order |
| RtList.TurnOk | RTT_NANAO_AT/rt-thread/include/rtservice.h:58-101 | a circular list read from any of its nodes is a circular list of the same nodes |
| RtList.LinksDetermine | RTT_NANAO_AT/rt-thread/include/rtservice.h:107-118 | the links and a head determine the list |
| RtList.Links.Init | RTT_NANAO_AT/rt-thread/include/rtservice.h:47-50 | the node is an empty list of its own; lists without it are unharmed |
| RtList.Links.InsertAfter | RTT_NANAO_AT/rt-thread/include/rtservice.h:58-65 | the list has the new node right behind the given one; every list that shares no node with it is unharmed |
| RtList.Links.InsertBefore | RTT_NANAO_AT/rt-thread/include/rtservice.h:73-80 | the list has the new node right before the given one, before the head being the last place; lists that share no node are unharmed |
| RtList.Links.Remove | RTT_NANAO_AT/rt-thread/include/rtservice.h:86-92 | the others form the list in their order, also if the node was its head, the node an empty list of its own, also if it was alone; lists that share no node are unharmed |
| RtList.Links.IsEmpty | RTT_NANAO_AT/rt-thread/include/rtservice.h:98-101 | true exactly for a list of the head alone |
| RtList.Links.Len | RTT_NANAO_AT/rt-thread/include/rtservice.h:107-118 | the walk ends and counts every node but the head |
| MemHeapProofs.Conservation | RTT_NANAO_AT/rt-thread/src/memheap.c:50-595 | payloads and headers of all blocks sum to the pool |
| MemHeapProofs.PoolIsConserved | RTT_NANAO_AT/rt-thread/src/memheap.c:50-595 | so `available_size`, the live payloads and the headers always sum to `pool_size` |
| MemHeapTheorems.RunsKeepInvariant | RTT_NANAO_AT/rt-thread/src/memheap.c:50-595 | a run of alloc, realloc and free keeps the blocks tiling the pool up to the tailer, no two neighbours free, the free list exactly the unused blocks once each, and `available_size` their summed payload, throughout, if and only if no growth test in it wraps |
| MemHeapTheorems.FreshIsSoundIff | RTT_NANAO_AT/rt-thread/src/memheap.c:50-121 | a pool just initialised satisfies this if and only if two headers fit into it |
| MemHeapTheorems.ChoiceIsFirstInList | RTT_NANAO_AT/rt-thread/src/memheap.c:138-281 | the block taken is the first of the free list with room; if none is taken although the request is below the available size, no block has room |
| MemHeapTheorems.AllocSucceedsIff | RTT_NANAO_AT/rt-thread/src/memheap.c:138-281 | a request succeeds if and only if it is strictly below the available size and some free block has room |
| MemHeapTheorems.RefusedOnlyForTheLastByte | RTT_NANAO_AT/rt-thread/src/memheap.c:138-281 | a request that some block could serve is refused if and only if it asks for all free bytes |
| MemHeapTheorems.LastByteIsRefused | RTT_NANAO_AT/rt-thread/src/memheap.c:138-281 | 952 bytes, all that is free in a fresh pool of 1000, are refused |
| MemHeapTheorems.AllocKeepsInvariant | RTT_NANAO_AT/rt-thread/src/memheap.c:138-281 | rt_memheap_alloc keeps the invariant for every request |
| MemHeapTheorems.AllocKeepsLive | RTT_NANAO_AT/rt-thread/src/memheap.c:138-281 | it disturbs no live block and returns one that was not live and has room for the rounded size |
| MemHeapTheorems.AllocCapacity | RTT_NANAO_AT/rt-thread/src/memheap.c:138-281 | so the block holds the size asked for if and only if rounding the size up did not wrap past 2^32 |
| MemHeapTheorems.AllocIsTight | RTT_NANAO_AT/rt-thread/src/memheap.c:183-243 | and it is larger than the rounded request by less than a header and a smallest block; `available_size` falls by the block, and by a header if one was split off |
| MemHeapTheorems.AllocWraps | RTT_NANAO_AT/rt-thread/src/memheap.c:138-281 | the wrap is reachable: on a fresh pool of 1000 bytes a request of 4294967293 is answered with 12 |
| MemHeapTheorems.FreeKeepsLive | RTT_NANAO_AT/rt-thread/src/memheap.c:495-595 | rt_memheap_free leaves every other live block in place |
| MemHeapTheorems.LiveDisjoint | RTT_NANAO_AT/rt-thread/src/memheap.c:138-281 | live payloads overlap neither each other nor a header nor the tailer |
| MemHeapTheorems.MoveKeepsInvariant | RTT_NANAO_AT/rt-thread/src/memheap.c:408-416 | a realloc that moves keeps the invariant and the other live blocks, and returns a block with room for the rounded size |
| MemHeapTheorems.OverflowBreaksInvariant | RTT_NANAO_AT/rt-thread/src/memheap.c:334-402 | a size within 12 bytes of 2^32 with a free right neighbour makes the growth test wrap and the heap unsound |
| MemHeapTheorems.OverflowIsReached | RTT_NANAO_AT/rt-thread/src/memheap.c:334-402 | one alloc and one realloc on a fresh pool of 1000 bytes are such a case |
| MemHeapTheorems.ReallocKeepsInvariantIff | RTT_NANAO_AT/rt-thread/src/memheap.c:284-492 | rt_memheap_realloc keeps the invariant if and only if that test does not wrap |
| MemHeapTheorems.ReallocKeepsLive | RTT_NANAO_AT/rt-thread/src/memheap.c:284-492 | then it disturbs no other live block, what it returns is live and holds the rounded size, and if it refuses nothing changes |
| MemHeapTheorems.ReallocCapacity | RTT_NANAO_AT/rt-thread/src/memheap.c:284-492 | which is room for the size asked for if and only if rounding it up did not wrap |
| MemHeapTheorems.ReallocStaysIff | RTT_NANAO_AT/rt-thread/src/memheap.c:318-420 | a resized block stays in place if and only if it has the size already or its right neighbour is free and keeps more than the least size |
| MemHeapTheorems.ReallocIsTight | RTT_NANAO_AT/rt-thread/src/memheap.c:284-492 | and it keeps no more than a header and a smallest block over the rounded size |
| MemHeapTheorems.FreeUndoesAlloc | RTT_NANAO_AT/rt-thread/src/memheap.c:138-595 | freeing what was just allocated restores the blocks and the available size exactly, and the free list up to order |
| MemHeapTheorems.FreedIsReused | RTT_NANAO_AT/rt-thread/src/memheap.c:138-595 | a freed block that is not merged to the left is the one the next request gets that it has room for, unless that asks for all free bytes |
| MemHeap.MemHeap.constructor | RTT_NANAO_AT/rt-thread/src/memheap.c:50-121 | the ring of two headers, the free list of one block and the counters of an empty pool; the heap is valid if and only if two headers fit |
| MemHeap.MemHeap.Search | RTT_NANAO_AT/rt-thread/src/memheap.c:169-180 | the walk over the free links stops at the first block of the list with room, or at the list header |
| MemHeap.MemHeap.Alloc | RTT_NANAO_AT/rt-thread/src/memheap.c:138-281 | ring, free list, flags and counters end as first fit on the block list says, with the pointer or failure it says |
| MemHeap.MemHeap.Merge | RTT_NANAO_AT/rt-thread/src/memheap.c:540-591 | a freed block is merged left and right in the ring, listed unless the left one absorbed it, and two headers at most return to the available bytes |
| MemHeap.MemHeap.Free | RTT_NANAO_AT/rt-thread/src/memheap.c:495-595 | the linked heap ends valid, as freeing on the block list says |
| MemHeap.MemHeap.Grow | RTT_NANAO_AT/rt-thread/src/memheap.c:334-402 | growing into the right neighbour moves its header and keeps ring, free list and flags in agreement, also if the new address wraps; blocks and counters end as the value model says |
| MemHeap.MemHeap.Shrink | RTT_NANAO_AT/rt-thread/src/memheap.c:419-492 | cutting the tail off keeps them in agreement, merged with a free right neighbour |
| MemHeap.MemHeap.Move | RTT_NANAO_AT/rt-thread/src/memheap.c:408-416 | the bytes of the block, up to the smaller size, are found at the new place, every live payload keeps its bytes, and the heap is as after allocating and freeing |
| MemHeap.MemHeap.Realloc | RTT_NANAO_AT/rt-thread/src/memheap.c:284-492 | for every size the linked heap refines the value model, the returned block has the bytes of the old one up to the smaller size and all live payloads keep theirs; it ends valid if and only if the growth test did not wrap |
| TimerSpec.InsertIsStable | RTT_NANAO_AT/rt-thread/src/timer.c:342-370 | the place found is the only one that keeps the list sorted and lets timers with the same deadline that started earlier go first |
| TimerList.ComparisonIsExact | RTT_NANAO_AT/rt-thread/src/timer.c:359-366 | comparing wrapped tick counts against half their range orders two deadlines correctly if and only if they differ by less than that half |
| TimerList.RowOfRow | RTT_NANAO_AT/rt-thread/src/timer.c:342-391 | each skip-list row is a subsequence of the row below |
| TimerList.RowSorted | RTT_NANAO_AT/rt-thread/src/timer.c:342-391 | each row is sorted by deadline |
| TimerList.RowInsert | RTT_NANAO_AT/rt-thread/src/timer.c:376-391 | inserting into the full list inserts into the rows the timer is tall enough for at the stable place, and leaves the others |
| TimerList.Handover | RTT_NANAO_AT/rt-thread/src/timer.c:368-370 | where the search of one row stops, the search of the next may start: never past the place looked for |
| TimerSpec.StartKeepsValid | RTT_NANAO_AT/rt-thread/src/timer.c:296-412 | starting keeps the list sorted, deadlines within the comparison window, and exactly the active timers pending |
| TimerSpec.StopKeepsValid | RTT_NANAO_AT/rt-thread/src/timer.c:422-447 | so does stopping, which succeeds exactly on a pending timer |
| TimerSpec.FireKeepsValid | RTT_NANAO_AT/rt-thread/src/timer.c:494-553 | so does firing the head |
| TimerSpec.FireReducesDue | RTT_NANAO_AT/rt-thread/src/timer.c:494-553 | each firing uses up one due timer, so rt_timer_check ends |
| TimerSpec.CheckFiresDue | RTT_NANAO_AT/rt-thread/src/timer.c:494-553 | rt_timer_check fires exactly the due timers, once each, in deadline order with ties in start order, and leaves none that is due |
| TimerSpec.CheckLeaves | RTT_NANAO_AT/rt-thread/src/timer.c:494-553 | afterwards exactly those not yet due pend, and one period from now each periodic timer that fired and was not stopped |
| TimerSpec.TickKeepsValid | RTT_NANAO_AT/rt-thread/src/clock.c:67-89 | a tick keeps every pending deadline in the window |
| TimerSpec.OneShotFiresOnTime | RTT_NANAO_AT/rt-thread/src/timer.c:494-553 | in any run of ticks, starts and stops of others, a pending one-shot timer fires exactly once, at its deadline or at the next tick if that has come, if the run gets there |
| TimerSpec.StartedFiresOnTime | RTT_NANAO_AT/rt-thread/src/timer.c:296-412 | a one-shot timer fires exactly `init_tick` ticks after its start, once, and after one tick if that is 0, whatever happens to other timers |
| TimerSpec.PeriodicFiresOnTime | RTT_NANAO_AT/rt-thread/src/timer.c:494-553 | a pending periodic timer that is left alone fires at its deadline, then once per period, as far as the run gets, and at no other tick |
| TimerSpec.StartedFiresEveryPeriod | RTT_NANAO_AT/rt-thread/src/timer.c:296-553 | so it fires for the kth time exactly k times `init_tick` ticks after its start, for every k the run reaches |
| TimerSpec.IdleStaysSilent | RTT_NANAO_AT/rt-thread/src/timer.c:494-553 | a one-shot timer that does not pend never fires until it is started |
| TimerList.TimerList.constructor | RTT_NANAO_AT/rt-thread/src/timer.c:679-687 | empty rows at tick 0 |
| TimerList.TimerList.Remove | RTT_NANAO_AT/rt-thread/src/timer.c:121-129 | out of every row, with all rows still showing the remaining list |
| TimerList.TimerList.Search | RTT_NANAO_AT/rt-thread/src/timer.c:345-367 | one row of the search stops behind every node due no later than the new one |
| TimerList.TimerList.FindHeads | RTT_NANAO_AT/rt-thread/src/timer.c:342-370 | so does the nested search for every row |
| TimerList.TimerList.RaiseRows | RTT_NANAO_AT/rt-thread/src/timer.c:376-391 | the new node enters the last row and a run of rows above it, at the places found |
| TimerList.TimerList.Start | RTT_NANAO_AT/rt-thread/src/timer.c:296-412 | the skip list of any number of rows does what a stable insert into one sorted list does, as long as `init_tick` and the overdue ticks of pending timers together stay in half the tick range |
| TimerList.TimerList.Stop | RTT_NANAO_AT/rt-thread/src/timer.c:422-447 | the timer leaves all rows and its flag is cleared, or an error if it was not active |
| TimerList.TimerList.Check | RTT_NANAO_AT/rt-thread/src/timer.c:494-553 | the loop over the first nodes fires what the sorted list says, in its order |
| TimerList.TimerList.TickIncrease | RTT_NANAO_AT/rt-thread/src/clock.c:67-89 | a tick on the 32-bit counter refines a tick of unbounded time, wrap-around included |
| SlabPagesSpec.Unique | RTT_NANAO_AT/rt-thread/src/slab.c:236-322 | the sorted, gap-separated run list of a set of free pages is unique |
| SlabPagesSpec.AllocTakes | RTT_NANAO_AT/rt-thread/src/slab.c:236-270 | rt_page_alloc takes exactly k free pages in a row out of the free set and keeps the list canonical |
| SlabPagesSpec.AllocIsLowest | RTT_NANAO_AT/rt-thread/src/slab.c:236-270 | they are the lowest such pages, and NULL means that there are none |
| SlabPagesSpec.ReleaseAdds | RTT_NANAO_AT/rt-thread/src/slab.c:272-322 | rt_page_free adds exactly the named pages and keeps the list canonical |
| SlabPagesSpec.ReleaseUndoesAlloc | RTT_NANAO_AT/rt-thread/src/slab.c:236-322 | releasing what was allocated restores the identical list |
| SlabPages.PageList.constructor | RTT_NANAO_AT/rt-thread/src/slab.c:327-334 | all pages are one free run |
| SlabPages.PageList.Alloc | RTT_NANAO_AT/rt-thread/src/slab.c:236-270 | the linked list in the free pages is edited through the link to the found node into the list the value model gives |
| SlabPages.PageList.Free | RTT_NANAO_AT/rt-thread/src/slab.c:272-322 | so it is for extending a run, closing a gap, going before a run or becoming a run |
| SlabProofs.ClassIsTight | RTT_NANAO_AT/rt-thread/src/slab.c:401-459 | every request below 16 KiB has a class whose chunk holds it and wastes less than 8 bytes or an eighth of it |
| SlabProofs.ClassesAreOrdered | RTT_NANAO_AT/rt-thread/src/slab.c:401-459 | the classes grow with the request, have one chunk size each, and no request fits a lower class |
| SlabProofs.ChunksPartition | RTT_NANAO_AT/rt-thread/src/slab.c:478-904 | each chunk of a zone is live, freed or never used, exactly one of the three; `z_nfree` reaches `z_nmax` if and only if none is live |
| SlabProofs.ChunksApart | RTT_NANAO_AT/rt-thread/src/slab.c:556-568 | live chunks of one zone do not overlap |
| SlabProofs.TakeOk | RTT_NANAO_AT/rt-thread/src/slab.c:543-568 | taking a chunk makes exactly one more live and keeps the zone counters in agreement |
| SlabProofs.PutOk | RTT_NANAO_AT/rt-thread/src/slab.c:830-842 | putting one back makes exactly that one no longer live |
| SlabProofs.TakesInOrder | RTT_NANAO_AT/rt-thread/src/slab.c:543-568 | a zone hands out never-used chunks in order first, and then the one freed last |
| SlabTheorems.RunsKeepInvariant | RTT_NANAO_AT/rt-thread/src/slab.c:478-904 | over every run of rt_malloc and rt_free: zones are in order, memusage leads to them, a zone is on its class list if and only if it has a free chunk, pages are free or in one region |
| SlabTheorems.FreshIsSound | RTT_NANAO_AT/rt-thread/src/slab.c:344-395 | so it is after initialisation, with nothing live |
| SlabTheorems.LiveDisjoint | RTT_NANAO_AT/rt-thread/src/slab.c:478-904 | live blocks do not overlap and lie in pages that are not free |
| SlabTheorems.MallocOk | RTT_NANAO_AT/rt-thread/src/slab.c:478-667 | rt_malloc fails exactly on the requests for which neither a zone nor enough pages are free, then changing nothing; otherwise exactly one live block is added, with room for the request |
| SlabTheorems.MallocIsTight | RTT_NANAO_AT/rt-thread/src/slab.c:478-667 | the block wastes less than 8 bytes or an eighth of the request if it is small, and less than a page if it is large |
| SlabTheorems.FreeOk | RTT_NANAO_AT/rt-thread/src/slab.c:771-904 | rt_free of a live block takes away exactly that one |
| SlabTheorems.FreeUndoesMalloc | RTT_NANAO_AT/rt-thread/src/slab.c:478-904 | freeing what was just allocated leaves the live blocks as they were |
| SlabTheorems.LargeRoundTrip | RTT_NANAO_AT/rt-thread/src/slab.c:493-521 | a large block that is freed again leaves the identical page list |
| SlabTheorems.RetireOk | RTT_NANAO_AT/rt-thread/src/slab.c:854-901 | moving an empty zone to the spare list, or giving its pages back, leaves the live blocks as they are |
| SlabTheorems.EmptyZonesAreFew | RTT_NANAO_AT/rt-thread/src/slab.c:854-901 | over every run at most one zone of a class stands without live chunks; all others went back to the spare zones or to the free pages |
| SlabTheorems.ChunksAreAligned | RTT_NANAO_AT/rt-thread/src/slab.c:631-638 | a chunk of a power-of-two size is aligned to it exactly as far as its zone is |
| SlabTheorems.SmallPowersAligned | RTT_NANAO_AT/rt-thread/src/slab.c:152-153 | up to a page, power-of-two chunks are aligned to their size |
| SlabTheorems.MallocAlignedIff | RTT_NANAO_AT/rt-thread/src/slab.c:478-667 | the address returned for any power of two is aligned to it if and only if the request is at most a page or the page it is answered from, known before the call, is a multiple of its number of pages |
| SlabTheorems.PowerChunk | RTT_NANAO_AT/rt-thread/src/slab.c:401-459 | a request for a power of two below 16 KiB gets a chunk of exactly its size, or of 8 bytes |
| SlabTheorems.LargePowerMisaligned | RTT_NANAO_AT/rt-thread/src/slab.c:152-153 | above a page the promise of the file comment fails: a fresh heap answers 8192 bytes with address 4096 |
| Slab.Slab.constructor | RTT_NANAO_AT/rt-thread/src/slab.c:344-395 | the zone size is the smallest power of two that meets the heap size, the pages left after memusage are free |
| Slab.Slab.MallocListed | RTT_NANAO_AT/rt-thread/src/slab.c:539-577 | a chunk of the first zone of the class, the zone leaving the list with its last one |
| Slab.Slab.MallocNew | RTT_NANAO_AT/rt-thread/src/slab.c:587-659 | a spare zone, or new pages, become a zone of the class with one chunk live |
| Slab.Slab.Malloc | RTT_NANAO_AT/rt-thread/src/slab.c:478-667 | large, listed and new-zone requests refine the value model |
| Slab.Slab.PutChunk | RTT_NANAO_AT/rt-thread/src/slab.c:830-846 | the chunk goes back and its zone is listed again if it was exhausted |
| Slab.Slab.Retire | RTT_NANAO_AT/rt-thread/src/slab.c:854-901 | an empty zone is unlisted and becomes spare, or its pages are free again beyond the threshold |
| Slab.Slab.Free | RTT_NANAO_AT/rt-thread/src/slab.c:771-904 | from any live address memusage leads to the zone or large block, which is freed as the value model says |
| MessageQueueSpec.StepKeepsInvariant | RTT_NANAO_AT/rt-thread/src/ipc.c:1962-2324 | every critical section of send, urgent, recv and reset keeps each node in exactly one of free list, queue and the hands of one thread, `max_msgs` in all, with its message |
| MessageQueueSpec.StepRefines | RTT_NANAO_AT/rt-thread/src/ipc.c:1962-2265 | send appends at its linking section and nowhere else, urgent prepends, recv takes the front; no other step of any thread changes the queue |
| MessageQueueSpec.SendWorks | RTT_NANAO_AT/rt-thread/src/ipc.c:1962-2135 | while a node is free every message up to the size of a node can be sent, and is then last in the queue, or first if urgent |
| MessageQueueSpec.ReceiveWorks | RTT_NANAO_AT/rt-thread/src/ipc.c:2137-2276 | while a message is queued the first one can be received, and its node is free again |
| MessageQueueSpec.HeldIsStable | RTT_NANAO_AT/rt-thread/src/ipc.c:1992-2004 | what a thread holds between its two sections is not touched by the steps of others |
| MessageQueueSpec.ReceivedIsSent | RTT_NANAO_AT/rt-thread/src/ipc.c:2236-2258 | a receiver that copies the node it took gets the message, up to its buffer |
| MessageQueueSpec.RunsKeepInvariant | RTT_NANAO_AT/rt-thread/src/ipc.c:1962-2324 | all of this holds over every interleaving |
| MessageQueueSpec.Fifo | RTT_NANAO_AT/rt-thread/src/ipc.c:1962-2265 | without urgent messages, what was queued and is linked is what is received and still queued, in this order |
| MessageQueueSpec.NothingLost | RTT_NANAO_AT/rt-thread/src/ipc.c:1962-2265 | with them, each message comes out or stays queued as often as it went in |
| MessageQueueSpec.InitIsSound | RTT_NANAO_AT/rt-thread/src/ipc.c:1779-1826 | a new queue is empty with all nodes free |
| MessageQueue.MessageQueue.constructor | RTT_NANAO_AT/rt-thread/src/ipc.c:1779-1826 | the pool is threaded into the free list |
| MessageQueue.MessageQueue.ReserveNode | RTT_NANAO_AT/rt-thread/src/ipc.c:1979-1996 | the first section of a send takes the head of the free list, or fails on an empty one with nothing changed |
| MessageQueue.MessageQueue.FillNode | RTT_NANAO_AT/rt-thread/src/ipc.c:1998-2001 | the copy outside the sections touches the held node only |
| MessageQueue.MessageQueue.LinkLast | RTT_NANAO_AT/rt-thread/src/ipc.c:2003-2019 | the node becomes the tail, and the head if the queue was empty |
| MessageQueue.MessageQueue.LinkFirst | RTT_NANAO_AT/rt-thread/src/ipc.c:2091-2103 | the node becomes the head, and the tail if the queue was empty |
| MessageQueue.MessageQueue.PopNode | RTT_NANAO_AT/rt-thread/src/ipc.c:2236-2249 | the head leaves the queue, the tail with it if it was the last |
| MessageQueue.MessageQueue.Copy | RTT_NANAO_AT/rt-thread/src/ipc.c:2251-2252 | the buffer gets the message that was sent, as far as it has room |
| MessageQueue.MessageQueue.PutNode | RTT_NANAO_AT/rt-thread/src/ipc.c:2254-2260 | the node heads the free list |
| MessageQueue.MessageQueue.Empty | RTT_NANAO_AT/rt-thread/src/ipc.c:2287-2321 | a reset moves every queued node to the free list |
| EventSpec.SendIsExact | RTT_NANAO_AT/rt-thread/src/ipc.c:1027-1109 | a send wakes waiters each with set bits it wants, with AND all of them, gives no cleared bit twice, ends with the old and new bits less exactly the cleared ones, and keeps or wakes every waiter in order; nobody is left waiting in vain |
| EventSpec.DeliverHandsOut | RTT_NANAO_AT/rt-thread/src/ipc.c:1052-1099 | the same for the loop from any starting set |
| EventSpec.DeliverSplits | RTT_NANAO_AT/rt-thread/src/ipc.c:1052-1099 | woken and kept threads interleave to the old wait list |
| EventSpec.PassedOverFor | RTT_NANAO_AT/rt-thread/src/ipc.c:1052-1099 | a waiter whose condition the bits meet at the start is woken at its turn, or else waiters before it cleared a bit it asked for |
| EventSpec.RecvKeepsQuiet | RTT_NANAO_AT/rt-thread/src/ipc.c:1125-1235 | a receiver waits exactly if its condition is not met, and else gets all it wants with AND, or with OR all of that which is set, cleared if it asks for it |
| EventSpec.RecvMeans | RTT_NANAO_AT/rt-thread/src/ipc.c:1125-1235 | each reply if and only if its case holds; a thread that waits queues by priority behind its equals, or last, and nothing else about the waiters changes |
| EventSpec.MetMeans | RTT_NANAO_AT/rt-thread/src/ipc.c:1059-1079 | an AND condition is met if all wanted bits are set, an OR condition if one is |
| EventSpec.GotMeans | RTT_NANAO_AT/rt-thread/src/ipc.c:1059-1079 | a thread gets exactly the bits that are set and that it wants |
| EventSpec.LeftMeans | RTT_NANAO_AT/rt-thread/src/ipc.c:1081-1095 | with CLEAR exactly these leave the set, without it none |
| EventSpec.LeaveMeans | RTT_NANAO_AT/rt-thread/src/thread.c:731-753 | a thread that times out, and no other, leaves the waiters |
| EventSpec.RunsAreQuiet | RTT_NANAO_AT/rt-thread/src/ipc.c:1027-1235 | after every step of every run no suspended condition is met |
| WaitList.PutIsStable | RTT_NANAO_AT/rt-thread/src/ipc.c:78-121 | a wait list by priority stays sorted with equals in order of arrival |
| Event.EventObject.constructor | RTT_NANAO_AT/rt-thread/src/ipc.c:913-931 | an empty set without waiters |
| Event.EventObject.Send | RTT_NANAO_AT/rt-thread/src/ipc.c:1027-1109 | the loop over the list refines this, and each woken thread finds what it got |
| Event.EventObject.Recv | RTT_NANAO_AT/rt-thread/src/ipc.c:1125-1235 | up to the wait, refines the value model with the error code of each outcome |
| Event.EventObject.Check | RTT_NANAO_AT/rt-thread/src/ipc.c:1061-1080 | a condition is tested as AND and OR demand |
| Event.EventObject.Expire | RTT_NANAO_AT/rt-thread/src/thread.c:731-753 | a timed-out thread leaves the list, with the error, and nothing else changes |
| ReadyGroup.FfsIsLowest | RTT_NANAO_AT/rt-thread/src/kservice.c:1311-1325 | the table search finds the lowest set bit, from 1 |
| ReadyGroup.FfsIsZeroIff | RTT_NANAO_AT/rt-thread/src/kservice.c:1311-1325 | and finds none exactly in an empty group |
| ReadyGroup.BitsAreIndependent | RTT_NANAO_AT/rt-thread/src/scheduler.c:286-372 | setting or clearing the mask of one priority leaves the bits of all others |
| SchedulerTheorems.SchedulePicksBest | RTT_NANAO_AT/rt-thread/src/scheduler.c:189-277 | unlocked, the head of the lowest-numbered list that is not empty becomes current; no ready thread has a better priority |
| SchedulerTheorems.RunsKeepInvariant | RTT_NANAO_AT/rt-thread/src/scheduler.c:189-423 | in every run a thread is in the ready list of its current priority if and only if it is READY, bit p is set if and only if list p is not empty |
| SchedulerTheorems.InitIsSound | RTT_NANAO_AT/rt-thread/src/scheduler.c:118-145 | so it is at the start |
| SchedulerTheorems.InsertOk | RTT_NANAO_AT/rt-thread/src/scheduler.c:286-323 | inserting keeps lists and group in agreement |
| SchedulerTheorems.RemoveOk | RTT_NANAO_AT/rt-thread/src/scheduler.c:332-372 | so does removing, the bit going with the last thread of its list |
| SchedulerTheorems.ResumeOk | RTT_NANAO_AT/rt-thread/src/thread.c:688-722 | resuming keeps lists and group consistent, and makes a suspended thread READY; any other is an error without effect |
| SchedulerTheorems.SuspendOk | RTT_NANAO_AT/rt-thread/src/thread.c:645-678 | suspending keeps them consistent, and makes a READY thread suspended; any other is an error without effect |
| SchedulerTheorems.StartupOk | RTT_NANAO_AT/rt-thread/src/thread.c:265-297 | starting keeps them consistent and makes the thread READY at its initial priority, no other thread being changed |
| SchedulerTheorems.ChangePriorityOk | RTT_NANAO_AT/rt-thread/src/thread.c:566-632 | changing the priority in and out of READY keeps them consistent, gives the thread that priority and changes nothing else of it |
| SchedulerTheorems.YieldOk | RTT_NANAO_AT/rt-thread/src/thread.c:449-483 | yielding keeps them consistent, and does nothing if the thread is not READY or alone in its list |
| SchedulerTheorems.CloseOk | RTT_NANAO_AT/rt-thread/src/thread.c:81-438 | closing keeps them consistent, closes the thread and changes no other |
| SchedulerTheorems.SliceOk | RTT_NANAO_AT/rt-thread/src/clock.c:67-89 | so does using up a tick |
| SchedulerTheorems.YieldHandsOver | RTT_NANAO_AT/rt-thread/src/thread.c:449-483 | yielding hands over to the next thread of the priority and puts the yielder last |
| SchedulerTheorems.CountsDown | RTT_NANAO_AT/rt-thread/src/clock.c:63-87 | a thread with its turn keeps running while its slice lasts, with one tick less each time |
| SchedulerTheorems.TurnEnds | RTT_NANAO_AT/rt-thread/src/clock.c:63-87 | the tick that uses it up renews it, puts the thread last and makes the next of its priority current |
| SchedulerTheorems.RoundRobin | RTT_NANAO_AT/rt-thread/src/clock.c:63-87 | so while nothing else happens the j-th thread of the best list becomes current exactly when those before it have used up what was left of their slices, and after a round the list is as it was |
| SchedulerTheorems.LockedKeepsCurrent | RTT_NANAO_AT/rt-thread/src/scheduler.c:189-423 | over any run of steps in which the scheduler stays locked the current thread stays current |
| SchedulerTheorems.LockHoldsIff | RTT_NANAO_AT/rt-thread/src/scheduler.c:377-423 | of d nested locks, giving one back leaves the scheduler locked if and only if it was not the last and the 16-bit count did not wrap |
| Scheduler.Scheduler.constructor | RTT_NANAO_AT/rt-thread/src/scheduler.c:118-145 | empty lists and group |
| Scheduler.Scheduler.Schedule | RTT_NANAO_AT/rt-thread/src/scheduler.c:189-277 | the current thread is a best one when unlocked, and unchanged when locked |
| Scheduler.Scheduler.InsertThread | RTT_NANAO_AT/rt-thread/src/scheduler.c:286-323 | the thread is READY and last in the list of its priority; no other list and no other bit of the group changed; lists and group agree as before |
| Scheduler.Scheduler.RemoveThread | RTT_NANAO_AT/rt-thread/src/scheduler.c:332-372 | the thread is in no list, the others keep theirs, and the bit went if and only if it was the last of its list |
| Scheduler.Scheduler.Resume | RTT_NANAO_AT/rt-thread/src/thread.c:688-722 | a suspended thread is inserted, any other is an error |
| Scheduler.Scheduler.Startup | RTT_NANAO_AT/rt-thread/src/thread.c:265-297 | the thread is READY at its initial priority; with a current thread a best one runs |
| Scheduler.Scheduler.Suspend | RTT_NANAO_AT/rt-thread/src/thread.c:645-678 | a ready thread leaves its list, any other is an error |
| Scheduler.Scheduler.Timeout | RTT_NANAO_AT/rt-thread/src/thread.c:731-753 | the thread is READY and a best one runs |
| Scheduler.Scheduler.ChangePriority | RTT_NANAO_AT/rt-thread/src/thread.c:566-632 | a ready thread moves to the list of the new priority, any other gets the number and mask |
| Scheduler.Scheduler.Yield | RTT_NANAO_AT/rt-thread/src/thread.c:449-483 | the lists rotate as stated, and a best thread runs |
| Scheduler.Scheduler.Exit | RTT_NANAO_AT/rt-thread/src/thread.c:81-116 | the current thread is closed and another runs |
| Scheduler.Scheduler.CloseThread | RTT_NANAO_AT/rt-thread/src/thread.c:308-438 | the thread is closed and in no list |
| Scheduler.Scheduler.ExitCritical | RTT_NANAO_AT/rt-thread/src/scheduler.c:398-423 | leaving the last level makes a best thread current |
| Scheduler.Scheduler.Tick | RTT_NANAO_AT/rt-thread/src/clock.c:67-89 | a thread whose slice is over gets a new one and yields |
| MutexSpec.TakeKeepsInvariantIff | RTT_NANAO_AT/rt-thread/src/ipc.c:652-777 | a take keeps everything in order if and only if it is not the 256th nested one, which wraps the 8-bit hold count |
| MutexSpec.ReplyIs | RTT_NANAO_AT/rt-thread/src/ipc.c:652-777 | taken is answered if and only if the thread owns the mutex then, suspended if and only if it waits, and timed out if and only if nothing changed |
| MutexSpec.HoldsAreReached | RTT_NANAO_AT/rt-thread/src/ipc.c:652-777 | a free mutex, or one a thread owns, can be taken by that thread until it is held 255 times |
| MutexSpec.WrapIsReached | RTT_NANAO_AT/rt-thread/src/ipc.c:652-777 | so from every free mutex a run reaches the take that sets the hold count to 0 while the mutex is owned |
| MutexSpec.SuspendedQueuesByPriority | RTT_NANAO_AT/rt-thread/src/ipc.c:78-121 | a thread that has to wait queues behind all as good as it and before all others |
| MutexSpec.ReleaseKeepsInvariant | RTT_NANAO_AT/rt-thread/src/ipc.c:788-879 | only the owner can release; a release that is not the last counts down by one; the last restores the priority and hands the mutex, held once, to the first waiter, who is as good as any other |
| MutexSpec.ExpireKeepsInvariant | RTT_NANAO_AT/rt-thread/src/thread.c:731-753 | a timeout keeps the queue in order and nobody's own priority changes |
| MutexSpec.TakeAndReleaseAreExact | RTT_NANAO_AT/rt-thread/src/ipc.c:652-879 | while nobody times out the owner runs at exactly the best of its own and its waiters' priorities |
| MutexSpec.ExpireIsExactIff | RTT_NANAO_AT/rt-thread/src/ipc.c:719-760 | after a timeout it still does if and only if the thread was not the one it inherited from alone: the first of the queue, with the next one weaker |
| MutexSpec.BoostOutlivesTimeout | RTT_NANAO_AT/rt-thread/src/ipc.c:719-760 | two takes and a timeout on a free mutex leave an owner with an inherited priority and no waiter |
| MutexSpec.RunsKeepPriorities | RTT_NANAO_AT/rt-thread/src/ipc.c:652-879 | over every run free, no owner and hold 0 coincide, waiters imply an owner, the queue is a priority order, the owner is never weaker than any waiter, and own priorities stay |
| Mutex.Mutex.constructor | RTT_NANAO_AT/rt-thread/src/ipc.c:528-548 | a free mutex |
| Mutex.Mutex.Take | RTT_NANAO_AT/rt-thread/src/ipc.c:652-777 | on the scheduler's threads, take, inheritance and queueing refine the value model, and the state stays valid if and only if hold does not wrap |
| Mutex.Mutex.Inherit | RTT_NANAO_AT/rt-thread/src/ipc.c:719-726 | the owner's priority becomes the better of the two, no thread changes its state |
| Mutex.Mutex.Enqueue | RTT_NANAO_AT/rt-thread/src/ipc.c:78-121 | the thread is suspended and stands at its place by priority |
| Mutex.Mutex.Release | RTT_NANAO_AT/rt-thread/src/ipc.c:788-879 | refines the value model; the new owner is READY |
| Mutex.Mutex.Pass | RTT_NANAO_AT/rt-thread/src/ipc.c:826-869 | the last release restores the priority and hands over, or frees the mutex |
| Mutex.Mutex.Expire | RTT_NANAO_AT/rt-thread/src/thread.c:731-753 | the thread is READY and out of the queue; the owner keeps what it inherited |
| KconfigCache.CachedIsScratch | RTT_NANAO_AT/rt-thread/tools/kconfiglib.py:4166-4402 | in an acyclic configuration every cached visibility, tristate and string value is that of an evaluation from scratch |
| KconfigCache.CachedValues | RTT_NANAO_AT/rt-thread/tools/kconfiglib.py:4166-4402 | the same, symbol by symbol |
| KconfigCache.EvalGrows | RTT_NANAO_AT/rt-thread/tools/kconfiglib.py:5838-5892 | a value that short-circuited evaluation finds stays the same however much more is cached |
| KconfigCache.FullEval | RTT_NANAO_AT/rt-thread/tools/kconfiglib.py:5838-5892 | over a full cache the short-circuited evaluation is the plain one |
| KconfigCache.EmptyingKeepsCoherent | RTT_NANAO_AT/rt-thread/tools/kconfiglib.py:4737-4788 | invalidation may stop at symbols without cached visibility: what is left cached still follows from what is left, for the new user value |
| KconfigCache.NoPromptNoUser | RTT_NANAO_AT/rt-thread/tools/kconfiglib.py:4768-4788 | the user value of a symbol without prompt has no effect on its values |
| KconfigCache.Store | RTT_NANAO_AT/rt-thread/tools/kconfiglib.py:4307-4384 | caching a computed value keeps the cache coherent |
| Kconfig.Kconfig.constructor | RTT_NANAO_AT/rt-thread/tools/kconfiglib.py:942-960 | constants are cached, nothing else, no user values, and the dependents are right |
| Kconfig.Kconfig.MakeDependOn | RTT_NANAO_AT/rt-thread/tools/kconfiglib.py:6175-6191 | exactly the symbols of the expression other than constants get the dependent |
| Kconfig.Kconfig.BuildDep | RTT_NANAO_AT/rt-thread/tools/kconfiglib.py:3354-3413 | afterwards the dependents of every symbol are exactly the symbols that mention it |
| Kconfig.Kconfig.ExprValue | RTT_NANAO_AT/rt-thread/tools/kconfiglib.py:5838-5892 | the result follows from the values cached by then; nothing cached is changed |
| Kconfig.Kconfig.Comparison | RTT_NANAO_AT/rt-thread/tools/kconfiglib.py:5866-5892 | numbers compare as numbers, else strings as strings |
| Kconfig.Kconfig.Visibility | RTT_NANAO_AT/rt-thread/tools/kconfiglib.py:4396-4402 | the cached visibility follows from the prompts and direct dependencies |
| Kconfig.Kconfig.Default | RTT_NANAO_AT/rt-thread/tools/kconfiglib.py:4343-4349 | the first default whose condition is not n counts, limited by the condition, and nothing behind it is evaluated |
| Kconfig.Kconfig.Own | RTT_NANAO_AT/rt-thread/tools/kconfiglib.py:4335-4356 | the user value as far as visible, or else the default and what implies it, from what is cached by then |
| Kconfig.Kconfig.Finish | RTT_NANAO_AT/rt-thread/tools/kconfiglib.py:4367-4371 | m is promoted exactly for symbols that are bool at the moment or implied to y |
| Kconfig.Kconfig.BoolValue | RTT_NANAO_AT/rt-thread/tools/kconfiglib.py:4325-4384 | selects take precedence over that, whatever the user asked for |
| Kconfig.Kconfig.ActiveRange | RTT_NANAO_AT/rt-thread/tools/kconfiglib.py:4200-4214 | the first range whose condition is not n is in force |
| Kconfig.Kconfig.NumValue | RTT_NANAO_AT/rt-thread/tools/kconfiglib.py:4192-4281 | a user value in range is kept in its own form, else the default is clamped |
| Kconfig.Kconfig.DefaultString | RTT_NANAO_AT/rt-thread/tools/kconfiglib.py:4288-4293 | the string of the first default whose condition is not n |
| Kconfig.Kconfig.TriValue | RTT_NANAO_AT/rt-thread/tools/kconfiglib.py:4307-4384 | after any reads, set_value and unset_value calls the result is the tristate value of a from-scratch evaluation |
| Kconfig.Kconfig.StrValue | RTT_NANAO_AT/rt-thread/tools/kconfiglib.py:4166-4305 | the result is the string value of a from-scratch evaluation |
| Kconfig.Kconfig.RecInvalidate | RTT_NANAO_AT/rt-thread/tools/kconfiglib.py:4737-4766 | the symbol's caches are empty, and whatever depends on an emptied symbol has no cached visibility |
| Kconfig.Kconfig.InvalidateAll | RTT_NANAO_AT/rt-thread/tools/kconfiglib.py:3429-3437 | the caches of all defined symbols are empty, those of constants stay |
| Kconfig.Kconfig.RecInvalidateIfHasPrompt | RTT_NANAO_AT/rt-thread/tools/kconfiglib.py:4768-4788 | with a new user value the cache is coherent again |
| Kconfig.Kconfig.SetValue | RTT_NANAO_AT/rt-thread/tools/kconfiglib.py:4430-4517 | values of the type are accepted, others refused without effect; the cache is coherent for the new user value |
| Kconfig.Kconfig.UnsetValue | RTT_NANAO_AT/rt-thread/tools/kconfiglib.py:4519-4526 | no user value, and a coherent cache |
| KconfigMeaning.ConnectivesMean | RTT_NANAO_AT/rt-thread/tools/kconfiglib.py:5838-5880 | an expression of &&, || and ! is at least m, or y, as its operands are |
| KconfigMeaning.DeMorgan | RTT_NANAO_AT/rt-thread/tools/kconfiglib.py:5838-5880 | De Morgan's laws and double negation hold of three values |
| KconfigMeaning.Distributes | RTT_NANAO_AT/rt-thread/tools/kconfiglib.py:5838-5880 | && and || distribute over each other |
| KconfigMeaning.ComparisonsAgree | RTT_NANAO_AT/rt-thread/tools/kconfiglib.py:5838-5908 | of <, = and > exactly one is y and the others n, and <=, >= and != follow from them |
| KconfigMeaning.ComparisonMeans | RTT_NANAO_AT/rt-thread/tools/kconfiglib.py:5838-5908 | two symbols compare as numbers if one is no string and both stand for numbers, else as texts |
| KconfigMeaning.VisibilityMeans | RTT_NANAO_AT/rt-thread/tools/kconfiglib.py:6145-6172 | a symbol is visible as far as its best prompt, one without m wholly or not at all |
| KconfigMeaning.DefaultMeans | RTT_NANAO_AT/rt-thread/tools/kconfiglib.py:4345-4351 | the default is the first whose condition is not n, as far as the condition goes, or n |
| KconfigMeaning.TriMeans | RTT_NANAO_AT/rt-thread/tools/kconfiglib.py:4335-4372 | a bool or tristate value is at least m, or y, if and only if the select is or the own value is, that being what the user wants as far as it is visible, or else the default and what implies it; m counts as y where there is no m |
| KconfigMeaning.SymbolMeans | RTT_NANAO_AT/rt-thread/tools/kconfiglib.py:4320-4390 | for every symbol of a configuration: a select is a lower bound, it is n exactly if nothing of this is not n, and a visible symbol that nothing selects has the value the user gave it |
| KconfigMeaning.NumberMeans | RTT_NANAO_AT/rt-thread/tools/kconfiglib.py:4215-4290 | a visible user value in the range in force stands; otherwise the value is the default or the number of the range nearest to it, and so never leaves the range |
| KconfigMeaning.RangeMeans | RTT_NANAO_AT/rt-thread/tools/kconfiglib.py:4215-4250 | the range in force is the first whose condition is not n |
| KconfigMeaning.DefaultStrMeans | RTT_NANAO_AT/rt-thread/tools/kconfiglib.py:4260-4300 | the text default is the first whose condition is not n |
| KconfigMeaning.TextMeans | RTT_NANAO_AT/rt-thread/tools/kconfiglib.py:4166-4300 | the text of a string symbol is what the user gave, if it is visible, else its default; a name is its own text, and n, m and y are those of the values |
| KconfigMeaning.OthersMean | RTT_NANAO_AT/rt-thread/tools/kconfiglib.py:4307-4325 | constants are themselves, and strings, numbers and names are n |
| KconfigMeaning.AcceptedMeans | RTT_NANAO_AT/rt-thread/tools/kconfiglib.py:4470-4503 | what set_value accepts for each type |
| KconfigMeaning.NormalMeans | RTT_NANAO_AT/rt-thread/tools/kconfiglib.py:4470-4472 | the letters n, m and y mean the values of a bool or tristate symbol, and all else is taken as it is |
| KconfigMeaning.SetIsRead | RTT_NANAO_AT/rt-thread/tools/kconfiglib.py:4470-4517 | the value set for a wholly visible symbol that nothing selects is the value read |
| KconfigLoops.Search.CheckSym | RTT_NANAO_AT/rt-thread/tools/kconfiglib.py:6422-6494 | terminates; no result means everything reachable is finished, a partial loop leads back to a symbol under way, a raised one is a genuine cycle |
| KconfigLoops.Search.FoundLoop | RTT_NANAO_AT/rt-thread/tools/kconfiglib.py:6531-6539 | extending a partial loop backwards, or closing it |
| KconfigLoops.Search.CheckAll | RTT_NANAO_AT/rt-thread/tools/kconfiglib.py:1060-1066 | raises if and only if the dependents have a cycle, and with a genuine one; otherwise it has found a numbering in which every symbol comes before its dependents, which no graph with a cycle has |
| KconfigLoops.FinishedHasNoLoop | RTT_NANAO_AT/rt-thread/tools/kconfiglib.py:6422-6494 | if every symbol was finished after its dependents there is no cycle |
| KconfigLoops.FinishedIsNumbered | RTT_NANAO_AT/rt-thread/tools/kconfiglib.py:6422-6494 | the reverse of the order of finishing is such a numbering |
| KconfigLoops.NumberedHasNoLoop | RTT_NANAO_AT/rt-thread/tools/kconfiglib.py:6422-6494 | and a graph that has one has no cycle |
| KconfigLoops.ModulesFirstIff | RTT_NANAO_AT/rt-thread/tools/kconfiglib.py:4154-4164 | a configuration without a loop can be numbered with MODULES before every tristate if and only if MODULES depends on no tristate, directly or not |
| KconfigLoops.FedModulesPass | RTT_NANAO_AT/rt-thread/tools/kconfiglib.py:4154-4164 | two symbols that pass the search and cannot be numbered so |
| KconfigExpr.RoundTrip | RTT_NANAO_AT/rt-thread/tools/kconfiglib.py:3264-3348 | parsing the printed tokens of any expression consumes all of them and yields the expression with its and-chains and or-chains leaning right |
| KconfigExpr.PrintMeans | RTT_NANAO_AT/rt-thread/tools/kconfiglib.py:5910-5964 | the printed tokens without parentheses are the expression from left to right, and there is one pair for every operand of the other kind and every negated expression that is no symbol, and no other |
| KconfigExpr.AndBindsBeforeOr | RTT_NANAO_AT/rt-thread/tools/kconfiglib.py:3264-3347 | without parentheses && binds before || on either side |
| KconfigExpr.NotBindsFirst | RTT_NANAO_AT/rt-thread/tools/kconfiglib.py:3264-3347 | ! binds before both |
| KconfigExpr.ExprParses | RTT_NANAO_AT/rt-thread/tools/kconfiglib.py:5910-5951 | so does parsing them in front of any tokens that cannot continue an expression, which are left |
| KconfigExpr.NormLeansRight | RTT_NANAO_AT/rt-thread/tools/kconfiglib.py:3264-3312 | the result leans right, and is the same expression if and only if that one did |
| KconfigExpr.SameValue | RTT_NANAO_AT/rt-thread/tools/kconfiglib.py:5838-5892 | it has the same value in every environment |
| KconfigExpr.Parser.Expression | RTT_NANAO_AT/rt-thread/tools/kconfiglib.py:3264-3303 | the cursor-moving parser reads what the recursive grammar reads, up to the same token, and fails exactly where it does |
| KconfigExpr.Parser.Conjunction | RTT_NANAO_AT/rt-thread/tools/kconfiglib.py:3305-3312 | the same for chains of && |
| KconfigExpr.Parser.Factor | RTT_NANAO_AT/rt-thread/tools/kconfiglib.py:3314-3348 | the same for negations, parentheses, symbols and comparisons |
| KconfigExpr.Parser.CheckToken | RTT_NANAO_AT/rt-thread/tools/kconfiglib.py:3314-3348 | the cursor moves over the token if it is next, and only then |
| RomfsSpec.RoundTrip | RTT_NANAO_AT/rt-thread/tools/mkromfs.py:162-241 | a reader that follows the absolute addresses and sizes in the image recovers exactly the tree, for any NUL-free names and any base address |
| RomfsSpec.DirentMeans | RTT_NANAO_AT/rt-thread/tools/mkromfs.py:159-212 | an entry is 16 bytes: type 0 for a file and 1 for a folder, the two addresses and the size, as words |
| RomfsSpec.WordMeans | RTT_NANAO_AT/rt-thread/tools/mkromfs.py:60-60 | a word is four bytes, low byte first |
| RomfsSpec.ImageSize | RTT_NANAO_AT/rt-thread/tools/mkromfs.py:162-260 | an image is the root entry, its name, and an entry, a padded name and padded contents for each file and folder, and nothing else |
| RomfsSpec.BuildsBelow | RTT_NANAO_AT/rt-thread/tools/mkromfs.py:162-241 | every image that ends below 2^32 can be built |
| RomfsSpec.ReadsNodes | RTT_NANAO_AT/rt-thread/tools/mkromfs.py:162-211 | the same for the entries of any folder inside any image that holds its bytes |
| RomfsSpec.ImageAligned | RTT_NANAO_AT/rt-thread/tools/mkromfs.py:162-241 | at a 4-aligned base the root entry, every name, table and file, the root's included, starts at a multiple of 4, none overlaps another, and all lie in the image |
| RomfsSpec.PayloadAligned | RTT_NANAO_AT/rt-thread/tools/mkromfs.py:162-211 | the same for the payload of any folder |
| Romfs.Build | RTT_NANAO_AT/rt-thread/tools/mkromfs.py:162-211 | the recursive loop lays out what the value model says, or fails exactly if some word does not fit 32 bits |
| Romfs.BuildChildren | RTT_NANAO_AT/rt-thread/tools/mkromfs.py:178-211 | so does the loop over the children, with the running address where the next name goes |
| Romfs.BuildImage | RTT_NANAO_AT/rt-thread/tools/mkromfs.py:230-241 | so does the whole image with its root entry |
| AtSpec.AtMostFourTransmissions | RTT_NANAO_AT/applications/myat_sever.c:88-146 | in every interleaving of both threads, the timer and the callers at most RtyNum + 1 = 4 transmissions lie between one ATSend and the next, and one more if the transmitting thread had been woken and had not run at the call; after ATSend(AT_TNOCMD) the retries are those that were left |
| AtSpec.AskedIsSent | RTT_NANAO_AT/applications/myat_sever.c:121-193 | between one ATSend and the next every transmission, repeated or not, is of the command asked for, or of AT_REST after the last timeout, and its reply is the one waited for |
| AtSpec.BoundIsReached | RTT_NANAO_AT/applications/myat_sever.c:88-146 | that many are reached after every call in every state, the ATSend(AT_REST) of the last timeout included, by a command that is never answered |
| AtSpec.MoreThanFourIff | RTT_NANAO_AT/applications/myat_sever.c:88-146 | so more than four are possible if and only if the transmitting thread had been woken and had not run, and the call is not AT_TNOCMD with a retry used up |
| AtSpec.FiveAreReached | RTT_NANAO_AT/applications/myat_sever.c:88-193 | five are reached by two calls in a row from the start |
| AtSpec.FourthTimeoutResets | RTT_NANAO_AT/applications/myat_sever.c:93-112 | once a command is out, no run without ATSend handles more timeouts than it has retries, three at most, and the next timeout calls ATSend(AT_REST) |
| AtSpec.TransmitStarts | RTT_NANAO_AT/applications/myat_sever.c:121-146 | a command is out after a transmission unless a second call came before the first was transmitted |
| AtSpec.TimeoutsAreCounted | RTT_NANAO_AT/applications/myat_sever.c:93-112 | once a command is out, each handled timeout uses up one retry, whatever happens in between |
| AtSpec.TimesOutAfter | RTT_NANAO_AT/applications/my_timer.c:46-59 | a command times out with the 500th period of the timer after its call, and not before |
| AtSpec.MatchEndsRetriesIff | RTT_NANAO_AT/applications/myat_sever.c:196-250 | a matching reply is reported; after its round no run without ATSend transmits more than what was pending if and only if no timeout, or a second packet with it, came between the packet and the round |
| AtSpec.AnsweredCommandIsRepeated | RTT_NANAO_AT/applications/myat_sever.c:83-113 | with a timeout in between, the next round handles it if and only if there is no second packet, and then starts the acknowledged command again, or calls ATSend(AT_REST) if no retry is left |
| AtSpec.LateTimeoutIsReached | RTT_NANAO_AT/applications/myat_sever.c:83-113 | a run from the start to a matching packet with a late timeout and no second packet |
| AtSpec.AckEndsRetries | RTT_NANAO_AT/applications/myat_sever.c:88-146 | with the countdown over and no timeout that a round will look at, no run without ATSend handles a timeout or transmits anything but what was pending |
| AtSpec.RetriesAreOverIff | RTT_NANAO_AT/applications/myat_sever.c:83-146 | and in every other state some run without ATSend transmits more |
| AtSpec.TimeoutCountsIff | RTT_NANAO_AT/applications/myat_sever.c:83-113 | a timeout that is set while the event thread is busy leads to a retry or reset if and only if no packet is set with it |
| AtSpec.LostTimeoutStalls | RTT_NANAO_AT/applications/myat_sever.c:83-113 | a timeout taken with a packet that does not match is forgotten: the command is neither repeated nor given up until ATSend is called |
| AtSpec.StallsIff | RTT_NANAO_AT/applications/myat_sever.c:83-146 | in general a round for a packet that does not match leaves the command so if and only if the countdown is over and no timeout is set without a packet |
| AtSpec.LostTimeoutIsReached | RTT_NANAO_AT/applications/myat_sever.c:83-113 | a run from the start leads there |
| At.AtServer.constructor | RTT_NANAO_AT/applications/myat_sever.c:324-333 | the variables of AT_Init, and both threads waiting for their bits on a real event object |
| At.Delivers | RTT_NANAO_AT/rt-thread/src/ipc.c:1027-1109 | a single bit sent to these threads goes to the one that waits for it and leaves the set as it was, or stays in the set |
| At.AtServer.Signal | RTT_NANAO_AT/rt-thread/src/ipc.c:1027-1109 | with the thread fields and the wait list of the event object, a send does to the protocol what the signal does |
| At.AtServer.Receive | RTT_NANAO_AT/applications/myat_sever.c:82-87 | the OR receive with clearing takes packet and timeout together |
| At.AtServer.AtSend | RTT_NANAO_AT/applications/myat_sever.c:177-193 | the command becomes the current one, and the send through the event object wakes the transmitting thread if it waits, and leaves the bit for its next receive if not |
| At.AtServer.Process | RTT_NANAO_AT/applications/myat_sever.c:76-118 | the bits handed over by the event object decide: a packet wins over a timeout, and the receive that ends the round takes both bits at once or waits |
| At.AtServer.RecWaitAt | RTT_NANAO_AT/applications/myat_sever.c:196-257 | only a matching packet ends the countdown, and it sets the bit that reports success |
| At.AtServer.Transmit | RTT_NANAO_AT/applications/myat_sever.c:121-146 | the current command goes out, sets the retries only when it is no repetition, and the receive takes the next send or waits |
| At.AtServer.Tick | RTT_NANAO_AT/applications/my_timer.c:46-59 | the last tick sends the timeout bit to whoever waits for it and stops the timer |

## Left out

- MemHeap.MemHeap.Realloc: the headers are fields beside the bytes of the pool, not bytes in it; where the growth test wraps, the new header lies over that of the block, and what it overwrites there is not modelled.
- SmallMem.SmallMem.ReallocLive: a pointer inside the heap that was not handed out, or was freed, is not a valid argument in the source either; NULL and outside pointers are `ReallocOther`.
- SmallMemTheorems.RunsKeepInvariant: asks for a heap of at least 12 bytes and below 2^32, as the scan spins or wraps otherwise.
- Slab.Slab.Free: `rt_realloc`, `rt_calloc` and the statistics of `slab.c` are not modelled; zone headers, memusage and chunk lists are maps and sequences beside the pages, not bytes in them.
- SlabSpec.OffsetOf: the bit test for powers of two is modelled as the predicate it computes.
- TimerList.TimerList.Start: the rows are sequences of nodes; the links of one row are those of `RtList`. A timer that is overdue by so much that the comparison would wrap is excluded; `ComparisonIsExact` says when it does.
- TimerList.TimerList.Check: callbacks do nothing to timers but stop their own, periodic timers have a period of at least one tick, and the tick does not move while callbacks run.
- TimerSpec.OneShotFiresOnTime: deadlines are met when every tick runs `rt_timer_check`; ticks lost with interrupts off are not modelled.
- MessageQueue.MessageQueue.PopNode: waiting and waking of senders and receivers is not modelled, nor is `rt_mq_control` for other commands.
- Event.EventObject.Recv: models the call up to its wait; what a woken thread then returns is what `Send` left in it. Use of both flag bits is AND, as in the source.
- Mutex.Mutex.Take: models the call up to its wait, for one mutex that queues by priority; nested and chained inheritance and FIFO mutexes are not maintained by the source.
- Mutex.Mutex.Release: models the call up to `rt_schedule`, which is `Scheduler.Schedule`.
- Scheduler.Scheduler.Schedule: a context switch is the change of the current thread; stack checks, hooks, more than 32 priorities and the defunct list are not modelled. An unlocked call needs a ready thread, which the idle thread is.
- Scheduler.Scheduler.Timeout: the thread timer that calls it, and removal from the wait list of an object, belong to `TimerList`, `Event` and `Mutex`.
- Kconfig.Kconfig.TriValue: symbols without choices; warnings, `assignable`, environment variables and what is written to files are not modelled. Python's number parsing, number printing and string order are parameters.
- KconfigCache.CachedIsScratch: the configuration is acyclic, with symbols numbered so that each mentions lower numbers only and MODULES precedes the tristates; `KconfigLoops.Search.CheckAll` and `ModulesFirstIff` say when such numbers exist, the renumbering itself is not modelled. Values that depend on themselves through the type of a tristate are not modelled.
- KconfigLoops.Search.CheckAll: choices, which are visited as nodes of their own, are not modelled, nor is the text of the error.
- KconfigExpr.RoundTrip: starts from tokens; splitting text into tokens, the rewriting of m and macro expansion are not modelled.
- RomfsSpec.RoundTrip: the reader is ours and takes a bound on the depth; words are those of a little-endian host with 4-byte integers; walking and sorting directories and the C output are not modelled.
- AtSpec.AtMostFourTransmissions: each round of a thread, from one receive to the next, is atomic; every command has three retries as in the command table; whether a packet matches is a parameter; the threads that wait for other bits of the same event object are left out.
- Memory.MemCpy: addresses are array indices and words have four bytes; lengths of 2^31 and more are not modelled.
- Mailboxes, semaphores and memory pools: easier cases than the message queue, the wait lists and the heaps.
- `rt_memset`, `rt_calloc`, number formatting, the object registry, the idle thread and console output: plumbing with weaker claims.
- Soft timers: their thread keeps a list cursor across an unlocked callback.
- Semaphores around the heaps, allocation hooks and memory tracing: no effect on what is allocated.
- Hardware access, start-up code, signals, modules and project generators: no semantics to model.
