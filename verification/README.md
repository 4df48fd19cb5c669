# A model of the kernel's memory, processes and ramdisk

A Dafny model of the hard state of a small 32-bit x86 kernel, with proofs:

- **Kernel heap** (`OrderedArrays`, `HeapLayout`, `HeapWrites`, `HeapService`, `HeapMerging`, `HeapParts`,
  `KernelHeaps`, `HeapRuns`, `HeapCalls`, `HeapReuse`, `HeapFailures`). `KernelHeap` works on a byte array of all 2^32 addresses
  and on the address-sorted hole index, with the source's 32-bit unsigned arithmetic. A ghost sequence of chunks says
  what the bytes mean: the heap range is tiled by chunks, each chunk's header and footer are in memory, no two holes
  meet, and the index lists exactly the holes. `allocate` and `free` are proved against functions on that sequence;
  `HeapParts` says what a hole still holds of the chunks that were merged into it. `HeapRuns` follows whole runs of
  calls, first on the sequence and then on the memory itself, also those that lose the heap.
- **Paging** (`Frames`, `AddressSpaces`, `Paging`, `Boot`, `HeapSupplies`). The frame bitmap, page tables and
  directories as records at addresses, the directory clone made by `fork`, the boot-time identity mapping, and
  where in the heap the tables and directories come from.
- **Scheduler** (`Scheduling`, `Processes`, `Forking`, `StackMove`). The linked process queue, `switchTask` and
  `fork` as methods that refine a step machine, theorems over every run of that machine, runs of forks and
  switches joined with paging, and the relocation of the live stack in memory.
- **Ramdisk** (`CStrings`, `InitrdImage`, `InitrdFs`). The image tool's byte layout and the kernel's reader of
  it, connected by a round trip through memory.

`Bytes` holds memory, 32-bit arithmetic and little-endian words.

Where the code does not do what it is meant to do, the model follows the code and says exactly when it works:

- A page-aligned `allocate` compares a possibly negative difference as unsigned (`source/kernel_heap.cpp:237-239`)
  and tests for absorption before it splits off the front (`source/kernel_heap.cpp:78-82`). `LayOutTilesIff`
  says, for every hole and request, that the pieces it lays out cover the hole exactly if and only if `Sound`
  holds, a test on the hole's address and size. `ServedIff`, part of the contract of `KernelHeap.Allocate`, says
  the same of the memory: after the writes, overlapping as they may be, there is a heap with all the old blocks
  and a new one at the returned pointer if and only if `Sound` holds. `ShortTailRun`, `ShortFrontRun` and
  `BeyondHoleRun` are runs from a fresh heap that end in such a call, for a whole range of sizes each;
  `OverwritePayload` performs the last kind on the memory and finds a header inside the payload of a live block.
- After a right merge `free` leaves the merged hole's last footer pointing at the header of the hole that was
  absorbed (`source/kernel_heap.cpp:186-190`), and freeing the block above such a hole loses memory. A chunk that
  is already a hole passes both magic tests and is listed twice (`source/kernel_heap.cpp:155-213`). `FreeEffect`,
  part of the contract of `KernelHeap.Free`, says that the memory and index after a free of a chunk are again those of
  some heap if and only if the chunk was a block and the left neighbour's footer was not of that kind;
  `FreedTightIff` says which free leaves such a footer. `StaleRun` gives a run of six calls, for any block size, that
  ends in a lost block, and `FreedTwiceRun` one of five that frees a hole.
- A block that a merge absorbed keeps its header and its footer's magic number inside the hole, so a second free of it
  passes both tests as well, and so does one of a hole that was absorbed. The footer below such a piece still names
  the hole that it joined, and the size there grows once more; where an allocation has put a block there since, the
  piece is listed inside a hole. `PartEffect`, the other part of the contract of `KernelHeap.Free`, says that in a
  heap of at most 2 GB there is still a heap with all the blocks if and only if the header named says hole and is not
  the hole's own. `JoinedTwiceRun` is such a run for any block size: three allocations, then the first block is freed,
  the second, and the second again. `SwallowLive` performs it on the memory: the header of the hole then spans the
  third block, which is live. In `JoinedCutRun` a smaller block is allocated before the last free. A piece with another
  above it sends the source into an endless loop, because it looks for that one in the index
  (`source/kernel_heap.cpp:193-201`).
- Freeing the chunk at the very end of the heap reads a header behind the heap, for which boot makes no page table
  (`source/kernel_heap.cpp:185-186`; part of the contract of `InitialisePaging`). The outcome is a page fault, if
  and only if it is the last chunk.
- A failed `allocFrame` is ignored by `clonePageTable` (`source/paging_management.cpp:247`). `Copied`, part of the
  contract of `Fork`, says that all copied pages have real memory behind them if and only if there was a free real
  frame for each of them.
- Boot itself takes every frame of the 16 MB for the heap (`source/paging_management.cpp:42-45`, `74-77`): after
  `InitialisePaging` no frame of the bitmap is free, and none ever is again, because `freeFrame` clears no bit.
  `WithinLimitIff` says that every later frame lies behind the bitmap, so outside the memory. So `Fork` can copy
  only for a process that maps no page through a table of its own (`EnoughOfNone`). For every other one the copied
  entries stay present, with frame 0 or a frame outside the memory, and a page without a frame is copied to physical
  frame 0 (`source/paging_management.cpp:257`): at those addresses the child reads what frame 0 holds, or nothing, and
  elsewhere what the parent reads (`CloneWithoutFrames`). When every scanned bit is set, frame 0 holds the last page
  that was copied, and the child reads its words at all these pages (`ExhaustedClone`). `ForksOnExhausted` says so of
  every fork in every run. The stack that `changeStack` maps at 0xE0000000 is of that kind
  (`source/process.cpp:219-222`).
- Pages on frame 0 are not kept apart: boot maps page 0 to it for everyone, and entries whose frame was freed or whose
  copy found none stay present with it. A write of one process through a page of its own is invisible to all others
  except between two pages on frame 0, and there it is seen (`ProcessesIsolated`).
- The bitmap is allocated with `frameNumber_ / 32` words but `frameNumber_` words are scanned
  (`source/paging_management.cpp:46`, `182`), and boot asks for more frames than there are: `WithinBitmapIff` says when
  the frame found is one of the bitmap's. Behind the bitmap come unused bytes and then the page directory. `InGap` is a
  test on the address at which the kernel and its ramdisk end (`source/kernel_main.cpp:65`) and on the words there:
  whether these bytes and the bitmap have a clear bit for each of the `LowPages(start) + HEAP_PAGES` frames that boot
  asks for. `StaysInGapIff`
  says that boot sets no bit behind them if and only if it succeeds, or there is no clear bit there. When the bytes are
  clear it is a test on the address alone (`InGapIff`); it fails for every gap of at most 512 bytes, as for a kernel
  that ends at 0x120E00 (`GapTooShort`), and succeeds from 1024 bytes on. Only when it succeeds does
  `InitialisePaging` promise anything of the directory.
- `read` copies with `strncpy`, which stops at a NUL: `ReadDataIff` says when the buffer is right nevertheless.
  `offset + size` can wrap around: `ReadCountIff`.
- The adjusting loop of `changeStack` stops one word short of the region that it copies into at most
  (`source/process.cpp:242`): `LowestWordIff` says when that leaves the lowest word unadjusted.

## Model

| member | source | states |
|---|---|---|
| OrderedArrays.OrderedArray.Add | source/utils/array.cpp:134-161 | In place: the item goes where it belongs in the order, every other item keeps its place in the order, and the slots above move up by one |
| OrderedArrays.OrderedArray.Erase | source/utils/array.cpp:73-80 | In place: exactly the item at the position goes; slots beyond the new size keep what they held |
| OrderedArrays.InsertSorted | source/utils/array.cpp:134-161 | Adding an absent item keeps the array strictly sorted and changes its multiset by that item |
| OrderedArrays.RemoveSorted | source/utils/array.cpp:73-80 | Erasing keeps the array strictly sorted, takes one occurrence away, and the item is gone |
| OrderedArrays.RemoveUndoesInsert | source/utils/array.cpp:73-161 | Erasing what was just added gives back the old contents |
| HeapLayout.TiledTotal | source/kernel_heap.cpp:52-57 | Chunk sizes of a tiling always add up to the length of the heap |
| HeapLayout.HolesInOrder | source/kernel_heap.cpp:33-57 | The hole addresses of a tiling are strictly ascending and inside the heap |
| HeapLayout.LayOutTilesIff | source/kernel_heap.cpp:62-145 | For every hole and request, wrap-around included: front hole, block and tail hole cover the hole exactly, serve the request and are aligned if and only if Sound holds |
| HeapLayout.FitsIff | source/kernel_heap.cpp:219-258 | A hole passes the unaligned test if and only if it has the bytes asked for, and the aligned one if it has them behind the page boundary or, wrapped around, when it ends below that |
| HeapLayout.OffsetIs | source/kernel_heap.cpp:232-235 | The offset of the aligned search is the distance from the hole's payload to the next page boundary |
| HeapLayout.LayOutTakes | source/kernel_heap.cpp:78-142 | For every Sound request, aligned or not, the block has n + 20 bytes, or the whole hole when fewer than 20 would be left, and starts at the hole or puts its payload on the first page boundary |
| HeapLayout.AllocatedBytes | source/kernel_heap.cpp:97-142 | Cutting a hole up exactly takes the bytes of the block from the holes and no others |
| HeapLayout.FreedBytes | source/kernel_heap.cpp:168-190 | Freeing a block gives the holes its bytes, with and without merges |
| HeapLayout.FrontIsOffset | source/kernel_heap.cpp:85-112 | When the layout is sound the front hole is as long as the offset that findSmallestHole computed, and the hole passes its test |
| HeapLayout.AllocatedWellFormed | source/kernel_heap.cpp:97-142 | Cutting a hole up exactly keeps tiling, footers and coalescing |
| HeapLayout.AllocatedHoles | source/kernel_heap.cpp:112-142 | The index afterwards: the hole's entry replaced by those of the front hole and the tail hole |
| HeapLayout.FreedWellFormed | source/kernel_heap.cpp:168-190 | Merging a freed block with its hole neighbours keeps tiling, footers and complete coalescing |
| HeapLayout.FreedHoles | source/kernel_heap.cpp:168-214 | The index afterwards: a left hole keeps its entry, a right hole loses it, otherwise the block gets one |
| HeapLayout.SameChunks | source/kernel_heap.cpp:7-20 | The headers in memory determine where the chunks are |
| HeapLayout.LeakedIsInvalid | source/kernel_heap.cpp:172-182 | Memory with a header marked as a hole that the index does not list is not the memory of any heap |
| HeapWrites.PiecesInMemory | source/kernel_heap.cpp:97-140 | Front, block and tail written one after the other are all intact at the end |
| HeapWrites.CarvedPieces | source/kernel_heap.cpp:85-142 | When the plan covers the hole, the six writes leave exactly its pieces and nothing outside the hole changes, and the front hole's size is read back as written |
| HeapService.ServedIff | source/kernel_heap.cpp:62-145 | For every hole that passes the fit test and every request: the memory and index afterwards are those of a heap that keeps all blocks and has one more at the returned pointer, aligned, with at least n and fewer than n + 20 bytes of payload, for which the holes have lost exactly the block's bytes, if and only if Sound holds |
| KernelHeaps.KernelHeap.constructor | source/kernel_heap.cpp:23-59 | A fresh heap: one hole over the whole range behind the index, listed, without a footer; only its header is written |
| KernelHeaps.KernelHeap.FindSmallestHole | source/kernel_heap.cpp:219-258 | The lowest hole with at least as many bytes as asked for, and -1 if and only if every hole has fewer; of an aligned search the same behind the distance to the page boundary, except that a hole that ends below the boundary passes unless it is short by 2^32 bytes |
| KernelHeaps.KernelHeap.Allocate | source/kernel_heap.cpp:62-145 | 0 and no change when no hole passes, which for an unaligned request means that none has n + 20 bytes; otherwise the lowest one that does is cut up as planned, all writes accounted for. If that hole is Sound, the pointer is to its start or to the first page boundary in it, the holes have n + 20 bytes fewer, or the whole hole fewer when that leaves less than 20, the heap invariant holds on raw memory with the cut tiling, and nothing outside the hole is written; there is a heap with the old blocks and one at the returned pointer if and only if the hole is Sound |
| KernelHeaps.KernelHeap.Free | source/kernel_heap.cpp:147-214 | Null is ignored, a missing magic number in header or footer halts without a change, the last chunk faults; otherwise a block and its hole neighbours become one hole in memory and index, no other block's bytes change, the holes gain the bytes of the block, and the result is a heap if and only if a block was freed and the left neighbour's footer was not stale. A piece of a hole freed again: a heap with all the blocks remains if and only if the header that the footer below names says hole and is not the hole's own; a piece with another above it never returns |
| KernelHeaps.KernelHeap.MergeLeft | source/kernel_heap.cpp:170-182 | The footer below is followed exactly when the header that it names says hole, and the two words written are the size at that header and the link in the footer of what is freed |
| KernelHeaps.KernelHeap.MergeRight | source/kernel_heap.cpp:184-190 | The header above is absorbed exactly when it says hole, by one write to the size field |
| KernelHeaps.KernelHeap.UpdateIndex | source/kernel_heap.cpp:191-213 | The entry of the header above goes if that says hole, and the search never ends when there is none; the second search finds nothing, and the freed header is added unless it joined a hole below |
| HeapMerging.FreedIndex | source/kernel_heap.cpp:191-213 | The edited index is the hole list of the merged tiling |
| KernelHeaps.AllocatedIndex | source/kernel_heap.cpp:113-142 | The edited index is the hole list of the cut tiling |
| HeapMerging.AfterRight | source/kernel_heap.cpp:172-190 | The writes of both merges leave one intact hole over the joined range, and change nothing outside it |
| HeapMerging.AfterStale | source/kernel_heap.cpp:172-190 | Above a stale footer both old headers stay as they were and the freed block's says hole |
| HeapMerging.StaleIsLost | source/kernel_heap.cpp:172-213 | In that case no tiling explains memory and index any more |
| HeapMerging.FreedAgain | source/kernel_heap.cpp:155-213 | A hole freed again stands in the index twice, and no tiling has such an index |
| HeapMerging.MergesMemory | source/kernel_heap.cpp:168-190 | The writes of both merges together: one intact hole over the joined range, or both old headers above a stale footer, or no change for a hole |
| HeapMerging.FreedChunk | source/kernel_heap.cpp:155-214 | From memory and index before a free of any chunk but the last to those after it, with the exact condition for a heap |
| HeapMerging.OthersKept | source/kernel_heap.cpp:155-214 | A free writes inside the freed block and the holes beside it only |
| HeapMerging.SettledChunk | source/kernel_heap.cpp:168-190 | All that a free of a block has written: the merged size, the flag in the block's header and the link in its footer, which names the merged hole |
| HeapParts.PartFreed | source/kernel_heap.cpp:155-214 | From memory and index before a second free of the last piece of a hole to those after it, with the exact condition for a heap with all the blocks |
| HeapParts.GrownIsLost | source/kernel_heap.cpp:172-182 | When a hole's size reaches over the block above it, no heap has that block |
| HeapParts.ListedInside | source/kernel_heap.cpp:191-213 | An index that also lists an address inside a chunk is that of no heap |
| HeapParts.FreedParts | source/kernel_heap.cpp:168-190 | A free of a block leaves in memory every piece of a hole whose header below does not become another hole's, lets those join whose header below is the block's, and makes pieces of the block below a left hole and of the right hole |
| HeapParts.AllocatedParts | source/kernel_heap.cpp:97-142 | An allocation leaves the pieces of all other holes, and those inside the tail hole whose header below is the tail's, one inside it or the new block's |
| HeapRuns.FitIndexIsFirstFit | source/kernel_heap.cpp:219-258 | The run's choice of a hole is the first fit, and none if and only if nothing fits |
| HeapRuns.StepWellFormed | source/kernel_heap.cpp:62-214 | One call, of a piece of a hole too, keeps a well-formed heap well formed |
| HeapRuns.RunKeepsHeap | source/kernel_heap.cpp:62-214 | After any run whose calls all return and leave a heap, the range is tiled, coalesced, its footers in order, and the sizes add up to the heap's length |
| HeapRuns.RunKeepsBlock | source/kernel_heap.cpp:62-214 | A block that a run does not free is at the end at the same place with the same size |
| HeapRuns.PerformAlloc | source/kernel_heap.cpp:62-145 | allocate on memory does the run's step and changes no byte of any block; the request is served if and only if the run goes on |
| HeapRuns.PerformFree | source/kernel_heap.cpp:147-214 | free of any chunk, or of a piece of a hole, on memory does the run's step and changes no byte of another block; where the run is spoiled by a chunk no heap explains the memory, and where it is by a piece of a hole none with all the blocks |
| HeapRuns.PerformOne | source/kernel_heap.cpp:62-214 | Either call on memory does the run's step; where that is spoiled the heap is lost |
| HeapRuns.PerformAll | source/kernel_heap.cpp:62-214 | Any run on the memory: as many calls return and leave a heap as the run says, after all of them the invariant holds with the run's tiling, the pieces are where the run says and no byte of a block that is not freed has changed, and the call that spoils a run loses the heap in memory |
| HeapRuns.RunFresh | source/kernel_heap.cpp:23-214 | The same for any run from the memory that init sets up, with sizes adding up to the heap's length when all calls have returned |
| HeapRuns.PayloadsDisjoint | source/kernel_heap.cpp:118-144 | Payloads of different blocks share no address and lie inside the heap |
| HeapRuns.FreeUndoesAllocate | source/kernel_heap.cpp:78-213 | free(allocate(n, align)) puts every chunk back, in the split, absorbed and front-hole cases; it faults if and only if the block took the whole end of the heap |
| HeapRuns.ShapeFixesIndex | source/kernel_heap.cpp:25-57 | Equal chunk places and kinds mean equal indexes |
| HeapRuns.FreedTightIff | source/kernel_heap.cpp:184-190 | A free keeps every footer exact if and only if it does not absorb a right hole that has a footer |
| HeapReuse.AllocateUndoesFree | source/kernel_heap.cpp:62-214 | A block between two live ones is freed: an unaligned request that fits it and no hole below gets the same pointer back, and the tiling is what it was |
| HeapReuse.ReuseRun | source/kernel_heap.cpp:62-258 | For every block size: three allocations, the second block freed, and the same request again gets that very pointer, in the state there was before the free |
| HeapReuse.AlignedAlike | source/kernel_heap.cpp:85-112 | In a hole whose payload is on a page boundary already an aligned request is laid out and tested as an unaligned one |
| HeapFailures.StaleRun | source/kernel_heap.cpp:172-213 | For every block size: three allocations and three frees from a fresh heap after which it is no heap |
| HeapFailures.FreedTwiceRun | source/kernel_heap.cpp:155-213 | For every block size: three allocations and one block freed twice, after which it is no heap |
| HeapFailures.JoinedTwiceRun | source/kernel_heap.cpp:155-213 | For every block size: three allocations, the first block freed, the second, and the second again, now a piece of the hole, after which the heap is lost |
| HeapFailures.SwallowLive | source/kernel_heap.cpp:147-214 | That run on the memory of a heap with one hole: the hole's header spans the third block, which is live, and no heap explains memory and index |
| HeapFailures.JoinedCutRun | source/kernel_heap.cpp:155-213 | For every two sizes that leave the second block untouched: the same with an allocation from the joined hole before the last free, after which there is no heap |
| HeapFailures.ShortTailRun | source/kernel_heap.cpp:78-142 | The first aligned request of a fresh heap that would leave 1 to 19 bytes behind its block is granted and not served |
| HeapFailures.ShortFrontRun | source/kernel_heap.cpp:78-142 | An aligned request after a block that ends fewer than 20 bytes before the place for the next header, or up to 11 behind it, is granted and not served |
| HeapFailures.BeyondHoleRun | source/kernel_heap.cpp:78-142 | Two allocations and a free of the first, when it is too small to reach the page boundary that lies in the second: the next aligned request gets a pointer to that boundary and is not served |
| HeapFailures.AllocateBeyond | source/kernel_heap.cpp:85-144 | On the memory, with such a hole first: a header is written behind the page boundary above it, and the request is not served |
| HeapFailures.OverwritePayload | source/kernel_heap.cpp:62-214 | That run on the memory of a heap with one hole: the payload of the block that is still live holds a header at the end |
| Frames.FrameBitmap.GetFreeFrame | source/paging_management.cpp:179-198 | The least clear bit over all words, -1 if and only if every bit is set |
| Frames.FrameBitmap.Take | source/paging_management.cpp:204-214 | The least clear bit is set and no other bit changes |
| Frames.MarkIs | source/paging_management.cpp:12-25 | Setting a bit changes that bit only |
| Frames.HandedOutIncreasing | source/paging_management.cpp:179-234 | Over any sequence of allocations no frame is given out twice, and the numbers only grow |
| Frames.PrefixHandsOutInOrder | source/paging_management.cpp:179-226 | From a bitmap whose set bits are 0..k-1 the allocations give k, k+1, k+2, ... |
| Frames.WithinLimitIff | source/paging_management.cpp:179-226 | A run of allocations stays below a limit if and only if that many frames were free below it; once none is free every further frame lies at the limit or above, and so it stays |
| Frames.WithinBitmapIff | source/paging_management.cpp:46-47 | The frame found is one that the allocated words stand for if and only if those words have a clear bit |
| AddressSpaces.LocatedInjective | source/memory_management.cpp:31-38 | Two page-aligned addresses that the kernel maps to one physical place are the same |
| AddressSpaces.WalksAgree | source/paging_management.cpp:133-168 | For every directory and address the processor's walk through pageTablesPhysical, which needs both present bits and the rights of both entries, gives the page entry that the software finds through pageTables with all its rights, if that is present, and else none |
| AddressSpaces.LoadedWalkAgrees | source/paging_management.cpp:94-109 | The same for the walk that starts at the physicalAddress loaded into CR3 |
| AddressSpaces.PrivateTables | source/paging_management.cpp:276-294 | A table that a directory does not share with the first one stands in no other directory |
| AddressSpaces.PrivateFrames | source/paging_management.cpp:236-294 | A frame mapped through such a table is mapped by no entry of another directory |
| AddressSpaces.WithTableEntries | source/paging_management.cpp:153-168 | A new table changes no other page's entry, in any directory |
| AddressSpaces.EntriesDistinct | source/paging_management.cpp:138-150 | In one directory different pages have different entries |
| Paging.PagingManagement.SwitchPaging | source/paging_management.cpp:94-109 | The directory becomes current, and with the value loaded into CR3 the processor translates exactly the addresses whose page is present in it, as the software does |
| Paging.PagingManagement.Kmalloc | source/memory_management.cpp:30-39 | The next address of the heap, and the physical address reported is where the kernel maps it |
| Paging.PagingManagement.GetPage | source/paging_management.cpp:133-168 | The entry that was there, with no change; or one in a new empty table linked in both halves of the directory, with all invariants kept |
| Paging.PagingManagement.AllocFrame | source/paging_management.cpp:200-226 | An unmapped entry gets the lowest free frame and its bits, a mapped one is left alone, a failure changes nothing |
| Paging.PagingManagement.FreeFrame | source/paging_management.cpp:228-234 | Only the entry's frame is forgotten; the bitmap stays as it is, and every invariant stays when the table is not one of the first directory's |
| Paging.PagingManagement.CloneEntry | source/paging_management.cpp:243-257 | The copy has the source's bits, present included, and a frame that was free, real memory if there was any, or frame 0 when every bit is set; the source frame's contents go to that frame, frame 0 included, and nowhere else |
| Paging.PagingManagement.ClonePageTable | source/paging_management.cpp:236-262 | Every mapped page copied with its bits into a frame that was free, contents included; no busy frame but frame 0 changes, and that holds the last page that was copied there; all copies are real memory if and only if enough real frames were free |
| Paging.PagingManagement.ClonePageDirectory | source/paging_management.cpp:264-297 | Kernel tables shared, other tables copied as above into the slots they had, all other directories and tables unchanged, frame 0 left with the last page that was copied there, all invariants kept |
| Paging.PagingManagement.CopyPagePhysical | source/memory_management.S:3-32 | The loop over 1024 words makes the destination frame equal to the source frame and changes no other |
| Paging.CloneSeesSame | source/paging_management.cpp:236-297 | With enough free frames the clone reads at every address where the original reads a word the same word, with the same bits; only a page of the original's own that was on frame 0 is empty in the clone |
| Paging.CloneWithoutFrames | source/paging_management.cpp:236-297 | With no free real frame the clone reads at every page that was copied what frame 0 holds, or nothing, the former always when every scanned bit is set; elsewhere it reads what the original reads, unchanged except on frame 0 |
| Paging.ExhaustedClone | source/paging_management.cpp:236-297 | When every scanned bit is set the clone reads at all mapped pages of copied tables the words of the last such page of the original in real memory |
| Paging.DirZeroLast | source/paging_management.cpp:257-257 | Of all pages that a clone copies to frame 0 the last one stays there |
| Paging.DirZeroNone | source/paging_management.cpp:257-257 | When none is copied there frame 0 holds what it held before |
| Paging.PrivateWriteInvisible | source/paging_management.cpp:236-297 | A write through a private mapping changes no word that another directory reads, except between two pages on frame 0, where the other reads it at the same place |
| Boot.BootPaging.constructor | source/paging_management.cpp:43-61 | Bitmap and page directory stand at addresses given by where the kernel ends; nothing is mapped |
| Boot.BootPaging.Kmalloc | source/memory_management.cpp:15-29 | The bump allocator's address and the new end, aligned or not |
| Boot.BootPaging.GetPage | source/paging_management.cpp:133-168 | A new table, at the end of what is allocated rounded up, exactly when the page had no entry; no other page's entry changes |
| Boot.BootPaging.MakeHeapTables | source/paging_management.cpp:63-67 | Exactly the heap's pages have entries, nothing is mapped yet, and the tables take the eight pages behind what was allocated |
| Boot.BootPaging.MapLow | source/paging_management.cpp:69-72 | The loop ends although its bound moves, after a number of rounds given by where it started, and then page k is present, writable, for users and has frame k up to one page beyond the end of everything allocated, tables made on the way included; the other pages are empty |
| Boot.BootPaging.MapHeap | source/paging_management.cpp:74-77 | The frames handed out are those that follow; if their bits fit in front of the directory no table is allocated, the identity mapping stays, and the heap's pages have the frames as long as there are any, present, writable and for users |
| Boot.BootPaging.InitialisePaging | source/paging_management.cpp:39-77 | LowPages(start) pages are mapped low, no frame of the 16 MB is left, and a bit behind the gap is set if and only if InGap fails and there is a clear one. If InGap holds, the identity mapping covers all that was allocated when paging is switched on, every invariant of the running system holds, so both walks agree from then on, every page below k and every heap page that found a frame is present, writable, for users and has that frame, no other page is present unless it has a frame behind the bitmap, and no page table maps anything behind the heap |
| Boot.BootConsistent | source/paging_management.cpp:61-82 | Identity mapping up to the end of the tables makes every table and the directory lie where the processor is told |
| Boot.BootGood | source/paging_management.cpp:69-86 | What boot leaves satisfies the invariant of paging at run time, with the heap's mapped pages to allocate from |
| Boot.CloneRoot | source/paging_management.cpp:86-86 | The clone of the first directory translates every address alike and has no table of its own |
| Boot.StartPaging | source/paging_management.cpp:82-92 | That clone becomes current, the processor translates with it as with the boot directory, all invariants hold, and if no frame was left none is |
| HeapSupplies.PointersSeparate | source/kernel_heap.cpp:62-145 | Any allocations in a row, aligned or not, as far as they are granted: the memory is inside the heap, page-aligned where that was asked for, and shares no address with another request's or with any block there was |
| HeapSupplies.Supply | source/memory_management.cpp:28-31 | The same requests on the heap's memory return these pointers and keep the heap |
| HeapSupplies.SuppliedByHeap | source/paging_management.cpp:74-86 | Below the page at which boot ran out of frames every byte of such memory is mapped, present and writable, and what the aligned requests among them got meets what paging requires of the addresses that it is given |
| Boot.StaysInGapIff | source/paging_management.cpp:42-77 | Boot sets no bit behind the unused bytes that follow the bitmap if and only if InGap, a test on where the kernel ends and on the words there, succeeds or no bit behind is clear |
| Boot.InGapIff | source/paging_management.cpp:42-77 | When these bytes are clear the test is one on the address alone, and it succeeds for every gap of at least 1024 bytes |
| Boot.GapTooShort | source/paging_management.cpp:42-77 | Whatever the memory holds it fails for every gap of at most 512 bytes; a kernel that ends at 0x120E00 has a gap of 0 |
| Processes.SLinkedList.PushBack | source/utils/linked_list.cpp:31-56 | The list of nodes grows by one new node at the end; the nodes and data before it stay |
| Processes.Sheduler.Initialize | source/process.cpp:84-93 | The running code becomes process 1, the only one, with the current directory; the next pid is 2 |
| Processes.Sheduler.SwitchTask | source/process.cpp:103-159 | Nothing without a current process or with DUMMY_EIP; otherwise the registers are saved, the next process in the ring becomes current, its saved registers are resumed and its directory is loaded |
| Processes.Sheduler.FinishFork | source/process.cpp:183-208 | The code after get_eip returns what ForkResult says of the current process, the parent and the child: it queues the child and returns its pid in the parent, and changes nothing and returns 0 in the child |
| Processes.Sheduler.Fork | source/process.cpp:161-202 | The parent's view: a new process at the end of the queue with a new pid, the clone's directory and the registers fork saved |
| Processes.Perform | source/process.cpp:103-209 | Any run of switches and forks on the objects is the step machine's run, and the forks return one number after the other |
| Processes.PerformFromStart | source/process.cpp:35-209 | Any run from the start of the system: process i + 1 stands at place i of the queue, the counter is one more than the number of processes, and the k-th fork returns k + 1 |
| Processes.ForkInBoth | source/process.cpp:161-209 | One fork to its end in both processes, with any run in between that has brought the child to the processor: the child's pid in the parent, 0 in the child |
| Forking.CloneCurrent | source/process.cpp:165-165 | A directory that no process has, of which Copied holds |
| Forking.CloneCopied | source/paging_management.cpp:236-297 | A clone is backed by real memory if and only if enough frames were free; then it reads the same word at every mapped address, and if none was free, frame 0 or nothing where it was copied: frame 0 with the last copied page when every bit is set |
| Forking.EnoughOfNone | source/paging_management.cpp:200-212 | When no real frame is free, enough are for a fork if and only if the parent maps no page through a table of its own |
| Forking.ForksOnExhausted | source/process.cpp:161-202 | In every run from a state without a free real frame each fork is backed by real memory if and only if its parent maps no page through a table of its own, and its child reads at such pages what frame 0 holds, or nothing, and what the parent reads elsewhere; when every scanned bit is set it reads the last such page at all of them |
| Forking.Fork | source/process.cpp:161-202 | Clone and new process together: every process keeps a directory of its own, all invariants hold, and the child's memory is what CloneCopied says, for enough frames and for none |
| Forking.Switch | source/process.cpp:133-157 | The current directory is the current process's own, and the processor translates every address as in that directory |
| Forking.ForkKeepsApart | source/process.cpp:161-202 | A fork with a new directory keeps the directories of all processes different |
| Forking.SwitchKeepsApart | source/process.cpp:133-146 | A switch keeps them different |
| Forking.RunAll | source/process.cpp:103-209 | Over any run of forks and switches every invariant of paging and scheduler holds, the events are the step machine's, each fork's child memory is what Copied says, the current directory is the current process's, all directories are different, and busy frames stay busy |
| Forking.ProcessesIsolated | source/process.cpp:103-209 | In every state that keeps the invariants a write of one process through a table of its own changes no word that another process reads, except between two pages on frame 0 |
| Scheduling.StepValid | source/process.cpp:103-209 | Every step keeps pids unique and below the counter |
| Scheduling.RunNumbered | source/process.cpp:87-209 | Over every run the process at place i has pid i + 1 and the counter follows the last one |
| Scheduling.RunFaithful | source/process.cpp:103-209 | In every run of switches and forks each dispatch resumes exactly the registers that process last saved, or got from fork, with its own directory, and each save is made by the process that runs |
| Scheduling.InitialExplained | source/process.cpp:84-93 | The state after init starts such a run |
| Scheduling.ParentIsOther | source/process.cpp:161-202 | The parent of a forked process is another process, and nothing in the log before the fork is about the child |
| Scheduling.ChildReturnsOnce | source/process.cpp:173-208 | A forked process comes back inside fork at most once in any run |
| Scheduling.FirstDispatchReturnsZero | source/process.cpp:183-208 | Its first dispatch does so, with fork's registers and directory, and what FinishFork returns there is 0 and in the parent the child's pid |
| Scheduling.ForkReturnsTwice | source/process.cpp:161-208 | Every fork in every run, given as many switches after it as there are processes and one more for each later fork, comes back in the child exactly once, with the registers and directory it was given, and yields 0 there and the child's pid in the parent |
| Scheduling.RoundRobin | source/process.cpp:136-141 | Without forks, k switches move the current position from c to (c + k) mod n |
| Scheduling.EveryoneIsDispatched | source/process.cpp:136-198 | With n processes, each is dispatched within n + f switches when f forks happen meanwhile |
| Scheduling.DispatchedWithin | source/process.cpp:136-198 | The process d places ahead is dispatched within d + f switches |
| StackMove.Memcpy | source/memory_management.cpp:52-61 | The bytes of the source region, for regions that do not overlap, and nothing else changed |
| StackMove.ChangeStack | source/process.cpp:229-256 | Every copied word is the old word, shifted by offset once if it lies strictly between the old stack pointer and the initial one; esp and ebp move by the same offset |
| StackMove.ChainMoved | source/process.cpp:234-251 | Following the saved frame pointers on the new stack gives the old chain with each address shifted |
| StackMove.LowestWordIff | source/process.cpp:240-251 | The word at the old stack pointer is adjusted like the others if and only if the stack does not fill the new one or that word does not point into it |
| CStrings.StrLen | source/utils/common.cpp:3-9 | The number of bytes before the first NUL |
| CStrings.StrNCmp | source/utils/common.cpp:11-29 | 0 if and only if positions 0 to num, that one included, are equal; otherwise the sign and value name the first difference |
| CStrings.ExactMatch | source/utils/common.cpp:11-29 | Compared over strlen of the first string, two strings match if and only if they are the same |
| CStrings.StrNCpy | source/utils/common.cpp:31-42 | At most num bytes up to the first NUL, one NUL more, and the rest of the buffer unchanged |
| InitrdImage.FileNameIsLastPart | mk_initrd_img/mk_initrd_img.cpp:34-38 | The part after the last slash: it has no slash, is the whole path if and only if that has none, and the path ends in it |
| InitrdImage.OffsetBound | mk_initrd_img/mk_initrd_img.cpp:52-76 | File regions are disjoint and in order |
| InitrdImage.ImageParts | mk_initrd_img/mk_initrd_img.cpp:94-137 | Each record, starting with the magic number, and each file's content is in the image at its offset |
| InitrdImage.FillTable | mk_initrd_img/mk_initrd_img.cpp:55-84 | The loop's table has each file's record with name, running offset and length |
| InitrdImage.BuildImage | mk_initrd_img/mk_initrd_img.cpp:43-140 | The three loops write exactly count, records and contents |
| InitrdFs.ImageRecords | source/vfs/initrd_fs.cpp:19-21 | An image at any address holds the count, records and contents that the reader looks for |
| InitrdFs.RelocateStep | source/vfs/initrd_fs.cpp:58-60 | Turning one offset into an address leaves every other record and all contents as they were |
| InitrdFs.MakeNode | source/vfs/fs.cpp:25-42 | The node's name is the record's, terminated inside its 64 bytes |
| InitrdFs.RamDisk.Init | source/vfs/initrd_fs.cpp:16-65 | From any image the tool writes, at any address: the children have the files' names and lengths in order, and the offsets have become addresses |
| InitrdFs.RamDisk.Read | source/vfs/initrd_fs.cpp:67-81 | 0 and an untouched buffer past the end; otherwise the count is what was asked for or what is left, whichever is less, and when offset + size wraps around what was asked for if the wrapped sum is inside the file; copied from the file's place, the file's own bytes if they hold no NUL |
| InitrdFs.ReadCountIff | source/vfs/initrd_fs.cpp:70-79 | The count is min(size, rest) if and only if offset + size does not wrap around into the file |
| InitrdFs.ReadDataIff | source/vfs/initrd_fs.cpp:78-79 | The buffer holds the bytes asked for if and only if what lay behind the first NUL was already right |
| InitrdFs.RamDisk.ReadDir | source/vfs/initrd_fs.cpp:87-115 | "dev" at 0 in the root, then the files with their inodes, and none exactly beyond the last |
| InitrdFs.RamDisk.FindDir | source/vfs/initrd_fs.cpp:117-126 | The first entry whose name is exactly the given one, "dev" first in the root, none if and only if there is none |
| InitrdFs.FindListed | source/vfs/initrd_fs.cpp:87-126 | Looking up the name that readdir gives at k + 1 finds file k if and only if that name is not "dev" and no earlier file has it |

## Left out

- OrderedArrays.OrderedArray.Add: requires a free slot; the source writes past the array without a test (`source/utils/array.cpp:141-146`).
- KernelHeaps.KernelHeap.Allocate: requires a free index slot.
- KernelHeaps.KernelHeap.Free: requires a free index slot. Of pointers with both magic numbers in place it covers those to a chunk, block or hole, and those to a piece of a hole whose footer below is in place and names a header that says block, or one of that hole that says hole. Others are excluded: numbers that stand in a payload, where their owner may write anything, and pieces whose footer below names a place in another hole. After the page fault and in the endless loops nothing is promised about memory.
- HeapParts.PartFreed: in a heap of more than 2 GB the size that grows can wrap around, and nothing is said of whether the blocks are kept. The kernel's heap has 32 MB.
- HeapRuns.PerformAll: an allocation ends the following of pieces in its front hole, in its block, under the tail hole's header, or above a footer that names a place in the block's payload or in the front hole; the free of a block ends that of pieces above a footer that names it, unless they lie in the hole that it joins; and a second free without harm ends that of the hole's other pieces. A pointer to any of these ends the run as Refused.
- KernelHeaps.KernelHeap.constructor: unaligned bounds stop the source in an endless loop and are excluded. The index slots are an array of their own and not bytes of the memory, except that free may read the last two of them as a footer; that no slot equals the magic number follows from the heap lying above it.
- Paging.PagingManagement.Kmalloc: takes the next of a list of addresses instead of calling a KernelHeap object; HeapSupplies shows that what that object returns is such a list. Running out of them is excluded by the preconditions.
- Paging.PagingManagement.FindPage: without a table and without makePageTable the source halts; the method reports it.
- Tables and directories are maps keyed by address, not bytes of memory; a write through a wild pointer into a table is not modelled. Bitmap words are 32 booleans. The words scanned behind the bitmap may hold anything and are not tied to the structures that lie there; StaysInGapIff says when boot changes none of them.
- Boot.BootPaging.InitialisePaging: requires that the pages below the end of all tables are fewer than the 4096 frames, `LowPages(start) < FRAMES`. When InGap fails, boot sets bits in the page directory's own words; nothing is promised of what that directory maps then. The page fault handler is left out.
- Frame numbers have 20 bits, so the bitmap is limited to 2^20 frames. The bits of freed frames are never cleared, as in the source.
- StackMove.ChangeStack: the loop that maps the new stack's pages is left out, and the old and new stack must not overlap and lie inside memory.
- The process counter and inode numbers are unbounded. The constructor of ProcessSLinkedList dereferences null; the model starts with an empty list and no current process. Loading registers is a returned value; that a process never saves DUMMY_EIP is assumed of its code.
- InitrdImage.BuildImage: more than 32 files, paths longer than 64 bytes (whose records the tool leaves uninitialised) and names of 64 bytes or with a NUL are excluded; opening and reading files is replaced by the given contents.
- InitrdFs.RamDisk.Read: requires room for one NUL after what is copied. Buffers and names are outside the modelled memory.
- InitrdFs.RamDisk.ReadDir: index 0 of a directory other than the root reads the record before the first one; it is excluded.
- Allocation of the root and dev nodes, their operation pointers, owner and permission fields, and `Vfs` dispatch.
- Screen output, interrupts, ports, descriptor tables, ring switches, system calls, the TLB, and the C++ runtime glue.
- `Array::erase(first, last)`, `strcat`, `pushFront`, `getPid` and files that are not built.
