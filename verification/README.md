# MM8-R kernel: verified models

MM8-R is a freestanding x86_64 kernel. This project models the parts of it that hold algorithmic
state, in Dafny 4.11, and proves what they are for. `dafny verify dfyconfig.toml` checks everything.

| files | part of the kernel |
|---|---|
| `LiballocModel`, `LiballocMeaning`, `LiballocSpec`, `Liballoc`, `MallocFailure`, `ReallocFailure` | the boundary-tag allocator behind `malloc`, `free` and `realloc` |
| `HeapModel`, `Heap`, `Bits` | the first-fit heap behind `kmalloc`, `kfree`, `kmalloc_aligned` and `krealloc` |
| `MemoryPool`, `SharedPool` | the page pool under both allocators and the page tables, and the three of them side by side |
| `Bytes`, `ByteMemory` | `memset`, `memcpy`, `memmove` and liballoc's own copy |
| `PageTables`, `Paths`, `Paging`, `BootTables`, `EcamWindows` | the four-level page tables: boot identity map, MMIO mapping, ECAM mapping, MMIO arena |
| `UnboundedTerminal`, `Console`, `NumberText` | the text console with its scrollback, and number printing |
| `Line` | `draw_line` |
| `Enumeration`, `Capabilities` | PCIe enumeration and the capability walk |
| `Arithmetic` | powers, quotients and word sizes, for the others |

How the models are built:

- Code that changes memory in place is a class whose methods change fields or arrays. Boundary tags and
  heap headers are objects with an address; casting an address to a header is the map `at`, whose keys
  are the addresses of the current headers. A header that was merged away leaves the map.
- What such code must keep true is stated on values: liballoc on a snapshot of all tags
  (`LiballocModel.State`), with invariants that look at one tag and its neighbours only; the first-fit
  heap on its list of blocks; the page tables on a sequence of frames; the console on an unbounded
  terminal. Each method is tied to a function of the old value, and the theorems are about these
  functions and invariants, so they hold after any run of the methods.
- `LiballocMeaning` derives the global picture from liballoc's local invariants: each run of pages is
  tiled, each free list is exactly the set of tags that claim to be on it, live payloads are disjoint.
  `LiballocSpec` says what `malloc`, `free` and `realloc` do to a heap as a whole.
- Headers lie in the same memory as payloads, and the roots of the heap in the kernel image, which begins at
  `image` and ends where the page pool is put. A copy that `realloc` makes over a header or the image sets
  `corrupt`; an allocator is `Valid` only while that is false.
- Page tables: `PageTables.Walk` is what the processor does (section 4.5 of volume 3A of the Intel SDM).
  The mapping loops are proved to change `Walk` on exactly the requested pages; `Paths` says what one
  mapping leaves of the upper levels to the next, so that they can follow each other in any order.
- `SharedPool` puts liballoc, the first-fit heap and the page tables on one page pool: whatever one of them
  does, the others stay valid and no two of them hold the same memory.

What the code does differently from what one would expect; each is a theorem with an exact condition or
a concrete case:

- `kmalloc` rounds with a 32-bit mask, so it truncates sizes: `HeapModel.ServedCoversIff`. Asked for 4 GiB it
  serves a block of no bytes: `HeapModel.FourGigabytesServedByNothing`.
- liballoc adds header and size in 32 bits. When the sum wraps, the run is too short and the header of the
  rest is written into the header of the block: `MallocFailure.FreshBlockHoldsIffNoWrap`,
  `MallocFailure.SplitPointBehindHeaderIff`; for 0xFFFFFFE0 bytes by 16: `MallocFailure.SplitPointInHeader`.
- `realloc` without memory copies the old block to address 0, frees it and returns NULL. The heap survives
  this exactly if the bytes copied end at or below the start of the kernel image: the contract of
  `Liballoc.Allocator.Realloc`. `ReallocFailure.ReallocWithoutMemory` runs it with 1 MiB, which it survives,
  and with one byte more, which it does not.
- A header that was swallowed keeps its magic word, so a second `free` of its block is not ignored: it adds the
  size of that header to its left neighbour again, and no heap stands that: `LiballocMeaning.RealSizeIsExact`.
- The start bus of an MCFG entry is in the addresses of its enumeration twice: `initPcie` passes the start of the
  entry's window, and `get_pcie_config_addr` adds the bus number to it. All that is read is mapped exactly if
  the start bus is 0: `EcamWindows.EnumerationMappedIff`.
- `initPcie` overruns its records from the 17th MCFG entry on: `EcamWindows.InitPcie`.
- The MMIO arena is meant to start 4 GiB above `PCIE_VIRTUAL_BASE`, but the sum wraps to 3 GiB, inside
  the boot identity map, where `map_mmio_region` changes no translation:
  `BootTables.ArenaWorksOnlyAboveIdentity`, `Paths.RequestGrantedIff`. ECAM windows do not change that, and an
  arena between 8 GiB and the windows would work: `EcamWindows.OpenBetweenIdentityAndWindows`.
- The mapping functions return an address without the offset of the registers in their page, so the caller
  reaches the registers exactly if these are page-aligned: `Paths.ServesIffAligned`. And the mapping can
  miss the page of their last byte: `Paths.LastByteReachedIff`.
- Enumeration visits a bus behind a bridge twice: `Enumeration.RecordedOnceIff`.
- The capability walk does not mask the low pointer bits: `Capabilities.LimitHidesUnaligned`.
- A tab never ends on a tab stop: `UnboundedTerminal.TabReachesStopIff`.
- A backspace in the first column of the first row does nothing, so a character that scrolled a one-line
  console cannot be taken back: `UnboundedTerminal.BackspaceUndoesIff`.
- `draw_line` stops after 1000000 points: `Line.EndReachedIffShort`.
- `SCROLLBACK_LINES` is 10, from `include/stdio.h`; `include/screenDefs.h` says 2 but is not included.

## Model

| member | source | states |
|---|---|---|
| `MemoryPool.AlignUpIsLeast` | src/kernel/mem/memory.c:14-19 | for every power of two, the masked sum is the least multiple at or above the value, as long as 64 bits hold the sum |
| `MemoryPool.PagePool.MemoryInit` | src/kernel/mem/memory.c:21-28 | the cursor starts at the first page boundary behind the kernel image |
| `MemoryPool.PagePool.AllocPages` | src/kernel/mem/memory.c:30-53 | a run of whole pages behind everything handed out before; NULL exactly for zero pages or when the 64-bit end of the run lies behind the 1024 pages, and then nothing moves |
| `MemoryPool.StopIsEndIffNoWrap` | src/kernel/mem/memory.c:41 | the run handed out ends at the new cursor exactly if its size does not wrap in 64 bits |
| `SharedPool.Malloc` | src/kernel/mem/liballoc.c:281-390 | malloc beside a first-fit heap and page tables on the same pool: it does what Allotted says, both others stay valid, and the memory of the three stays disjoint |
| `SharedPool.Free` | src/kernel/mem/liballoc.c:396-486 | the same, for a live block or an address without the magic word |
| `SharedPool.Realloc` | src/kernel/mem/liballoc.c:507-532 | the same, unless the copy to address 0 destroys the kernel; and what Replaced says in any case |
| `SharedPool.Kmalloc` | src/kernel/mem/heap.c:40-78 | first fit as without the others, and the sharing is kept |
| `SharedPool.Kfree` | src/kernel/mem/heap.c:104-121 | the block is released as without the others, and the sharing is kept |
| `SharedPool.MapMmioRegion` | src/kernel/drivers/pcie.c:364-397 | the pages are mapped as without the others, and no new table lies in a run of liballoc or in the page of the first-fit heap; the kernel only halts without a free frame, and not if there are three for each page |
| `SharedPool.TablesApart` | src/kernel/drivers/pcie.c:22-29 | tables that are new in a mapping lie clear of everything handed out before |
| `SharedPool.RunsApart` | src/kernel/mem/memory.c:30-53 | runs that are new to liballoc lie clear of the other two |
| `SharedPool.InitPcie` | src/kernel/drivers/pcie.c:89-117 | the ECAM windows beside both heaps: as for MapMmioRegion, unless the records are overrun; with two free frames the kernel does not halt, and every bus is then at its place |
| `SharedPool.Boot` | src/arch/x86_64/boot/main.asm:85-123 | from zeroed frames inside the kernel, the boot tables and two unused heaps on one pool with all its 1024 pages free: the state from which all of this starts |
| `SharedPool.Start` | src/kernel/drivers/pcie.c:89-117 | boot, initPcie on any MCFG table of at most 16 windows, and an arena between 8 GiB and the windows: the kernel does not halt, everything is valid and disjoint, and every bus is found where the last entry that has it says |
| `SharedPool.MapPhys` | src/kernel/drivers/pcie.c:415-421 | a request to the arena keeps that and serves its bytes, if the kernel does not halt; and it only halts without a free frame |
| `SharedPool.MapEcam` | src/kernel/drivers/pcie.c:61-87 | so does an ECAM window beside the arena, laid out as without the others |
| `SharedPool.MallocBesideArena` | src/kernel/mem/liballoc.c:281-390 | malloc leaves every range of the arena as it is, and does what Allotted says |
| `LiballocModel.ListIndexMeaning` | src/kernel/mem/liballoc.c:40-68 | list i above 8 is for the capacities in [2^i, 2^(i+1)), list 8 for everything below 512 |
| `LiballocModel.ExpFindsQuantum` | src/kernel/mem/liballoc.c:44-52 | getexp answers -1 exactly below 256 bytes |
| `LiballocModel.RemoveKeepsLinked` | src/kernel/mem/liballoc.c:164-174 | unlinking a free tag keeps all chains, all free lists and full coalescing |
| `LiballocModel.InsertKeepsLinked` | src/kernel/mem/liballoc.c:141-162 | pushing a tag onto the list of its capacity keeps them too, if neither neighbour is free |
| `LiballocModel.MergeKeepsLinked` | src/kernel/mem/liballoc.c:177-203 | letting a tag swallow its right neighbour keeps them, for any two neighbours off the lists |
| `LiballocModel.SplitKeepsLinked` | src/kernel/mem/liballoc.c:205-224 | cutting the unused tail off a tag keeps them |
| `LiballocModel.NewRunKeepsLinked` | src/kernel/mem/liballoc.c:237-265 | a fresh run with one tag over all of it keeps them |
| `LiballocModel.DropRunKeepsLinked` | src/kernel/mem/liballoc.c:447-468 | giving a whole run back keeps them |
| `LiballocModel.RemoveCounts` | src/kernel/mem/liballoc.c:337-340 | l_completePages still counts the unsplit tags of every list when a tag leaves its list |
| `LiballocModel.InsertCounts` | src/kernel/mem/liballoc.c:447-478 | and when one joins; it stays at or below MAXCOMPLETE |
| `LiballocModel.SplitKeepsCounts` | src/kernel/mem/liballoc.c:205-224 | splitting changes no count |
| `LiballocModel.MergeKeepsCounts` | src/kernel/mem/liballoc.c:177-203 | merging changes no count |
| `LiballocModel.MeltCommutes` | src/kernel/mem/liballoc.c:423-430 | swallowing a tag before unlinking its free left neighbour gives the same heap as the other order |
| `LiballocModel.TakeOutEntersTransit` | src/kernel/mem/liballoc.c:336-341 | taking a tag off its list, with the count, leaves a consistent heap in which only that tag's size is open, and its right neighbour is not free |
| `LiballocModel.SplitMovesTransit` | src/kernel/mem/liballoc.c:205-224 | after the cut the tag fits its block exactly, the tail is the tag in transit, and no other block changed |
| `LiballocModel.InsertEndsTransit` | src/kernel/mem/liballoc.c:471-478 | putting the tag in transit on its list, with the count, restores the full invariant and removes exactly that block from the live ones |
| `LiballocModel.MeltLeftMovesTransit` | src/kernel/mem/liballoc.c:423-430 | one round of the left loop keeps everything and swaps the freed tag for its left neighbour |
| `LiballocModel.AbsorbRightKeepsTransit` | src/kernel/mem/liballoc.c:433-439 | one round of the right loop keeps everything and no live block changes |
| `LiballocModel.WholeIffAlone` | src/kernel/mem/liballoc.c:447 | once neighbours are coalesced, the test for a whole run succeeds exactly if no other block of the run is live |
| `LiballocModel.DropRunEndsTransit` | src/kernel/mem/liballoc.c:453-458 | the page count computed for the run is the one it was allocated with, and dropping it restores the invariant |
| `LiballocMeaning.RunIsTiled` | src/kernel/mem/liballoc.c:177-229 | following split_right from the start of a run meets all its tags, each where its predecessor ends, split_left is the inverse, and the sizes sum to the run |
| `LiballocMeaning.FreeListIsExact` | src/kernel/mem/liballoc.c:141-174 | following next from head i meets exactly the tags with index i, each once, all of the capacity class of list i |
| `LiballocMeaning.InsertPushes` | src/kernel/mem/liballoc.c:141-162 | the list of the tag's capacity, as a sequence, gains it at the front; all others stay |
| `LiballocMeaning.RemoveDeletes` | src/kernel/mem/liballoc.c:164-174 | exactly the tag is gone from the sequence of its list, in unchanged order; all others stay |
| `LiballocMeaning.PayloadsAreDisjoint` | src/kernel/mem/liballoc.c:281-390 | a live payload overlaps no other live payload and no header |
| `LiballocMeaning.PayloadInPool` | src/kernel/mem/liballoc.c:281-390 | a live payload and its header lie behind the start of the page pool and before the pages not yet handed out |
| `LiballocModel.InvGrows` | src/kernel/mem/memory.c:30-53 | pages handed out to others leave the invariant as it is |
| `LiballocMeaning.IdleRunIsOneTag` | src/kernel/mem/liballoc.c:396-486 | a run without a live block is one unsplit tag, counted as complete |
| `LiballocMeaning.RealSizeIsExact` | src/kernel/mem/liballoc.c:177-187 | a heap with any other real_size in a tag is broken: what a second free of a swallowed block makes of its left neighbour |
| `MallocFailure.FreshBlockHoldsIffNoWrap` | src/kernel/mem/liballoc.c:244-265 | the block that a fresh run serves holds header and size exactly when their 32-bit sum does not wrap |
| `MallocFailure.WrappedSizeSplitsHeader` | src/kernel/mem/liballoc.c:353-371 | when it wraps, malloc always goes on to split, and the new header begins inside the old one |
| `MallocFailure.SplitPointBehindHeaderIff` | src/kernel/mem/liballoc.c:205-210 | the new header comes behind the old one exactly when the sum does not wrap |
| `MallocFailure.SplitPointInHeader` | src/kernel/mem/liballoc.c:205-210 | for 0xFFFFFFE0 bytes it begins 16 bytes into the old one |
| `LiballocSpec.ReturnDecision` | src/kernel/mem/liballoc.c:443-450 | after coalescing, the tests free makes decide exactly whether no other block of the run is live and five idle runs of the class are kept |
| `LiballocSpec.CandidateIsFirst` | src/kernel/mem/liballoc.c:306-321 | malloc reuses the first tag with room on the list of the size class, and none exactly if no free tag of the class has room |
| `LiballocSpec.OutOfMemoryIff` | src/kernel/mem/liballoc.c:306-336 | malloc fails exactly if no free tag of the size class has room and the pages behind those handed out do not suffice |
| `LiballocSpec.LastFreedFirst` | src/kernel/mem/liballoc.c:141-162 | a tag put on its list is what the next malloc of that class reuses, if it has room |
| `LiballocSpec.PagesForIsLeast` | src/kernel/mem/liballoc.c:244-251 | the fewest whole pages for request and header, but at least 16 |
| `LiballocSpec.TakenSizeIs` | src/kernel/mem/liballoc.c:353-374 | the rest becomes a tag exactly if it holds a header and 256 bytes |
| `LiballocSpec.ReturnsRunIff` | src/kernel/mem/liballoc.c:443-450 | at most five idle runs of a size class are kept; a run goes back exactly if it becomes idle while five are |
| `LiballocSpec.ReplacedCarries` | src/kernel/mem/liballoc.c:525-528 | every byte of the old block that fits is at its place in the new one |
| `LiballocSpec.CopyIsClear` | src/kernel/mem/liballoc.c:525-528 | the copy into a freshly served block stays inside the pool, touches no header and overlaps neither the old block nor another live one |
| `LiballocSpec.CopyIsSafe` | src/kernel/mem/liballoc.c:525-528 | such a copy carries min(old, new) bytes over and disturbs no live block |
| `LiballocSpec.CopyToZero` | src/kernel/mem/liballoc.c:525-528 | the copy to address 0 touches neither a header nor the kernel image exactly if it ends at or below the start of the image |
| `Liballoc.Allocator.constructor` | src/kernel/mem/liballoc.c:290-300 | all lists empty, all counts zero |
| `Liballoc.Allocator.GetExp` | src/kernel/mem/liballoc.c:44-68 | the search loop finds the exponent that ListIndexMeaning is about |
| `Liballoc.Allocator.InsertTag` | src/kernel/mem/liballoc.c:141-162 | exactly the push that InsertKeepsLinked is about |
| `Liballoc.Allocator.RemoveTag` | src/kernel/mem/liballoc.c:164-174 | exactly the unlinking that RemoveKeepsLinked is about |
| `Liballoc.Allocator.MeltLeft` | src/kernel/mem/liballoc.c:177-187 | the left neighbour swallows the tag, nothing else |
| `Liballoc.Allocator.AbsorbRight` | src/kernel/mem/liballoc.c:190-203 | the right neighbour leaves its list and is swallowed, nothing else |
| `Liballoc.Allocator.SplitTag` | src/kernel/mem/liballoc.c:205-229 | the tail becomes a free tag behind the used part; the invariant holds again and no live block changed |
| `Liballoc.Allocator.FindFit` | src/kernel/mem/liballoc.c:306-321 | on the list of the size class, taken as the sequence ListFrom: the first tag that has room for the request and another header, all before it being too small; null exactly if no free tag of the size class has room |
| `Liballoc.Allocator.AllocateNewTag` | src/kernel/mem/liballoc.c:237-277 | a tag over a fresh run of the computed page count; null exactly when the pool cannot supply it, and then nothing changed |
| `Liballoc.Allocator.Malloc` | src/kernel/mem/liballoc.c:281-390 | the invariant holds again; the new block, with the requested size, is the only change to the live blocks; it reuses the first fit or else starts a fresh run behind all pages handed out; it takes less than 352 bytes more than asked for; NULL exactly if no free tag of the size class has room and the pool cannot supply the run |
| `Liballoc.Allocator.MeltAllLeft` | src/kernel/mem/liballoc.c:422-430 | the loop ends, with no free left neighbour left, and no other live block changed |
| `Liballoc.Allocator.AbsorbAllRight` | src/kernel/mem/liballoc.c:432-439 | the loop ends, with no free neighbour on either side |
| `Liballoc.Allocator.LiballocFree` | src/kernel/include/memory.h:39-47 | demands the base and page count of a run obtained and not returned |
| `Liballoc.Allocator.ReturnRun` | src/kernel/mem/liballoc.c:450-468 | meets that demand |
| `Liballoc.Allocator.Free` | src/kernel/mem/liballoc.c:396-486 | the invariant holds again; exactly the given block stops being live; the run goes back exactly when ReturnDecision's conditions hold; NULL and addresses without the magic word change nothing |
| `Liballoc.Allocator.CopyBytes` | src/kernel/mem/liballoc.c:80-103 | a copy within memory leaves the heap intact exactly if it writes over no header and no byte of the kernel image |
| `Liballoc.Allocator.Realloc` | src/kernel/mem/liballoc.c:507-532 | the block moves with its first min(old, new) bytes and every other live block keeps its bytes; without memory the bytes are at address 0, and the heap is valid, with the old block gone, exactly if they end at or below the start of the kernel image; size 0 and NULL act as free and malloc |
| `ReallocFailure.NoCandidate` | src/kernel/mem/liballoc.c:306-321 | no free tag serves a request that is longer than every run |
| `ReallocFailure.NoMemory` | src/kernel/mem/liballoc.c:507-532 | beside a block of 1 MiB, or of one byte more, 3 MiB cannot be had; the copy of the first ends below the kernel, that of the second does not |
| `ReallocFailure.ReallocWithoutMemory` | src/kernel/mem/liballoc.c:507-532 | malloc and realloc to 3 MiB on a fresh pool return NULL; the heap is valid after 1 MiB and destroyed after one byte more |
| `HeapModel.ServedCoversIff` | src/kernel/mem/heap.c:53-72 | the block that is served holds the request exactly up to 0xFFFFFFF0 |
| `HeapModel.FourGigabytesServedByNothing` | src/kernel/mem/heap.c:53-72 | a request of 4 GiB on a fresh page takes a block of no bytes |
| `HeapModel.FirstFit` | src/kernel/mem/heap.c:56-58 | the first free block with room for the rounded size and a header |
| `HeapModel.AlignSizeIsNext` | src/kernel/mem/heap.c:53 | up to 0xFFFFFFF0 the rounded size is the next multiple of 16 |
| `HeapModel.TakenSizeIs` | src/kernel/mem/heap.c:59-67 | a block keeps at most 64 bytes beyond the rounded size; a larger rest becomes a block |
| `HeapModel.TakeKeepsCanonical` | src/kernel/mem/heap.c:58-72 | taking a free block keeps the tiling and leaves no two free neighbours; exactly one live block is added, and it holds the request |
| `HeapModel.CoalesceMeaning` | src/kernel/mem/heap.c:112-120 | the pass of kfree keeps tiling and live blocks and leaves no two free neighbours, whatever it starts from |
| `HeapModel.ReleaseMeaning` | src/kernel/mem/heap.c:104-121 | freeing removes exactly the given block from the live blocks |
| `HeapModel.CanonicalIsUnique` | src/kernel/mem/heap.c:40-121 | the block list is determined by its live blocks |
| `HeapModel.FreeUndoesMalloc` | src/kernel/mem/heap.c:40-121 | kfree after kmalloc restores the identical list |
| `HeapModel.FreesCommute` | src/kernel/mem/heap.c:104-121 | two blocks can be freed in either order, with the same list as result |
| `HeapModel.IdleHeapIsOneBlock` | src/kernel/mem/heap.c:35-37 | once nothing is live the list is the one block heap_initialize made |
| `HeapModel.SizesAccountForHeap` | src/kernel/mem/heap.c:157-189 | payloads and headers add up to the page |
| `Heap.AlignedAddressFits` | src/kernel/mem/heap.c:91-98 | the masked address is a multiple of any power of two, and back pointer and all bytes lie inside the raw block |
| `Heap.UserWritesKeepBackPointer` | src/kernel/mem/heap.c:100-128 | no write to the block's bytes changes the pointer kfree_aligned loads |
| `Heap.AlignedPairRestores` | src/kernel/mem/heap.c:80-130 | kmalloc_aligned, any writes of the owner, kfree_aligned: the raw block is the one released and the list is as before |
| `Heap.DecodeEncode` | src/kernel/mem/heap.c:100-128 | a pointer stored in bytes loads as itself |
| `Bits.PowerTest` | src/kernel/mem/heap.c:87 | the mask test recognises exactly the powers of two |
| `Bits.MaskRoundsDown` | src/kernel/mem/heap.c:98 | masking with the complement of a power of two less one rounds down to its multiple |
| `Heap.KernelHeap.HeapInitialize` | src/kernel/mem/heap.c:24-38 | one free block over a fresh page, once; nothing if there is no page |
| `Heap.KernelHeap.StartIsCanonical` | src/kernel/mem/heap.c:24-38 | the list that the next kmalloc searches is canonical |
| `Heap.KernelHeap.Search` | src/kernel/mem/heap.c:56-75 | the loop finds the first fit |
| `Heap.KernelHeap.SplitBlock` | src/kernel/mem/heap.c:60-68 | the rest of the block is a new free block linked behind it |
| `Heap.KernelHeap.Kmalloc` | src/kernel/mem/heap.c:40-78 | the list becomes the one with the first fit taken, and the payload address is returned; NULL for size 0 or without a fit |
| `Heap.KernelHeap.CoalescePass` | src/kernel/mem/heap.c:112-120 | the pass on linked headers computes the list that CoalesceMeaning is about |
| `Heap.KernelHeap.Kfree` | src/kernel/mem/heap.c:104-121 | the list becomes the one with that block released |
| `Heap.KernelHeap.KmallocAligned` | src/kernel/mem/heap.c:80-102 | an aligned block inside the raw block with the back pointer below it, and no other byte written; NULL for size 0, for other alignments, without a fit |
| `Heap.KernelHeap.KfreeAligned` | src/kernel/mem/heap.c:123-130 | releases the block the back pointer names |
| `Heap.KernelHeap.Krealloc` | src/kernel/mem/heap.c:132-155 | all five cases; a move carries the old payload over and releases the old block; without a fit nothing changes |
| `Heap.KernelHeap.HeapGetStats` | src/kernel/mem/heap.c:157-189 | live and free payload bytes through the out-pointers given, which with the headers make up the page; total needs the other two once the heap is set up |
| `HeapModel.StatsFollowTake` | src/kernel/mem/heap.c:157-189 | 4072 bytes are free at first; a kmalloc moves the size of its block to the bytes in use, and a header more is gone if the block was split |
| `Heap.RelocatedMeaning` | src/kernel/mem/heap.c:142-154 | krealloc of a block that is too small: exactly the old live block is replaced by one that holds the new size and begins with the old bytes; NULL, with nothing changed, exactly if no free block has room |
| `Heap.KernelHeap.HeapMemcpy` | src/kernel/mem/heap.c:15-22 | copies front to back, whatever the overlap, and so copies n bytes and changes nothing else unless dst lies inside the source |
| `ByteMemory.ForwardIsCopied` | src/kernel/libs/string.c:41-75 | front-to-back byte copying equals copying a snapshot when dest is not inside the source |
| `ByteMemory.ForwardCopiesIffNotInside` | src/kernel/libs/string.c:85 | and only then: the test memmove makes is exact |
| `ByteMemory.ForwardWord` | src/kernel/libs/string.c:58-61 | a word copy equals eight byte copies at any distance that is a multiple of 8 |
| `ByteMemory.Memset` | src/kernel/libs/string.c:4-37 | exactly the given bytes hold the low byte of val, for every alignment and length |
| `ByteMemory.Memcpy` | src/kernel/libs/string.c:41-75 | all three phases together copy front to back, whatever the overlap and alignment |
| `ByteMemory.Memmove` | src/kernel/libs/string.c:77-107 | dest holds what src held before, for every overlap, distance and alignment, and nothing else changes |
| `ByteMemory.LiballocMemcpy` | src/kernel/mem/liballoc.c:80-103 | the same for liballoc's copy, when dest is not inside the source |
| `PageTables.WalkReaches` | src/kernel/include/pcie.h:16-18 | a walk that reaches a table goes on from there |
| `PageTables.WriteKeepsTable` | src/kernel/drivers/pcie.c:364-397 | writing an entry affects only the tables that hang on it |
| `PageTables.WriteKeepsWalkFrom` | src/kernel/drivers/pcie.c:364-397 | writing an entry affects only the pages that go through it |
| `PageTables.SetPageEntry` | src/kernel/drivers/pcie.c:391-392 | writing a page table entry maps its page and no other; the tables stay a tree |
| `PageTables.SetLargeEntry` | src/kernel/drivers/pcie.c:80-81 | writing a large entry with a 2 MiB aligned base maps its 512 pages and no other, even where a page table hung on it; the tables stay a tree |
| `PageTables.FlagBits` | src/kernel/include/pcie.h:9-14 | links set bits 0 and 1, device pages also bits 3 and 4, large leaves also bit 7 |
| `PageTables.LinkClearedTable` | src/kernel/drivers/pcie.c:370-373 | linking a cleared frame in place of an absent entry changes no translation and keeps the tree |
| `Paging.Mmu.AllocateFrame` | src/kernel/drivers/pcie.c:22-29 | a cleared frame, the first not handed out, that no table uses; no translation changes; the kernel halts exactly if no frame is left |
| `Paging.Mmu.MapPage` | src/kernel/drivers/pcie.c:368-394 | one round: the page is mapped unless a large leaf covers it |
| `Paging.Mmu.MapMmioRegion` | src/kernel/drivers/pcie.c:364-397 | exactly the requested pages that no large leaf covers translate to consecutive frames with the MMIO flags, all others as before; the tables stay a tree of distinct frames, new ones behind everything handed out; the paths of all pages stay fit for the next request; the kernel halts only if no frame is left, and never with three free frames for each page |
| `Paths.RequestGrantedIff` | src/kernel/drivers/pcie.c:364-397 | a whole request is served exactly if every large leaf over one of its pages has the aligned base and the flags that translate that page as requested |
| `Paging.Mmu.MapEcam` | src/kernel/drivers/pcie.c:61-87 | with 2 MiB aligned bases exactly the range rounded up to 2 MiB is overridden and lies behind large leaves; outside it every translation and every path stays fit for later mappings; the kernel halts only if no frame is left, and never with two free frames for each missing page directory over the range |
| `Paging.Arena.MapPhys` | src/kernel/drivers/pcie.c:415-421 | a page-aligned range behind all earlier ones, translating to its frames; all earlier ranges keep their translation; address virt + k leads to phys + k for every byte exactly if phys is page-aligned, and to phys less its offset plus k always; it halts only without a free frame, and not with three for each page |
| `Paging.Arena.MapBar` | src/kernel/drivers/pcie.c:399-412 | the same for a base address register, and 0 for an absent or empty one |
| `Paging.Arena.MapEcam` | src/kernel/drivers/pcie.c:61-87 | an ECAM window beside the arena leaves the open pages and every range handed out as they are |
| `Paths.GrantTranslates` | src/kernel/drivers/pcie.c:391-392 | byte k of a served range leads to byte k from its first frame on |
| `Paths.ServesIffAligned` | src/kernel/drivers/pcie.c:405-411 | the addresses returned lead to the registers byte by byte exactly if the registers begin at a page |
| `Paths.UnalignedRegisterMissed` | src/kernel/drivers/pcie.c:415-421 | for registers at 0xFEBF1100 the address returned leads to 0xFEBF1000 |
| `Paths.LastByteReachedIff` | src/kernel/drivers/pcie.c:405-411 | some address of the range translates to the last byte of the registers exactly if their offset in the page fits into the rounding |
| `BootTables.BootMemory.SetupPageTables` | src/arch/x86_64/boot/main.asm:85-123 | the loops leave the three levels of tables, and change nothing outside them |
| `BootTables.BootIdentity` | src/arch/x86_64/boot/main.asm:85-123 | every address below 8 GiB translates to itself and nothing else is mapped; exactly those pages lie under large leaves |
| `BootTables.BootTree` | src/arch/x86_64/boot/main.asm:85-123 | the boot tables are a tree of distinct frames |
| `BootTables.BootMappable` | src/arch/x86_64/boot/main.asm:85-123 | from the boot tables on, the mapping loops may be called for every page above 8 GiB |
| `BootTables.ArenaWorksOnlyAboveIdentity` | src/kernel/drivers/pcie.c:353 | whatever was mapped above 8 GiB before: a request that meets no large leaf there is served exactly if it starts at or above 8 GiB; below it changes nothing; the arena starts below |
| `BootTables.BootIdentityBelow` | src/arch/x86_64/boot/main.asm:85-123 | the identity predicate of the theorems on mappings holds after boot |
| `BootTables.MmioKeepsIdentity` | src/kernel/drivers/pcie.c:364-397 | no request to map_mmio_region changes the identity map |
| `BootTables.EcamKeepsIdentityIff` | src/kernel/drivers/pcie.c:61-87 | an ECAM mapping keeps the identity map exactly if it is empty or starts at or above 8 GiB |
| `EcamWindows.WindowAbove` | src/kernel/drivers/pcie.c:107-113 | every window lies in the top GiB of the virtual pages, away from the identity map |
| `EcamWindows.BusServed` | src/kernel/drivers/pcie.c:107-115 | after initPcie the 1 MiB at 0xFFFFFFFFC0000000 + b MiB is the configuration space of bus b in the last entry that has b |
| `EcamWindows.RegisterReached` | src/kernel/drivers/pcie.c:134-141 | with start bus 0, get_pcie_config_addr leads to the register it names |
| `EcamWindows.LastBusMissed` | src/kernel/drivers/pcie.c:112-116 | with another start bus, the last bus of the entry is looked for at an unmapped address |
| `EcamWindows.EnumerationMappedIff` | src/kernel/drivers/pcie.c:107-116 | all that the enumeration of an entry may read is mapped exactly if its start bus is 0, since the start bus is in the address twice |
| `EcamWindows.WindowCost` | src/kernel/drivers/pcie.c:61-87 | a window takes two frames if the page directory of the windows is missing, and none otherwise |
| `EcamWindows.InitPcie` | src/kernel/drivers/pcie.c:89-117 | the three arrays of 16 records are overrun exactly from 17 entries on; otherwise all entries are on record, pages in no window are as they were, a page in several windows belongs to the last of them, byte k of bus b of the last entry that has b is at 0xFFFFFFFFC0000000 + b MiB + k, and identity map and upper levels are intact; the kernel halts only if no frame is left, and never with two free frames |
| `EcamWindows.AllDescendAfterBoot` | src/arch/x86_64/boot/main.asm:85-123 | the boot tables have no large entry above the page directories, so every window can be mapped |
| `EcamWindows.OpenBetweenIdentityAndWindows` | src/kernel/drivers/pcie.c:89-117 | after boot and initPcie an arena anywhere between 8 GiB and the windows meets the demands of the mapping loops |
| `UnboundedTerminal.HistoryIsFinal` | src/kernel/libs/stdio.c:359-402 | whatever is typed, no row above the screen ever changes |
| `UnboundedTerminal.TextIsContiguous` | src/kernel/libs/stdio.c:388-397 | printable text of any length lies in consecutive cells in reading order, across wraps and scrolls, the cursor behind it; no other cell changes, no color does, and as many blank rows are added as the cursor needs |
| `UnboundedTerminal.NewlineIs` | src/kernel/libs/stdio.c:363-366 | the cursor goes to column 0 of the next row, which is a new blank one exactly if the cursor was in the last; no cell changes |
| `UnboundedTerminal.CarriageReturnIs` | src/kernel/libs/stdio.c:384-387 | only the column changes, to 0 |
| `UnboundedTerminal.LinesAreRows` | src/kernel/libs/stdio.c:363-366 | a line that fits its row, a newline and a character: the line is in its row, the character in cell 0 of the next |
| `UnboundedTerminal.ReturnOverwrites` | src/kernel/libs/stdio.c:384-387 | a carriage return and a line write over the row from cell 0 on |
| `UnboundedTerminal.BackspaceErases` | src/kernel/libs/stdio.c:368-377 | the cell before the cursor in reading order becomes a space and holds the cursor, and nothing else changes; at the start of the screen nothing does |
| `UnboundedTerminal.TabIsSpaces` | src/kernel/libs/stdio.c:379-382 | a tab types at most 4 spaces; 2, 2, 1 or 3 by its column if they fit the row |
| `UnboundedTerminal.BackspaceUndoesIff` | src/kernel/libs/stdio.c:368-377 | backspace takes a character back exactly if the screen has a second row or the character did not wrap |
| `UnboundedTerminal.TabReachesStopIff` | src/kernel/libs/stdio.c:379-382 | a tab ends on a multiple of 4 exactly on a console one column wide; within a row it emits 2, 2, 1 or 3 spaces |
| `Console.Screen.constructor` | src/kernel/libs/stdio.c:62-90 | a terminal of zeroed cells, colors included |
| `Console.Screen.Kputchr` | src/kernel/libs/stdio.c:140-149 | one cell's character changes, its color stays |
| `Console.Screen.Scrollback` | src/kernel/libs/stdio.c:208-287 | the top lines join the ring, the screen moves up by blank rows; screen and ring still show the terminal |
| `Console.Screen.Kputc` | src/kernel/libs/stdio.c:359-409 | the terminal changes as Put says, see the theorems on text, new lines, backspace and tab; the screen shows its last h rows, the ring the last min(top, 10) rows above, the cursor is on the screen |
| `Console.Screen.Kputs` | src/kernel/libs/stdio.c:411-425 | the same for a whole string |
| `Console.Screen.RedrawFromScrollback` | src/kernel/libs/stdio.c:308-328 | the row arithmetic on the ring shows the rows of the terminal above the screen, or blanks beyond the ring |
| `Console.Screen.ViewScrollbackUp` | src/kernel/libs/stdio.c:330-342 | one line further back, at most count; the screen shows that view and the live screen is kept |
| `Console.Screen.ViewScrollbackDown` | src/kernel/libs/stdio.c:344-357 | one line nearer; at 0 the live screen is back |
| `Console.Screen.BrowseHistory` | src/kernel/libs/stdio.c:330-357 | any run of the two keys that ends outside the mode leaves every cell of the screen as it was |
| `Console.ViewsScrollByOne` | src/kernel/libs/stdio.c:308-328 | the bottom line of view v is the v-th line above the live screen, and one step moves the picture by one line |
| `Console.ViewShows` | src/kernel/libs/stdio.c:308-328 | each row of a view shows the line so many above the live screen: the last ten in the default color, blanks for all others |
| `NumberText.SignedTextReadsBack` | src/kernel/libs/stdio.c:453-488 | padded with blanks or zeros, every number reads back as itself |
| `NumberText.SignedTextWidth` | src/kernel/libs/stdio.c:453-488 | the text is as wide as asked, and wider only if digits and sign need it |
| `NumberText.DigitCountIff` | src/kernel/libs/stdio.c:433-439 | a number has at most k digits exactly if it is below radix^k |
| `NumberText.BuffersSuffice` | src/kernel/libs/stdio.c:429-466 | 64 characters hold every 64-bit number in every radix, 32 hold every magnitude from radix 4 on; in radix 2 exactly those below 2^32 |
| `NumberText.Samples` | src/kernel/libs/stdio.c:427-497 | upper and lower case digits, the padding character, and the place of the sign |
| `Console.ConvertDigits` | src/kernel/libs/stdio.c:433-439 | the conversion loop leaves the digits in reverse order and stays in the buffer |
| `Console.Screen.PrintfUnsigned` | src/kernel/libs/stdio.c:427-451 | the terminal receives exactly the padded text of the number, in every radix from 2 to 16 |
| `Console.Screen.PrintfSigned` | src/kernel/libs/stdio.c:453-488 | the same with a sign, before zero padding and behind any other, when the digits fit the smaller buffer |
| `Line.LineIsGood` | src/kernel/libs/graphics.c:109-130 | the line starts and ends on its end points, every step advances the major axis and moves to a neighbour, and every point is within half a pixel of the ideal line, in all octants |
| `Line.WithinHalfPixel` | src/kernel/libs/graphics.c:122-128 | the error term keeps the minor coordinate at the nearest integer |
| `Line.MinorArrives` | src/kernel/libs/graphics.c:121 | the minor axis arrives together with the major one |
| `Line.AtStep` | src/kernel/libs/graphics.c:122-128 | the two tests of the loop body make exactly the next point |
| `Line.AtEnd` | src/kernel/libs/graphics.c:121 | the loop meets its end test exactly at the last point |
| `Line.DrawLine` | src/kernel/libs/graphics.c:109-130 | exactly the points of the line, in order: max(dx, dy) + 1 of them, or the first 1000000; the error stays inside 32 bits |
| `Line.EndReachedIffShort` | src/kernel/libs/graphics.c:117-119 | the far end is plotted exactly if max(dx, dy) is below the limit |
| `Line.TiesStayBehind` | src/kernel/libs/graphics.c:109-130 | a pixel halfway between two rows or columns goes to the one nearer the start |
| `Enumeration.Pcie.EnumerateDevices` | src/kernel/drivers/pcie.c:143-221 | loops and recursion end when bus numbers grow; the table, never above 1024 records, gains what the visit meets, in order, as far as there is room |
| `Enumeration.Pcie.VisitFunction` | src/kernel/drivers/pcie.c:175-217 | a function's record, then what is behind it if it is a bridge; see RecordIsItsRegisters and LeadsByRegisters |
| `Enumeration.VisitIsExact` | src/kernel/drivers/pcie.c:143-221 | the visit meets exactly the functions that answer on the buses of its range and on those behind the bridges it meets |
| `Enumeration.TableIsExact` | src/kernel/drivers/pcie.c:181-190 | a table with room left lists all of them, a full one nothing else |
| `Enumeration.BusesComplete` | src/kernel/drivers/pcie.c:143-221 | every function that answers on the buses of the range is met, with everything behind it |
| `Enumeration.BusesSound` | src/kernel/drivers/pcie.c:143-221 | every record describes a function that answers on a bus reached |
| `Enumeration.ReachedComplete` | src/kernel/drivers/pcie.c:208-217 | every function that answers on a bus reached through bridges is met, with everything behind it |
| `Enumeration.RecordedOnceIff` | src/kernel/drivers/pcie.c:208-217 | no function is recorded twice exactly if no function sits behind a bridge of the range |
| `Enumeration.RecordIsItsRegisters` | src/kernel/drivers/pcie.c:168-190 | every record met gives its registers back: vendor and device are register 0, class and subclass the upper half of register 8 |
| `Enumeration.LeadsByRegisters` | src/kernel/drivers/pcie.c:208-217 | a function is followed to a bus exactly if its class is 6, its subclass 4, and the bus lies from its secondary, nonzero, to its subordinate number, bytes 1 and 2 of register 0x18 |
| `Enumeration.VisibleByRegisters` | src/kernel/drivers/pcie.c:149-173 | a function is looked at exactly if function 0 and it have a vendor, and it is function 0 or bit 7 of the header type is set |
| `Enumeration.SampleVisit` | src/kernel/drivers/pcie.c:143-221 | a configuration space with a bridge and a multi-function device, and its table, record by record; with the bus behind the bridge once more if the range includes it |
| `Enumeration.RoomFor1024` | src/kernel/drivers/pcie.c:181-182 | the table takes 1024 records and drops the rest |
| `Capabilities.FindCapability` | src/kernel/drivers/pcie.c:424-437 | the first matching entry among the first 64; in an aligned list 0 exactly if no entry of the list matches |
| `Capabilities.LimitHidesNothing` | src/kernel/drivers/pcie.c:429-430 | with pointers that are multiples of 4 the limit hides no entry of any list, cyclic or not |
| `Capabilities.EntryIsNear` | src/kernel/drivers/pcie.c:429-430 | every entry of such a list is met within 63 hops |
| `Capabilities.LimitHidesUnaligned` | src/kernel/drivers/pcie.c:429-430 | a list without alignment whose wanted entry is the 65th, and hidden |

## Left out

- Liballoc.Allocator.Free: whether the magic word stands in front of an address is a parameter, since the words
  of memory that no header holds are not modelled. An address with the magic that is not a live block, such
  as one freed twice, is excluded; see RealSizeIsExact for what becomes of it.
- Liballoc.Allocator.Malloc: sizes whose 32-bit sum with the header wraps are excluded, see
  the lemmas of MallocFailure; the initialisation on first use is the constructor.
- Liballoc.Allocator.Realloc: an int cast of the old size is left out, since no block exceeds the 4 MiB pool.
- `calloc`, the DEBUG statistics of liballoc, and its locks, which do nothing.
- MemoryPool.PagePool.AllocPages: after a page count whose size wraps in 64 bits the pool is not promised to
  be valid; no client asks for such a count. Kernels that end at or above 2^52 are excluded.
- Heap.KernelHeap.KmallocAligned: requests that pad beyond 32 bits are excluded, see ServedCoversIff.
- Heap.KernelHeap.Krealloc: the same for sizes above 0xFFFFFFF0.
- ByteMemory.Memmove: pointers are indices into one memory; a wrapping range and C's aliasing rules are not modelled.
- Paging.Mmu.MapMmioRegion: `virtual_offset` is 0 (tables are reached through the identity map), CR3 is
  not reloaded, address ranges do not wrap, and frames below 2^52; out of frames the kernel halts, which is
  the out-parameter `halted`. The call before `pcie_set_pml4_and_offset` does nothing and is left out.
- Paging.Mmu.MapMmioRegion: a request under a large leaf over frames below the pool's end is excluded; there
  the source writes into whatever the leaf maps, tables included.
- Paging.Mmu.MapEcam: bases off 2 MiB boundaries, where the large entries would not line up.
- PageTables.SetLargeEntry: a large entry whose base is off its alignment sets reserved bits, or the one that
  selects a memory type; such an entry translates nothing in this model.
- EcamWindows.InitPcie: once the records are overrun nothing more is promised. The length of the MCFG table
  is that of a sequence, and the enumeration between two windows is the subject of Enumeration. Entries with an
  odd start bus or a base off 2 MiB are excluded, see MapEcam.
- Paging.Arena.MapPhys: the arena's start is a parameter with no large leaf ahead of it; for the start the
  source has, see ArenaWorksOnlyAboveIdentity.
- MSI-X tables, BAR probing, MCFG parsing, interrupt vectors, configuration writes: hardware effects.
- Console: drawing, the frame buffer, double buffering, `clrscr`, font scale changes, `kputc` while the
  scrollback is shown, and buffers that could not be allocated. The flat buffers are two-dimensional arrays.
- Console.Screen.PrintfSigned: the most negative number, whose negation C does not define, and digits that would
  overrun the smaller buffer.
- Heap.KernelHeap.HeapGetStats: total without the other two pointers, where the source dereferences NULL.
- `kprintf`, `sprintf` and `vsprintf`, `sprintf_float`.
- Line.DrawLine: a plotted point is appended to a sequence; clipping and the frame buffer are left out.
  Lines so long that the error term would not fit into 32 bits are excluded.
- Enumeration.Pcie.EnumerateDevices: configuration space is a fixed function; the BAR fields of a record are
  left out. A bridge whose secondary bus does not exceed its own is excluded: the recursion need not end.
- Enumeration.RecordedOnceIff: bridges that lead out of the visited range are excluded; the source does not map
  configuration space there.
- Boot code other than `setup_page_tables`, GDT, IDT, APIC and interrupt stubs.
- String helpers such as `strlen` and `strcmp`, which would only add easy members.
