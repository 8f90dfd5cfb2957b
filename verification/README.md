# jaos64: a verified model of the kernel's core

jaos64 is a small x86-64 kernel. This project models the parts of it that hold the
hard state, in the form the kernel gives them, and proves what they keep:

- the **kernel heap** (`Ram`, `OrderedArray`, `Regions`, `HeapSteps`, `KernelHeap`, `HeapRuns`, `HeapFaults`):
  boundary tags in bytes of memory, an index of holes, splitting, merging, growth and
  contraction, refined to a sequence of regions that tiles the heap, over whole runs;
- **physical frames** (`Bitmap`, `FrameMap`, `FrameRuns`): a bitmap packed in 64-bit words with a counter, first-fit
  searches, the marking at start-up, and runs of allocations and releases;
- **page tables** (`Paging`, `Tables`, `FrameDemand`, `AddressSpace`, `UserSpace`, `Copies`, `CloneSpace`, `HeapPages`,
  `SpaceRuns`):
  the four-level walk of long mode (AMD64 Architecture Programmer's Manual, Volume 2, section 5.3.3), the window
  that a self-referencing table opens, mapping and the frames it asks for, the emptying of user space, the copy
  made for fork, the kernel pages behind the heap, and runs of all this in one space;
- the **queue lock** and the **scheduler** (`LockQueue`, `LockProtocol`, `Scheduler`, `LockRounds`);
- the **console** (`Console`, `Numerals`): a scrolling screen and the number printers.

`Basics` holds what they share. `dafny verify dfyconfig.toml` checks everything.

## How to read it

Each module opens with what it is about. Classes carry the code's own state and are
proved against functions and predicates on values (`Tiles`, `Split`, `Freed`, `Translate`,
`ClonedAt`, `Entered`, `Put`, ...); the lemmas next to those say what the source promises.

**The heap.** `Valid()` says that the bytes of memory, the index and the bounds represent the
ghost regions: walking header sizes from the start reads exactly the regions and ends at the end
(`Regions.WalkReadsRegions`), every region with a right neighbour has a footer that names its header,
no two holes touch, and the index holds exactly the holes, each once. Where the code does
not keep this, the project says exactly when:

- `free` announces that it rewrites the footer of an absorbed right neighbour, but stores nothing outside
  the contraction branch (`kernel/kheap.c:404-407`, `431-433`). `Heap.Free` takes a flag `repaired` for that
  store; with it off, `Valid()` survives exactly when the free does not merge right, or contracts.
- `free` at the end of the heap keeps it sound exactly when what remains of the hole has room for its
  tags; with nothing left it searches the index for the wrong header (`kernel/kheap.c:427-450`).
- `free` of the last block reads a header at the heap's end (`kernel/kheap.c:400-402`). The pages of the heap are the
  only ones handed out there (`kernel/kheap.c:14-16`, `116-138`), so on a heap that was never larger this read faults,
  and `page_fault_handler` does not return (`kernel/memman.c:664-688`). `Heap.Free` says when: `halted` holds exactly if the
  block is the last and nothing behind the heap's end has been handed out (`Heap.Slack`). `HeapPages.ProbeReads` shows that
  this is what the page tables say, `HeapFaults.HaltingFree` that it happens on the kernel's first heap, and
  `HeapRuns.RunKeepsSlack` that it does not any more once the heap has been contracted.
- `free` of the last block takes whatever lies at the heap's end for a hole if it reads as one
  (same lines). The heap is then sound exactly when the size read there is 0, nothing is left of the
  merged hole, and the entry that `remove_ordered_array` drops from the end of the index, having found none, happens to
  be that hole's (`KernelHeap.LostRightEntry`). The code's own steps lead there: a contraction can end the heap at
  the header of a block that was freed and absorbed, and nothing wipes that header (`HeapFaults.StrayHeader`). So
  runs (`HeapRuns`) are over memory, and each free in them must meet the exact conditions of `Heap.Free`.
- `alloc` grows the highest hole, which is right exactly when that hole ends the heap or there is none.
- A page-aligned split is right exactly when the gap in front and the leftover are 0 or at least 32 bytes
  and the header does not sit in the last 15 bytes of a page.

`HeapFaults` shows a concrete heap for each.

**Pages.** A page table entry is a record of its bit fields; `Paging.FieldsPartition` shows that this
is the same thing as a 64-bit number. A page number has 36 bits and a path of four indices. Addresses are resolved
by the processor's walk from the root, so code that edits tables through the window must
first show that the window address resolves. `Tree` says that each table is reached along
one path only; the frame lemmas (`WriteElsewhere`, `LinkKeepsWalks`) rest on it.

`create_page_for_current` neither clears the frames it links as tables nor looks whether it got any. The project
requires exactly the frames that are needed (`FrameDemand.CanMap`: one for each page, and a zeroed one for each table
that is missing when its turn comes), shows that pages run out cleanly, and says what happens otherwise:
`FrameZeroLinkedIff` and `FrameZeroTwice` for no frame, `StaleTableIff` for one that is not clear.
`mem_init_region` rounds a range's start down to a block, and stops for good at a block that is free already; what that
does to unaligned and to overlapping ranges is `FrameMap.FreeAvailableIff` and `FrameMap.OverlapLosesIff`.
`frame * 0x1000` is evaluated in the 40 bits of the field, so physical addresses are right below 1 TB
(`Paging.FrameAddressIff`).
A program can use a page only if all four entries on its walk are for user mode. `alloc_page` makes missing tables so, but
leaves those that are there as they are, and at start-up the kernel's own mappings come first (`kernel/memman.c:300-307`):
`AddressSpace.UsableIff` and `KernelTopBars` say what follows, and `Copies.CopyForUser` that it is different in a copy.

**Clean-up.** The comment in `clean_user_space` says that it keeps the last two blocks for
stacks. The condition (`kernel/memman.c:514`) keeps more: all of the third gigabyte, everything under the last page
directory entry of the other two, and the last two entries of every page table. The model follows the condition
(`UserSpace.Swept`).

**Runs of a space.** What `clean_user_space` and `clone_pml4t` need of their callers, that each page has a frame of its
own, is an invariant of every run of the five operations on one space (`SpaceRuns.RunKeepsHeld`). fork breaks it for the
kernel's area: the pages of the copy are heap blocks, so their frames back heap pages too. `exec` in the copy frees
these frames while the heap still maps them; `SpaceRuns.ForkAndEmpty` says that this happens exactly if the forked space had
a page that `exec` sweeps.

**Locks.** Sections under the master lock are atomic steps, and so is finding oneself not at the head and
blocking, since on one processor the handlers run with interrupts off. `LockProtocol.GapLosesWakeUpIff` shows what
depends on that. `puts` and `putint` nest the monitor lock, which has no nesting count; `LockQueue.NestingReleases` and
`LockProtocol.NestingLetsIn` show what follows.

## Model

| member | source | states |
|---|---|---|
| Ram.BytesRoundTrip | kernel/kheap.h:17-30 | a number stored in n bytes, least significant first, is read back |
| Ram.ByteWeighs | kernel/kheap.h:17-30 | the byte at offset k of a stored number counts 256 to the k |
| Ram.Memory.StoreHeader | kernel/kheap.c:332-335 | a header written at p is what is read at p; no byte outside it changes |
| Ram.Memory.StoreFooter | kernel/kheap.c:337-339 | a footer written at q names its header; no byte outside it changes |
| OrderedArray.Index.Insert | kernel/ordered_array.c:37-61 | the array holds its old entries with the item put before the first entry not less than it |
| OrderedArray.Index.Lookup | kernel/ordered_array.c:63-69 | the entry at i, or 0 past the end |
| OrderedArray.Index.Remove | kernel/ordered_array.c:71-79 | the array holds its old entries without the i-th, in order; for the position behind the last it loses the last, and a count of 0 wraps around |
| OrderedArray.InsertedKeepsEntries | kernel/ordered_array.c:37-61 | insertion adds the item to the multiset of entries and nothing else |
| OrderedArray.InsertedKeepsOrder | kernel/ordered_array.c:42-60 | an array sorted by size stays sorted when an item is inserted |
| OrderedArray.RemovedKeepsEntries | kernel/ordered_array.c:71-79 | removal takes one entry off the multiset |
| OrderedArray.RemovedKeepsOrder | kernel/ordered_array.c:71-79 | a sorted array stays sorted when an entry is removed |
| OrderedArray.GrownInPlaceKeepsOrderIff | kernel/kheap.c:289-290 | when one entry's size grows in place, the index stays sorted exactly if the entry behind it is still at least as large |
| Regions.WalkReadsRegions | kernel/kheap.c:201-239 | walking the headers in memory from the start reads exactly the regions and lands on the end |
| Regions.RegionsDisjoint | kernel/kheap.c:299-357 | two regions of a tiled heap never overlap |
| HeapSteps.FitsIff | kernel/kheap.c:172-186 | the test passes exactly the holes that have the bytes asked for in a row, from a place behind whose header, when asked, a page begins |
| HeapSteps.SplitTilesIff | kernel/kheap.c:304-357 | a hole's pieces cover it exactly, each with room for its tags, if and only if the request is safe; unaligned ones always are |
| HeapSteps.CarvedBlock | kernel/kheap.c:311-339 | the block cut out of a hole lies inside it, is as large as asked, and is page-aligned when asked |
| HeapSteps.GrownTilesIff | kernel/kheap.c:258-294 | growth keeps the regions tiling the heap if and only if the highest hole ends it or there is no hole |
| HeapSteps.GrowthSuffices | kernel/kheap.c:241-296 | an unaligned request fits after one growth, a page-aligned one after two |
| HeapSteps.FreedSoundIff | kernel/kheap.c:382-450 | after free the regions tile the heap and the index holds exactly the holes if and only if the remainder after contraction has room for its tags |
| HeapSteps.FreedCoalesced | kernel/kheap.c:385-446 | free never leaves two holes side by side |
| HeapSteps.ShrinksIff | kernel/kheap.c:421-422 | the heap is cut exactly when the merged hole ends it |
| HeapSteps.ContractionBounds | kernel/kheap.c:140-163 | contraction ends on a page, keeps the minimum size, and never grows the heap |
| HeapSteps.ContractionLeast | kernel/kheap.c:140-163 | it is cut to the nearest page boundary that leaves it the minimum size and does not lie below the hole's header |
| HeapSteps.DanglingEntry | kernel/kheap.c:435-450 | when nothing remains of the hole, the index keeps its address, which is at or beyond the heap's new end |
| KernelHeap.Heap.constructor | kernel/kheap.c:201-239 | the new heap is sound and is one hole from the page after the index to the end |
| KernelHeap.Heap.FindSmallestHole | kernel/kheap.c:165-194 | -1 exactly when no hole has room for the request, by addresses; otherwise the first entry that fits, the smallest such hole if the index is sorted |
| KernelHeap.Heap.Expand | kernel/kheap.c:116-138 | the end moves up to the page boundary at or after the new size, and as many kernel pages are taken |
| KernelHeap.Heap.Contract | kernel/kheap.c:140-163 | the end moves to a page boundary, not below the minimum size and never up |
| KernelHeap.Heap.Grow | kernel/kheap.c:250-294 | the heap stays sound with its highest hole enlarged or a new one at the old end; live blocks keep their bytes |
| KernelHeap.Heap.Alloc | kernel/kheap.c:241-361 | terminates with the heap sound, a block cut out of a hole of the heap grown to fit, and every live block in place with every byte kept; the heap grows exactly as often as there is no room; when a hole fits without growth it is the first that fits, and a sorted index stays sorted if the request was not page-aligned |
| KernelHeap.AllocatedBlock | kernel/kheap.c:331-360 | the address handed out is that of a new block of at least the size asked for |
| KernelHeap.AllocatedAligned | kernel/kheap.c:312-324 | a page-aligned request gets a page-aligned address |
| KernelHeap.GrowthProgress | kernel/kheap.c:248-296 | each recursion of alloc needs fewer growths than the one before, for the same final heap |
| KernelHeap.Heap.FreeBlock | kernel/kheap.c:369-450 | for any live block, whatever lies at the heap's end: that it halts if and only if the block is the last and nothing behind the heap has been handed out; otherwise that the heap is sound if and only if `FreeKeepsHeap` holds, which reads memory before the call, and that if it is not, no regions at all make it so; the exact regions, and without a stray header the exact index and end; no write outside the merged hole |
| KernelHeap.Heap.Free | kernel/kheap.c:363-452 | nothing for a null pointer; otherwise the same, with every other live block in place and unchanged in every byte, and what is left of the freed header when its left neighbour absorbs it |
| KernelHeap.StrayVerdict | kernel/kheap.c:400-446 | what free makes of the heap when it merges with a header read at the heap's end: sound for some regions if and only if the stray size is 0, nothing remains of the hole, and the entry lost is that hole's |
| KernelHeap.FreedSorted | kernel/kheap.c:408-446 | in a free without a left merge, what is left of a sorted index before the freed header enters it is sorted by the new sizes |
| KernelHeap.Heap.WritePayload | kernel/kheap.c:360 | whatever the owner writes in a live block's payload, the heap stays sound |
| HeapRuns.TakeOk | kernel/kheap.c:241-361 | an allocation, with the growth it needs, adds exactly one block to the live ones, large enough and at the address returned |
| HeapRuns.ReleaseOk | kernel/kheap.c:363-452 | a free that does not halt and meets the exact condition takes exactly its block off the live ones |
| HeapRuns.RunKeepsBlocks | kernel/kheap.c:241-452 | over any run of allocations, frees that neither halt nor break the heap, and writes in memory the heap stays sound, and a block not given back stays where it is, each byte of its payload being what its owner last wrote there |
| HeapRuns.RunKeepsApart | kernel/kheap.c:241-452 | in every state of a run the live blocks share no byte and lie inside the heap |
| HeapRuns.RunKeepsSlack | kernel/kheap.c:116-163 | what is handed out behind the heap never becomes less, so once there is some no free of the run halts |
| HeapRuns.NoSlackHalts | kernel/kheap.c:400-402 | while nothing is, the last block cannot be freed, and only the release of another block can change that |
| HeapRuns.Allocate | kernel/kheap.c:241-361 | alloc on a legal state is a step of runs |
| HeapRuns.Deallocate | kernel/kheap.c:363-452 | free on a legal state, one whose read behind the block is mapped among it, is a step of runs |
| HeapRuns.WriteByte | kernel/kheap.c:360 | so is a byte written in a live payload |
| HeapRuns.NoBlocksOneHole | kernel/kheap.c:385-446 | with every block given back the heap is one hole |
| HeapRuns.BytesConserved | kernel/kheap.c:241-452 | the sizes of holes and blocks always add up to the heap |
| HeapFaults.StaleFooter | kernel/kheap.c:404-407 | a heap on which the code's free leaves a wrong footer and the repaired one does not |
| HeapFaults.DanglingHeader | kernel/kheap.c:435-450 | a heap on which a free leaves the new end in the index |
| HeapFaults.OverlappingGrowth | kernel/kheap.c:258-294 | a heap on which growth makes a hole overlap a block |
| HeapFaults.NarrowGap | kernel/kheap.c:312-323 | a hole and a page-aligned request whose split does not tile it |
| HeapFaults.HaltingFree | kernel/kheap.c:400-402 | on the kernel's first heap one block that fills it is allocated and freed, and the machine halts |
| HeapFaults.StrayHeader | kernel/kheap.c:398-434 | on a heap that has been cut and has grown again, allocations and three frees of the code as it is, each leaving the heap sound and reading only what is mapped, after which the header of a freed block lies at the heap's end and freeing the last block meets the condition for no heap |
| HeapFaults.StrayFree | kernel/kheap.c:398-446 | that free, after which no regions at all make a heap |
| Bitmap.JumpSkipsNothing | kernel/memman.c:99-106 | a set bit within size bits rules out every start up to it |
| Bitmap.TooFewFree | kernel/memman.c:140-141 | with fewer free bits than the size there is no such zone |
| Bitmap.AllocFreeRestores | kernel/memman.c:138-166 | allocating a zone and freeing it restores the bitmap |
| Bitmap.GrabKeepsApart | kernel/memman.c:138-156 | a zone handed out shares no frame with any outstanding one |
| Bitmap.DropKeepsOthers | kernel/memman.c:158-166 | giving a zone back leaves the others marked and apart |
| FrameMap.LimitReached | kernel/memman.c:189-201 | the highest address is the end of an available range, or 0 without any |
| FrameMap.OffersIff | kernel/memman.c:338-343 | the frames a range offers are those that lie inside it once it is moved down to a block boundary |
| FrameMap.KernelHeldIff | kernel/memman.c:251-263 | the frames marked for the kernel are exactly those that hold a byte of its image or of the bitmap behind it |
| FrameMap.Frames.constructor | kernel/memman.c:190-267 | a frame ends up free exactly if the available ranges, in their order, free it, it lies above the first megabyte, and it holds no byte of the kernel's image or of the bitmap itself; the counter agrees |
| FrameMap.DisjointAllFreed | kernel/memman.c:338-353 | of ranges whose blocks do not overlap exactly the blocks offered are freed |
| FrameMap.OverlapLosesIff | kernel/memman.c:338-353 | a block that one range offers stays marked for good if and only if an earlier range has freed a block before it in its own |
| FrameMap.RangeInsideIff | kernel/memman.c:338-353 | all frames a range offers lie inside it if and only if it starts on a block boundary or is smaller than a block |
| FrameMap.FreeAvailableIff | kernel/memman.c:190-267 | every frame that starts out free lies in available memory if and only if the front part of each range's first block does, where that block starts out free |
| FrameMap.Frames.InitRegion | kernel/memman.c:338-353 | exactly the blocks up to the first one already free are freed, and the counter agrees |
| FrameMap.Frames.FirstFree | kernel/memman.c:56-73 | the least clear bit of the full words; 0 if they are all set |
| FrameMap.Frames.FirstFreeZone | kernel/memman.c:75-114 | terminates within the bitmap; nonzero is the least start of a zone of that size, 0 means none starts in a full word |
| FrameMap.Frames.AllocBlock | kernel/memman.c:116-130 | the least free frame is marked and counted; 0 exactly if there is none, and then nothing changes |
| FrameMap.Frames.FreeBlock | kernel/memman.c:132-136 | the bit is cleared, and the counter still agrees with the bitmap if and only if the bit was set |
| FrameMap.Frames.AllocBlocks | kernel/memman.c:138-156 | the first zone long enough is marked and counted; on 0 nothing changes and no zone starts in a full word |
| FrameMap.Frames.FreeBlocks | kernel/memman.c:158-166 | exactly the zone is cleared, and the counter agrees |
| FrameRuns.RunKeepsZones | kernel/memman.c:116-166 | over any run of allocations and releases the zones handed out stay marked and apart, and no frame is lost or gained: the set bits beyond those handed out stay as many |
| FrameRuns.HeldStaysMarked | kernel/memman.c:116-166 | from when a zone is handed out until it is given back its frames are marked and no allocation gets any of them |
| FrameRuns.TakeOne | kernel/memman.c:116-130 | mem_alloc_block is such a step, to the least free frame, or refused |
| FrameRuns.Take | kernel/memman.c:138-156 | so is mem_alloc_blocks, to the first zone that is long enough |
| FrameRuns.GiveOne | kernel/memman.c:132-136 | so is mem_free_block of a frame handed out |
| FrameRuns.Give | kernel/memman.c:158-166 | so is mem_free_blocks of a zone handed out |
| Paging.FieldsPartition | kernel/memman.h:60-148 | the bit fields of an entry partition its 64 bits |
| Paging.LinkedNumber | kernel/memman.c:410-413 | the number of an entry made present: which bits are set, and that the others stay |
| Paging.PathUnique | kernel/memman.h:60-76 | a page number is determined by its four indices |
| Paging.WindowDecodes | kernel/memman.c:29-32 | the window address of a path decodes to as many 511s as it is short, then its upper indices, with the last one as offset |
| Paging.WindowShowsEntry | kernel/memman.c:379-397 | from any root whose slot 511 leads to a self-referencing table, the hardware walk of a window address resolves to exactly the entry that table's walk uses, and to nothing if there is none |
| Tables.WalkOwner | kernel/memman.c:406-436 | what a walk reaches is the table its path owns |
| Tables.WriteElsewhere | kernel/memman.c:406-436 | a write to one entry changes no walk but those through it |
| Tables.LinkKeepsWalks | kernel/memman.c:408-433 | linking a blank table in changes no translation |
| Tables.StaleTableIff | kernel/memman.c:408-433 | linking in, at any of the three levels, a table whose frame was not cleared maps nothing if and only if no walk of the remaining length leads anywhere from that frame, nor back to the entry |
| AddressSpace.Space.constructor | kernel/memman.c:284-298 | the next free frame becomes the top table, self-referencing and reached from the boot table, for the kernel alone, mapping nothing else |
| AddressSpace.Space.EnsureTable | kernel/memman.c:408-433 | in every case, through a window address that resolves: a present table leaves all as it is, an absent one makes the entry link the next free frame or, when there is none, frame 0, and writes nothing else |
| AddressSpace.FrameZeroLinkedIff | kernel/memman.c:408-433 | an absent table is made of frame 0 if and only if no frame is free |
| AddressSpace.FrameZeroTwice | kernel/memman.c:408-433 | two absent tables, neither above the other, made when no frame is free: both are frame 0, what is mapped below one is mapped below the other, and no choice of paths for tables makes a space of that memory |
| AddressSpace.SmallSpaceShares | kernel/memman.c:408-433 | a space with a full bitmap on which any two entries of the top table come to that |
| AddressSpace.Space.CreatePage | kernel/memman.c:406-436 | with a zeroed frame for each missing table: exactly the tables above the page have come to be there, with the rights asked for, the others keep theirs, as many frames are taken as were missing, no translation has changed, and the entry's window address resolves |
| AddressSpace.Space.MapPage | kernel/memman.c:453-460 | the page maps to the frame with the rights asked for, and no other page changes |
| FrameDemand.DemandIs | kernel/memman.c:406-436 | in a run of pages, the tables that are missing when a page's turn comes are those that were missing before the run and lie above no earlier page |
| FrameDemand.EnoughFrames | kernel/memman.c:438-463 | with zeroed frames for all pages and for the missing tables, every page of a run is served |
| FrameDemand.TablesThere | kernel/memman.c:406-436 | a run of pages whose tables exist needs no zeroed frame and no minimum of frames |
| AddressSpace.Space.MapPages | kernel/memman.c:444-461 | as many of the pages as there are frames for map to distinct frames that were free and hold no table, no other page changes, tables that are new have the rights asked for and others keep theirs, and only tables are written; it stops short only when no frame is left |
| AddressSpace.ContentsStay | kernel/memman.c:444-461 | mapping pages leaves the words of every frame that was in use and holds no table |
| AddressSpace.UsableIff | kernel/memman.c:408-433 | a page mapped for user mode can be used by a program if and only if each of the three tables above it that was there before lets it be, and those that were not are made for user mode |
| AddressSpace.KernelTopBars | kernel/memman.c:300-307 | in the first space, whose top entry is made for the kernel, no page of alloc_page can be used by a program |
| AddressSpace.KernelPageGuarded | kernel/memman.c:474-480 | a page of the kernel's area can be used by no program |
| AddressSpace.Space.AllocPage | kernel/memman.c:438-463 | the same for alloc_page, with new tables for user mode, 0 counted as 1 and the result 0 exactly when the frames ran out (or the address is 0) |
| AddressSpace.Space.AllocKernelPage | kernel/memman.c:465-485 | the same for the next pages of the kernel's area, with new tables for the kernel alone; its end moves by their number; 0 and no move when the frames ran out, with the pages up to there mapped |
| AddressSpace.Space.MapDevice | kernel/memman.c:634-662 | the pages map to the frames in a row, with new tables for the kernel alone whatever the pages are for, or nothing is done when the test for free frames fails |
| AddressSpace.Space.PhysicalAddress | kernel/memman.c:399-403 | the address of the frame a mapped page translates to, if and only if that lies below 1 TB |
| UserSpace.SweptIff | kernel/memman.c:514 | which addresses the loops sweep: below 2 GB, but neither in the last 2 MB of a gigabyte nor in the last 8 KB of a stretch of 2 MB |
| Paging.FrameAddressIff | kernel/memman.c:399-403 | the product with the 40-bit field is the frame's address if and only if the frame is below 2 to the 28 |
| UserSpace.FrameStillUsed | kernel/memman.c:514-518 | a page not reached yet has its frame still marked used, so each free is of a set bit |
| UserSpace.SweepOne | kernel/memman.c:514-518 | freeing one page clears exactly its frame and its entry |
| UserSpace.CleanUserSpace | kernel/memman.c:493-524 | exactly the pages at these addresses are unmapped and exactly their frames freed; other pages, all tables and the counter's agreement stay, and only tables are written |
| UserSpace.ProgramGoesStacksStay | kernel/fork.c:17-20 | so a program at 4 MB is gone afterwards, and the two stacks below 3 GB stay |
| UserSpace.EmptyAndMap | kernel/elf.c:38 | alloc_page after clean_user_space, as exec does it: pages whose tables the old program had are mapped whatever the freed frames hold |
| Copies.KeptWalk | kernel/memman.c:526-551 | writes to frames that hold no table change no walk |
| Copies.CopyLinks | kernel/memman.c:581-597 | a cleared table linked into the copy adds no page to it and takes none away |
| Copies.CopyMaps | kernel/memman.c:602-612 | a page copied and entered is added to the copy with the words of its source, and the others stay |
| Copies.CopyForUser | kernel/memman.c:571-608 | all four entries on the walk to a page of the copy are for user mode and allow writing |
| Copies.KernelShared | kernel/memman.c:620 | spaces whose second tables agree in entry 3 translate the fourth gigabyte alike |
| CloneSpace.ClearBlock | kernel/memman.c:543-551 | the block is all zero words and nothing else is written |
| CloneSpace.CopyBlock | kernel/memman.c:526-540 | the block holds the source's words and nothing else is written |
| CloneSpace.ClonePage | kernel/memman.c:602-612 | one more page of the copy, on the frame supplied for it |
| CloneSpace.ClonePml4 | kernel/memman.c:556-632 | below 3 GB a page is present in the copy exactly if it was in the old space, then on its own new frame with the same 512 words, for user mode at all four levels; 3 to 4 GB translates identically; the copy is itself a space, a tree of tables behind its own slot 511, which is for the kernel alone; the old space is unchanged |
| CloneSpace.CopyOnFreshFrame | kernel/memman.c:602-612 | the frame of a page of the copy holds no old table and backs no old page below 3 GB and no other page of the copy |
| CloneSpace.LaterKernel | kernel/memman.c:620 | kernel mappings made later below the shared entry show in both spaces |
| CloneSpace.CopyTabled | kernel/memman.c:620-631 | the copy's own tables and those of the shared gigabyte form a tree below its own top table, in frames that are in use |
| CloneSpace.Switch | kernel/memman.c:360-363 | loading cr3 with such a table leaves the processor in a space in which all of the above applies |
| HeapPages.ExpandBacked | kernel/kheap.c:116-138 | if nothing was mapped behind the area: all pages expand asks for are mapped, to distinct frames that hold no table, if and only if there were frames for them; the heap's end moves in either case, and its addresses are all mapped if and only if the new end lies within the pages that were got |
| HeapPages.GrowthVerdict | kernel/memman.c:465-485 | of a run of pages that stopped short: which of them, and up to which address, are mapped |
| HeapPages.EveryHeapPage | kernel/kheap.c:116-138 | every address of a heap so backed lies in a mapped page with a frame of its own |
| HeapPages.RunKeepsUnmapped | kernel/memman.c:465-485 | pages added at the end of the kernel's area leave those behind it unmapped |
| HeapPages.ProbeReads | kernel/kheap.c:400-402 | free can read the header behind a block through the page tables if and only if the block is not the last or pages behind the heap have been handed out |
| HeapPages.FreeBacked | kernel/kheap.c:363-452 | free halts exactly if what it reads behind the block is not mapped |
| HeapPages.BlocksApart | kernel/kheap.c:312-324 | two page-aligned blocks of a page or more have different pages in the heap |
| HeapPages.SuppliedByHeap | kernel/memman.c:560-561 | different pages of the kernel's area supply a copy with frames in use, one for each purpose and none of them a table |
| SpaceRuns.StartHeld | kernel/memman.c:284-298 | the first space, in which nothing is mapped, meets the invariant of runs |
| SpaceRuns.RunKeepsHeld | kernel/memman.c:438-632 | over any run of alloc_page, alloc_kernel_page, brute_create_page, clean_user_space and clone_pml4t in one space, every page below 3 GB and every page of the kernel's area keeps a frame of its own, in use and no table, also where pages are mapped anew; so `OwnFrames` and `OwnPages` always hold |
| SpaceRuns.RemapLoses | kernel/fork.c:17-20 | a page that is present already and is given to alloc_page again: its old frame stays in use and no page of the space has it any more |
| SpaceRuns.HousedOwnFrames | kernel/memman.c:493-524 | what clean_user_space needs of the swept pages follows |
| SpaceRuns.HeldReady | kernel/memman.c:556-561 | what clone_pml4t needs of the blocks follows, as long as the heap has one in a page of its own for each table and page |
| SpaceRuns.AllocatePages | kernel/memman.c:438-463 | alloc_page is a step of runs |
| SpaceRuns.ExtendArea | kernel/memman.c:465-485 | so is alloc_kernel_page |
| SpaceRuns.MapDevicePages | kernel/memman.c:634-662 | so is brute_create_page, for pages that are neither below 3 GB nor in the kernel's area |
| SpaceRuns.EmptyUser | kernel/memman.c:493-524 | so is clean_user_space |
| SpaceRuns.ForkSpace | kernel/memman.c:556-632 | so is clone_pml4t, and the copy too has frames of its own below 3 GB |
| SpaceRuns.CopyHoused | kernel/memman.c:602-612 | every page of the copy below 3 GB has a frame of its own, in use and none of the copy's tables, so exec may empty the copy and any run of it keeps that |
| SpaceRuns.SweepKeepsAreaIff | kernel/memman.c:514-518 | clean_user_space leaves the frames of the kernel's area in use, and its pages their own, if and only if no swept page's frame backs one of them |
| SpaceRuns.CopySweepIff | kernel/memman.c:514-518 | in the copy that holds if and only if the space that was copied had no page that is swept |
| SpaceRuns.ForkAndEmpty | kernel/exec.c:11 | fork and then exec in the child: afterwards every heap page maps to a frame in use if and only if the parent had no page mapped at an address that exec sweeps |
| LockQueue.Queue.Enter | kernel/b_locking.c:29-67 | an empty queue takes the caller as head, the head itself changes nothing, anyone else joins at the end; true exactly for the head |
| LockQueue.Queue.Leave | kernel/b_locking.c:94-139 | the queue without its head if the head leaves or it was alone, and which process is woken |
| LockQueue.Queue.Owner | kernel/b_locking.c:89-92 | the head of the queue |
| LockQueue.QueueStaysDistinct | kernel/b_locking.c:34-67 | who asks joins at the end, and the queue holds nobody twice if and only if nobody who waits in it asks again |
| LockQueue.HeadWoken | kernel/b_locking.c:94-139 | whoever unlocks a queue of two or more, the process set ready is the one at the head afterwards; with fewer, nobody is |
| LockQueue.NestingReleases | kernel/b_locking.c:51-56 | an inner lock and unlock of the holder has the effect of the outer unlock |
| LockQueue.StrangerKeepsIff | kernel/b_locking.c:117-131 | an unlock by another process leaves the queue alone if and only if it does not have one entry |
| LockProtocol.BlockedIff | kernel/b_locking.c:80-85 | which process is blocked after a step: one that finds another at the head, or sleeps; and not one that is woken |
| LockProtocol.CheckAway | kernel/b_locking.c:80-85 | finding another at the head changes nothing else |
| LockProtocol.StepKeeps | kernel/b_locking.c:29-139 | every step under the discipline keeps the invariant of all locks |
| LockProtocol.LocksSafe | kernel/b_locking.c:29-139 | in every state of every interleaving: at most one process inside a lock, it is the head, the queue is exactly those inside or waiting, entry is in the order of asking, and the head is not blocked on the lock |
| LockProtocol.HeadStaysReady | kernel/b_locking.c:69-86 | whatever the others do, a process waiting at the head stays there and stays ready |
| LockProtocol.HeadMoveGetsLock | kernel/b_locking.c:72-78 | the only step such a process can take gives it the lock |
| LockProtocol.GapLosesWakeUpIff | kernel/b_locking.c:80-85 | blocking after a gap loses the wake-up if and only if the process reached the head in it |
| LockProtocol.GapCanHappen | kernel/b_locking.c:80-85 | a run in which it does |
| LockProtocol.NestingLetsIn | kernel/b_locking.c:51-56 | after nested use a second process gets in while the first is still inside |
| Scheduler.Tasks.constructor | kernel/scheduler.c:22-40 | the list holds the kernel task alone, ready, with pid 0 |
| Scheduler.Tasks.AddTask | kernel/scheduler.c:42-52 | the task goes last, ready, with a pid above all others; the list stays a list |
| Scheduler.Tasks.SwitchTask | kernel/scheduler.c:80-85 | if some task is ready the loop ends, at the first ready task after the current one |
| Scheduler.Tasks.ChangeStatus | kernel/scheduler.c:118-129 | the tasks with that pid get the status and no other task changes |
| Scheduler.Tasks.PidUnique | kernel/scheduler.c:42-52 | a pid names at most one task |
| Scheduler.FirstReadyUnique | kernel/scheduler.c:80-85 | the first ready task going round is determined |
| Scheduler.SwitchComesNearer | kernel/scheduler.c:80-85 | a switch chooses a given ready task or comes nearer to it |
| Scheduler.ChosenWithin | kernel/scheduler.c:80-85 | a task that stays ready is chosen within n switches, whatever the others do |
| LockRounds.HeadGetsLockWithinRound | kernel/b_locking.c:69-86 | under the scheduler a process at the head of a lock's queue is inside the lock within one round |
| Console.Screen.PutChar | kernel/monitor.c:57-97 | if the screen shows a sheet, it shows the sheet with the character put on it, the cursor in bounds |
| Console.Screen.Scroll | kernel/monitor.c:39-54 | scrolling shows the same sheet one row further down |
| Console.Screen.Clear | kernel/monitor.c:99-111 | a cleared screen shows the empty sheet |
| Console.Screen.PutText | kernel/monitor.c:113-124 | after any text the screen is 25 consecutive rows of the sheet the text fills |
| Console.ReturnThenPut | kernel/monitor.c:71-79 | after a return the next character lands in the first column of the same row, after a newline in that of the next |
| Console.TabThenPut | kernel/monitor.c:67-70 | after a tab it lands in the least multiple of 8 beyond the pen, or at the beginning of the next row if that is the margin |
| Console.BackspaceOverwritesIff | kernel/monitor.c:63-66 | after a character and a backspace it takes the character's place if and only if that was not the last of its row |
| Console.OthersIgnored | kernel/monitor.c:80-86 | any other character below the space does nothing |
| Console.LinesStand | kernel/monitor.c:63-91 | lines shorter than a row, joined by newlines, stand on consecutive rows from the first column on |
| Console.Screen.ShowLines | kernel/monitor.c:99-124 | clear_screen and puts of such lines leave the last 25 of them in video memory, cell by cell |
| Console.PrintableFills | kernel/monitor.c:79-91 | printable text fills the sheet in reading order, 80 to the row |
| Console.PutBoth | kernel/monitor.c:113-124 | printing two texts is printing their concatenation |
| Numerals.Printer.Itoa | kernel/monitor.c:129-150 | the buffer holds the numeral and a terminator, and nothing before it changes; "0" for 0 and for bases above 16 |
| Numerals.Printer.ItoaSigned | kernel/monitor.c:152-159 | a minus sign and the numeral of -i for negative i; nothing for bases above 16 |
| Numerals.Printer.ItoaUnsigned | kernel/monitor.c:161-164 | the numeral, or nothing for bases above 16 |
| Numerals.NumeralRoundTrip | kernel/monitor.c:134-149 | every number in every base from 2 to 16 is read back from its numeral, which starts with 0 only for 0 |
| Numerals.SignedRoundTrip | kernel/monitor.c:152-159 | signed numbers are read back too |
| Numerals.DigitsFitIff | kernel/monitor.c:140-144 | a number has at most n digits if and only if it is below base to the n |
| Numerals.TbufSufficesIff | kernel/monitor.c:126 | the 32 characters of tbuf hold every 64-bit number if and only if the base is at least 4 |

## Left out

- Inline assembly, register contexts, the TLB and CR3 loads, APIC, ACPI, GDT, IDT and interrupt plumbing: hardware writes with little logic.
- FAT32 and disk reads, ELF loading, `exec`, `exit`, system calls, the stack switching in `fork`, the keyboard, user programs and `lib`: thin layers or easy members.
- `kmalloc`'s path before the heap exists, and the messages printed inside heap and lock code, which go through the monitor lock.
- The fields of the heap record (`supervisor`, `readonly`), and the placing of the record and of the index array in the heap's first bytes: the index is an array of its own.
- The sanity messages of `alloc`, `free`, `expand` and `contract`: they print and go on. The model requires what they check.
- `create_ordered_array` and an index without a comparison: not used by the heap.
- KernelHeap.Heap.Expand: growth below the maximum address gets its frames; `HeapPages.ExpandBacked` says when it does. Sizes are below 4 GB, because the page mask keeps 32 bits.
- KernelHeap.Heap.Alloc: requires a free slot in the index, as the code does without checking, and that growth stays below the maximum address and splits are safe, since the code prints a message and goes on otherwise; only the hole that first fit takes has to split safely. The conditions are exact in `GrownTilesIff` and `SplitTilesIff`.
- Memory as the heap sees it is flat: reads and writes do not go through the page tables. Those inside the heap lie in pages that have been handed out (`HeapPages.EveryHeapPage`); the one read outside is `free`'s behind the last block, where the model stops if it faults.
- KernelHeap.Heap.Free: requires the address of a live block, since other addresses are caller errors the code only reports, and a free slot in the index. When a stray header makes the count of an empty index wrap around, the model stops at that point; the heap is not sound there.
- HeapRuns.RunKeepsBlocks: each step of a run meets what `Heap.Alloc`, `Heap.Free` and `Heap.WritePayload` require, a slot in the index among it, and each free the exact conditions under which it does not halt and leaves a heap; the code checks neither.
- FrameMap.Frames.constructor: memory reaches past the first megabyte and the kernel, whose frames the code marks without looking.
- FrameMap.Frames.FreeBlock: requires the frame to be below the highest one and not frame 0.
- AddressSpace.Space.MapPages: requires, for each table that is missing when its turn comes, a free frame that is zeroed, and nothing else of the frames (`FrameDemand.CanMap`); the code checks neither. `EnsureTable` covers a single level in every case, and `FrameZeroLinkedIff`, `FrameZeroTwice` and `StaleTableIff` say what becomes of the space otherwise.
- AddressSpace.Space.MapDevice: the frames lie in the modelled memory; device registers outside it are not modelled.
- AddressSpace.Space.constructor: the boot table's own mappings are only known by its slot 511; the kernel's and the video page's mappings made next are calls of `MapPage`.
- `free_kernel_page`, which does nothing, and `page_fault_handler`, which stops the machine.
- The accessed and dirty bits, and non-canonical addresses. A translation follows present bits and frames; rights along a walk are stated apart (`Tables.ForUser`, `AddressSpace.UsableIff`).
- CloneSpace.ClonePml4: runs in a space whose root is its top table, as after start-up. The blocks `kmalloc_a` returns are a supply given beforehand, named by purpose, with frames of their own below 1 TB, none of which backs a page below 3 GB; `SpaceRuns.HeldReady` shows that page-aligned heap blocks are one. A heap that grows during the copy is not modelled.
- UserSpace.CleanUserSpace: requires the swept pages to have frames of their own in use and below 1 TB; `SpaceRuns` shows that they do, on machines of up to 1 TB. A frame used by two pages would be freed twice, and one from 1 TB up confused with a lower one.
- SpaceRuns.RunKeepsHeld: runs are of one space at a time. What the spaces do to each other once `ForkAndEmpty` has freed frames that heap pages map is not followed any further.
- SpaceRuns.MapDevicePages: requires that no page below 3 GB or in the kernel's area is mapped to a device.
- The master lock itself: its sections are atomic steps. `register_lock` past the last of 16 locks writes out of bounds in the code and is not modelled.
- LockProtocol.LocksSafe: requires the locking discipline, that a lock is asked for from outside it and given up by its holder; `NestingLetsIn` and `StrangerKeepsIff` say what happens otherwise.
- LockRounds.HeadGetsLockWithinRound: the task list does not change during the round, and the waiting process takes its step when it gets the processor; the others may do as they like, or nothing.
- Scheduler.Tasks.SwitchTask: requires a ready task, without which the code's loop never ends. Saving and loading registers is left out.
- Numerals.Printer.Itoa: requires base at least 2 and at most 32 digits; base 0 divides by zero, base 1 does not end, and bases 2 and 3 can overrun `tbuf`.
- Numerals.Printer.ItoaSigned: the negation of the smallest number is modelled as two's complement wrap-around, which C leaves undefined.
- `putint` and `puthex`: a buffer, one of the printers and `puts`.
- `move_cursor`, which only tells the hardware where the cursor is.
