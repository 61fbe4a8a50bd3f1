# The kernel's memory manager, verified

This project models the memory manager of the FrameBoot kernel in Dafny and proves what its three layers
promise: the boundary-tag heap (`liballoc`), the recursively mapped four-level page table, and the frame
allocator, both sequentially and under racing threads.

Every routine that changes state is a method of a class (`LibAlloc.Heap`, `FrameAllocation.FrameAllocator`,
`PageTable.PaginationTable`) or works on one (`AllocVm.AllocVm`), with the loops and in-place updates of the original.
Each method is proved to do what a function on values says, and the promises are theorems about those functions, over
all inputs and all runs.

| file | what it holds |
|---|---|
| `SizeClass.dfy` | size classes of the heap, `getexp` |
| `HeapState.dfy`, `HeapLinks.dfy`, `HeapSteps.dfy` | heap state and invariant; list and chain surgery; the steps of malloc and free |
| `HeapOps.dfy`, `HeapTheorems.dfy` | malloc and free as steps; realloc; tiling, free lists, payloads, whole runs |
| `Copy.dfy`, `LibAlloc.dfy` | the word-wise copy; the heap updated in place |
| `FrameSpec.dfy`, `FrameRuns.dfy`, `FrameAllocation.dfy` | the frame allocator on values, over whole runs, and in place |
| `BufferRace.dfy`, `SoloThread.dfy` | the frame buffer under N interleaving threads; one thread of them by itself |
| `PageEntry.dfy`, `PageWalk.dfy` | entry words and addresses; the hardware walk and the recursive slot |
| `PageMap.dfy`, `MapRange.dfy`, `PrivateSlot.dfy` | creating one path; mapping a range; which frame each page gets |
| `PageTable.dfy`, `RealAddr.dfy` | the in-place routines and the safe software walk; real addresses of new pages |
| `Words.dfy`, `AllocVm.dfy` | indices as words; the search of `alloc_vm` as its loop runs |
| `FirstFit.dfy`, `BareCarry.dfy`, `PageScan.dfy` | its rounds and skips; indices at 512; the search as a pass over pages, and exactly when it is first fit |
| `AllocLimits.dfy`, `AllocPages.dfy` | where it fails; which pages it hands out, whether they were free, and what it leaves mapped |
| `Boot.dfy`, `Options.dfy` | the boot hand-over; a value that may be missing |

The hardware walk is the one of section 4.5 (4-level paging) of the Intel 64 and IA-32 Architectures Software
Developer's Manual, Volume 3A: it takes bits 51 to 12 of an entry as address, and faults at an entry that is not present
and at an address that is not canonical.

Modelling choices:

- The heap code turns addresses into headers and back, so heap memory is a map from address to header, a pointer
  is an address and 0 is NULL. `Tag.base` and `Tag.age` record history; no operation reads them. A header that was
  merged away is dropped from the map. The heap's `bytes` are what the payloads hold; creating a header overwrites
  the 48 bytes it lies in.
- The page layer under the heap answers with a run that overlaps none still held, or with 0 (parameter `grant`).
- Physical memory is a function from slot (frame, index) to 64-bit word. The kernel reaches a slot only through
  `PaginationTable.Access`, whose precondition is that the hardware translates the address; so every access is either
  proved not to fault or its fault is a result of the routine (`Looked.Fault`, `Result.PageFault`, `None`).
- The frames that the page-table code takes from the frame allocator are a parameter `frames`.
- An allocation failure that makes the kernel panic is the result `None`, and so is a copy to NULL, page 0 being
  unmapped since the hand-over.

What the proofs show about the code beyond its promises:

- A heap request below 64 bytes never reuses a free block: it always takes a fresh run
  (`HeapOps.SmallRequestsNeverReuse`).
- `kernel_realloc` faults exactly if the inner malloc fails while the old block is not empty
  (`HeapTheorems.ReallocEffect`).
- Mapping any number of pages keeps every translation whatever the frames handed out hold, as long as none of them is a
  table in use; they may be mapped as pages, as the boot loader maps the first 2 MiB (`MapRange.MapIsConservative`). But
  new table frames are not cleared, so the neighbours of a newly mapped page translate to whatever the frame held
  (`PageMap.NeighbourIsGarbage`). With cleared frames every page of a range translates (`MapRange.MapExact`); with one
  stale entry in a frame the second of two pages may not (`MapRange.SecondPageLost`).
- `getRealAddr` is the hardware's answer exactly if no bit above the 52 of a physical address is set in the entry
  (`PageTable.RealAddrExactly`), and on an unmapped address it reads through NULL.
- `alloc_vm` carries its indices only above 512, so a skip that brings one to exactly 512 (`FirstFit.Bare`) leaves it
  there, and the indices stay in range exactly if there is no such skip (`FirstFit.InRangeExactly`). An index at 512 may
  lead to a probe of the wrong entry, a page fault, or an address one table or directory too low
  (`BareCarry.ProbeX512`, `BareCarry.ProbeY512`, `BareCarry.AddressExactly`).
- From which pages the search looks is decided by one pass over the tables, whatever the size of the request
  (`PageScan.From`, with `PageScan.View` for what the first probe of a round sees), and the first fit is returned exactly
  if each of these heads is sound (`PageScan.ReturnsFirstFitExactly`); the first one that is not decides what happens
  instead (`PageScan.FirstUnsoundDecides`). For less than 512 pages and a first fit in the
  first two directories that comes to this: every table before it whose last page is taken has another one behind it,
  and it is not the first page of an even table (`PageScan.FirstFitBelow`). In the first table of any later even
  directory a first fit is never returned (`PageScan.NeverInEvenDirectory`).
- So a full first page table without a second one makes every request fault (`AllocLimits.FullTableCrashes`, with the
  memory of `AllocLimits.OnePageCrashes`), and pages that are already mapped are handed out once more
  (`AllocPages.HandsOutTwice`, with the memory of `AllocPages.Page512Twice`). That breaks what the heap takes for granted
  of its page layer (`HeapSteps.Grantable`).
- For the kernel's L4 entry the NULL return is dead: a search that does not find room ends in a page fault or with an
  address (`AllocLimits.NeverNull`). If the entry is full every request faults (`AllocLimits.FullEntryCrashes`). A request
  for more than 512 pages may be answered with a range that runs over the end of the entry
  (`AllocLimits.RunsOverTheEnd`, with the memory of `AllocLimits.GapsRunOver`).
- The 16 spare buffer slots cover exactly 17 threads, and only while the region list never runs empty; once it may,
  two threads suffice to pop from an empty buffer and to store outside it (`BufferRace.StoresStayInside`,
  `BufferRace.PopsFindAFrame`).
- `addMemorySpace` rounds an unaligned base down, taking in a page that is only partly free, unless the region is
  too small to leave a page (`FrameSpec.TrimInsideExactly`).
- `list_push` keeps the list sorted and counts every byte exactly if the new region overlaps no listed one and covers no
  base of an emptied node that lingers (`FrameSpec.PushExactly`, with the lost frame of
  `FrameSpec.StraddlingAnEmptyNodeLosesFrames`). Regions that are new, and single frames given back, never do that
  (`FrameRuns.AddKeeps`).
- `liballoc_memcpy` differs from a byte copy exactly when a word overlaps its target from below
  (`Copy.WordCopyIsByteCopy`).

## Model

| member | source | states |
|---|---|---|
| SizeClass.GetExp | lib/kernel/memory/liballoc/liballoc.c:46-70 | the loop returns -1 below 16 bytes and otherwise the n with 2^n <= size < 2^(n+1) |
| SizeClass.ClassBounds | lib/kernel/memory/liballoc/liballoc.c:147-151 | the class of a room names one of the lists 4 to 31, and the room lies between the powers of two of its class |
| HeapLinks.InsertLinks | lib/kernel/memory/liballoc/liballoc.c:143-166 | inserting an unlisted tag at a head keeps every list mutually linked, acyclic and with a head that has no predecessor |
| HeapLinks.RemoveLinks | lib/kernel/memory/liballoc/liballoc.c:168-178 | removing any listed tag keeps all lists intact |
| HeapLinks.MergeChains | lib/kernel/memory/liballoc/liballoc.c:181-207 | merging a tag into its left neighbour keeps neighbours touching and mutually linked |
| HeapLinks.CutChains | lib/kernel/memory/liballoc/liballoc.c:209-228 | cutting a tag in two keeps the chain touching and mutually linked |
| HeapSteps.NoOverlap | lib/kernel/memory/liballoc/liballoc.c:181-233 | two tags never overlap, in the same run or in different ones |
| HeapSteps.CutFresh | lib/kernel/memory/liballoc/liballoc.c:213-214 | the address computed for a split-off header is not the address of any tag |
| HeapSteps.PagesFor | lib/kernel/memory/liballoc/liballoc.c:247-255 | the run asked for holds request and header, is at least 16 pages, and above that is the smallest that does |
| HeapSteps.TakenKeeps | lib/kernel/memory/liballoc/liballoc.c:341-345 | taking a free tag keeps the whole heap invariant, the counter of complete runs included |
| HeapSteps.FreshKeeps | lib/kernel/memory/liballoc/liballoc.c:257-269 | a tag for a fresh run lies at no tag's address and keeps the invariant |
| HeapSteps.PlacedKeeps | lib/kernel/memory/liballoc/liballoc.c:349-377 | sizing and splitting restores the full invariant: no two free neighbours, right classes, and less than 64 bytes wasted |
| HeapSteps.MeltLeftKeeps | lib/kernel/memory/liballoc/liballoc.c:427-434 | a left melt keeps the invariant with the merged tag open |
| HeapSteps.AbsorbKeeps | lib/kernel/memory/liballoc/liballoc.c:437-443 | a right melt keeps the invariant with the merged tag open |
| HeapSteps.SettledKeeps | lib/kernel/memory/liballoc/liballoc.c:446-482 | filing the merged tag, or giving its run back, restores the full invariant; what goes back is the run's base and its whole size |
| HeapOps.MallocEffect | lib/kernel/memory/liballoc/liballoc.c:285-394 | malloc adds exactly one block of the requested size and leaves every other block as it was; it asks the page layer exactly when no free block of the class holds the request and 96 bytes more, fails exactly when that has nothing either, and then nothing changes |
| HeapOps.MallocRoom | lib/kernel/memory/liballoc/liballoc.c:349-377 | the free block or fresh run taken is split exactly if a header and 16 bytes or more are left behind the request, and what is left is a free block |
| HeapOps.SmallRequestsNeverReuse | lib/kernel/memory/liballoc/liballoc.c:306-325 | no free tag ever satisfies a request below 64 bytes |
| HeapOps.AfterLeftIsDone | lib/kernel/memory/liballoc/liballoc.c:427-434 | after at most one left melt the left neighbour is allocated: coalescing is complete on that side |
| HeapOps.AfterRightIsDone | lib/kernel/memory/liballoc/liballoc.c:437-443 | after at most one right melt both neighbours are allocated |
| HeapOps.WholeIsAlone | lib/kernel/memory/liballoc/liballoc.c:451 | a coalesced tag spans its run exactly when no other allocated block lies in that run |
| HeapOps.FreeEffect | lib/kernel/memory/liballoc/liballoc.c:400-490 | free removes exactly the freed block, touches no other, and keeps the invariant |
| HeapOps.FreeRuns | lib/kernel/memory/liballoc/liballoc.c:451-472 | a run goes back to the page layer exactly when its last block is freed while five free runs of its class stand by, and then that run alone |
| HeapOps.FreedIsNewest | lib/kernel/memory/liballoc/liballoc.c:400-490 | after a free the free block that covers the block freed is newer than every other |
| HeapOps.FreedServesNext | lib/kernel/memory/liballoc/liballoc.c:306-345 | a freed block, coalesced, serves the next request of its class that it has room for, before all others and without the page layer |
| HeapOps.RunServesNext | lib/kernel/memory/liballoc/liballoc.c:306-345 | so does a block that had a run of its own, unless the run went back |
| HeapTheorems.Tiling | lib/kernel/memory/liballoc/liballoc.c:181-233 | every run held is tiled by its split chain: touching tags, mutual links, sizes summing to the run, no two free neighbours, no tag of the run left out |
| HeapTheorems.FreeListExact | lib/kernel/memory/liballoc/liballoc.c:143-178 | list i holds exactly the free tags whose room is of class i, once each, newest first, linked both ways |
| HeapTheorems.PayloadsApart | lib/kernel/memory/liballoc/liballoc.c:357-381 | a live payload lies in a held run behind its header, meets no other header or payload, and wastes less than 64 bytes |
| HeapTheorems.ReallocEffect | lib/kernel/memory/liballoc/liballoc.c:511-538 | realloc replaces exactly one block and keeps the invariant; it faults exactly if a block that is not empty has to move while no free block has room and the page layer has nothing, and then nothing has changed; size 0 is a free |
| HeapTheorems.EveryRun | lib/kernel/memory/liballoc/liballoc.c:285-538 | along every run of malloc, free and realloc the invariant holds and the allocated tags are exactly the pointers handed out and not freed |
| HeapTheorems.RunsStayTiled | lib/kernel/memory/liballoc/liballoc.c:285-538 | in every run of calls every page run held stays tiled exactly |
| HeapTheorems.CountersAgree | lib/kernel/memory/liballoc/liballoc.c:451-476 | in every run each cached counter is the number of whole free runs of its class, between 0 and 5 |
| HeapTheorems.HeldApart | lib/kernel/memory/liballoc/liballoc.c:285-538 | in every run, blocks held at once share no byte with each other or with any header |
| Copy.WordCopyMoves | lib/kernel/memory/liballoc/liballoc.c:82-105 | on ranges that do not run into each other the copy moves the bytes and changes nothing else |
| Copy.WordCopyIsByteCopy | lib/kernel/memory/liballoc/liballoc.c:89-102 | the word loop equals a byte copy on every memory exactly when n < 8 or no word overlaps its target from below |
| Copy.Memcpy | lib/kernel/memory/liballoc/liballoc.c:82-105 | the two loops, in place, compute the word-wise copy |
| LibAlloc.Heap.InsertTag | lib/kernel/memory/liballoc/liballoc.c:143-166 | in place: the list surgery of insert_tag and nothing else |
| LibAlloc.Heap.RemoveTag | lib/kernel/memory/liballoc/liballoc.c:168-178 | in place: the list surgery of remove_tag and nothing else |
| LibAlloc.Heap.MeltLeft | lib/kernel/memory/liballoc/liballoc.c:181-191 | in place: the tag is merged into its left neighbour |
| LibAlloc.Heap.AbsorbRight | lib/kernel/memory/liballoc/liballoc.c:194-207 | in place: the right neighbour leaves its list and is merged in |
| LibAlloc.Heap.SplitTag | lib/kernel/memory/liballoc/liballoc.c:209-233 | in place: the tail becomes a free tag in its list; only the new header's bytes change |
| LibAlloc.Heap.AllocateNewTag | lib/kernel/memory/liballoc/liballoc.c:241-281 | in place: a tag for the granted run, or no change at all |
| LibAlloc.Heap.LiballocFree | lib/kernel/memory/liballoc/liballoc.h:55-63 | takes only the base and page count of a run handed out and not yet returned |
| LibAlloc.Heap.Search | lib/kernel/memory/liballoc/liballoc.c:310-325 | the loop finds, of the free blocks of the class that hold the request and 96 bytes more, the one freed last, or shows that there is none |
| LibAlloc.Heap.KernelMalloc | lib/kernel/memory/liballoc/liballoc.c:285-394 | in place: one malloc step, NULL exactly if no free block has room and no run is granted; no payload byte of any live block changes |
| LibAlloc.Heap.KernelFree | lib/kernel/memory/liballoc/liballoc.c:400-490 | in place: one free step, both melt loops included; freeing NULL does nothing |
| LibAlloc.Heap.KernelRealloc | lib/kernel/memory/liballoc/liballoc.c:511-538 | in place: one realloc step, the failing malloc included; the new block holds the first min(old size, new size) old bytes, every other live block keeps its payload |
| FrameSpec.PushExactly | lib/kernel/memory/pagination/FrameAllocator.cpp:16-34 | list_push keeps the list sorted and disjoint and adds exactly the new region's frames and bytes if and only if the region overlaps none of the list and covers no emptied node's base |
| FrameSpec.PushCoalesces | lib/kernel/memory/pagination/FrameAllocator.cpp:16-34 | in a sorted list list_push leaves no node in front of the new base touching its successor |
| FrameSpec.StraddlingAnEmptyNodeLosesFrames | lib/kernel/memory/pagination/FrameAllocator.cpp:17-25 | a witness for the other direction: a list and a region for which the merge formula cuts a region short |
| FrameSpec.TotalCountsFrames | lib/kernel/memory/pagination/FrameAllocator.cpp:35-43 | freeMemory is the page size times the number of listed frames |
| FrameSpec.LoadExact | lib/kernel/memory/pagination/FrameAllocator.cpp:46-63 | loading the buffer moves frames without loss and stops short of 64 only with the list empty |
| FrameSpec.LoadTakesLowest | lib/kernel/memory/pagination/FrameAllocator.cpp:46-63 | the frames loaded are the lowest listed ones, in rising order |
| FrameSpec.FillTakesFirst | lib/kernel/memory/pagination/FrameAllocator.cpp:75-79 | a region fills the buffer with its first pages in order until 64 are buffered or one page is left, which goes to the list |
| FrameSpec.AddExact | lib/kernel/memory/pagination/FrameAllocator.cpp:71-90 | an aligned region adds exactly floor(size / 4096) frames |
| FrameSpec.TrimInsideExactly | lib/kernel/memory/pagination/FrameAllocator.cpp:73-74 | the frames taken lie inside the region given exactly when its base is aligned or no page is left of it |
| FrameSpec.AllocateExact | lib/kernel/memory/pagination/FrameAllocator.cpp:92-101 | allocate hands out one free frame and keeps the rest, and panics exactly when no frame is free anywhere |
| FrameSpec.AllocateRefills | lib/kernel/memory/pagination/FrameAllocator.cpp:92-101 | above 32 frames the buffer is a stack and the list stays as it is; at or below, the buffer is filled to 64 first or the list is empty afterwards |
| FrameRuns.StepConserves | lib/kernel/memory/pagination/FrameAllocator.cpp:46-101 | every legal operation conserves frames; a frame handed out was held by nobody |
| FrameRuns.EveryRunConserves | lib/kernel/memory/pagination/FrameAllocator.cpp:46-101 | along every run free and held frames are together exactly the frames supplied, each once |
| FrameRuns.NoDoubleHandOut | lib/kernel/memory/pagination/FrameAllocator.cpp:92-101 | in every run a frame handed out is held by no one, and a panic means every frame ever supplied is held |
| FrameAllocation.FrameAllocator.ListPush | lib/kernel/memory/pagination/FrameAllocator.cpp:16-34 | in place on linked nodes, recursive: terminates and computes the pushed list out of the old nodes and the new one |
| FrameAllocation.FrameAllocator.FreeMemory | lib/kernel/memory/pagination/FrameAllocator.cpp:35-43 | the loop over the nodes returns the sum of the listed sizes |
| FrameAllocation.FrameAllocator.LoadBuffer | lib/kernel/memory/pagination/FrameAllocator.cpp:46-63 | in place: the load loop; true exactly if the buffer is not empty |
| FrameAllocation.FrameAllocator.AddFrameInBuffer | lib/kernel/memory/pagination/FrameAllocator.cpp:65-69 | in place: the frame is appended |
| FrameAllocation.FrameAllocator.AddMemorySpace | lib/kernel/memory/pagination/FrameAllocator.cpp:71-90 | in place: buffer first, then the list |
| FrameAllocation.FrameAllocator.Allocate | lib/kernel/memory/pagination/FrameAllocator.cpp:92-101 | in place: refill at 32 or fewer, then pop the last frame, or None |
| BufferRace.MutualExclusion | asm/funcs/global/atomic.asm:8-34 | for any number of threads and any interleaving two threads are never both between acquire and release of the same lock |
| BufferRace.StoresStayInside | lib/kernel/memory/pagination/FrameAllocator.hh:17-19 | no interleaving of n threads stores outside the 64+16 slots exactly for n <= 17 while the list never empties, and exactly for n <= 1 if it may |
| BufferRace.PopsFindAFrame | lib/kernel/memory/pagination/FrameAllocator.cpp:92-101 | no interleaving of n threads pops an empty buffer exactly for n <= 33 while the list never empties, and exactly for n <= 1 if it may |
| BufferRace.RunIsSafe | lib/kernel/memory/pagination/FrameAllocator.cpp:65-79 | within the pop limit every interleaving keeps the counter plus the threads past the test at most 63 + n, and the locks exclusive |
| BufferRace.FramesSurviveRaces | lib/kernel/memory/pagination/FrameAllocator.cpp:46-101 | within the pop limit every interleaving of adds, pops and frames given back keeps each frame in exactly one place: none lost, none handed out twice |
| SoloThread.AllocateAlone | lib/kernel/memory/pagination/FrameAllocator.cpp:46-101 | a thread of the race model that runs allocate by itself leaves buffer, list and frame as the sequential allocator does |
| PageMap.EnterIs | lib/kernel/memory/pagination/PageTable.hh:51-61 | whatever the entry held, setAddr, setFlags and setPresent leave exactly the frame's address, the flags and the present bit, and no other entry changes |
| PageEntry.EntryVaIndices | lib/kernel/memory/pagination/PageTable.cpp:3-16 | the address macro puts four indices and an entry offset where the hardware reads them, in a canonical address |
| PageWalk.RecursiveMapping | lib/kernel/memory/pagination/PageTable.cpp:11-16 | with slot 510 pointing to the root, the address of a level-k entry can be dereferenced exactly when all entries above are present, and then is that entry |
| PageMap.CreateIsConservative | lib/kernel/memory/pagination/PageTable.cpp:6-29 | creating a path keeps every translation there was, whatever the fresh frames hold, and the path then translates |
| PageMap.CreateSnoc | lib/kernel/memory/pagination/PageTable.cpp:19-27 | one round of the loop: nothing if all is present so far, else the entry gets the next frame |
| PageMap.NeighbourIsGarbage | lib/kernel/memory/pagination/PageTable.cpp:21-25 | in a new page table another page translates exactly if the uncleared frame had its present bit set there |
| PageMap.CreateKeepsReady | lib/kernel/memory/pagination/PageTable.cpp:6-29 | with cleared frames that are no tables in use, mapped as pages or not, the frames not used stay so |
| MapRange.MapIsConservative | lib/kernel/memory/pagination/PageTable.cpp:101-106 | mapping any number of pages keeps every translation, whatever the frames hold, if none of them is a table in use |
| MapRange.MapsFirstPage | lib/kernel/memory/pagination/PageTable.cpp:101-106 | whatever the frames hold the first page then translates: to where it led, or to the last frame it took |
| MapRange.MapExact | lib/kernel/memory/pagination/PageTable.cpp:101-106 | with cleared frames every page of the range is mapped, and nothing else translates except into frames just taken |
| MapRange.SecondPageLost | lib/kernel/memory/pagination/PageTable.cpp:21-25 | with one stale entry in the first frame handed out, the second of two pages mapped does not translate |
| MapRange.OwnFrame | lib/kernel/memory/pagination/PageTable.cpp:19-27 | a page not translated when its turn comes leads to the last frame taken up to then, so that no two such pages share one |
| PrivateSlot.CreateOnly | lib/kernel/memory/pagination/PageTable.cpp:6-29 | under an L4 entry with tables of its own, creating one path makes nothing else under it translate |
| PageTable.LookupIs | lib/kernel/memory/pagination/PageTable.cpp:31-61 | the safe software walk: with indices below 512 it never faults, and finds the entry exactly if the hardware finds every entry down to it present |
| PageTable.PaginationTable.GetOrCreateEntryLevel | lib/kernel/memory/pagination/PageTable.cpp:6-29 | in place through the recursive addresses, none of which faults: creates the path; if no frame handed out is a table in use the entry returned is present and, if it was created, holds the last frame taken and the flags and nothing else |
| PageTable.PaginationTable.GetEntryLevel | lib/kernel/memory/pagination/PageTable.cpp:31-61 | in place: the lookup, with any indices, faults included |
| PageTable.PaginationTable.GetRealAddr | lib/kernel/memory/pagination/PageTable.cpp:63-68 | mapped addresses: the address bits of the leaf entry with the page offset; unmapped ones: a fault exactly if page 0 is unmapped, else what page 0 holds |
| PageTable.RealAddrExactly | lib/kernel/memory/pagination/PageTable.cpp:63-68 | that is the hardware's translation exactly if the entry has no bit set above the 52 of a physical address |
| RealAddr.NewPageRealAddr | lib/kernel/memory/pagination/PageTable.cpp:19-27 | whatever the frames hold, getRealAddr of the first page mapped, if it was not, is its own frame with the page offset, as the hardware has it, and its flags are those asked for |
| RealAddr.OwnRealAddr | lib/kernel/memory/pagination/PageTable.cpp:19-27 | with cleared frames the same for every page of a range that does not translate when its turn comes |
| PageTable.PaginationTable.Map | lib/kernel/memory/pagination/PageTable.cpp:101-106 | in place, whatever the frames hold: the loop maps the pages in order and no access faults |
| AllocVm.FindPages | lib/kernel/memory/pagination/PageTable.cpp:70-96 | in place: the loops with their guard, indices up to 512 and faults; the search terminates |
| AllocVm.AllocVm | lib/kernel/memory/pagination/PageTable.cpp:70-96 | in place: maps from the address formed of the indices found; NULL and a fault leave memory unchanged |
| FirstFit.AdvanceExactly | lib/kernel/memory/pagination/PageTable.cpp:85-93 | the carries leave both indices below 512 exactly when the skip is not a bare one |
| FirstFit.InRangeExactly | lib/kernel/memory/pagination/PageTable.cpp:70-96 | the indices stay in range along the whole search exactly if no skip on the way to the first fit is bare |
| FirstFit.InRangeIsHarmless | lib/kernel/memory/pagination/PageTable.cpp:73-85 | a round that starts with indices in range goes on if it is before the first fit, and stops there with its address |
| BareCarry.ProbeX512 | lib/kernel/memory/pagination/PageTable.cpp:73 | with x at 512 the checks look at table y but the entry read is the first of the next table, behind the last one that of the next L4 entry, and without that table the probe faults |
| BareCarry.ProbeY512 | lib/kernel/memory/pagination/PageTable.cpp:73 | with y at 512 the first check looks at directory z, the second at the one behind it, in the next L4 entry if z is the last, and a missing one is a fault; the entry read is that directory's for an even z but the same one's for an odd z |
| BareCarry.AddressExactly | lib/kernel/memory/pagination/PageTable.cpp:80 | the address formed with an index at 512 is the one meant exactly if the index in front of it is even |
| PageScan.RawNext | lib/kernel/memory/pagination/PageTable.cpp:85-93 | the indices at a head are those of its page, with x or y at 512 or not as one bit and the page decide, and a skip leads to the next head |
| PageScan.ViewIs | lib/kernel/memory/pagination/PageTable.cpp:73 | what the first probe of a round says at any head, in terms of which tables and pages are there |
| PageScan.ReturnsFirstFitExactly | lib/kernel/memory/pagination/PageTable.cpp:70-96 | for every request and first fit: it is returned, with its address, exactly if all heads of the pass over the pages up to it are sound |
| PageScan.FirstUnsoundDecides | lib/kernel/memory/pagination/PageTable.cpp:70-96 | otherwise the first head that is not sound decides: the search faults there, or stops there with an answer that is no fit or has the wrong address, or passes over the first fit |
| PageScan.FirstFitBelow | lib/kernel/memory/pagination/PageTable.cpp:70-96 | less than 512 pages, first fit in the first two directories: it is returned exactly if behind each table before it whose last page is taken there is another one, and it is not the first page of an even table |
| PageScan.StopsBy | lib/kernel/memory/pagination/PageTable.cpp:70-96 | there no answer lies above the first fit |
| PageScan.NeverInEvenDirectory | lib/kernel/memory/pagination/PageTable.cpp:70-96 | a first fit in the first table of an even directory but the first is never returned, whatever the tables hold |
| PageScan.FilledExactly | lib/kernel/memory/pagination/PageTable.cpp:70-96 | with everything below it taken, a first fit anywhere is returned exactly if it is not the first page of a missing or even table, and not among the first 513 pages of a later even directory |
| AllocLimits.FullTableCrashes | lib/kernel/memory/pagination/PageTable.cpp:70-96 | if the first page table is full and there is no second one, every request faults |
| AllocLimits.OnePageCrashes | lib/kernel/memory/pagination/PageTable.cpp:70-96 | a memory with everything from page 512 on free in which a request for one page faults |
| AllocLimits.NeverNull | lib/kernel/memory/pagination/PageTable.cpp:72-95 | for the kernel's L4 entry the search never ends in NULL, whatever the entry holds |
| AllocLimits.FullEntryCrashes | lib/kernel/memory/pagination/PageTable.cpp:72-73 | if that entry is full every request faults |
| AllocLimits.RunsOverTheEnd | lib/kernel/memory/pagination/PageTable.cpp:72-83 | a request for more than 512 pages that fits nowhere in that entry, with no bare skip, gets the free pages at its end as answer |
| AllocLimits.SmallRequestsSkipBare | lib/kernel/memory/pagination/PageTable.cpp:85-93 | for up to 512 pages that fit nowhere some skip is bare |
| AllocLimits.GapsRunOver | lib/kernel/memory/pagination/PageTable.cpp:72-83 | a memory in which a request for 600 pages is answered with the last page of the entry |
| AllocPages.NextAddress | lib/kernel/memory/pagination/PageTable.cpp:101-103 | one page on is the address of the next position, through both carries |
| AllocPages.HandsOutFreeExactly | lib/kernel/memory/pagination/PageTable.cpp:78-83 | an answer not above the first fit: the pages at the address returned were all free exactly if it is the first fit |
| AllocPages.HandsOutFreeBelow | lib/kernel/memory/pagination/PageTable.cpp:78-83 | less than 512 pages, first fit in the first two directories: the pages returned were all free exactly under the condition of FirstFitBelow |
| AllocPages.HandsOutTwice | lib/kernel/memory/pagination/PageTable.cpp:80-82 | with everything below the first fit taken and that the first page of an even table that is there, the address returned is one table too low and mapped |
| AllocPages.Page512Twice | lib/kernel/memory/pagination/PageTable.cpp:80-82 | a memory with page 1024 free in which a request for one page is answered with page 512, which is mapped |
| AllocPages.AllocVmKeeps | lib/kernel/memory/pagination/PageTable.cpp:78-83 | whatever the frames hold and whatever is returned, everything that translated still does, and the address returned translates |
| AllocPages.AllocVmMaps | lib/kernel/memory/pagination/PageTable.cpp:78-83 | with cleared frames all pages from the address returned on are mapped, and nothing else translates except into frames just taken |
| AllocPages.AllocVmPages | lib/kernel/memory/pagination/PageTable.cpp:78-83 | if the heads are sound, the pages returned are those of the first fit; they were free and, with cleared frames, are mapped afterwards |
| AllocPages.AllocVmOwnFrames | lib/kernel/memory/pagination/PageTable.cpp:78-83 | under an L4 entry with tables of its own any two of the pages returned that were free get a frame each |
| Boot.PrepareKernelPaginationTable | lib/kernel/memory/pagination/pagination.cpp:73-90 | in place: the three root entries change as BootFlags says and nothing else does, by accesses that do not fault |
| Boot.BootFlags | lib/kernel/memory/pagination/pagination.cpp:74-85 | the whole words: the recursive entry 0x100B with its old bits 11 to 5; the kernel's entry with bit 8 and 3 set, 4 and 2 clear and all others kept; entry 0 with only the present bit cleared |
| Boot.HandOverEffect | lib/kernel/memory/pagination/pagination.cpp:73-90 | afterwards the root maps itself, no address with L4 index 0 translates, and every address whose walk does not come to entry 0 or 510 of the root translates as before |
| Boot.LoadMemoryInformation | lib/kernel/memory/pagination/pagination.cpp:53-70 | the loop works off the map up to its first entry of size 0; if that part is clean, exactly the whole pages of its regions of type 1 from 1 MiB on are free afterwards and maxMemory is their size |
| Boot.MaxMemoryIsFree | lib/kernel/memory/pagination/pagination.cpp:64-67 | for every clean map: a frame is free, once, exactly if its whole page lies in a region of type 1 from 1 MiB on; maxMemory is the page size times the frames buffered and listed; nothing below 1 MiB is ever free |

## Left out

- LibAlloc.Heap.KernelMalloc: requests whose run reaches 2^31 bytes, where the 32-bit sizes wrap, and the magic number, which a valid pointer always has.
- AllocVm.FindPages: page counts of 65024 and more, as for AllocVm.AllocVm.
- AllocVm.AllocVm: page counts of 65024 and more, where the 16-bit index wraps and the search may not end.
- AllocLimits.NeverNull: what lies behind L4 entries other than 509, the only one the kernel uses.
- BareCarry.ProbeX512: the last step of L4 entry 511, behind which the address macro wraps round.
- AllocLimits.RunsOverTheEnd: requests for up to 512 pages, which always make a bare skip; for those it is AllocLimits.NeverNull.
- PageScan.FirstFitBelow: requests for 512 pages and more and first fits behind the second directory; for those it is PageScan.ReturnsFirstFitExactly.
- FrameRuns.StepConserves: memory supplied twice or with an unaligned base; what an unaligned base does is FrameSpec.TrimInsideExactly.
- BufferRace.FramesSurviveRaces: the region list under races; list_push gives up lock 1 inside its merge loop. The list is a set of frames there, and pushing one is a single step under lock 1.
- MapRange.MapExact: frames that are not cleared, with which it is false (MapRange.SecondPageLost); for those it is MapRange.MapIsConservative and MapRange.MapsFirstPage.
- Reserved bits of an entry (bit 63 without execute-disable, and those above the processor's address width), which make the hardware fault.
- A reader on another processor between the three stores to one entry.
- The heap lock, and the calls from the page layer back into the heap while it is held.
- `unmap` and `free_vm`: their inner loops restart at the first address's indices, and they read through a pointer that can be NULL.
- Entry levels `L1_TAB` to `L4_TAB`: they clear the address they then use, and nothing calls them.
- `kernel_calloc`, `liballoc_memset` and the debug output of the heap: plain loops over a payload, and printing.
- `tryAcquireLock`: nothing calls it.
- Large pages, the translation cache, and the accessed and dirty bits.
- Console output, interrupt and device setup, processes and the C library headers.
