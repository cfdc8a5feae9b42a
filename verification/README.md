# A verified model of the memory management of a small x86-32 kernel

This project models the parts of the kernel whose correctness rests on invariants over mutable state,
and proves what they promise:

- **Page tables.** `map` never touches a page table by physical address: it writes through the window
  that a self-referencing directory slot opens. Physical memory is a sequence of frames of words, the
  hardware walk is a function of it (sections 4.3 and 4.4 of the Intel SDM, Volume 3A), and every load
  and store of `map` is by virtual address, through that walk and through a TLB (section 4.10) that may
  keep any page touched and drop any page at any time. `Paging` and `PaePaging` say what one call does
  to the walk, `AddressSpace` what any sequence of calls does, `Mmu` and `PaeMmu` are the code,
  `LoaderMmu` and `LoaderPae` the base cases, `DirectMap` the loop that lays all of memory out, and
  `Speculation` asks the same of a processor that translates speculatively. `PaeSpace` is `AddressSpace` with PAE.
- **Boot memory.** `Bitmap` and `BootAllocator` refine a set of free frames; `BootMem` builds that
  bitmap from the memory map.
- **The page allocator.** `LinkedList` has real heap nodes. `NodeAllocator` keeps three views of each
  arena in agreement: the intrusive free list, the OCCUPIED flags, the counter. `NodeRuns` states what
  every interleaving of calls keeps: chains handed out stay intact, and no page is lost or given twice.
- **The slab allocator.** `Slab` is the free chain inside `bufctl`, `SlabCache` the capacity arithmetic
  and the three lists, `KMem` the choice of a cache, `kmalloc` and release. Slabs have addresses: the bytes
  of a live object meet no other live object of any cache.
- **The debugger's packet layer.** `GdbPacket` (section E.1 of the GDB manual's Remote Protocol
  appendix): framing, checksum, resynchronisation, retransmission, hexadecimal coding.
- **Library code.** `Format` is the number formatter, `StrLen` word-at-a-time `strlen`, `MemMove`
  overlapping `memmove`.

`Bits` and `Pages` hold the bit arithmetic: AND and OR on unbounded naturals, shifts as products and
quotients, with 16-, 32- and 64-bit truncation written out. `And`, `Or`, `Pow2` of `Bits` are the C
operators; all laws used of them are proved there.

Code that changes state is a class or a method over arrays; each such method is proved against a
function or predicate of the old state, and the theorems are about those. Where the kernel panics, which
does not return, a method returns `false`. Inputs that the code reads from outside (the memory map, the
frames an allocator returns, the bytes on a serial line, the page a new slab gets) are parameters.

## Where the code does less than it promises

Each item names the theorem that says exactly when the code keeps the promise, and an input on which it
does not.

- **A table is reachable before it is cleared.** On a processor that caches translations speculatively,
  the TLB agrees with the tables after `map`, for every behaviour, if and only if the call created no
  table or the recycled frame held no present word, except where `map` stores its own entry
  (`Speculation.AgreementIffCleanFrame`; over runs of calls, `RunAgreesIffCleanFrames`). Free frames that
  hold no present word at the start are enough for a whole run (`ClearedFramesSuffice`). Input:
  `DirtyFrameIsCached`.
- **The self-map can be overwritten.** Mapping one of its pages keeps the directory well formed exactly
  when the stored word is one that an entry may hold (`Paging.MapInWindowSlot`, with PAE
  `PaePaging.MapInSelfMap`). Input: `Paging.ReadOnlyWindowPage`.
- **32 address bits.** With PAE too, the mapped page is the one asked for if and only if it lies below
  4 GiB (`PaePaging.ReachedBelowFourGiB`, in the direct map `DirectMap.WindowReaches`). Input:
  `PaePaging.FourGiBIsMissed`.
- **Sequence ids.** `getpacket` undoes `putpacket` if and only if no ':' stands in the third place of the
  buffer, where a payload of fewer than two bytes leaves a byte of an earlier packet
  (`GdbPacket.ReceiveUndoesFrame`). Inputs: `ColonIsTakenForSequence`, `ColonStaysBehind`.
- **Width.** The printed length is the larger of the width and the text, plus the precision, unless a sign
  was asked for on an unsigned conversion and the width is at least the text (`Format.FieldLength`).
  Input: `PlusIsNotCounted`.
- **The count of usable bytes.** For regions without a common page the loader's assertion holds, below
  4 GiB, if and only if no available region lies strictly inside one page (`BootMem.DisjointTotals`), and
  without such regions if and only if there are less than 4 GiB (`FullTotals`); for any map,
  `AssertionHolds`. Inputs: `SliverBreaksTotals`, `FourGiBBreaksTotals`.
- **The last page of an arena.** A run of free pages is passed over if and only if it is the only one of
  its length and ends with the arena (`NodeAllocator.RunIsMissed`). Input: `OnePageIsMissed`.
- **The order of arenas.** The list stays ordered by priority if and only if some arena in it has a larger
  priority than the new one, or all have the same (`NodeAllocator.InsertedOrdered`). Input:
  `LargestGoesFirst`.
- **The bitmap of an arena.** Page i is compared with bit i, not with the bit of its frame; that is the same
  for every bitmap if and only if the arena starts at frame 0 or has no page
  (`NodeAllocator.PassMarksOwnFrames`, whose proof is the input: one page at frame f and bit f alone).

## Model

| member | source | states |
|---|---|---|
| Pages.AlignDown | include/arch/x86/32/paging.h:36 | the mask takes off exactly the offset inside the page |
| Pages.AlignUp | include/arch/x86/32/paging.h:35 | rounds up by less than a page to an aligned address, unless the 64-bit addition wraps |
| Pages.UpIsLeast | include/arch/x86/32/paging.h:35 | no aligned address at or above the argument is below the rounded one |
| Pages.DownIsGreatest | include/arch/x86/32/paging.h:36 | a page lies below the rounded-down end iff it ends at or before the end |
| Bitmap.Bitmap.constructor | loader/x86/bootmem.cc:68-72 | every bit of the array starts out set, padding included |
| Bitmap.Bitmap.Test | lib/ebl/include/bitmap.h:45 | tells whether bit k of the packed words is set |
| Bitmap.Bitmap.Set | lib/ebl/include/bitmap.h:30 | sets bit k and changes no other bit of any word |
| Bitmap.Bitmap.Reset | lib/ebl/include/bitmap.h:37 | clears bit k and changes no other bit of any word |
| Bitmap.Bitmap.FirstZero | lib/ebl/include/bitmap.h:66-80 | the least clear index, or -1 iff every bit of the array is set |
| BootAllocator.BootAllocator.UpdateAll | core/mm/bootalloc.cc:41-52 | moves the cursor to the lowest free frame; panics iff the free set is empty |
| BootAllocator.BootAllocator.AddArena | core/mm/bootalloc.cc:72-80 | takes over the bitmap and points the cursor at the lowest free frame, or panics if there is none; a null bitmap changes nothing |
| BootAllocator.BootAllocator.AllocateSingle | core/mm/bootalloc.cc:54-70 | for any cursor, returns a frame of the free set and removes exactly it; panics iff the set is empty; says which frame |
| BootAllocator.BootAllocator.FreePages | core/mm/bootalloc.cc:82-90 | the byte-by-byte loop frees exactly `pages` consecutive frames |
| BootMem.BuildBitmap | loader/x86/bootmem.cc:64-95 | as long as the bits to clear lie in the bitmap: bit k is clear iff page k is a whole page of a processed available region; padding stays set; the byte total is the listed pages less one per sliver, modulo 2^64 |
| BootMem.OrdinaryMapIsIndexed | loader/x86/bootmem.cc:65-93 | for a map whose regions end below 2^44 less a page, every bit that is cleared lies in the bitmap |
| BootMem.CountClear | loader/x86/bootmem.cc:97-100 | page size times the number of clear bits, modulo 2^32 |
| BootMem.InitPhaseOne | loader/x86/bootmem.cc:64-101 | bit k is clear iff page k lies wholly inside a type-1 region that is looked at: with PAE any, otherwise those before the first that starts at 0xFFFFFFFF or higher; the bitmap is fit for the boot allocator; the assertion holds iff the two totals agree |
| BootMem.ListedAreUsable | loader/x86/bootmem.cc:83-95 | a page is listed iff it lies wholly inside a type-1 region that is looked at |
| BootMem.SliverHasNoBoundary | loader/x86/bootmem.cc:89-91 | a region subtracts a page from the byte total iff it is of type 1 and neither holds nor touches a page boundary |
| BootMem.TopIsAttained | loader/x86/bootmem.cc:65 | the end of memory is the end of some region |
| BootMem.AssertionHolds | loader/x86/bootmem.cc:101 | the two totals are equal iff listed pages less slivers equal clear bits less what 32 bits dropped |
| BootMem.DisjointTotals | loader/x86/bootmem.cc:83-101 | page-disjoint regions under 4 GiB: the assertion holds iff no available region is a sliver |
| BootMem.FullTotals | loader/x86/bootmem.cc:83-101 | page-disjoint regions without slivers: the assertion holds iff they hold less than 4 GiB |
| BootMem.FourGiBBreaksTotals | loader/x86/bootmem.cc:97-101 | one region of 4 GiB makes the totals differ |
| BootMem.SliverBreaksTotals | loader/x86/bootmem.cc:89-91 | one region from 0x1001 to 0x1FFF makes the totals differ |
| BootMem.ListedAreAvailable | platform/pc/platform.cc:152-161 | the pages whose bits are cleared are those the kernel lays out later, in the same order |
| BootMem.DisjointCount | loader/x86/bootmem.cc:97-100 | the clear bits number as many as the listed pages iff no page is listed twice |
| Paging.Virt | include/arch/x86/32/paging.h:39 | the shifts and ORs add up to slot and index at their places |
| Paging.PdIdx | include/arch/x86/32/paging.h:40 | the mask yields the quotient by 4 MiB |
| Paging.PtIdx | include/arch/x86/32/paging.h:41 | the mask yields the page number within the table |
| Paging.Leaf | arch/x86/32/mmu.cc:66-68 | for an aligned frame, the OR is the sum of the 32-bit address and the masked 16-bit flags |
| Paging.LeafIsMapped | arch/x86/32/mmu.cc:83 | the stored word translates to the frame with the masked flags, or to a fault if not present |
| Paging.WithTableKeepsRecursive | arch/x86/32/mmu.cc:73-81 | a fresh table keeps the directory recursive and adds exactly one frame to those in use |
| Paging.MapKeepsRecursive | arch/x86/32/mmu.cc:62-85 | after a call slot 1023 names the directory, other entries are zero or name distinct tables; only the new table joins the frames in use |
| Paging.MapSetsThePage | arch/x86/32/mmu.cc:83 | every address of the mapped page walks to the frame of the low 32 address bits with flags masked by 0x11F, writable iff bit 1 was asked for; to a fault iff bit 0 was not |
| Paging.FlagsThatStay | include/arch/x86/32/paging.h:56-61 | of the flags asked for, bits 0 to 4 and 8 reach the entry, no others |
| Paging.MapKeepsOtherPages | arch/x86/32/mmu.cc:62-85 | every other page walks as before, save the window page of a table just created |
| Paging.MapKeepsOtherFrames | arch/x86/32/mmu.cc:78-83 | no frame outside the directory and its tables is written |
| Paging.MapInWindowSlot | arch/x86/32/mmu.cc:69-83 | for a page of slot 1023: the directory stays recursive iff the stored word is a legal entry |
| Paging.ReadOnlyWindowPage | arch/x86/32/mmu.cc:69-83 | mapping the first window page without the R/W bit makes any directory lose its form |
| Paging.MapUpdatesView | arch/x86/32/mmu.cc:62-85 | as a table from pages to translations, one call is one update |
| AddressSpace.StepKeepsInv | arch/x86/32/mmu.cc:62-85 | one call keeps the invariant and no frame is lost between the free set and the tables |
| AddressSpace.RunIsUpdates | arch/x86/32/mmu.cc:62-85 | over any run from a good state: directory recursive, tables never free, frames conserved, and the walk equals a plain table updated request by request |
| Mmu.Mmu32Nopae.Translate | arch/x86/32/mmu.cc:73-84 | a translation from a coherent TLB or a walk is what the walk says; the TLB gains at most that page |
| Mmu.Mmu32Nopae.ClearTable | arch/x86/32/mmu.cc:80 | clearing through the window zeroes the table's frame and nothing else; the TLB stays coherent |
| Mmu.Mmu32Nopae.NewTable | arch/x86/32/mmu.cc:78-80 | installs and clears a fresh table by virtual address; the flush makes the TLB coherent again |
| Mmu.Mmu32Nopae.WriteLeaf | arch/x86/32/mmu.cc:82-84 | stores the entry through the window; the flush makes the TLB coherent again |
| Mmu.Mmu32Nopae.Map | arch/x86/32/mmu.cc:62-85 | the code does one step of the address space; panics iff a table is needed and no frame is free; the whole invariant, TLB coherence included, is kept |
| Mmu.WindowWalk | arch/x86/32/mmu.cc:67-71 | the window address of slot and index walks to that word of that table |
| Mmu.FillingSlotKeepsPages | arch/x86/32/mmu.cc:78-79 | filling an empty slot changes no cached page |
| Mmu.LeafKeepsOtherPages | arch/x86/32/mmu.cc:83-84 | storing one entry changes the translation of no other page |
| Speculation.AgreementIffCleanFrame | arch/x86/32/mmu.cc:73-84 | for every call outside slot 1023, with speculative fills: the TLB agrees after the call, for all behaviours, iff no table was created or its frame was clean |
| Speculation.RunAgreesIffCleanFrames | arch/x86/32/mmu.cc:62-85 | over any run: the TLB agrees after every call, for all behaviours, iff the frame of every new table was clean |
| Speculation.ClearedFramesSuffice | arch/x86/32/mmu.cc:62-85 | if no free frame holds a present word when a run of the address space starts, every frame it takes is clean |
| Speculation.FreeFramesUntouched | arch/x86/32/mmu.cc:78-83 | a frame that is still free holds what it held when the run started |
| Speculation.DirtyFrameIsCached | arch/x86/32/mmu.cc:78-80 | a directory in frame 0 and one present word in frame 2: a behaviour that ends with a stale entry |
| Speculation.StageWalk | arch/x86/32/mmu.cc:78-80 | on a clean frame a page never translates, at any stage of the call, to what it will not keep |
| Speculation.StaleBehaviour | arch/x86/32/mmu.cc:78-80 | a present word left in the frame yields a behaviour that ends with a stale entry |
| LoaderMmu.LoaderMmu32Nopae.Init | loader/x86/mmu.cc:61-76 | establishes the recursive directory, uses exactly the two frames taken, and maps the first 4 MiB to themselves and nothing else but the window |
| LoaderMmu.FirstDirectory | loader/x86/mmu.cc:63-68 | the first directory is recursive and uses two frames |
| LoaderMmu.FirstWalk | loader/x86/mmu.cc:63-68 | what every address walks to in it |
| LoaderPae.LoaderMmu32Pae.Init | loader/x86/mmu.cc:105-132 | with PAE: establishes the four self-map slots, uses exactly the six frames taken, identity-maps the first 4 MiB, and sets the present bit of every pointer |
| LoaderPae.FirstDirectory | loader/x86/mmu.cc:112-126 | the first joint directory is recursive and uses six frames |
| LoaderPae.FirstWalk | loader/x86/mmu.cc:117-126 | outside the self-map exactly the first 4 MiB translate, to themselves |
| DirectMap.MapRegion | platform/pc/platform.cc:160-170 | lays out the pages of one region until the window is full; stops early only if no frame is free and more tables are missing than there were frames |
| DirectMap.Init | platform/pc/platform.cc:151-172 | panics iff the directory slots of the window that are empty outnumber the free frames; otherwise window page k walks to the k-th available page for the first 0x20000 of them, every other page below slot 1023 is as before, the directory changes only in the window's slots, and the largest page end is recorded |
| DirectMap.AvailableAreWholePages | platform/pc/platform.cc:156-165 | a page is laid out iff it lies wholly inside a type-1 region and no region up to it starts at 0xFFFFFFFF or higher |
| DirectMap.MissingCounts | platform/pc/platform.cc:165-170 | the tables missing are the empty slots among those from 768 on |
| DirectMap.SlotsHoldPages | include/arch/x86/32/arch_defs.h:19-20 | the window's slots are those its pages lie in, from 0xC0000000 on |
| DirectMap.StepCosts | arch/x86/32/mmu.cc:73-81 | a call takes one free frame iff its directory slot is empty, and changes no other slot |
| DirectMap.TooFewFrames | platform/pc/platform.cc:165-170 | an empty slot with no frame left means more tables missing than frames |
| DirectMap.TablePagesUndisturbed | platform/pc/platform.cc:151-172 | the pages of slot 1023: each shows the table it showed, or the new table of a slot that was empty |
| DirectMap.WindowTranslates | platform/pc/platform.cc:151-172 | window page k walks to the k-th available page, writable |
| DirectMap.WindowReaches | platform/pc/platform.cc:165-168 | window page k is the k-th available page itself iff that lies below 4 GiB |
| DirectMap.OutsideWindowUndisturbed | platform/pc/platform.cc:151-172 | pages outside the window walk as they did |
| DirectMap.RegionPagesAreItsWholePages | platform/pc/platform.cc:158-165 | the pages taken from a region are the aligned ones wholly inside it |
| DirectMap.PageRunSteps | platform/pc/platform.cc:165-168 | the j-th page of a run is j page sizes above its start |
| DirectMap.RegionStaysTogether | platform/pc/platform.cc:151-172 | a region's pages are neighbours in the window, behind those of the regions before it and ahead of those after it |
| DirectMap.MaxEndIsMaximum | platform/pc/platform.cc:169 | the recorded end is an upper bound and is attained |
| PaePaging.Virt | include/arch/x86/32/paging.h:43 | the shifts and ORs add up to the three indices at their places |
| PaePaging.SlotIsPair | include/arch/x86/32/paging.h:44-45 | the two directory indices are one slot of the joint directory |
| PaePaging.MaskedFlags | arch/x86/32/mmu.cc:103-106 | the low mask, and the NX bit only where the processor has it |
| PaePaging.LeafIsMapped | arch/x86/32/mmu.cc:127 | the stored word translates to the low 32 bits of the address with the masked flags |
| PaePaging.ReachedBelowFourGiB | arch/x86/32/mmu.cc:127 | the mapped page is the one asked for iff it lies below 4 GiB |
| PaePaging.FourGiBIsMissed | arch/x86/32/mmu.cc:127 | mapping the first page above 4 GiB maps page 0 |
| PaePaging.WindowReads | arch/x86/32/mmu.cc:111-112 | a page of the self-map is translated by the directory slot it shows |
| PaePaging.WithTableGrows | arch/x86/32/mmu.cc:116-124 | an empty slot gets a cleared table, a full one stays; no other frame is written |
| PaePaging.MapKeepsRecursive | arch/x86/32/mmu.cc:97-129 | after a call outside the self-map the four self slots name the directories, other entries are zero or name distinct tables |
| PaePaging.MapSetsThePage | arch/x86/32/mmu.cc:126-127 | every address of the mapped page walks to the frame of the low 32 address bits with flags masked by 0x11F, no-execute iff bit 63 was asked for and the processor has it |
| PaePaging.MapKeepsOtherPages | arch/x86/32/mmu.cc:97-129 | every other page walks as before, save the window page of a table just created |
| PaePaging.MapKeepsOtherFrames | arch/x86/32/mmu.cc:121-127 | no frame outside the directories and their tables is written |
| PaePaging.MapInSelfMap | arch/x86/32/mmu.cc:111-127 | for a page of the self-map: the directories stay recursive iff the stored word is a legal entry |
| PaePaging.MapUpdatesView | arch/x86/32/mmu.cc:97-129 | as a table from pages to translations, one call is one update |
| PaeSpace.StepKeepsInv | arch/x86/32/mmu.cc:97-129 | one call keeps the invariant and no frame is lost between the free set and the tables |
| PaeSpace.RunIsUpdates | arch/x86/32/mmu.cc:97-129 | over any run: directories recursive, tables never free, frames conserved, and the walk equals a plain table updated request by request |
| PaeMmu.DirectoryWord | arch/x86/32/mmu.cc:111 | address (3, 511, 508+pp) walks to directory pp |
| PaeMmu.WindowWord | arch/x86/32/mmu.cc:112 | address (3, 508+pp, pd) walks to the table in entry pd of directory pp |
| PaeMmu.Mmu32Pae.ClearTable | arch/x86/32/mmu.cc:123 | clearing through the window zeroes the table's frame and nothing else; the TLB stays coherent |
| PaeMmu.Mmu32Pae.Translate | arch/x86/32/mmu.cc:116-128 | a translation from a coherent TLB or a walk is what the walk says; the TLB gains at most that page |
| PaeMmu.Mmu32Pae.NewTable | arch/x86/32/mmu.cc:121-123 | installs and clears a fresh table by virtual address; the TLB is coherent afterwards |
| PaeMmu.Mmu32Pae.WriteLeaf | arch/x86/32/mmu.cc:126-128 | stores the entry through the window; the flush makes the TLB coherent again |
| PaeMmu.FillingSlotKeepsPages | arch/x86/32/mmu.cc:121-122 | filling an empty slot changes no cached page |
| PaeMmu.LeafKeepsOtherPages | arch/x86/32/mmu.cc:127-128 | storing one entry changes the translation of no other page |
| PaeMmu.Mmu32Pae.Map | arch/x86/32/mmu.cc:97-129 | for every page, self-map included, the code does one step of the address space; panics iff a table is needed and no frame is free; outside the self-map the whole invariant, TLB coherence included, is kept |
| LinkedList.ListAppend | lib/ebl/include/linked_list.h:83-90 | the node stands just after the given one, all links of the list are right |
| LinkedList.ListRemove | lib/ebl/include/linked_list.h:112-117 | the list without that entry; the entry keeps its own links |
| LinkedList.EntryHasPredecessor | core/mm/pmm_node.cc:133 | an entry is never its own predecessor, so the check that `allocate` makes on a removed page never succeeds |
| NodeAllocator.Arena.Init | core/mm/pmm_node.cc:70-109 | the list is the pages in order, without page i where bit i is set and i is at least the number of the arena's first frame; flags and counter agree |
| NodeAllocator.PassMarksOwnFrames | core/mm/pmm_node.cc:98-108 | the pages taken out are those whose frames are set, for every bitmap, iff the arena starts at frame 0 or has no page |
| NodeAllocator.FreePagesAreClear | core/mm/pmm_node.cc:98-108 | a page is left in the list iff its bit is clear, right behind the pages of lower index that are |
| NodeAllocator.Arena.Occupy | core/mm/pmm_node.cc:128-137 | one page moves from the free list to the front of the caller's list |
| NodeAllocator.Arena.Release | core/mm/pmm_node.cc:225-227 | one page goes to the front of the free list; another list is not disturbed |
| NodeAllocator.PmmNode.AddArena | core/mm/pmm_node.cc:61-111 | the arena is inserted before the first of larger priority or else at the front, with its unmarked pages free; other lists stay |
| NodeAllocator.FirstLargerIs | core/mm/pmm_node.cc:74-85 | where the search for a larger priority stops |
| NodeAllocator.InsertedOrdered | core/mm/pmm_node.cc:74-85 | an ordered list stays ordered iff some arena has a larger priority than the new one or all have the same |
| NodeAllocator.LargestGoesFirst | core/mm/pmm_node.cc:82-83 | priority 2 added to priority 1 comes out in front of it |
| NodeAllocator.PmmNode.Allocate | core/mm/pmm_node.cc:113-145 | the smaller of n and the free count of the first arena, the reversed prefix of its list, as an intact chain; other arenas untouched; only list nodes are written |
| NodeAllocator.PmmNode.FindWindow | core/mm/pmm_node.cc:166-184 | the lowest window in the first arena that has one, or none iff no arena has one |
| NodeAllocator.RunIsMissed | core/mm/pmm_node.cc:171-183 | a run of free pages is passed over iff it is the only one of its length and ends with the arena |
| NodeAllocator.OnePageIsMissed | core/mm/pmm_node.cc:171-183 | in an arena of one free page no page is found |
| NodeAllocator.PmmNode.AllocateContiguous | core/mm/pmm_node.cc:152-205 | takes exactly that window as an ascending chain, its list keeps the other pages in order; 0 and no change iff no window exists |
| NodeAllocator.PmmNode.PageToPhysical | core/mm/pmm_node.cc:50-59 | page i of an arena is i page sizes above its base; 0 for an address in no arena |
| NodeAllocator.PmmNode.OwnArena | core/mm/pmm_node.cc:32-33 | a page's address lies in its own arena's array only |
| NodeAllocator.PmmNode.Free | core/mm/pmm_node.cc:207-236 | every page goes back to the front of its own arena's list, and all are counted |
| NodeAllocator.PmmNode.AllocateThenFree | core/mm/pmm_node.cc:113-236 | allocating and freeing the chain restores every list in its order |
| NodeAllocator.PmmNode.SameListsSameFlags | core/mm/pmm_node.cc:113-236 | equal lists mean equal flags and counters |
| NodeAllocator.GivenBackUndoes | core/mm/pmm_node.cc:216-231 | giving back the reversed prefix restores the list |
| NodeAllocator.GivenBackElsewhere | core/mm/pmm_node.cc:216-231 | pages of other arenas leave a list alone |
| NodeAllocator.RemoveIsWithout | core/mm/pmm_node.cc:189-197 | unlinking by position is removing by name, order kept |
| NodeRuns.AllocateInRun | core/mm/pmm_node.cc:113-145 | in any state of a run: one more chain is out, the others intact, pages conserved |
| NodeRuns.AllocateContiguousInRun | core/mm/pmm_node.cc:152-205 | the same for a contiguous chain; nothing changes on failure |
| NodeRuns.FreeInRun | core/mm/pmm_node.cc:207-236 | any chain that is out can be given back in any order; the others stay intact, pages conserved |
| NodeRuns.AddArenaInRun | core/mm/pmm_node.cc:61-111 | a new arena joins in mid-run; its marked pages are the only ones set aside |
| NodeRuns.HeldAreOffList | core/mm/pmm_node.cc:87-236 | no call writes a node of a chain that is out, because none is on a list |
| Slab.Slab.constructor | core/mm/slab.cc:151-168 | the chain visits all ids in order, nothing is live |
| Slab.Slab.Take | core/mm/slab.cc:185-188 | hands out an id that was not live; the chain loses its head |
| Slab.Slab.Give | core/mm/slab.cc:237-242 | a live id becomes the head of the chain; all others stay |
| Slab.Slab.TakeThenGive | core/mm/slab.cc:185-242 | restores `bufctl`, `free` and `inuse` exactly |
| Slab.Slab.LiveMeansInuse | core/mm/slab.cc:242 | the counter cannot fall below zero while an object is live |
| Slab.Slab.ObjectInside | core/mm/slab.cc:156-167 | in a slab that fits its pages, every object lies behind the header and before the end |
| Slab.Slab.ObjectsApart | core/mm/slab.cc:185-238 | objects of a slab are disjoint, and the id is recovered from the address |
| Slab.Slab.ObjectAddrIs | core/mm/slab.cc:156 | an object lies behind 28 bytes of structure, 4 bytes for each index, the colour offset and the objects of lower id |
| Slab.LiveUndisturbed | core/mm/slab.cc:132-140 | in slabs that share no page, an object meets no other live object and no header or index array |
| Slab.MetadataKept | core/mm/slab.cc:132-161 | an object that is undisturbed meets no word of any slab's index array and no slab structure |
| SlabCache.Layout | core/mm/slab.cc:44-50 | terminates with the least order and at least one object; the bytes add up to the slab |
| SlabCache.EveryColourFits | core/mm/slab.cc:59-60 | for every colour up to the number of colours, header, index array, offset and objects fit in the pages |
| SlabCache.Cache.NewSlab | core/mm/slab.cc:145-168 | a new slab fits its pages, shares none with another, has the next colour and nothing live |
| SlabCache.NextColour | core/mm/slab.cc:157 | colours count up to their number and start again at 0 |
| SlabCache.Cache.constructor | core/mm/slab.cc:30-61 | a valid empty cache for the size, of least order and with no room for one more object |
| SlabCache.Cache.Alloc | core/mm/slab.cc:129-198 | takes the first partial slab, else the first free one, else makes one with the next colour, and hands out the object its `free` names; the slab then stands first on the list of its new state and the other slabs keep their order; the bytes meet no other live object, header or index array of the cache |
| SlabCache.Cache.Release | core/mm/slab.cc:237-259 | the object is no longer live and comes next from its slab; a full slab goes to the front of the partial list, a partial one that empties to the front of the free list, the list it left keeps its order and the third is as before |
| SlabCache.Cache.ReleaseThenAlloc | core/mm/slab.cc:129-259 | after an object of a full slab is released, the next allocation returns that very object |
| SlabCache.FirstOf64 | core/mm/slab.cc:145-187 | the first object of a cache for 64 bytes is 264 bytes behind the start of its page |
| KMem.KMem.GetCache | core/mm/slab.cc:63-78 | the smallest cache that is large enough with slack at most 256; none iff none qualifies |
| KMem.KMem.CacheAlloc | core/mm/slab.cc:120-198 | succeeds iff the list allocator is in place and some cache suits; exactly one object more is live, the one returned, from the smallest cache that suits and its first partial or else free slab; its bytes meet no live object, header or index array of any cache |
| KMem.KMem.CacheFree | core/mm/slab.cc:237-259 | exactly that object is no longer live and comes next from its slab; where the slab stands on its cache's lists afterwards; sizes and pages stay apart |
| KMem.KMem.FreeThenAlloc | core/mm/slab.cc:120-260 | freeing an object of a full slab and asking for its size again returns that very object |
| KMem.KMem.GivenIsUndisturbed | core/mm/slab.cc:120-260 | in every state: the bytes of a live object meet no other live object, header or index array of any cache |
| KMem.KMem.NewCache | core/mm/slab.cc:111-118 | none iff the list allocator is not in place; else one more cache, second in the list, whose structure is an object of the root cache that was not live; sizes stay distinct |
| KMem.KMem.KMalloc | core/mm/slab.cc:262-273 | an object iff the list allocator is in place, from the one cache of exactly that size, which is added iff there was none; exactly that object becomes live, and one for the structure of a new cache; its bytes meet no live object, header or index array of any cache |
| KMem.KMem.NoneOfSize | core/mm/slab.cc:265-266 | if the best fit is not exact, no cache has the size |
| GdbPacket.DigitsRoundTrip | arch/x86/32/i386-stub.c:434-443 | `hex` undoes `hexchars` for both digits of a byte |
| GdbPacket.HexDigits | arch/x86/32/i386-stub.c:110 | digit n is the n-th of "0123456789abcdef", and the upper-case letter counts the same |
| GdbPacket.NoOtherDigits | arch/x86/32/i386-stub.c:434-443 | `hex` is -1 exactly for characters that are no hexadecimal digit |
| GdbPacket.BadDigits | arch/x86/32/i386-stub.c:478-479 | what a checksum of characters that are no digits counts as |
| GdbPacket.SumAdds | arch/x86/32/i386-stub.c:470 | the checksum of two parts is the sum of theirs, modulo 256 |
| GdbPacket.SumOfOne | arch/x86/32/i386-stub.c:521 | the checksum of one byte is that byte |
| GdbPacket.Stub.GetPacket | arch/x86/32/i386-stub.c:446-505 | what the code returns, sends, consumes and leaves in the buffer is the outcome of `Receive` |
| GdbPacket.Stub.ReadPayload | arch/x86/32/i386-stub.c:458-474 | the inner loop, with restart at '$' and the buffer bound |
| GdbPacket.Stub.Answer | arch/x86/32/i386-stub.c:475-503 | checksum comparison, acknowledgement and sequence id |
| GdbPacket.Stub.PutPacket | arch/x86/32/i386-stub.c:507-529 | one frame for every byte read up to and including the first '+', which is all it consumes; without a '+' it waits, having sent one frame for every byte and one more |
| GdbPacket.RepeatedAdds | arch/x86/32/i386-stub.c:513-529 | n transmissions are n copies of the frame, one after another |
| GdbPacket.Stub.Send | arch/x86/32/i386-stub.c:515-526 | one transmission is the frame of the payload |
| GdbPacket.NoiseIsSkipped | arch/x86/32/i386-stub.c:455-457 | bytes without '$' in front change nothing |
| GdbPacket.ReceiveUndoesFrame | arch/x86/32/i386-stub.c:446-529 | a frame yields its payload and one '+' iff no ':' is in the third place; otherwise what happens instead |
| GdbPacket.OkOnTheLine | arch/x86/32/i386-stub.c:475-526 | "OK" goes out as "$OK#9a"; that is answered "+" and "$OK#00" is answered "-" |
| GdbPacket.ColonIsTakenForSequence | arch/x86/32/i386-stub.c:494-500 | "ab:c" arrives as "c" |
| GdbPacket.ColonStaysBehind | arch/x86/32/i386-stub.c:494-500 | after it the packet "g" is taken for a sequence id too |
| GdbPacket.BadFrameIsRefused | arch/x86/32/i386-stub.c:481-490 | a wrong checksum draws one '-' and reception goes on behind the frame |
| GdbPacket.DollarRestarts | arch/x86/32/i386-stub.c:466-467 | a '$' inside a frame starts a new one without an answer |
| GdbPacket.OverlongIsDropped | arch/x86/32/i386-stub.c:463-475 | a payload that fills the buffer is dropped without an answer |
| GdbPacket.TriesDrawMinuses | arch/x86/32/i386-stub.c:446-505 | n damaged frames with noise draw n times '-' |
| GdbPacket.ExchangeDelivers | arch/x86/32/i386-stub.c:446-529 | any number of damaged frames, then a good one: the answers are n times '-' and one '+', the payload arrives |
| GdbPacket.HexRoundTrip | arch/x86/32/i386-stub.c:570-611 | decoding the text of a memory block gives the block |
| GdbPacket.ToHexAt | arch/x86/32/i386-stub.c:570-588 | byte i becomes the characters 2i and 2i+1, high digit first, in lower case |
| GdbPacket.FromHexAt | arch/x86/32/i386-stub.c:594-611 | digits 2i and 2i+1 become byte i, the first one worth sixteen |
| GdbPacket.Stub.WaitForStart | arch/x86/32/i386-stub.c:455-457 | consumes up to and including the first '$' |
| GdbPacket.Mem2Hex | arch/x86/32/i386-stub.c:570-588 | writes the text and a NUL, and nothing behind it |
| GdbPacket.Hex2Mem | arch/x86/32/i386-stub.c:594-611 | writes the bytes the digits denote, and nothing behind them |
| Format.DigitsDenote | lib/libc/vsprintf.c:50-54 | the digit run denotes the number, in every base used |
| Format.CapAt22 | lib/libc/vsprintf.c:43 | 22 digits are enough for 64 bits in base 8 |
| Format.Alphabet | lib/libc/vsprintf.c:44 | digit d is the d-th of "0123456789abcdef" for `small`, of "0123456789ABCDEF" otherwise |
| Format.Convert | lib/libc/vsprintf.c:43-55 | fills the buffer with the digits backwards, at most 22 of them, and NULs |
| Format.Sink.Num | lib/libc/vsprintf.c:41-82 | emits exactly the field and returns its length |
| Format.FieldLayout | lib/libc/vsprintf.c:57-80 | the output is spaces, sign, prefix, precision zeros, padding zeros, digits, spaces in that order, each present exactly when its flags ask for it |
| Format.ZeroPadHasNoSpace | lib/libc/vsprintf.c:67-79 | with zero padding the only space is the sign |
| Format.LeftStartsAtOnce | lib/libc/vsprintf.c:67-79 | aligned to the left, the output does not start with padding |
| Format.EndsInDigit | lib/libc/vsprintf.c:77-79 | otherwise it ends in a digit |
| Format.OneCase | lib/libc/vsprintf.c:44-72 | with `small` no upper-case letter is printed, without it no lower-case one |
| Format.FieldExamples | lib/libc/vsprintf.c:41-82 | "00BE", "ff" and "42   " for "%04X", "%x" and "%-5d" |
| Format.ReadUndoesField | lib/libc/vsprintf.c:41-82 | whatever flags, width and precision, a reader that skips spaces, sign and mark gets the value back |
| Format.FieldLength | lib/libc/vsprintf.c:57-61 | the length is max(width, text) plus precision iff no uncounted sign meets a width that large |
| Format.PlusIsNotCounted | lib/libc/vsprintf.c:57-64 | an unsigned 5 with '+' in a width of 2 comes out three characters long |
| StrLen.TestFindsZeroByte | lib/libc/string.c:116-161 | the word test is nonzero iff some byte of the word is zero |
| StrLen.StrLen | lib/libc/string.c:116-161 | the distance to the first NUL, for every alignment |
| MemMove.Move | lib/libc/string.c:68-83 | for every overlap the destination gets the old source and nothing else changes |
| MemMove.CopyUp | lib/libc/string.c:72-74 | copying upwards is safe when the destination is below |
| MemMove.CopyDown | lib/libc/string.c:75-81 | copying downwards is safe when it is not |

## Left out

- Mmu.Mmu32Nopae.Map: accessed and dirty bits, paging-structure caches and large pages (CR4.PSE is never set) are not modelled; `memset` clears words, not bytes; the frames of the allocator lie below 4 GiB, as without PAE they must; the TLB that the contract speaks of holds only pages that were touched, `Speculation` covers the others.
- PaeMmu.Mmu32Pae.Map: as for `Mmu`; speculative fills are not modelled with PAE; a directory entry that names a table at or above 4 GiB faults in the model.
- Mmu and PaeMmu: memory is a sequence of frames, so bytes within a word and unaligned access do not exist; `map` on top of the page allocator is left out, because the code then passes the address of its own local buffer to `page_to_physical`.
- LoaderMmu.LoaderMmu32Nopae.Init: takes its frames as parameters, distinct and the directory cleared; the loader's descending allocator and `bitmap_lastz` (lib/ebl/include/bitmap.h:87-100), whose inner loop never runs, are not part of this model. The loader's own `map` is the kernel's with another allocator.
- LoaderPae.LoaderMmu32Pae.Init: likewise; the four stores of the self-map are written as a loop.
- Bitmap.Bitmap.FirstZero: the result is a mathematical integer, not an `int`.
- BootAllocator.BootAllocator.FreePages: the number of pages is bounded so that the `int` product does not overflow, and is not zero, which the code would turn into a run over all addresses.
- BootMem.InitPhaseOne: a map that would make the code clear bits outside its bitmap is excluded; reserving the kernel image, the modules and the page structures is left out.
- DirectMap.Init: the memory map is a sequence of regions; page-structure creation after the loop is left out.
- NodeAllocator.PmmNode.AddArena: the list of arenas is a sequence, not an intrusive list; the bitmap reaches as far as its bits are looked at.
- NodeAllocator.PmmNode.Allocate: the first arena has a free page and n is positive, since the code dereferences the empty result otherwise.
- NodeAllocator.PmmNode.Free: the chain is not empty, since the code dereferences it.
- Slab.Slab.Take: `bufctl` is a sequence field of the slab, not memory inside its pages; the byte layout is stated by the `SlabCache` lemmas instead.
- SlabCache.Cache.Alloc: the three lists are sequences of slabs; the pages for a new slab are always granted, and are in no other slab; that partial slabs have an object in use is claimed for at least two objects per slab.
- SlabCache.Cache.Release: the slab is given; finding it from the address is left out, because the first comparison of `IS_OBJECT_IN_SLAB` (core/mm/slab.cc:24) is reversed.
- SlabCache.Layout: the size is bounded so that the `int` that doubles does not overflow.
- KMem.KMem.KMalloc: the size comes rounded; where `new_cache` fails the code writes a name through the null pointer, so the list allocator is in place or the cache exists; `next_pow2l`, cache names and the search that `kfree` makes are left out.
- GdbPacket.Stub.PutPacket: the payload is the sequence of bytes before the buffer's NUL; echoing to a console, and command dispatch, are left out; so is `hexToInt`.
- GdbPacket.Mem2Hex: memory faults during the copy are left out.
- Format.Sink.Num: the minimum value of a signed conversion is excluded, since its negation overflows; parsing of the format string is left out; width arithmetic does not overflow.
- StrLen.StrLen: the 64-bit form is left out; the memory ends on a word boundary.
- MemMove.Move: `memcpy`, `memset`, `strstr` and the other string functions are left out.
- Port I/O, control registers, descriptor tables, interrupt controllers, the console, assembly stubs and ELF loading: effects on hardware that no state of this model records.
