# simple-os, modelled in Dafny

This project models the core of simple-os, a small x86-64 hobby kernel written in C++, together with its
userspace shell. Each core source file has its own Dafny module:

| module | file | what it holds |
|---|---|---|
| `Types`, `Bits`, `Math` | `types.dfy`, `bits.dfy`, `math.dfy` | fixed-width integers, `&`/`|`/`~`/shifts on natural numbers, `include/math.*` |
| `Range` | `range.dfy` | `kernel/range.cpp`: physical and virtual address ranges |
| `PageTableFormat`, `KernelDefs` | `page_table_format.dfy`, `kernel_defs.dfy` | `kernel/page_tables.h` (entry layout, indices) and `kernel/kernel_defs.h` |
| `PhysicalAllocator` | `physical_allocator.dfy` | `kernel/physical_allocator.cpp`: the free list of 4 KiB frames |
| `PageTables`, `PageTableWalker` | `page_tables.dfy`, `page_table_walker.dfy` | `kernel/page_tables.cpp`: four-level tables as a map from frame to table; mapping, unmapping, freeing |
| `AllocList` | `alloc_list.dfy` | `kernel/vspace.cpp`'s `AllocList`: sorted, merged free virtual ranges |
| `Vectors` | `vector.dfy` | `kernel/vector.h` |
| `VirtualSpaces` | `vspace.dfy` | `kernel/vspace.cpp`: `VSpace` and `VObject` |
| `CStrings`, `CircularBuffers`, `Stacks`, `Ttys` | `stdlib_workaround.dfy`, `circular_buffer.dfy`, `stack.dfy`, `tty.dfy` | `include/stdlib_workaround.cpp`, `kernel/circular_buffer.h`, `kernel/stack.h`, `kernel/tty.cpp` |
| `Strings` | `string.dfy` | `include/string.h` and `include/string.cpp` |
| `Scheduling` | `scheduler.dfy` | `kernel/scheduler.cpp`: processes, the run queue, blocking and exit |
| `CpuStructs`, `Paths` | `cpu_structs.dfy`, `paths.dfy` | `kernel/cpu.h` (GDT, IDT, TSS layouts) and the path handling of `kernel/cpu.cpp`'s system calls |
| `Ext2` | `ext2.dfy` | the arithmetic and bitmap parts of `kernel/ext2.cpp` |
| `KeyEvents`, `Ps2Keyboard` | `key_event.dfy`, `ps2_keyboard.dfy` | `include/key_event.*` and `kernel/ps2_keyboard.cpp` |
| `Shell` | `sh.dfy` | `userspace/sh.cpp`: tokenizer, command dispatch and line editor |

Fixed-width integers are subset types of `int` (`u8` … `u64`); wrapping arithmetic is written out
(`Add64`, `Sub64`, explicit `% 0x1_0000_0000`). Bitwise operators are arithmetic functions over `n`
bits, so addresses stay integers. A kernel `ASSERT` that checks what a caller must guarantee becomes a
`requires`; one that checks data (a double free, an empty free list, a present entry) becomes a `false`
or `None` result, so the halting path is part of the model. Objects whose fields the kernel updates in
place (the frame allocator, the page-table memory, `VSpace`, `VObject`, `Vector`, the circular buffer,
the stack, the TTY, the scheduler and its processes, the shell's line editor) are classes whose
methods are proved against specification functions; pure computations are functions with lemmas.

## Model

| member | source | states |
|---|---|---|
| Math.IsPowerOf2 | include/math.cpp:3-13 | `is_power_of_2`: the count of set bits among the 64 bits of `v` is one; `PowerOf2Iff` proves this holds exactly for `2^k`, `k < 64` |
| Math.PowerOf2Iff | include/math.cpp:3-13 | `is_power_of_2` (population count of 64 bits equals one) holds exactly for the 64 values `2^k`, `k < 64` |
| Math.RoundUpAlign | include/math.cpp:15-26 | alignment 0 returns the value; otherwise, when `v + a - 1` does not wrap, the result is the least multiple of `a` that is at least `v` |
| Math.RoundDownAlign | include/math.cpp:28-38 | alignment 0 returns the value; otherwise the result is the greatest multiple of `a` not above `v` |
| Math.AlignFixedPoints | include/math.cpp:15-38 | both roundings leave an already aligned value unchanged |
| Math.RoundUpDivide | include/math.cpp:40-44 | when `n + d - 1` does not wrap, the result is the ceiling of `n / d` (`r*d >= n` and `(r-1)*d < n`) |
| Math.IsAligned | include/math.cpp:46-52 | `is_aligned`: alignment 0 is always aligned, otherwise the mask test `(v & (a-1)) == 0`; `IsAlignedPowerOf2` and `IsAlignedNonPowerOf2` say when that is divisibility |
| Math.IsAlignedPowerOf2 | include/math.cpp:46-52 | for a power-of-two alignment, the mask test `(v & (a-1)) == 0` is divisibility by `a` |
| Math.IsAlignedNonPowerOf2 | include/math.cpp:46-52 | for an alignment that is not a power of two the mask test is not divisibility (`is_aligned(4, 3)` is true) |
| Math.AlignBracket | include/math.cpp:15-52 | for a power-of-two alignment, round-down ≤ `v` ≤ round-up and both results pass `is_aligned` |
| Math.Xor | include/math.cpp:54-57 | `xor_` is true exactly when its arguments differ |
| Math.Min | include/math.h:4-10 | `min` returns one of its arguments, no larger than either |
| Math.Max | include/math.h:12-18 | `max` returns one of its arguments, no smaller than either |
| Range.OnePastEnd | kernel/range.cpp:13 | `addr + length` when the sum does not wrap 64 bits (the wrapped sum otherwise) |
| Range.SubtractRange | kernel/range.cpp:17-25 | a range ending at or before this one's start removes nothing; one that covers this range's start leaves the part from its end to this range's end |
| Range.SubtractRangeCovers | kernel/range.cpp:17-25 | when `other` covers the start, the result holds exactly the addresses of this range not in `other` |
| Range.SubtractSize | kernel/range.cpp:27-32 | dropping `size ≤ length` bytes moves the start by `size` and keeps the end |
| Range.SubtractSizeCovers | kernel/range.cpp:27-32 | the result holds exactly this range's addresses from `addr + size` on |
| KernelDefs.StaticAsserts | kernel/kernel_defs.h:19-21 | the three `static_assert`s hold for the constants of lines 9-17 |
| KernelDefs.SpansDisjoint | kernel/kernel_defs.h:6-17 | the kernel and user virtual spans share no address |
| KernelDefs.KernelUnderPml4Zero | kernel/kernel_defs.h:6-11 | every kernel-span address is translated through PML4 entry 0 |
| KernelDefs.UserUnderPml4One | kernel/kernel_defs.h:13-17 | every user-span address is translated through PML4 entry 1 |
| PageTableFormat.TableSizes | kernel/page_tables.h:16-20 | each level maps 512 times the level below: 2 MiB per PT, 1 GiB per PD, 512 GiB per PDPT, 256 TiB per PML4T; 512 eight-byte entries fill a 4096-byte table |
| PageTableFormat.MasksAreBands | kernel/page_tables.h:56 | the address masks are exactly bits 12..47 (4 KiB tables and pages) and bits 21..47 (2 MiB pages, line 191) |
| PageTableFormat.Pml4tIndex | kernel/page_tables.cpp:11-14 | the PML4T index is below 512; `Index9Digit` shows it is the base-512 digit above bit 39 |
| PageTableFormat.PdptIndex | kernel/page_tables.cpp:16-19 | the PDPT index is below 512; `Index9Digit` shows it is the digit above bit 30 |
| PageTableFormat.PdIndex | kernel/page_tables.cpp:21-24 | the PD index is below 512; `Index9Digit` shows it is the digit above bit 21 |
| PageTableFormat.PtIndex | kernel/page_tables.cpp:26-29 | the PT index is below 512; `Index9Digit` shows it is the digit above bit 12 |
| PageTableFormat.PageIndex | kernel/page_tables.cpp:31-34 | the page offset is below 4096; `PageIndexDigit` shows it is the address modulo 4096 |
| PageTableFormat.Index9Digit | kernel/page_tables.cpp:11-29 | `(addr >> shift) & 0x1ff` is the base-512 digit of `addr` above `shift` |
| PageTableFormat.PageIndexDigit | kernel/page_tables.cpp:31-34 | `addr & 0xfff` is `addr mod 4096` |
| PageTableFormat.IndexDecomposition | kernel/page_tables.cpp:7-34 | for a 48-bit address the four 9-bit indices and the 12-bit page index put back together give the address |
| PageTableFormat.SlotDigits | kernel/page_tables.cpp:7-29 | the 4 KiB page number of an address is the four indices read as base-512 digits |
| PageTableFormat.DigitsUnique | kernel/page_tables.cpp:7-29 | two addresses with the same page number have the same four indices, and conversely |
| PageTableFormat.GetPhysAddr | kernel/page_tables.cpp:41 | `raw & phys_addr_mask` never exceeds the mask |
| PageTableFormat.SetPhysAddr | kernel/page_tables.cpp:36-74 | `set_phys_addr` of every entry type: halts when `addr` has a bit outside the mask, otherwise replaces only the masked bits; `SetGetPhysAddr` and `MaskedWrite` prove the round trip and that the flags are kept |
| PageTableFormat.SetGetPhysAddr | kernel/page_tables.cpp:36-41 | `set_phys_addr` passes its `ASSERT` exactly for 4096-aligned addresses below 2^48; then `get_phys_addr` returns the address and every bit outside the mask is kept |
| PageTableFormat.SetGetPhysAddr2MB | kernel/page_tables.cpp:60-65 | the same for a 2 MiB page entry: 2 MiB-aligned addresses below 2^48 |
| PageTableFormat.ClearedNotPresent | kernel/page_tables.cpp:42 | a cleared entry is neither present nor writable and holds address 0 |
| PageTableFormat.NewEntry | kernel/page_tables.cpp:194-201 | the walker's install sequence `clear(); present = 1; writable = 1; set_phys_addr(frame)`; `NewEntryFacts` proves when it succeeds and what entry it yields |
| PageTableFormat.NewEntryFacts | kernel/page_tables.cpp:36-42 | `clear(); present = 1; writable = 1; set_phys_addr(f)` succeeds exactly for a 4096-aligned `f` below 2^48 and yields a present, writable entry holding `f` |
| PageTableFormat.Make2MBEntry | kernel/page_tables.h:194 | the `PDEMaps2MBPage(raw)` constructor, halting without the page-size bit; `Make2MBEntryFacts` states when it succeeds |
| PageTableFormat.Make2MBEntryFacts | kernel/page_tables.h:194 | the `PDEMaps2MBPage(raw)` constructor's `ASSERT` passes exactly when the page-size bit 7 is set |
| PageTableFormat.MaskedWrite | kernel/page_tables.cpp:36-40 | the masked write holds `addr`'s bits under the mask and `raw`'s bits outside it |
| PageTableFormat.OutsideBandZero | kernel/page_tables.cpp:37 | `(addr & ~Band(lo, hi)) == 0` exactly when `addr < 2^hi` and `addr` is a multiple of `2^lo` |
| PhysicalAllocator.MetadataLength | kernel/physical_allocator.cpp:65-75 | the metadata range's length is a whole number of pages and no more than the pages counted |
| PhysicalAllocator.Split | kernel/physical_allocator.cpp:72-86 | the metadata range starts at `range.addr`, the allocatable range starts right after it, both page-aligned, and the allocatable range ends where `range` ends (the three layout ASSERTs of lines 84-86) |
| PhysicalAllocator.InitLayoutAsWritten | kernel/physical_allocator.cpp:65-96 | the layout `init` computes, with the 32-bit product of line 96; when that ASSERT passes, the ranges are carved from `range` and `page_count * 4096` is the allocatable length |
| PhysicalAllocator.MetadataOverflow258 | kernel/physical_allocator.cpp:65-96 | for 258 pages the layout as written has a one-page metadata array (256 slots) but 257 allocatable pages, so slot 256 lies in the first allocatable frame |
| PhysicalAllocator.InitHalts8GiB | kernel/physical_allocator.cpp:95-96 | for an 8 GiB range the 32-bit `m_page_count * 4096` wraps and the ASSERT halts `init` |
| PhysicalAllocator.InitLayout | kernel/physical_allocator.cpp:65-96 | the corrected layout: carved the same way, page count times 4096 is the allocatable length, and the metadata array holds one 16-byte slot per allocatable page |
| PhysicalAllocator.InitLayoutAgrees | kernel/physical_allocator.cpp:65-96 | whenever the layout as written passes its ASSERT and its metadata fits, the corrected layout is the same |
| PhysicalAllocator.PhysicalPageAllocator.Init | kernel/physical_allocator.cpp:45-108 | after `init` every page is free and the free list runs through the slots in ascending order; the region and page count are those of the corrected layout |
| PhysicalAllocator.PhysicalPageAllocator.AllocatePage | kernel/physical_allocator.cpp:7-25 | an empty free list is the halting `ASSERT` (`None`, nothing changes); otherwise the head slot is popped and marked allocated, its frame is zeroed and returned, and the free frames lose exactly that frame |
| PhysicalAllocator.PhysicalPageAllocator.FreePage | kernel/physical_allocator.cpp:27-43 | succeeds exactly for an aligned address whose slot is allocated (the two ASSERTs); then the slot is pushed on the free list and the free frames gain exactly that frame; otherwise nothing changes |
| PhysicalAllocator.PhysicalPageAllocator.CountFreelistEntries | kernel/physical_allocator.cpp:110-117 | the count is the length of the free list |
| PhysicalAllocator.PhysicalPageAllocator.FreeThenAllocate | kernel/physical_allocator.cpp:7-43 | freeing an allocated frame and allocating again returns that frame and restores the free list and the allocation flags |
| PhysicalAllocator.PopChain | kernel/physical_allocator.cpp:12-17 | popping the head keeps the list well formed, unlinks the head and marks it allocated |
| PhysicalAllocator.PushChain | kernel/physical_allocator.cpp:40-42 | pushing a freed slot keeps the list well formed and links it in front |
| PhysicalAllocator.SlotOf | kernel/physical_allocator.cpp:19-31 | an address in the region maps to slot `(addr - base) / 4096` below the page count, and back to itself when aligned |
| PageTables.ZeroTable | kernel/page_tables.cpp:81-87 | a default-constructed (cleared) table has 512 entries, all cleared |
| PageTables.SetEntry | kernel/page_tables.cpp:198-201 | writing entry `j` of table `t` changes that entry only: every other entry and every other table is unchanged |
| PageTables.PtChain | kernel/page_tables.cpp:192-234 | present entries for `v` in the PML4T, the PDPT and the PD lead to the PT, as `map_vrange` follows them |
| PageTables.WalkKept | kernel/page_tables.cpp:194-230 | a change that keeps every present entry keeps every existing translation |
| PageTables.SameSlotIsSlot | kernel/page_tables.cpp:7-29 | two addresses select the same four entries exactly when they lie in the same 4 KiB page |
| PageTables.PathLevels | kernel/page_tables.cpp:204-232 | in well-formed tables the walk for `v` meets a PDPT, a PD and a PT in that order, and lands on a frame that is not a table |
| PageTables.LeafWalk | kernel/page_tables.cpp:234-242 | changing only `v`'s PTE changes the translation of `v`'s page and of no other address |
| PageTables.ClearLeafWalks | kernel/page_tables.cpp:279-282 | clearing `v`'s PTE unmaps exactly `v`'s page |
| PageTables.Install | kernel/page_tables.cpp:194-230 | allocating a cleared table for an absent entry and linking it keeps the tables well formed and owned, keeps every present entry, and links the new table one level down |
| PageTables.InstallWalks | kernel/page_tables.cpp:194-230 | installing an empty table changes no translation |
| PageTables.LeafLinked | kernel/page_tables.cpp:236-242 | linking frame `f` at `v`'s absent PTE maps `v`'s page to `f` and changes no other translation |
| PageTables.UnmapPage | kernel/page_tables.cpp:250-307 | one iteration of `unmap_vrange` as a function of the tables: none unless all four levels are present, else the PTE cleared and the emptied PT, PD and PDPT released in that order; `UnmapPageWalks`, `UnmapPageRemoves`, `UnmapPageKeeps` and `UnmapPageOwned` prove what it does |
| PageTables.UnmapPageAlong | kernel/page_tables.cpp:262-304 | one iteration of `unmap_vrange` is: clear the PTE, then free the PT, the PD and the PDPT in turn when each has become empty |
| PageTables.UnmapPageWalks | kernel/page_tables.cpp:259-305 | one iteration succeeds exactly when `v` is mapped (the four ASSERTs); the result is well formed, a sub-map of the tables, and unmaps exactly `v`'s page |
| PageTables.UnmapPageRemoves | kernel/page_tables.cpp:290-304 | only the PT, PD and PDPT on `v`'s path can be released, never the root; the data frame was never a table |
| PageTables.UnmapPagePruned | kernel/page_tables.cpp:290-304 | if no empty table hung below the root before, none does after |
| PageTables.UnmapPageKeeps | kernel/page_tables.cpp:259-305 | the iteration remaps `v` to nothing, keeps the shape, releases at most the three path tables, and keeps the tables pruned |
| PageTables.UnmapPageOwned | kernel/page_tables.cpp:281-303 | after the iteration, the released tables (and the data frame, unless it is kept) are free and nothing else changes owner |
| PageTables.WalkBelow | kernel/page_tables.cpp:311-364 | every table on a translation's path and every mapped frame is among the frames below the root |
| PageTables.BelowOwned | kernel/page_tables.cpp:311-364 | the frames below a table are managed by the allocator and none is free, so freeing them all is legal |
| PageTables.PartDisjoint | kernel/page_tables.cpp:316-361 | the frames below one entry are disjoint from those below earlier entries: no frame is freed twice |
| PageTableWalker.MapsRunStep | kernel/page_tables.cpp:189-245 | one more iteration extends the run of mapped pages by its frame |
| PageTableWalker.MappedRunAt | kernel/page_tables.cpp:189-245 | after mapping a run, its `k`-th page translates to the `k`-th frame |
| PageTableWalker.MappedRun | kernel/page_tables.cpp:189-245 | after mapping a run, every page of it is mapped to its frame |
| PageTableWalker.MapThenUnmapRestores | kernel/page_tables.cpp:180-307 | mapping an unmapped range and then unmapping it restores every translation |
| PageTableWalker.MappedAll | kernel/page_tables.cpp:189-246 | a run as long as the range maps every page of it |
| PageTableWalker.UnmapStopped | kernel/page_tables.cpp:259-306 | an unmapping that stopped early leaves a page of the range unmapped |
| PageTableWalker.WalkOwned | kernel/page_tables.cpp:236-242 | every mapped frame is managed and taken |
| PageTableWalker.PageTableMemory.IsEmpty | kernel/page_tables.cpp:153-159 | `is_empty` is true exactly when no entry is present |
| PageTableWalker.PageTableMemory.Clear | kernel/page_tables.cpp:81-87 | `clear` replaces the table by a cleared one of the same level and changes nothing else |
| PageTableWalker.PageTableMemory.EnsureNext | kernel/page_tables.cpp:192-215 | a present entry is followed without change; an absent one gets a fresh cleared table one level down; translations and used frames are kept |
| PageTableWalker.PageTableMemory.NewTable | kernel/page_tables.cpp:194-201 | allocates a frame, clears it as a table one level down and links it at the absent entry (`false` when the free list is empty) |
| PageTableWalker.PageTableMemory.EnsurePt | kernel/page_tables.cpp:192-232 | on success the PT for `v` exists; translations and used frames are kept |
| PageTableWalker.PageTableMemory.LinkFrame | kernel/page_tables.cpp:236-242 | linking a frame at an absent PTE maps `v`'s page to it and nothing else; fails only when the frame does not fit the address field |
| PageTableWalker.PageTableMemory.MapPage | kernel/page_tables.cpp:189-245 | one iteration of `map_vrange`: on success `v` was unmapped and now maps a frame that was free; every other translation is kept |
| PageTableWalker.PageTableMemory.MapPageTo | kernel/page_tables.cpp:380-436 | one iteration of the `pages_to_map` overload: on success `v` was unmapped and now maps the given page |
| PageTableWalker.PageTableMemory.MapNextPage | kernel/page_tables.cpp:189-245 | keeps the loop's progress predicate, with the new frame appended on success |
| PageTableWalker.PageTableMemory.MapVRange | kernel/page_tables.cpp:180-247 | succeeds exactly when a frame was mapped for every page of the range; mapped pages were unmapped and got fresh frames; no other translation changes; a stop is a halting `ASSERT` |
| PageTableWalker.PageTableMemory.MapNextGiven | kernel/page_tables.cpp:380-436 | one iteration with the next given page keeps the progress predicate |
| PageTableWalker.PageTableMemory.MapVRangePages | kernel/page_tables.cpp:370-439 | succeeds exactly when every given page is mapped, in order, and the range is exactly that long (the final ASSERTs) |
| PageTableWalker.PageTableMemory.Release | kernel/page_tables.cpp:292-303 | `free_phys_page` of a taken frame adds exactly it to the free frames |
| PageTableWalker.PageTableMemory.PruneStep | kernel/page_tables.cpp:290-294 | an empty child is freed and its entry cleared; a non-empty one is kept; no other table changes |
| PageTableWalker.PageTableMemory.FindPath | kernel/page_tables.cpp:262-279 | a path exists exactly when `v` is mapped, and it is the chain of tables the walk follows |
| PageTableWalker.PageTableMemory.UnlinkPath | kernel/page_tables.cpp:281-304 | clears the PTE and prunes the three levels; the released tables (and the data frame unless kept) become free |
| PageTableWalker.PageTableMemory.UnmapPageAt | kernel/page_tables.cpp:259-305 | succeeds exactly when `v` is mapped (and, for the page-vector overload, to the expected page); then the tables become `UnmapPage` of the old ones |
| PageTableWalker.PageTableMemory.UnmapFound | kernel/page_tables.cpp:281-304 | unmapping a found path yields `UnmapPage` of the old tables and frees the released frames |
| PageTableWalker.PageTableMemory.UnmapNextPage | kernel/page_tables.cpp:259-305 | one iteration keeps the unmapping progress predicate |
| PageTableWalker.PageTableMemory.UnmapVRange | kernel/page_tables.cpp:250-307 | succeeds exactly when every page of the range was mapped; each is unmapped and its frame freed; a stop is the halting `ASSERT` at an unmapped page |
| PageTableWalker.PageTableMemory.UnmapVRangePages | kernel/page_tables.cpp:441-500 | succeeds exactly when every page maps the given page in order; the given pages are not freed |
| PageTableWalker.PageTableMemory.FreeBelow | kernel/page_tables.cpp:316-361 | frees exactly the frames below a table |
| PageTableWalker.PageTableMemory.FreeEntry | kernel/page_tables.cpp:318-360 | frees exactly the frames below one present entry |
| PageTableWalker.PageTableMemory.FreePageTables | kernel/page_tables.cpp:311-364 | frees every table and every mapped frame below the root, and the root itself |
| AllocList.Worst | kernel/vspace.cpp:37 | the worst-case size is `wanted + alignment - 1` taken modulo 2^64 (all ones when both are zero) |
| AllocList.FirstFit | kernel/vspace.cpp:38-40 | the index found is the first node whose length reaches the worst case; none means no node does |
| AllocList.AllocList.constructor | kernel/vspace.cpp:14-26 | the list holds the one node `span`; for a non-empty, non-wrapping span the list is well formed and free space is exactly the span |
| AllocList.AllocList.TakeRange | kernel/vspace.cpp:28-76 | succeeds exactly when the list is non-empty, size and alignment are page multiples and some node fits the worst case; the range taken starts at the first fitting node's address rounded up to the alignment and has the wanted size; free space loses exactly those addresses; failure (the halting `ASSERT`/`UNREACHABLE`) changes nothing |
| AllocList.AllocList.TakeFrom | kernel/vspace.cpp:41-68 | carving the range out of node `i` and returning the unused parts before and after removes exactly the taken addresses and keeps the list sorted and coalesced |
| AllocList.AllocList.ReturnRange | kernel/vspace.cpp:78-129 | free space grows by exactly the returned addresses, the list stays sorted and coalesced, and it gains at most one node |
| AllocList.AllocList.InsertAt | kernel/vspace.cpp:85-126 | linking a node at its sorted place and coalescing adds exactly its addresses |
| AllocList.AllocList.Coalesce | kernel/vspace.cpp:131-144 | merging a new node with its neighbours keeps free space and re-establishes that no two nodes touch |
| AllocList.AllocList.ImplCoalesce | kernel/vspace.cpp:146-161 | two nodes merge exactly when the first ends where the second starts; otherwise the list is unchanged; free space is kept |
| AllocList.AllocList.GetFreeSpace | kernel/vspace.cpp:215-222 | the sum of node lengths is the number of free addresses |
| AllocList.FitsInNode | kernel/vspace.cpp:41-42 | in a node of at least the worst-case length, the aligned start lies in the node, stays page aligned, and the wanted size fits before the node's end (the `ASSERT` of line 42 holds) |
| AllocList.StartsApart | kernel/vspace.cpp:113 | a returned range disjoint from free space never starts where a free node starts (the `ASSERT` of line 113 holds) |
| AllocList.FirstFitIs | kernel/vspace.cpp:38-40 | the first node long enough is the one the search returns |
| AllocList.FreeEmpty | kernel/vspace.cpp:85-90 | a list of non-empty nodes has no free address exactly when it has no node |
| AllocList.Canonical | kernel/vspace.cpp:78-161 | two sorted, coalesced lists with the same free addresses are the same list: the list is determined by free space alone |
| AllocList.TakeReturn | kernel/vspace.cpp:28-129 | taking a range and returning it restores exactly the list there was before |
| AllocList.SpanCard | kernel/range.h:22-26 | a range of length `n` covers `n` addresses |
| AllocList.FreeBound | kernel/vspace.cpp:215-222 | the free addresses of a page-aligned list are fewer than 2^64, so the `u64` sum cannot wrap |
| Vectors.UnstableRemoved | kernel/vector.h:63-70 | the result is one shorter, keeps every other slot, and holds the old last element at the removed index |
| Vectors.UnstableRemovedMultiset | kernel/vector.h:63-70 | `unstable_remove` keeps the elements as a multiset, less exactly the removed one |
| Vectors.FirstIndex | kernel/vspace.cpp:382-388 | the linear search finds the first position of the element, and finds none exactly when it is absent |
| Vectors.GrownCapacity | kernel/vector.h:38-39 | below 2^31 the grown capacity is twice the old one, at least 64 |
| Vectors.Vector.Empty | kernel/vector.h:13 | the default vector is empty with capacity 0 |
| Vectors.Vector.constructor | kernel/vector.h:15-22 | an empty vector with the requested capacity |
| Vectors.Vector.ExpandCapacity | kernel/vector.h:44-61 | contents and length are kept; capacity becomes the larger of old and requested; the buffer is replaced by a fresh one exactly when capacity grows |
| Vectors.Vector.Append | kernel/vector.h:36-42 | the element is added at the end; the buffer grows to `GrownCapacity` exactly when it was full; failure (32-bit length or capacity overflow) changes nothing |
| Vectors.Vector.UnstableRemove | kernel/vector.h:63-70 | the contents become `UnstableRemoved` of the old contents at that index; capacity and buffer are kept |
| Vectors.Vector.Get | kernel/vector.h:72-84 | returns the element at the index |
| VirtualSpaces.WorstCaseSize | kernel/vspace.cpp:260-265 | without wrap-around the result is a page multiple between `size + alignment - 1` and one page more |
| VirtualSpaces.SmallAlignmentRequest | kernel/vspace.cpp:278-285 | for a power-of-two alignment up to a page, the request is page aligned with no in-page alignment and asks for the buffer rounded up to pages plus one header page |
| VirtualSpaces.SmallAlignmentLayout | kernel/vspace.cpp:288-312 | for such a request every `ASSERT` of `alloc_vbuffer` holds; the header is the first page and the buffer the rest |
| VirtualSpaces.LargeAlignmentHalts | kernel/vspace.cpp:269-271 | with alignment 8192 the checks of lines 298-312 fail for a range `take_range` may return, so `alloc_vbuffer` halts |
| VirtualSpaces.AllocVRangesFromPtr | kernel/vspace.cpp:436-449 | the header is read from the page below the page of the address; there is a result exactly when a header was recorded there |
| VirtualSpaces.HeaderFromPtr | kernel/vspace.cpp:439-444 | any pointer into the first page after a header page leads back to that header page |
| VirtualSpaces.ShareKernelspace | kernel/vspace.cpp:460-476 | PML4 entry 0 becomes present and writable and points at the kernel's PDPT |
| VirtualSpaces.UnshareKernelspace | kernel/vspace.cpp:478-491 | succeeds exactly when entry 0 is present and points at the kernel's PDPT, and then clears it |
| VirtualSpaces.ShareThenUnshare | kernel/vspace.cpp:460-491 | unsharing right after sharing succeeds and leaves a cleared entry |
| VirtualSpaces.KernelspaceFitsOnePdpt | kernel/vspace.cpp:462-467 | the `ASSERT`s hold: the kernel span is GiB aligned and needs fewer than 512 page directories |
| VirtualSpaces.SmallVBufferFits | kernel/vspace.cpp:278-286 | for a small alignment the layout checks pass exactly when `take_range` finds a node for the header page plus the page-rounded size |
| VirtualSpaces.MapHeaderAndPages | kernel/vspace.cpp:359-360 | the header page gets a fresh frame and the buffer maps the given pages in order |
| VirtualSpaces.UnmapHeaderAndPages | kernel/vspace.cpp:428-429 | succeeds exactly when the header is mapped and the buffer maps the given pages; the header frame and emptied tables are freed, the given pages are not |
| VirtualSpaces.PageCount | kernel/vspace.cpp:509-510 | the page count covers the worst-case size exactly |
| VirtualSpaces.VSpace.constructor | kernel/vspace.cpp:229-236 | a space with no allocation whose free ranges are exactly the span |
| VirtualSpaces.VSpace.AllocVBuffer | kernel/vspace.cpp:267-315 | succeeds exactly when the request fits the free ranges and the layout checks hold; the result carves the range `take_range` picks into a header page and the buffer; that range leaves free space |
| VirtualSpaces.VSpace.AllocateSize | kernel/vspace.cpp:328-345 | on success the buffer address is aligned and lies after the header page, the whole range is mapped to fresh frames, the header records the buffer and the returned address leads back to it |
| VirtualSpaces.VSpace.MapAndRecord | kernel/vspace.cpp:338-342 | on success the whole allocation range is mapped page by page to frames taken from the free list, and the new header records the buffer range; the free ranges are unchanged |
| VirtualSpaces.VSpace.FreeSize | kernel/vspace.cpp:395-414 | for a pointer whose header is recorded and whose range is mapped, the range is unmapped, its frames freed and its addresses free again; the header is forgotten |
| VirtualSpaces.VSpace.ReturnAllocation | kernel/vspace.cpp:403-413 | the free space grows by exactly the allocation's whole range (header page plus buffer) and its header is forgotten |
| VirtualSpaces.VSpace.AllocatePages | kernel/vspace.cpp:348-367 | on success the header page maps a fresh frame and the buffer maps exactly the given pages in order; the allocation is recorded and leaves free space |
| VirtualSpaces.VSpace.MapPagesAndRecord | kernel/vspace.cpp:359-364 | on success the header page maps a frame taken from the free list, the buffer maps exactly the given pages in order, and the header records the buffer range |
| VirtualSpaces.VSpace.PagesByteSize | kernel/vspace.cpp:351 | `pages.length * 4096` is computed in 32 bits, so it wraps for a million pages or more |
| VirtualSpaces.VSpace.PagesByteSizeWraps | kernel/vspace.cpp:351 | 2^20 pages give size 0 (which `alloc_vbuffer` refuses) and 2^20 + 1 pages give one page |
| VirtualSpaces.VSpace.PagesByteSizeIs32Bit | kernel/vspace.cpp:351 | the byte size is the page count times 4096 reduced modulo 2^32 |
| VirtualSpaces.VSpace.FreePages | kernel/vspace.cpp:416-434 | succeeds exactly when the allocation at the address maps the given pages; it is then unmapped, the header frame freed, the given pages kept, the range free again |
| VirtualSpaces.VSpace.AllocatePagesThenFree | kernel/vspace.cpp:348-434 | mapping pages and freeing them restores the free ranges, the headers and every translation, and keeps the pages allocated |
| VirtualSpaces.VSpace.FindVobj | kernel/vspace.cpp:379-389 | the search finds the first position of the object exactly when it is mapped |
| VirtualSpaces.VSpace.AllocateVobj | kernel/vspace.cpp:369-375 | on success the object is appended to the mapped objects and its pages are mapped at the returned address |
| VirtualSpaces.VSpace.AllocatePagesAt | kernel/vspace.cpp:372 | `allocate_pages` as `allocate_vobj` calls it: exactly one new header, in the slot below the returned address, over a buffer that maps the object's pages |
| VirtualSpaces.VSpace.FreeVobj | kernel/vspace.cpp:376-393 | succeeds exactly when the object is mapped here and its pages are at the address; it is then unmapped and removed with `unstable_remove` at its first position |
| VirtualSpaces.VSpace.GetFreeSpace | kernel/vspace.cpp:452-455 | the number of free addresses |
| VirtualSpaces.VSpace.AllocateThenFree | kernel/kernel.cpp:697-722 | allocating and freeing restores the free ranges, the headers and every translation (the disabled `kmalloc` test's `get_free_space` check) |
| VirtualSpaces.VObject.Empty | kernel/vspace.cpp:518 | no pages, alignment 0, mapped nowhere |
| VirtualSpaces.VObject.Create | kernel/vspace.cpp:520-532 | succeeds exactly when enough frames are free; it then takes exactly `PageCount` distinct frames from the allocator |
| VirtualSpaces.VObject.FindMapping | kernel/vspace.cpp:554-564 | the search finds the first mapping into the space exactly when there is one |
| VirtualSpaces.VObject.Map | kernel/vspace.cpp:544-550 | on success the mapping is recorded in the object and the object in the space, and its pages are mapped at the address |
| VirtualSpaces.VObject.Unmap | kernel/vspace.cpp:552-568 | succeeds exactly when the object is mapped into the space at the recorded address; both records are removed with `unstable_remove` and the pages are unmapped |
| VirtualSpaces.VObject.Destroy | kernel/vspace.cpp:534-542 | succeeds exactly when the object is mapped nowhere and owns its pages; every page is then freed |
| VirtualSpaces.CreateThenDestroy | kernel/vspace.cpp:520-542 | creating and destroying an object restores the free frames |
| CStrings.Signed | include/stdlib_workaround.cpp:38-40 | a byte read as a signed `char` lies in -128..127 and agrees with the byte modulo 256 |
| CStrings.CString | include/stdlib_workaround.cpp:56-61 | the string is the part of the buffer before its first NUL |
| CStrings.Strlen | include/stdlib_workaround.cpp:56-61 | the length is the index of the first NUL |
| CStrings.Memmove | include/stdlib_workaround.cpp:3-23 | the destination window receives the old source bytes, even when the two overlap, and nothing outside the window changes |
| CStrings.CopyLeftToRight | include/stdlib_workaround.cpp:12-16 | copying upwards from a higher source delivers the old source bytes |
| CStrings.CopyRightToLeft | include/stdlib_workaround.cpp:18-22 | copying downwards to a higher destination delivers the old source bytes |
| CStrings.Memset | include/stdlib_workaround.cpp:25-30 | every byte of the window becomes `val` truncated to 8 bits, and nothing else changes |
| CStrings.Stop | include/stdlib_workaround.cpp:37-46 | the comparison stops at the first position where a string ends or the bytes differ, or after `len` bytes |
| CStrings.StrNCmpResult | include/stdlib_workaround.cpp:32-54 | the result is -1, 0 or 1 |
| CStrings.StrNCmp | include/stdlib_workaround.cpp:32-54 | the loop computes `StrNCmpResult` |
| CStrings.StrNCmpEqual | include/stdlib_workaround.cpp:34-49 | equal NUL-free prefixes of length `len` compare equal |
| CStrings.StrNCmpEqualShorter | include/stdlib_workaround.cpp:48-51 | equal strings shorter than `len` compare as -1, since both stop at NUL before `len` runs out |
| CStrings.StrNCmpOrders | include/stdlib_workaround.cpp:38-41 | at the first differing byte the order is that of the signed `char`s |
| CStrings.Strchr | include/stdlib_workaround.cpp:63-68 | the result is the first position holding `c`, or the NUL when there is none |
| CircularBuffers.Pushed | kernel/circular_buffer.h:7-13 | pushing keeps the newest `size - 1` elements of the contents followed by the new one |
| CircularBuffers.NewestAppend | kernel/circular_buffer.h:7-13 | dropping old elements before or after a push gives the same contents |
| CircularBuffers.PrevIndex | kernel/circular_buffer.h:63 | the slot before `end`, wrapping to `size - 1` at 0 |
| CircularBuffers.PrevIndexAgrees | kernel/circular_buffer.h:63 | the 32-bit `(end_i - 1) % Size` is the slot before `end` exactly when `end_i > 0` or `Size` divides 2^32 |
| CircularBuffers.UnrolledCount | kernel/circular_buffer.h:87-94 | the 32-bit unrolled count is the number of slots from start to end, also when the index wraps |
| CircularBuffers.IndexSlot | kernel/circular_buffer.h:108-113 | `operator[]`'s index is slot `start + i` of the ring |
| CircularBuffers.WindowPush | kernel/circular_buffer.h:7-13 | writing at the end slot appends to the window; when the ring is full the window also drops its oldest element |
| CircularBuffers.CircularBuffer.constructor | kernel/circular_buffer.h:117-120 | a buffer of `Size` slots with no contents |
| CircularBuffers.CircularBuffer.IsEmpty | kernel/circular_buffer.h:96-99 | `start_i == end_i` exactly when there are no contents |
| CircularBuffers.CircularBuffer.Count | kernel/circular_buffer.h:87-94 | the count is the number of elements held |
| CircularBuffers.CircularBuffer.EmptySlots | kernel/circular_buffer.h:101-106 | empty slots and elements add up to `Size` |
| CircularBuffers.CircularBuffer.PushEnd | kernel/circular_buffer.h:7-13 | the contents become `Pushed` of the old contents: the oldest element is dropped once `Size - 1` are held |
| CircularBuffers.CircularBuffer.PopStart | kernel/circular_buffer.h:50-57 | nothing on an empty buffer; otherwise it returns and removes the oldest element |
| CircularBuffers.CircularBuffer.PopEnd | kernel/circular_buffer.h:59-67 | nothing on an empty buffer; otherwise it returns and removes the newest element |
| CircularBuffers.CircularBuffer.PopEndAsWritten | kernel/circular_buffer.h:59-67 | returns the slot at `(end_i - 1) % Size` computed in 32 bits and moves `end_i` there |
| CircularBuffers.CircularBuffer.PeekStart | kernel/circular_buffer.h:69-76 | the oldest element, if any |
| CircularBuffers.CircularBuffer.PeekEnd | kernel/circular_buffer.h:77-85 | the newest element, if any |
| CircularBuffers.CircularBuffer.PeekEndAsWritten | kernel/circular_buffer.h:77-85 | reads slot `(end_i - 1) % Size` computed in 32 bits, which is the newest element when `end_i > 0` or `Size` divides 2^32 |
| CircularBuffers.CircularBuffer.Get | kernel/circular_buffer.h:108-113 | within the count, element `i` of the contents |
| CircularBuffers.PopEndWrapFinding | kernel/circular_buffer.h:63 | with `Size` 10000 and `end_i` 0, the 32-bit index is 7295, not 9999, and the count after the pop is 7294, not 9998 |
| Stacks.StackTop | kernel/stack.h:11-15 | the top is aligned, at or below the last byte of the stack and, for an aligned bottom, at or above the bottom |
| Stacks.Stack.constructor | kernel/stack.h:8-9 | bottom and top start at 0 |
| Stacks.Stack.SetStackTop | kernel/stack.h:11-15 | the top becomes `StackTop` of the bottom, size and alignment |
| Stacks.Stack.IsPtrInStack | kernel/stack.h:17-20 | `is_ptr_in_stack`: `bottom <= ptr <= top`, inclusive at both ends; `InStackWithin` bounds such pointers by the stack's size |
| Stacks.InStackWithin | kernel/stack.h:17-20 | after `set_stack_top`, a pointer in the stack lies within `size` bytes of the bottom, and the bottom itself is in the stack |
| Ttys.Cell | kernel/tty.cpp:125 | a signed `char` widened into a `u16` cell keeps its low byte, and the high byte is zero exactly for bytes below 0x80 |
| Ttys.WriteCount | kernel/tty.cpp:124 | the loop stops at `len` or at the first NUL, whichever comes first |
| Ttys.ScrolledUp | kernel/tty.cpp:148-154 | scrolling up adds the amount capped at five screens of rows (modulo 2^32) |
| Ttys.ScrolledDown | kernel/tty.cpp:156-160 | scrolling down subtracts the amount but never goes below 0 |
| Ttys.ScrollUpThenDown | kernel/tty.cpp:148-160 | scrolling up and then down by the same capped amount restores the position |
| Ttys.Tty.constructor | kernel/tty.h:8-14 | an empty scrollback, scroll position 0, cursor 0 and a zeroed command line |
| Ttys.Tty.WriteStr | kernel/tty.cpp:120-127 | the scrollback becomes the newest `SCROLLBACK_BUFFER_SIZE - 1` cells of the old scrollback followed by the written bytes |
| Ttys.Tty.SetCmdline | kernel/tty.cpp:129-134 | the command line receives the string, cut at `CMD_LEN`, and is padded with spaces |
| Ttys.Tty.FlushCmdline | kernel/tty.cpp:136-141 | the whole command line and a newline are appended to the scrollback |
| Ttys.Tty.SetCursor | kernel/tty.cpp:143-146 | the cursor becomes the index capped at `CMD_LEN` |
| Ttys.Tty.ScrollUp | kernel/tty.cpp:148-154 | the scroll position becomes `ScrolledUp` of the old one |
| Ttys.Tty.ScrollDown | kernel/tty.cpp:156-160 | the scroll position becomes `ScrolledDown` of the old one |
| Strings.DigitChar | include/string.h:22-23 | a digit value below 10 becomes the ASCII digit whose value it is |
| Strings.ShiftIsDiv | include/string.h:19-25 | dividing by 10 `k` times is dividing by `10^k` |
| Strings.ShiftZero | include/string.h:20 | the loop's `num` reaches 0 after `k` steps exactly when the number has at most `k` digits |
| Strings.DigitsBound | include/string.h:20 | a number has at most `k` digits exactly when it is below `10^k` |
| Strings.LowDigitsValue | include/string.h:19-25 | the `k` low digits written read back as the number modulo `10^k` |
| Strings.UintToStrRoundTrip | include/string.h:7-28 | the decimal digits of a number read back as the number |
| Strings.UintToStrStart | include/string.h:7-28 | for a positive length the returned position lies in the buffer; for length ≤ 0 it is the buffer start |
| Strings.UintToStrDigits | include/string.h:19-25 | the text written is all digits, from the returned position to `len` |
| Strings.UintToStrReadsBack | include/string.h:7-28 | the digits written read back as the number modulo the room, and as the number itself when it fits |
| Strings.UintToStr | include/string.h:7-28 | length ≤ 0 writes nothing; otherwise exactly the digits of the number are written just before `len` and nothing else changes |
| Strings.UintToStrAltStart | include/string.cpp:3-20 | for a positive length the returned position lies between 0 and `len` |
| Strings.UintToStrAlt | include/string.cpp:3-20 | like `UintToStr` for a positive number; for 0 it writes `'0'` at `len - 1` but returns `len`, past the digit |
| Strings.UintToStrZeroFinding | include/string.cpp:10-19 | the two versions agree on positive numbers; for 0 the older one returns `len`, an empty string, where the other returns `"0"` |
| Strings.WriteDigits | include/string.h:19-25 | the loop writes the low digits of the number right to left, stopping when the number or the room runs out |
| Strings.StrIsNum | include/string.h:31-39 | true exactly when every byte before the NUL is a decimal digit |
| Strings.StrToUint | include/string.h:43-58 | the value of the string's digits with the usual weights `10^k` |
| Strings.StrToUintAsWritten | include/string.h:43-58 | the digit sum weighted `1, 2, 3, …` from the right, as the loop does with `pow10++` |
| Strings.StrToUintWeightsFinding | include/string.h:55 | the two agree on strings of at most one digit, but `"12"` reads as 4 instead of 12 |
| Strings.StrToUintReadsUintToStr | include/string.h:7-58 | the digits `uint_to_str` writes, NUL-terminated, read back as the number |
| Strings.Concatenated | include/string.h:60-71 | the result fits `buf_len` and is the concatenation of both strings whenever that fits |
| Strings.Concat | include/string.h:60-71 | the destination holds `Concatenated` followed by a NUL, and nothing after it changes |
| Strings.Contains | include/string.h:73-81 | true exactly when the byte occurs before the NUL |
| Strings.PwdPrefix | include/string.h:98-104 | the working directory with a `/` appended unless it already ends in one |
| Strings.ResolvedPath | include/string.h:84-110 | an absolute path stays as it is; a relative one ends with the path and starts with the working directory's prefix |
| Strings.ResolvedAbsolute | include/string.h:84-110 | for an absolute working directory the resolved path is absolute |
| Strings.ResolveIdempotent | include/string.h:84-110 | resolving an already resolved path, against any working directory, gives it back |
| Strings.ResolveOutcomeMeans | include/string.h:84-110 | when the resolved path and its NUL fit `buf_len`, the buffer holds exactly the resolved path |
| Strings.ResolvePath | include/string.h:84-110 | the buffer is left alone when a length check of lines 88 or 99 fails; otherwise it holds the resolved path, or only the working directory's prefix when the whole does not fit |
| Strings.AbsPathLen | include/string.h:112-123 | the length of the resolved path |
| Scheduling.Without | kernel/scheduler.cpp:27-37 | unlinking an absent process changes nothing; unlinking a present one drops exactly one occurrence |
| Scheduling.WithoutMultiset | kernel/scheduler.cpp:27-37 | unlinking removes exactly one copy of the process from the multiset and adds nothing |
| Scheduling.WithoutDistinct | kernel/scheduler.cpp:27-37 | in a list without repeats, unlinking removes the process and keeps every other one, still without repeats |
| Scheduling.ReversedIndex | kernel/scheduler.cpp:695-702 | reversing maps position `i` to `n - 1 - i` (children are pushed at the front, so reparenting reverses their order) |
| Scheduling.PwdFor | kernel/scheduler.cpp:580-597 | the stored pwd is the source path with one `/` appended unless it ends in one; it starts and ends with `/` |
| Scheduling.PwdForIdempotent | kernel/scheduler.cpp:580-597 | setting a stored pwd again stores it unchanged |
| Scheduling.ResumeTarget | kernel/scheduler.cpp:542-578 | a terminated process is unreachable; otherwise kernel processes get the kernel path, and not-yet-started ones a start rather than a resume |
| Scheduling.TicksCountDown | kernel/scheduler.cpp:846-854 | `n` ticks from at least `n` left leave `t - n` |
| Scheduling.SliceLength | kernel/scheduler.cpp:20 | a fresh slice of 25 ticks runs out exactly at the 25th tick |
| Scheduling.TickWrapsAtZero | kernel/scheduler.cpp:850 | a tick at 0 left wraps the `u64` counter to 2^64 - 1 |
| Scheduling.StrAddrs | kernel/scheduler.cpp:155-168 | each copied string starts where the previous one and its NUL end |
| Scheduling.StrAddrsAdjacent | kernel/scheduler.cpp:155-169 | the strings are packed without gaps, and the last ends at the end of the argument area (the `ASSERT` of line 169) |
| Scheduling.ArgvBufSize | kernel/scheduler.cpp:141-146 | the buffer size is the lengths of the name and the arguments, each with its NUL |
| Scheduling.CopyArgvLayout | kernel/scheduler.cpp:134-171 | argc counts the name; the area holds `argc + 1` pointer slots then the strings, ends at the stack top, and the slots point at the packed strings and end with 0 |
| Scheduling.FirstKill | kernel/scheduler.cpp:671-685 | the first child that cannot be orphaned; every child before it can |
| Scheduling.OrphanablePartition | kernel/scheduler.cpp:671-685 | the orphanable and the other children together are exactly the children |
| Scheduling.OrphanableMembers | kernel/scheduler.cpp:676-679 | a process is among the orphanable children exactly when it is a child that can be orphaned |
| Scheduling.NotOrphanableMembers | kernel/scheduler.cpp:680-682 | a process is among the others exactly when it is a child that cannot be orphaned |
| Scheduling.ReparentAgrees | kernel/scheduler.cpp:671-685 | stopping at the first kill reparents all orphanable children exactly when no orphanable child comes after it |
| Scheduling.ReparentIncomplete | kernel/scheduler.cpp:681 | with an orphanable child after a non-orphanable one, more children are orphanable than the loop reaches |
| Scheduling.Process.constructor | kernel/scheduler.cpp:66-93 | a fresh process with the given pid and pwd that has not started, waits for nobody, and has no children or allocations |
| Scheduling.Process.IsBlocked | kernel/scheduler.cpp:733-736 | `is_blocked`: the blocker list is non-empty; `AddBlockerProcess` ensures it holds after a blocker is added |
| Scheduling.Process.AddBlockerProcess | kernel/scheduler.cpp:738-744 | the pid is appended to the blockers, so the process is blocked |
| Scheduling.Process.UnblockProcess | kernel/scheduler.cpp:713-731 | the first occurrence of the pid is removed with `unstable_remove`; nothing changes when it is absent |
| Scheduling.Process.SetPwd | kernel/scheduler.cpp:580-597 | succeeds exactly for an absolute path, storing `PwdFor` of it; otherwise the pwd is kept |
| Scheduling.Process.AddChild | kernel/scheduler.cpp:695-702 | the child's parent becomes this process and the child is pushed at the front of the children |
| Scheduling.Process.RemoveChild | kernel/scheduler.cpp:704-711 | succeeds exactly when the child's parent is this process and there are children; the child is then unlinked |
| Scheduling.Process.FreeVobjsAsWritten | kernel/scheduler.cpp:622-628 | the loop frees the allocations only when there is exactly one |
| Scheduling.Process.FreeVobjs | kernel/scheduler.cpp:622-628 | every allocation is freed |
| Scheduling.Process.AdoptUntilKill | kernel/scheduler.cpp:671-685 | children up to the first non-orphanable one move to init, in reverse order at the front; the rest keep their parent |
| Scheduling.Process.AdoptOrphanable | kernel/scheduler.cpp:671-685 | every orphanable child moves to init, in reverse order at the front |
| Scheduling.Process.Exit | kernel/scheduler.cpp:612-688 | it halts exactly when the parent's child list is empty (`remove_child`'s ASSERT); otherwise the parent stops waiting for the process and drops it; children up to the first non-orphanable one move to init; `kill_process` of that child never returns, so the state becomes `TERMINATED` only when there is none |
| Scheduling.Process.ExitIntended | kernel/scheduler.cpp:612-688 | it fails exactly when the parent's child list is empty; otherwise every allocation freed, every orphanable child moved to init, the others returned in order for killing, and the process terminated |
| Scheduling.Chosen | kernel/scheduler.cpp:813-816 | the first unblocked process before the tail, or the tail |
| Scheduling.ChosenIs | kernel/scheduler.cpp:813-816 | the choice is `i` exactly when every earlier process is blocked and, unless `i` is the tail, `i` is not |
| Scheduling.ChosenRunnable | kernel/scheduler.cpp:813-816 | the chosen process is unblocked exactly when some process in the queue is |
| Scheduling.AllBlockedRunsTail | kernel/scheduler.cpp:813-819 | when every queued process is blocked, the tail is chosen although it is blocked |
| Scheduling.Scheduler.constructor | kernel/scheduler.cpp:10-24 | an empty queue, nothing running, ticks blocked and no pid handed out |
| Scheduling.Scheduler.AddToQueue | kernel/scheduler.cpp:746-767 | the process moves to the tail; tick blocking stays on after the first process joins an empty queue |
| Scheduling.Scheduler.RemoveFromQueue | kernel/scheduler.cpp:769-789 | the process leaves the queue, and stops being current if it was |
| Scheduling.Scheduler.TakeFromStart | kernel/scheduler.cpp:791-801 | the head is returned and removed; an empty queue returns null (the source halts) |
| Scheduling.Scheduler.NextProcessToRun | kernel/scheduler.cpp:803-824 | the `Chosen` process is returned and removed from the queue |
| Scheduling.Scheduler.Schedule | kernel/scheduler.cpp:826-844 | the running process rejoins the queue; the chosen one becomes current with a fresh slice and is resumed by `ResumeTarget` |
| Scheduling.Scheduler.Start | kernel/scheduler.cpp:839-841 | the process becomes current with a fresh slice; ticks count again unless it is terminated |
| Scheduling.Scheduler.Tick | kernel/scheduler.cpp:846-854 | while ticks are blocked nothing changes; otherwise the current slice loses one tick and a switch is due exactly at 0 |
| Scheduling.Scheduler.CreateProcess | kernel/cpu.cpp:495-509 | the new process gets the next pid, the creator's pwd and the orphan flag, joins the queue's tail, becomes the creator's first child, and blocks the creator when the flag asks |
| CpuStructs.Tss.constructor | kernel/cpu.h:105-147 | every stack slot of a new TSS is zero |
| CpuStructs.Tss.Cpl0Stack | kernel/cpu.h:155-158 | `get_cpl0_stack`: the two 32-bit halves joined; `SetCpl0Stack` proves it returns what was set |
| CpuStructs.Tss.Ist1Stack | kernel/cpu.h:166-169 | `get_ist1_stack`: the two 32-bit halves joined; `SetIst1Stack` proves it returns what was set |
| CpuStructs.Tss.SetCpl0Stack | kernel/cpu.h:148-152 | the address is split into its low and high 32 bits; `get_cpl0_stack` then returns exactly the address, and the IST1 slot is unchanged |
| CpuStructs.Tss.SetIst1Stack | kernel/cpu.h:159-163 | the address is split into its low and high 32 bits; `get_ist1_stack` then returns exactly the address, and the ring-0 slot is unchanged |
| CpuStructs.BaseAddrOf | kernel/cpu.h:51-56 | the base is `base1 + base2·2^16 + base3·2^24`, read without sign extension |
| CpuStructs.IntShiftLeft24 | kernel/cpu.h:55 | `base_addr3 << 24` is computed in a 32-bit signed `int`, so its value lies in the `int` range |
| CpuStructs.SignExtendedShift | kernel/cpu.h:55 | converting that `int` to `u64` sets the upper 32 bits exactly when bit 7 of `base_addr3` is set |
| CpuStructs.BaseAddrAsWrittenOf | kernel/cpu.h:51-56 | `get_base_addr` as written equals the intended base when `base_addr3 < 0x80` and the base plus `0xFFFF_FFFF_0000_0000` otherwise |
| CpuStructs.LimitOf | kernel/cpu.h:65-70 | the limit is `limit1 + limit2·2^16` |
| CpuStructs.BaseAddrRoundTrip | kernel/cpu.h:51-63 | reading back the fields `set_base_addr` stores gives the address modulo 2^32 |
| CpuStructs.BaseFieldsRoundTrip | kernel/cpu.h:51-63 | splitting a base that was assembled from three fields gives back those fields |
| CpuStructs.BaseAddrAsWrittenRoundTrip | kernel/cpu.h:51-63 | the as-written getter returns what was set (mod 2^32) exactly when bit 31 of the address is clear |
| CpuStructs.BaseAddrBit31Finding | kernel/cpu.h:51-63 | for every address with bit 31 set, the as-written getter returns the stored base sign-extended into the upper half |
| CpuStructs.LimitRoundTrip | kernel/cpu.h:65-75 | reading back the fields `set_limit` stores gives the limit modulo 2^20 |
| CpuStructs.LimitFieldsRoundTrip | kernel/cpu.h:65-75 | splitting a limit assembled from its two fields gives back those fields |
| CpuStructs.SegmentDescriptor.constructor | kernel/cpu.h:9-33 | every bit-field of a cleared descriptor is zero |
| CpuStructs.SegmentDescriptor.BaseAddr | kernel/cpu.h:51-58 | `get_base_addr` with the shift done unsigned, `BaseAddrOf` of the three fields; `SetBaseAddr` proves it returns the address mod 2^32 |
| CpuStructs.SegmentDescriptor.BaseAddrAsWritten | kernel/cpu.h:51-58 | `get_base_addr` as written, `BaseAddrAsWrittenOf` of the fields; `BaseAddrBit31Finding` shows it sign-extends bit 31 |
| CpuStructs.SegmentDescriptor.Limit | kernel/cpu.h:65-68 | `get_limit`: `limit1 + limit2 * 2^16`; `SetLimit` proves it returns the limit mod 2^20 |
| CpuStructs.SegmentDescriptor.SetBaseAddr | kernel/cpu.h:58-63 | the three base fields hold the split address, the intended getter returns it mod 2^32, and every other field is unchanged |
| CpuStructs.SegmentDescriptor.SetLimit | kernel/cpu.h:71-75 | the two limit fields hold the split limit, the getter returns it mod 2^20, and every other field is unchanged |
| CpuStructs.GateOffset | kernel/cpu.h:177-193 | the handler address of a gate is `offset1 + offset2·2^16 + offset3·2^32` |
| CpuStructs.MakeInterruptGate | kernel/cpu.h:214-233 | a gate is built exactly when `ist < 8` and the type is an interrupt or trap gate (the two ASSERTs); it is present, carries the given selector, IST, type and 2-bit DPL, has zero reserved fields, and its offset reads back as the handler address |
| CpuStructs.MakeRFlags | kernel/cpu.h:269-273 | `RFlags(val)` accepts exactly the values with bit 1 set (the ASSERT) and stores them unchanged |
| CpuStructs.AndTwo | kernel/cpu.h:272 | `val & 2` is twice bit 1 of `val` |
| CpuStructs.DefaultRFlagsValid | kernel/cpu.h:269-272 | the default `RFlags()` value 2 passes the constructor's check |
| CpuStructs.LayoutSizes | kernel/cpu.h:171 | the packed field widths sum to the sizes the three `static_assert`s demand: 0x68 for the TSS, 16 for a gate, 136 for the register state |
| Paths.SkipSlashes | kernel/cpu.cpp:553 | the skip stops at the first byte that is not '/' (or the end), and every byte skipped is '/' |
| Paths.PartEnd | kernel/cpu.cpp:554-555 | the part ends at the first '/' (or the end), and no byte of the part is '/' |
| Paths.JoinedAppend | kernel/cpu.cpp:585-592 | writing two lists of parts one after the other writes their concatenation |
| Paths.JoinedSnoc | kernel/cpu.cpp:588-591 | writing one more part appends the part and a '/' |
| Paths.ComponentsWellFormed | kernel/cpu.cpp:551-557 | every part the scan finds is non-empty and holds neither '/' nor NUL |
| Paths.ComponentsSize | kernel/cpu.cpp:551-557 | the parts, each followed by one '/', take no more room than the rest of the path (plus one when it does not start at a '/') |
| Paths.KeptWellFormed | kernel/cpu.cpp:559-573 | the parts left after the scan are well formed and none is "." or ".." |
| Paths.KeptIdentity | kernel/cpu.cpp:559-573 | without a "." or ".." part the scan keeps every part in order |
| Paths.KeptShrinks | kernel/cpu.cpp:559-573 | the kept parts take no more room than all parts, and at least two bytes less when some part is "." or ".." |
| Paths.MaxNormalizedPathLen | kernel/cpu.cpp:531-534 | `max_normalized_path_len`: the string's length plus one; `NormalizedFits` proves the normalised path fits a buffer of that size |
| Paths.NormalizedFits | kernel/cpu.cpp:583-593 | what `normalize_path` writes is no longer than the path, so `ASSERT(i <= path_len)` holds and it fits the buffer `max_normalized_path_len` sizes |
| Paths.SkipSlashRun | kernel/cpu.cpp:553 | the scanning loop stops where `SkipSlashes` says |
| Paths.SkipSlashRunOnce | kernel/cpu.cpp:610-616 | the loop of `should_normalize` reports a repeated '/' only when the path has one, and otherwise stops where `SkipSlashes` says |
| Paths.FindPartEnd | kernel/cpu.cpp:554-555 | the scanning loop stops where `PartEnd` says |
| Paths.DotKind | kernel/cpu.cpp:559-565 | the two `strncmp` tests recognise exactly the parts ".." and "." |
| Paths.ShouldNormalize | kernel/cpu.cpp:606-633 | `should_normalize` is true exactly when the path repeats a '/' or has a "." or ".." part |
| Paths.ScanParts | kernel/cpu.cpp:551-573 | the scan records the kept parts as (start, end) pairs into the path, and flags exactly the paths with a "." or ".." part |
| Paths.JoinedEndsInSlash | kernel/cpu.cpp:591 | a non-empty list of parts is written ending in '/' |
| Paths.JoinedNoNul | kernel/cpu.cpp:585-592 | the written parts hold no NUL |
| Paths.AppendPart | kernel/cpu.cpp:586-591 | one iteration of the copy loop appends the part and a '/' to what was written |
| Paths.WriteParts | kernel/cpu.cpp:579-592 | the copy loop writes '/' followed by every kept part and a '/' after each |
| Paths.NormalizePath | kernel/cpu.cpp:536-604 | `normalize_path` returns true exactly when some part is "." or ".."; then it writes the normalised path, otherwise it writes nothing |
| Paths.FinishPath | kernel/cpu.cpp:594-600 | the trailing '/' is replaced by NUL, and restored with a NUL after it when `fs_stat` finds a directory |
| Paths.SkipShift | kernel/cpu.cpp:553 | skipping slashes is unaffected by a prefix in front of the path |
| Paths.PartEndShift | kernel/cpu.cpp:554-555 | finding a part's end is unaffected by a prefix in front of the path |
| Paths.ComponentsShift | kernel/cpu.cpp:551-557 | the parts found from an index are unaffected by a prefix in front of the path |
| Paths.SkipAppend | kernel/cpu.cpp:553 | bytes appended after the path change the skip only when it ran to the end |
| Paths.PartEndAppend | kernel/cpu.cpp:554-555 | bytes appended after the path change a part's end only when it ran to the end |
| Paths.TrailingSlash | kernel/cpu.cpp:551-557 | a trailing '/' adds no part |
| Paths.JoinedComponents | kernel/cpu.cpp:579-592 | scanning '/' followed by the written parts finds exactly those parts |
| Paths.JoinedNoDoubleSlash | kernel/cpu.cpp:579-592 | '/' followed by the written parts never repeats a '/' |
| Paths.NormalizedIsNormal | kernel/cpu.cpp:536-633 | a path normalised with some part kept is a C string whose parts are the kept parts and which `should_normalize` no longer flags: normalising is idempotent |
| Paths.ChooseNormalizedAsWritten | kernel/cpu.cpp:636-655 | as written, the fresh buffer replaces the resolved path whenever `should_normalize` is true, even where `normalize_path` wrote nothing into it |
| Paths.RepeatedSlashFinding | kernel/cpu.cpp:610-616 | "//a" is flagged by `should_normalize` but has no "." or ".." part, so `normalize_path` returns false without writing |
| Paths.ChooseNormalized | kernel/cpu.cpp:636-655 | the fresh buffer is used exactly when `normalize_path` wrote into it; otherwise the resolved path is kept and the buffer is untouched |
| Ext2.InodeIndex | kernel/ext2.cpp:370 | `inode_num - 1` in `u32`: one less for every real inode number, and `2^32 - 1` for 0 |
| Ext2.InodeNumToGroupAndIndex | kernel/ext2.cpp:368-374 | the slot within the group is below `inodes_per_group` |
| Ext2.GroupAndIndexRoundTrip | kernel/ext2.cpp:368-374 | for `n ≥ 1`, `group · ipg + index + 1 == n` |
| Ext2.GroupAndIndexUnique | kernel/ext2.cpp:368-374 | any group and in-range slot that satisfy that equation are the ones computed: the decomposition is unique |
| Ext2.InodeZeroWraps | kernel/ext2.cpp:370-372 | inode number 0 is not rejected: it maps to the group and slot of `2^32 - 1` |
| Ext2.Inode.constructor | kernel/ext2.cpp:154-185 | an inode holds the given size halves and reserved-sector count |
| Ext2.Inode.Size | kernel/ext2.cpp:387-391 | `inode_size` is `size_hi · 2^32 + size_lo` |
| Ext2.Inode.SetSize | kernel/ext2.cpp:393-397 | the size is split into its low and high 32 bits, `inode_size` then returns exactly the new size, and the reserved count is unchanged |
| Ext2.Inode.UsedBlocks | kernel/ext2.cpp:399-404 | when neither the rounding sum nor the `u32` result wraps, the count is the ceiling of size / block size |
| Ext2.Inode.ReservedBlocks | kernel/ext2.cpp:406-410 | the count is the floor of reserved 512-byte sectors / sectors per block |
| Ext2.SmallSizeInLowHalf | kernel/ext2.cpp:393-397 | a size below 2^32 is stored entirely in `size_lo`, with `size_hi` zero |
| Ext2.BlocknumToLba | kernel/ext2.cpp:266-270 | the product and sum are computed in `u32`; when they do not wrap, the LBA is `start_lba + blocknum · sectors_per_block` |
| Ext2.BlocksAreContiguous | kernel/ext2.cpp:266-270 | consecutive block numbers start `sectors_per_block` sectors apart |
| Ext2.Mul64 | kernel/ext2.cpp:348-349 | the `u64` product equals the true product when it does not wrap |
| Ext2.ComputeZones | kernel/ext2.cpp:347-355 | when `init_ext2` does not halt at its ASSERT, there are `block_size / 4` pointers per indirect block, the triple count exceeds the double count, and the direct zone ends at 12 |
| Ext2.ZonesExact | kernel/ext2.cpp:347-355 | for block sizes 8 to 65536 no product wraps: the zones end at exactly 12, `+P`, `+P²` and `+P³` |
| Ext2.ZonesTinyBlockHalts | kernel/ext2.cpp:350 | a block size below 8 leaves at most one pointer per block, and the ASSERT halts |
| Ext2.IndirectIndexes | kernel/ext2.cpp:593-596 | `indirect_blocks_indexes`: `i - direct_highest` in `u64`; `IndirectZone` proves it is the slot of `i` in its zone |
| Ext2.DoubleIndirectIndexes | kernel/ext2.cpp:597-601 | `double_indirect_blocks_indexes`: quotient and remainder of `i - indirect_highest` by `P`; `DoubleZone` and `DoubleZoneUnique` prove it is a bijection onto the zone |
| Ext2.TripleIndirectIndexes | kernel/ext2.cpp:602-608 | `triple_indirect_blocks_indexes`: the three base-`P` digits of `i - double_highest`; `TripleZone` and `TripleZoneUnique` prove it is a bijection onto the zone |
| Ext2.IndirectZone | kernel/ext2.cpp:593-596 | in the indirect zone, the slot is below `P` and `12 + l1 == i` |
| Ext2.DoubleZone | kernel/ext2.cpp:597-601 | in the double-indirect zone, both slots are below `P` and `indirect_highest + l2·P + l1 == i` |
| Ext2.DoubleZoneUnique | kernel/ext2.cpp:597-601 | every pair of slots below `P` names an index inside the double zone that decomposes back into that pair |
| Ext2.TripleZone | kernel/ext2.cpp:602-608 | in the triple-indirect zone, all three slots are below `P` and `double_highest + l3·P² + l2·P + l1 == i` |
| Ext2.TripleZoneUnique | kernel/ext2.cpp:602-608 | every triple of slots below `P` names an index inside the triple zone that decomposes back into that triple |
| Ext2.DirEntryTrueSize | kernel/ext2.cpp:1042-1048 | the size is a multiple of 4, at least `8 + n` and less than `12 + n` |
| Ext2.DirEntryNameMatch | kernel/ext2.cpp:1050-1055 | a match requires equal length, and a directory entry type when `is_dir` |
| Ext2.DirEntryNameMatchAnyType | kernel/ext2.cpp:1056-1060 | a match requires equal length |
| Ext2.NameMatchIff | kernel/ext2.cpp:1050-1060 | a match holds exactly when the type condition holds, the lengths are equal and the names agree on `name_len` bytes; the two-argument form is the first with `is_dir` false |
| Ext2.AllZero | kernel/ext2.cpp:487-494 | `all_zero` is true exactly when each of the first `size` bytes is 0 |
| Ext2.Ffs | kernel/ext2.cpp:1260 | `__builtin_ffs` is 0 exactly for 0 |
| Ext2.FfsLowest | kernel/ext2.cpp:1260 | for a non-zero value below `2^n`, `ffs - 1` is the index of its lowest set bit |
| Ext2.FirstClearSpec | kernel/ext2.cpp:1247-1278 | the reference search finds nothing exactly when the first `n` bits are all set, and otherwise the lowest clear bit below `n` |
| Ext2.FirstClearIsLowest | kernel/ext2.cpp:1247-1278 | a clear bit below `n` with every lower bit set is what the reference search finds |
| Ext2.SetBitInByte | kernel/ext2.cpp:1275 | `*byte \|= (1 << bit_i)` on a `u8`; `SetBitInByteSpec` proves it sets that bit and keeps the other seven |
| Ext2.ClearBitInByte | kernel/ext2.cpp:1362 | `*byte &= ~(1 << bit_i)` on a `u8`; `ClearBitInByteSpec` proves it clears that bit and keeps the other seven |
| Ext2.SetBitInByteSpec | kernel/ext2.cpp:1276 | or-ing in `1 << i` sets bit `i` and keeps the other seven |
| Ext2.ClearBitInByteSpec | kernel/ext2.cpp:1362 | `byte &= ~(1 << i)` clears bit `i` and keeps the other seven |
| Ext2.SetBitmapBitOnly | kernel/ext2.cpp:1274-1276 | setting bit `k` of a bitmap changes that bit alone |
| Ext2.ClearBitmapBitOnly | kernel/ext2.cpp:1358-1362 | clearing bit `k` of a bitmap changes that bit alone |
| Ext2.SetThenClear | kernel/ext2.cpp:1247-1363 | clearing a bit that was just set restores the bitmap: `bitmap_unset` undoes `bitmap_find_zero_and_set` |
| Ext2.ScanWholeBytes | kernel/ext2.cpp:1256-1263 | the byte loop stops at the lowest clear bit of the whole bytes, or runs to `bytecount` when they are all set |
| Ext2.ScanLastByte | kernel/ext2.cpp:1265-1271 | in the partial byte, a clear bit is found exactly when one lies below `bitcount % 8`, and it is the lowest |
| Ext2.SetClearBit | kernel/ext2.cpp:1274-1276 | the ASSERT holds and the write sets exactly the chosen bit |
| Ext2.BitmapFindZeroAndSet | kernel/ext2.cpp:1247-1278 | the lowest clear bit among the first `bitcount` is reported and set, and nothing else changes; with none, not-found is reported and the bitmap is unchanged |
| Ext2.BitmapFindZeroAndSetAsWritten | kernel/ext2.cpp:1247-1278 | as written: the same whenever a clear bit exists or `bitcount % 8 != 0`; when `bitcount` is a multiple of 8 and every bit is set, bit `bitcount` past the range is reported and set, or the ASSERT halts when it is already set |
| Ext2.FullBitmapOverrun | kernel/ext2.cpp:1264-1277 | on a full one-byte bitmap followed by a zero byte, searching 8 bits reports byte 1, bit 0 and sets it |
| Ext2.BitmapUnset | kernel/ext2.cpp:1355-1363 | the ASSERT halts exactly when the bit is clear, changing nothing; otherwise that bit alone is cleared |
| Ext2.PathLengths | kernel/ext2.cpp:1581-1590 | `path_len` is the length with trailing '/'s dropped, `parent_path_len` is just past the last '/' before it (0 when there is none), and no '/' lies between them |
| KeyEvents.ModifierFlagsMatchKeys | include/key_event.h:176-193 | each hold modifier's flag is `1 << key` for its key code 0–7, and each lock modifier's flag is `1 << (key - 1)`, bits 8–10 |
| KeyEvents.KeycodeToAscii | include/key_event.h:64-173 | the two rows of `keycode_to_ascii`: NUL up to `KEY_ASCII_START` and at the markers, letters, digits and shifted digits, then the symbol keys; `AsciiRows`, `AsciiOfLetters` and `AsciiOfDigits` prove its shape |
| KeyEvents.IsShiftPressed | include/key_event.cpp:3-6 | `is_shift_pressed`: the modifiers meet either shift flag; `HeldModifierQueries` restates it bit by bit |
| KeyEvents.IsCtrlPressed | include/key_event.cpp:7-10 | `is_ctrl_pressed`: the modifiers meet either ctrl flag; `HeldModifierQueries` restates it bit by bit |
| KeyEvents.IsAltPressed | include/key_event.cpp:11-14 | `is_alt_pressed`: the modifiers meet either alt flag; `HeldModifierQueries` restates it bit by bit |
| KeyEvents.IsWinPressed | include/key_event.cpp:15-18 | `is_win_pressed`: the modifiers meet either win flag; `HeldModifierQueries` restates it bit by bit |
| KeyEvents.IsNumlockOn | include/key_event.cpp:19-22 | `is_numlock_on`: the numlock flag is set; `LockModifierQueries` restates it as bit 10 |
| KeyEvents.IsCapslockOn | include/key_event.cpp:23-26 | `is_capslock_on`: the capslock flag is set; `LockModifierQueries` restates it as bit 8 |
| KeyEvents.IsScrolllockOn | include/key_event.cpp:27-30 | `is_scrolllock_on`: the scrolllock flag is set; `LockModifierQueries` restates it as bit 9 |
| KeyEvents.ShouldBeUppercase | include/key_event.cpp:31-36 | `should_be_uppercase`: capslock XOR shift, proved by `LockModifierQueries` |
| KeyEvents.IsAsciiEvent | include/key_event.cpp:38-41 | `is_ascii_event`: pressed, and the key strictly between `KEY_ASCII_START` and `KEY_ASCII_END`; `AsciiEventHasCharacter` proves such keys have a character |
| KeyEvents.HeldModifierQueries | include/key_event.cpp:3-18 | each `is_*_pressed` test is true exactly when the left or the right key's bit is set |
| KeyEvents.LockModifierQueries | include/key_event.cpp:19-36 | each `is_*_on` test is true exactly when its lock's bit is set, and `should_be_uppercase` is capslock XOR shift |
| KeyEvents.KeyeventToAscii | include/key_event.cpp:42-61 | keys before `KEY_ALPHABETICAL_END` use table row caps XOR shift, every other key uses row shift |
| KeyEvents.XorSmall | include/key_event.cpp:55 | `caps ^ shift` on 0/1 values is 1 exactly when they differ |
| KeyEvents.AsciiRows | include/key_event.h:64-173 | in both rows, an entry is non-NUL exactly for the keys strictly between `KEY_ASCII_START` and `KEY_ASCII_END` other than the marker `KEY_ALPHABETICAL_END` |
| KeyEvents.AsciiOfLetters | include/key_event.h:92-152 | a letter key gives its letter, upper case exactly when `should_be_uppercase` |
| KeyEvents.AsciiOfDigits | include/key_event.h:102-157 | a digit key gives its digit without shift and the matching symbol of ")!@#$%^&*(" with shift |
| KeyEvents.CapslockOnlyAffectsLetters | include/key_event.cpp:54-58 | toggling capslock does not change the character of any key from `KEY_ALPHABETICAL_END` on |
| KeyEvents.AsciiIsSevenBit | include/key_event.h:64-173 | every entry of both rows of `keycode_to_ascii` is below 0x80 |
| KeyEvents.AsciiEventIsSevenBit | include/key_event.cpp:50-61 | every character `keyevent_to_ascii` yields is below 0x80 |
| KeyEvents.AsciiEventHasCharacter | include/key_event.cpp:38-61 | the character is non-NUL exactly for the printable keys, so every ASCII event except the marker `KEY_ALPHABETICAL_END` yields a character |
| Ps2Keyboard.UpdateModifiers | kernel/ps2_keyboard.cpp:278-291 | keys past the lock modifiers, and released locks, leave the modifier word unchanged |
| Ps2Keyboard.ScancodeDecoder.constructor | kernel/ps2_keyboard.cpp:25-27 | decoding starts with no prefix and no modifier active |
| Ps2Keyboard.ScancodeDecoder.UpdateActiveModifiers | kernel/ps2_keyboard.cpp:278-291 | the modifier word becomes `UpdateModifiers` of the old word, and the prefix state is unchanged |
| Ps2Keyboard.ScancodeDecoder.ProcessScancode | kernel/ps2_keyboard.cpp:222-297 | when the ASSERT or `UNREACHABLE` halts the kernel, the state is unchanged; otherwise the new state and result are those of `Decode` on the old state, which reads the corrected no-prefix table (F7's `0x83` gives `KEY_F7`, see Findings) |
| Ps2Keyboard.ScancodeToKeyNoPrefixAsWritten | kernel/ps2_keyboard.cpp:32-122 | the no-prefix table as written, `KEY_7` at F7's `0x83`; `F7DecodesAsSeven` and `TablesHoldKeys` state its entries |
| Ps2Keyboard.ScancodeToKeyNoPrefix | kernel/ps2_keyboard.cpp:32-122 | the no-prefix table with `KEY_F7` at `0x83`; `FunctionKeysDecode` and `TablesHoldKeys` state its entries |
| Ps2Keyboard.ScancodeToKeyE0Prefix | kernel/ps2_keyboard.cpp:132-221 | the 0xE0-prefix table; `TablesHoldKeys` proves every entry is a key or `KEY_INVALID` |
| Ps2Keyboard.Decode | kernel/ps2_keyboard.cpp:228-297 | one byte of `process_scancode` as a function of the prefix state and the modifiers before it, halting on a misplaced 0xE0 or 0xF0 and reading the corrected no-prefix table; `PrefixBytes`, `KeyByteEmitsEvent` and `CompleteCodes` prove its transitions |
| Ps2Keyboard.PrefixBytes | kernel/ps2_keyboard.cpp:242-258 | 0xE0 is accepted only without a prefix and moves to the 0xE0 state; 0xF0 moves no-prefix to 0xF0 and 0xE0 to 0xE0-0xF0 and halts elsewhere; neither emits an event or touches the modifiers |
| Ps2Keyboard.KeyByteEmitsEvent | kernel/ps2_keyboard.cpp:260-295 | any other byte emits exactly one event carrying the modifiers from before the byte, pressed exactly in the no-prefix and 0xE0 states, its key from the table those states select; the state returns to no prefix and the modifiers are updated |
| Ps2Keyboard.HoldModifierBits | kernel/ps2_keyboard.cpp:280-285 | a hold modifier sets its bit on press and clears it on release, and no other bit changes |
| Ps2Keyboard.LockModifierBits | kernel/ps2_keyboard.cpp:286-291 | a lock modifier's press flips bit `key - 1` alone |
| Ps2Keyboard.LockPressedTwice | kernel/ps2_keyboard.cpp:286-291 | pressing a lock twice restores the modifier word |
| Ps2Keyboard.HoldPressedAndReleased | kernel/ps2_keyboard.cpp:280-285 | pressing and releasing a hold modifier that was up restores the modifier word |
| Ps2Keyboard.DecodeKeyByte | kernel/ps2_keyboard.cpp:260-295 | a non-prefix byte fed alone yields the one event `Decode` emits |
| Ps2Keyboard.DecodePrefixByte | kernel/ps2_keyboard.cpp:242-258 | an accepted prefix byte only changes the state in which the remaining bytes are read |
| Ps2Keyboard.CompleteCodes | kernel/ps2_keyboard.cpp:228-297 | from no prefix, the sequences `s`, `F0 s`, `E0 s` and `E0 F0 s` each yield exactly one event: press and release from the no-prefix table, then from the 0xE0 table |
| Ps2Keyboard.ShiftedLetter | kernel/ps2_keyboard.cpp:228-297 | left shift followed by A yields a press of A carrying the left-shift flag, which reads as 'A' |
| Ps2Keyboard.ShiftAIsUppercase | include/key_event.cpp:31-61 | A with left shift held reads as 'A' |
| Ps2Keyboard.TablesHoldKeys | kernel/ps2_keyboard.cpp:31-221 | no table entry is one of the range markers or `KEY_COUNT`: every byte decodes to a key or `KEY_INVALID` |
| Ps2Keyboard.F7DecodesAsSeven | kernel/ps2_keyboard.cpp:74 | as written, F7's make code 0x83 decodes to `KEY_7`, as the '7' key (0x3D) does, and no byte decodes to `KEY_F7` |
| Ps2Keyboard.FunctionKeysDecode | kernel/ps2_keyboard.cpp:31-122 | in the corrected table each of the twelve function-key make codes decodes to its `KEY_F1 + i`, and only 0x3D decodes to `KEY_7` |
| Shell.SegmentStart | userspace/sh.cpp:79 | the current argument starts at or before the scan position |
| Shell.Unescape | userspace/sh.cpp:60-72 | copying an argument never lengthens it |
| Shell.ArgvHoldsPastEnd | userspace/sh.cpp:107 | writing past the last argument pointer (the terminating null) keeps every argument in place |
| Shell.PackedAppend | userspace/sh.cpp:73-77 | adding an argument appends its bytes and a NUL to the packed buffer |
| Shell.PackedArgument | userspace/sh.cpp:74-77 | argument `k` lies in the packed buffer right after the arguments before it, followed by a NUL |
| Shell.PackedPrefix | userspace/sh.cpp:73-77 | packing fewer arguments gives a prefix of the packed buffer: later arguments never overwrite earlier ones |
| Shell.UnescapeStep | userspace/sh.cpp:62-72 | the copy drops an unescaped backslash (escaping the next byte), drops an unescaped '"', and keeps any other byte, clearing the escape |
| Shell.UnescapeAdvance | userspace/sh.cpp:62-72 | one iteration of the copy loop keeps what is still to be copied equal to the unescaped argument |
| Shell.CopyByte | userspace/sh.cpp:63-71 | one loop iteration writes the byte exactly when it is kept, and nothing before the argument's start |
| Shell.CopiedInPlace | userspace/sh.cpp:58-72 | the bytes written at the argument's offset are the unescaped argument, and the buffer before it is unchanged |
| Shell.CopyUnescaped | userspace/sh.cpp:58-73 | the copy loop writes exactly the unescaped argument at the offset and leaves the buffer before it alone |
| Shell.AddArgv | userspace/sh.cpp:55-81 | a non-empty segment is unescaped, appended to the packed buffer with a NUL and pointed at by the next `argv` slot; an empty one adds nothing |
| Shell.ScanStep | userspace/sh.cpp:84-101 | one byte of the scan: a backslash escapes the next byte unless itself escaped, an unescaped '"' toggles quoting, and a split closes the current segment |
| Shell.SplitArgument | userspace/sh.cpp:96-98 | splitting at a space adds the segment before it and restarts outside quotes |
| Shell.ScanByte | userspace/sh.cpp:85-100 | one iteration of the scan loop keeps the buffer and `argv` equal to the arguments of the bytes scanned so far |
| Shell.Tokenize | userspace/sh.cpp:42-108 | an unclosed quote is reported exactly when the reference tokenizer rejects the line; otherwise `argc` is the number of tokens, `argv[argc]` is null and the buffer holds each token with `argv` pointing at it |
| Shell.Tokens | userspace/sh.cpp:55-111 | the reference tokenizer: `None` for an open quote, otherwise the unescaped segments split at spaces; `Tokenize` is proved to compute it, and `PlainTokens`, `EscapedSpaceSplits` and `QuotedSpaceJoins` pin its cases |
| Shell.SplitShape | userspace/sh.cpp:96-98 | splitting a line gives words without spaces, and a tail without spaces |
| Shell.WordsShape | userspace/sh.cpp:55-58 | every word is non-empty and holds no space: runs of spaces give no empty arguments |
| Shell.PlainSlice | userspace/sh.cpp:84-101 | a piece of a line without quotes or backslashes has none either |
| Shell.PlainUnescape | userspace/sh.cpp:60-72 | without quotes or backslashes the copy is the identity |
| Shell.PlainScan | userspace/sh.cpp:84-101 | without quotes or backslashes the scan is never escaped or quoted, and its arguments are the words split at spaces |
| Shell.PlainTokens | userspace/sh.cpp:84-105 | a line without quotes or backslashes tokenizes into its space-separated words, each non-empty and without spaces |
| Shell.EscapedSpaceSplits | userspace/sh.cpp:87-99 | `a\ b` still splits into `a` and `b`: the space test ignores the escape |
| Shell.QuotedSpaceJoins | userspace/sh.cpp:92-98 | `"a b"` is one argument `a b`, with the quotes dropped |
| Shell.EscapedQuoteKept | userspace/sh.cpp:63-71 | `\"` gives a literal '"' |
| Shell.EmptyQuotesGiveEmptyArgument | userspace/sh.cpp:56-78 | `""` gives one empty argument, since the segment holding the quotes is not empty |
| Shell.OpenQuoteRejected | userspace/sh.cpp:103-111 | `"a` leaves the quote open, so nothing is run and "unclosed quote" is reported |
| Shell.ArgString | userspace/sh.cpp:114-157 | an argument without NUL is read back whole by the programs given `argv` |
| Shell.NulOfAppended | userspace/sh.cpp:74 | the NUL after an argument is the first one |
| Shell.CStringPrefix | userspace/sh.cpp:33-36 | a C string is determined by the bytes up to its NUL |
| Shell.Strmatch | userspace/sh.cpp:33-36 | `strmatch` is true exactly when the two C strings are equal |
| Shell.ArgvCString | userspace/sh.cpp:76-78 | `argv[k]` points at a NUL-terminated copy of argument `k` |
| Shell.ArgAt | userspace/sh.cpp:114-157 | reading `argv[k]` gives argument `k` |
| Shell.LiteralCString | userspace/sh.cpp:116-140 | a string literal read as a C string is its characters |
| Shell.EchoArguments | userspace/sh.cpp:134-138 | `echo` writes each argument after the first followed by a space |
| Shell.LookupPath | userspace/sh.cpp:148-154 | the executable path is "/userspace/" followed by `argv[0]` |
| Shell.Dispatch | userspace/sh.cpp:103-157 | the command a token list names: the unclosed-quote error, nothing for an empty list, a path with '/', the built-ins `cd`, `echo`, `help`, or "/userspace/" + `argv[0]`; `ExecPathsHoldSlash` and `LookupMatchesFullPath` prove what it runs |
| Shell.EnterCmdline | userspace/sh.cpp:39-174 | the command run is the dispatch of the reference tokens (an unclosed quote reports the error and runs nothing; `argv[0]` with '/' is run as a path; `cd`, `echo`, `help` are built in with their usage errors; anything else is run from "/userspace/"), and `argv` holds the tokens with a null after them |
| Shell.SplitAppendWord | userspace/sh.cpp:84-101 | appending bytes without a space extends the last word |
| Shell.TwoWords | userspace/sh.cpp:84-105 | two words joined by one space split back into those two words |
| Shell.CommandLineTokens | userspace/sh.cpp:84-105 | a plain `name arg` line tokenizes into exactly `[name, arg]` |
| Shell.CdChangesDirectory | userspace/sh.cpp:116-121 | `cd dir` sets the working directory to `dir` |
| Shell.EchoWritesWord | userspace/sh.cpp:130-138 | `echo w` writes `w` followed by a space |
| Shell.ExecPathsHoldSlash | userspace/sh.cpp:114-157 | every path the shell executes contains a '/' |
| Shell.LookupMatchesFullPath | userspace/sh.cpp:114-157 | a bare name that is not a built-in runs the same program as typing "/userspace/" before it |
| Shell.ToByte | userspace/sh.cpp:261-264 | a `char` below 0x100 is stored in `cmd_line` as its own code |
| Shell.Inserted | userspace/sh.cpp:260-266 | typing lengthens the command by one unless it already fills the line |
| Shell.Removed | userspace/sh.cpp:239-244 | backspace shortens the command by one |
| Shell.LineEditor.State | userspace/sh.cpp:192-198 | the cursor lies within the command, which fits the line after the prompt |
| Shell.LineEditor.constructor | userspace/sh.cpp:184-208 | the editor starts with an empty command and the cursor just after the prompt |
| Shell.LineEditor.Reset | userspace/sh.cpp:195-206 | `reset_cmd_line` rewrites the prompt, clears the rest of the line and leaves an empty command with the cursor at its start |
| Shell.LineEditor.MoveLeft | userspace/sh.cpp:224-230 | the cursor moves back one unless it is at the command's start; the command is unchanged |
| Shell.LineEditor.MoveRight | userspace/sh.cpp:231-237 | the cursor moves on one unless it is at the command's end; the command is unchanged |
| Shell.LineEditor.Backspace | userspace/sh.cpp:238-249 | past the command's start, the byte before the cursor is removed and the cursor moves back; at the start nothing changes |
| Shell.LineEditor.Insert | userspace/sh.cpp:258-272 | the byte is inserted at the cursor (the last byte falls off a full line) and the cursor moves on one |
| Shell.CommandText | userspace/sh.cpp:252 | the command handed to `enter_cmdline` is the bytes from the command's start to its end |
| Shell.ClassifyKey | userspace/sh.cpp:214-272 | a key types a byte only for an ASCII event, and the byte's value is the code of the character `keyevent_to_ascii` gives |
| Shell.KeyStep | userspace/sh.cpp:214-272 | every key keeps the cursor within the command and the command within the line |
| Shell.EditKey | userspace/sh.cpp:224-249 | left, right and backspace change the editor as `KeyStep` says |
| Shell.RunLine | userspace/sh.cpp:250-256 | enter runs the dispatch of the command's tokens and leaves an empty command |
| Shell.ApplyKey | userspace/sh.cpp:215-273 | each key changes the editor and acts as `KeyStep` says |
| Shell.HandleKey | userspace/sh.cpp:212-274 | a key event changes the editor and acts as `KeyStep` of its classification says |
| Shell.TypeThenBackspace | userspace/sh.cpp:238-266 | backspace right after typing into a line with room removes the typed byte |
| Shell.TypedThenBackRestores | userspace/sh.cpp:238-266 | typing a byte and then pressing backspace restores the editor state |
| Shell.LeftThenRightRestores | userspace/sh.cpp:224-237 | left then right returns the cursor where it was |
| Shell.TypingAtEndAppends | userspace/sh.cpp:258-266 | typing at the end of a line with room appends the byte |
| Shell.TypingIntoFullLine | userspace/sh.cpp:258-266 | typing into a full line inserts the byte and drops the last one |
| Shell.RemoveShift | userspace/sh.cpp:242-244 | the `memmove` of backspace and the NUL at `max_len - 1` remove the byte at the cursor and keep the rest of the line NUL |
| Shell.InsertShift | userspace/sh.cpp:262-265 | the `memmove` of typing and the store at the cursor insert the byte, and the rest of the line stays NUL |

## Left out

Each line names what the model does not capture and why. Lines that start with a member name record a contract deliberately narrower than the source.

- AllocList.AllocList.ReturnRange: requires the returned range to be a page-aligned, non-empty range that does not wrap and is disjoint from every free node. So it does not model returning a range that overlaps free space, where the source either trips the `ASSERT` at kernel/vspace.cpp:113 (same start address) or silently builds an overlapping list (any other overlap). Every caller in the model (free_size, free_pages, free_vobj) returns a range it took, which meets the requirement.
- AllocList.AllocList.TakeRange: requires `wanted + alignment` to fit in 64 bits. The source's `wanted_size + alignment-1` at kernel/vspace.cpp:37 would wrap for larger requests; every caller passes sizes bounded by the 32 GiB spans.
- AllocList header freelist: `take_from_hdr_freelist`, `add_to_hdr_freelist` and `expand_hdr_freelist` (kernel/vspace.cpp:163-212) carve node headers out of physical pages. The model keeps the nodes as a sequence, so header recycling, header zeroing and the physical pages the headers use are not modelled.
- PhysicalAllocator.PhysicalPageAllocator.Init: models only the corrected layout (`InitLayout`), not the as-written split that over-counts pages (see Findings). It also requires a page-aligned, page-multiple range that does not wrap; `init`'s ASSERTs (kernel/physical_allocator.cpp:47-49) check the alignment, and only the absence of wrap-around is left to the caller. The model's `ensures` that every slot starts free with the last link null assume zeroed metadata: `init` writes only the links of slots 0 to count-2 (kernel/physical_allocator.cpp:98-104) and never `is_allocated` or the last link, and the array is raw memory cast at line 94, so its default initialisers do not run. On memory that is not zeroed, the first `allocate_page` could trip `ASSERT(!page->is_allocated)`, and an exhausted list would follow a stale link instead of halting. With no allocatable page the model's free list is empty (null head), whereas the source still sets `m_freelist = m_pages` (kernel/physical_allocator.cpp:98), so its first `allocate_page` would return the start of the empty region, a frame it does not manage.
- PhysicalAllocator.PhysicalPageAllocator.FreePage: requires the address to lie in the allocation region. `free_page` (kernel/physical_allocator.cpp:27-43) indexes `m_pages` without a range check, so an address outside the region would read and write metadata out of bounds; every caller in the walker frees only frames it took from the allocator.
- PhysicalAllocator: the frames are abstract addresses with a `memory` map standing for their contents. The zero-fill in `allocate_page` is modelled as the frame's contents becoming all-zero; real physical memory and the `PhysicalPage` array in memory are not.
- Strings.StrToUint: the result is an unbounded integer. The source accumulates into a 32-bit `int` (include/string.h:43-58), which overflows for long digit strings; that overflow is not modelled.
- Strings.Concat: requires `dest` to be a different buffer from both sources. The source does not check for aliasing, and an aliased call would read bytes it has already overwritten. It also requires `buf_len >= 0`: the source takes a signed `int`, and a negative length becomes `copy1_len`, which `memmove_workaround` reads as a huge `size_t` count and so copies far past both buffers.
- Strings.ResolvePath: requires `buf` to differ from `pwd` and `path`, for the same reason. It also requires a non-empty `pwd` when the path is relative and the result fits, because the source reads `pwd[pwd_len-1]`.
- VirtualSpaces.VObject.Create: the source passes the u64 page count to `expand_capacity(u32)` at kernel/vspace.cpp:526, which truncates counts of 2^32 pages or more. The model keeps the frames as a sequence of unbounded length, so that truncation and the vector's u32 length are not modelled.
- Vectors.Vector.ExpandCapacity: `kmalloc(new_capacity)` at kernel/vector.h:50 requests bytes, not elements. The model allocates `new_capacity` elements, so the undersized buffer is not modelled. Memory backing stays abstract: arrays replace `kmalloc`/`kfree`.
- Vectors.Vector.Append: where the source would write past its buffer, the model reports `ok == false` and stores nothing. This happens when the doubled u32 capacity wraps to no more than the length, or when `length + 1` wraps to 0. The overflowed vector is not modelled.
- Scheduling.Scheduler.AddToQueue: requires that a process already in the queue is not its head or tail. `unlink_proc_queue` (kernel/scheduler.cpp:27-37) does not move `wait_queue_start`/`wait_queue_end`, so re-adding either end corrupts the queue; callers only add processes that are not in the queue or that sit in its interior.
- Scheduling.Process.Exit: when a child cannot be orphaned, the source calls `kill_process` on it, which switches away and never returns. The model stops at the first such child and reports it in the outcome, instead of recursing into the child's exit.
- Scheduling: pids are unbounded integers, so the wrap of the `s_next_pid` counter is not modelled.
- Scheduling: context switching, `save_register_state`, `user_process_start` (ELF loading through the filesystem), `kernel_process_start` register priming, `setup_vspace` and `write_cr3`/`reload_cr3` are machine-level and are left out. `resume` is modelled only as the choice between starting a NOT_YET_STARTED process and continuing a RUNNING one, with TERMINATED fatal.
- Scheduling: `s_block_tick` is the scheduler field `blockTick`; the other preemption flags, `g_in_syscall_context` and `g_in_kernel_init`, are not modelled.
- CpuStructs: only the TSS fields with setters and getters (the CPL0 and IST1 stacks) are modelled; the other TSS slots and the raw dword view of `SegmentDescriptor` are not.
- Paths.NormalizePath: the `fs_stat` lookup that decides the trailing '/' is a parameter, the set `dirs` of directory paths. The `Vector` of parts is a sequence of index pairs. The debug output and the `kfree` of the parts are left out.
- Ext2.BitmapFindZeroAndSetAsWritten: requires the bitmap to have the byte at index `bitcount/8`, which the as-written code reads and writes when `bitcount` is a multiple of 8 and the bitmap is full. The model needs that byte in the array to state what is overwritten.
- Ext2.PathLengths: lengths are unbounded integers, where the source's are 32-bit signed `int`s (`i`, `*path_len`, `*parent_path_len`, kernel/ext2.cpp:1581-1590) converted from the `size_t` that `strlen_workaround` returns (include/stdlib_workaround.h:10); the narrowing of a path of 2^31 bytes or more is not modelled.
- Ext2: the disk-backed operations are left out because they interleave disk I/O and `kmalloc`: `init_ext2`, block reads and writes, the block-tree routines, the bitmap writebacks of `alloc_block`, `alloc_inode` and `free_block`, `lookup_path` and all `fs_*` functions. Only the pure index, size, directory-entry and bitmap logic is modelled.
- KeyEvents.KeyeventToAscii: requires `key < KEY_COUNT`. The source indexes `keycode_to_ascii` without a check, and events only ever carry keys from the scancode tables, which are all below `KEY_COUNT`.
- Ps2Keyboard.ScancodeDecoder.ProcessScancode: decodes through the corrected no-prefix table `ScancodeToKeyNoPrefix`, as `Decode` does, so byte `0x83` without a prefix gives `KEY_F7` where `process_scancode` gives `KEY_7` (kernel/ps2_keyboard.cpp:74). The table as written is `ScancodeToKeyNoPrefixAsWritten`; `KeyByteEmitsEvent`, `DecodeKeyByte` and `CompleteCodes` hold for the corrected decoder, and for the source's too on every byte other than `0x83`.
- Ps2Keyboard: the IRQ handler, controller initialisation, polling, the debug output of unknown scancodes and the push of each event into `g_key_events` are I/O and are left out. `ProcessScancode` returns the event instead.
- Ttys: `flush_to_vga`, `init_tty` and VGA rendering are output only and are left out. The character buffer is the model's circular buffer of 16-bit VGA cells.
- PageTableWalker.MapVRange: requires the range to lie between `KERNEL_VSPACE_START` and 2^48 (`FOUR_LEVEL_REACH`), the reach of four-level paging. So the fatal `ASSERT` of a lower start (kernel/page_tables.cpp:182) is a precondition rather than a modelled halt. The source does not check the upper end. Addresses from 2^47 to 2^48 - 1 are not canonical, and the model accepts them as the source does.
- PageTableWalker.MapVRangePages: the same range requirement as `MapVRange`.
- PageTableWalker: tables are values in a map from frame address to table. Writes through the identity map and TLB invalidation (`reload_cr3_if_needed`) are not modelled.
- Shell: syscalls (`exec`, `chdir`, `print`, `poll_keyboard`) are not performed. `RunLine` returns a `Command` value and the line editor returns an `EditorAction`. The help and error texts, the exec return codes and the main loop's polling are left out.
- Shell.RunLine: works on a fresh copy of the command line, whereas the source tokenizes the caller's buffer in place.
- Shell.LineEditor.constructor: requires `maxLen >= PROMPT_LEN`, which the source's line meets: `cmd_line` is the variable-length array `char cmd_line[max_len + 1]` (userspace/sh.cpp:184-185), where `max_len` is the TTY's `CMD_LEN`, 80 bytes (kernel/cpu.cpp:819, kernel/tty.h:12). Indices are unbounded rather than `u32`, and the uninitialised byte `cmd_line[max_len]` is not modelled.
- Shell.Tokenize: allocates `len+1` bytes for `argv_buf` and `len+1` slots for `argv`, the most the tokenizer can write. The source asks `sys_alloc` for `cmdline_len` bytes for each (userspace/sh.cpp:42-43) and relies on its page rounding. That sizing is not modelled.
- Interrupt and syscall entry stubs, GDT/IDT loading, device drivers (ATA, PIC, PIT, serial, VGA), boot code, `kmalloc` and the commented-out heap are outside the model.

## Findings

| source | as written | input that shows it | evidently intended | confidence | as-written member | corrected member |
|---|---|---|---|---|---|---|
| kernel/physical_allocator.cpp:65-96 | the metadata size is recomputed for the reduced page count, but the allocatable length is taken from what is left after one rounded metadata range, so `m_page_count` can exceed the slots the metadata range holds | a 258-page range: the metadata range is 1 page (256 slots) and `m_page_count` is 257, so slot 256 lies inside the first allocatable frame | a page count whose metadata slots fit in the metadata range | high, not executed | PhysicalAllocator.InitLayoutAsWritten, PhysicalAllocator.MetadataOverflow258 | PhysicalAllocator.InitLayout, PhysicalAllocator.PhysicalPageAllocator.Init |
| kernel/physical_allocator.cpp:96 | `m_page_count * 4096` is a 32-bit product, so the `ASSERT` fails once the region reaches 4 GiB | an 8 GiB range (`0x2_0000_0000` bytes): the product wraps and `init` halts | the check done in 64 bits, so large memories initialise | high, not executed | PhysicalAllocator.InitHalts8GiB | PhysicalAllocator.InitLayout |
| kernel/circular_buffer.h:60-67 | `pop_end` computes `(end_i-1) % Size` in `u32`, which wraps to 2^32-1 at `end_i == 0` (the TODO at line 63) | the TTY ring of 10000 slots with `end_i == 0`: it reads slot 7295 instead of 9999, and a full ring keeps 7294 elements instead of 9998 | the index before `end_i` modulo `Size`, that is `Size-1` at 0 | high, not executed | CircularBuffers.CircularBuffer.PopEndAsWritten, CircularBuffers.PopEndWrapFinding | CircularBuffers.CircularBuffer.PopEnd |
| kernel/circular_buffer.h:80 | `peek_end` uses the same wrapping index | the same ring with `end_i == 0` peeks at slot 7295 | the newest element, the one `pop_end` removes | high, not executed | CircularBuffers.CircularBuffer.PeekEndAsWritten | CircularBuffers.CircularBuffer.PeekEnd |
| include/string.h:55 | `pow10++` makes the place values 1, 2, 3, ... | "12" reads as 4 | `pow10 *= 10`, the decimal value | high, not executed | Strings.StrToUintAsWritten, Strings.StrToUintWeightsFinding | Strings.StrToUint |
| include/string.cpp:10-19 | for `num == 0` it writes '0' at `buf[len-1]` but returns `buf+len`, an empty string | `num == 0`, `len == 1` | return `buf+len-1`, pointing at the '0', as the header version does | high, not executed | Strings.UintToStrAlt, Strings.UintToStrZeroFinding | Strings.UintToStr |
| kernel/scheduler.cpp:622 | the loop over `vobjs` runs while a `u32` index is `<= 0`, so it frees an allocation only when there is exactly one | a process with two allocations keeps both | a loop that frees every allocation | high, not executed | Scheduling.Process.FreeVobjsAsWritten | Scheduling.Process.FreeVobjs |
| kernel/scheduler.cpp:671-685 | `kill_process` (kernel/cpu.cpp:481-492) ends in `schedule()` and never returns, so the child loop stops at the first child that cannot be orphaned; the later orphanable children are not moved to init and the process never reaches TERMINATED | children `[c0, c1]` with only `c1` orphanable: `c1` keeps the exiting process as its parent | every orphanable child adopted by init and every other child killed | medium, not executed | Scheduling.Process.Exit, Scheduling.ReparentIncomplete | Scheduling.Process.ExitIntended |
| kernel/cpu.h:55 | `base_addr3 << 24` is evaluated as a signed `int`, so with bit 31 set the result is sign-extended into the upper 32 bits | base address `0x8000_0000` reads back as `0xFFFF_FFFF_8000_0000` | the 32-bit base reassembled as an unsigned value | high, not executed | CpuStructs.BaseAddrAsWrittenOf, CpuStructs.BaseAddrBit31Finding | CpuStructs.BaseAddrOf, CpuStructs.SegmentDescriptor.SetBaseAddr |
| kernel/cpu.cpp:645-652 | the normalised buffer replaces the resolved path whenever `should_normalize` is true, but `normalize_path` writes nothing when the only reason is a repeated '/' | "//a": the path handed on is the untouched buffer | use the buffer only when `normalize_path` reports that it wrote it | high, not executed | Paths.ChooseNormalizedAsWritten, Paths.RepeatedSlashFinding | Paths.ChooseNormalized |
| kernel/ext2.cpp:1264-1277 | with every bit set and `bitcount` a multiple of 8, the last-byte scan reads bit 0 of the byte just past the range and sets it, or halts at the ASSERT of line 1274 when that bit is already set | a one-byte bitmap `0xFF` searched over 8 bits: it reports bit 8 and sets it in the next byte | report not-found and change nothing | high, not executed | Ext2.BitmapFindZeroAndSetAsWritten, Ext2.FullBitmapOverrun | Ext2.BitmapFindZeroAndSet |
| kernel/ps2_keyboard.cpp:74 | the no-prefix table maps F7's make code `0x83` to `KEY_7` | pressing F7 produces the same event as the 7 key, and no byte decodes to `KEY_F7` | `KEY_F7` at that entry | high, not executed | Ps2Keyboard.ScancodeToKeyNoPrefixAsWritten, Ps2Keyboard.F7DecodesAsSeven | Ps2Keyboard.ScancodeToKeyNoPrefix, Ps2Keyboard.FunctionKeysDecode, Ps2Keyboard.Decode, Ps2Keyboard.ScancodeDecoder.ProcessScancode |
