# A model of the kernel's memory stack, printf engine and AML decoder

This project models, in Dafny, how the kernel manages memory, from the physical
page allocator up to `malloc`, and two self-contained decoders: the printf
engine and the AML parser. It proves what each layer keeps, over all inputs and
over whole runs, and for every place where the code does something other than
what it appears meant to do it proves exactly when that happens.

Every file holds one module.

| file | models |
|---|---|
| `Words` | 64-bit words, or-ing bits, and page rounding |
| `Ranges` | what a free list means: address-ordered disjoint ranges, first fit from the tail of a range, insertion with merging in the kernel's two orders |
| `PhysicalMemory`, `PhysicalAllocator` | `pmm.c`: list headers stored inside the free pages, as words of a page-to-512-words memory |
| `Spinlock`, `SharedAllocator`, `AllocatorCalls` | `spinlock.asm` and `pmm.c` as atomic steps of any number of CPUs, freely interleaved, and what whole calls do among them |
| `PageTables`, `Slots`, `Unmapping`, `FrameSupply`, `AddressSpace` | the four-level page tables of `vmm.c` (Intel SDM Volume 3A, section 4.5): a tree of 512-entry tables in physical memory, and its meaning, a leaf entry for every virtual page; how many frames the tables need and the allocator has |
| `RoundTrip`, `MemoryRuns` | the laws of mapping and unmapping, and any sequence of calls on one physical memory |
| `RangeList` | `mm.c`: the generic range list, whose nodes have addresses of their own |
| `BlockSizes`, `Refill`, `Heap` | the loop that backs a heap reservation with page frames, and `malloc` and `free` over an in-band range list that it refills |
| `Format` | `sprintf.c`: the format state machine against parse-then-render |
| `Aml` | `aml.c`: package lengths, name strings, term lists (ACPI Specification 6.5, sections 20.2.2, 20.2.4 and 20.2.5) |

The code is modelled in its own form: objects that the C code updates in place
are classes, loops are loops, and each method is specified by functions of the
old state about which the lemmas are proved. Ghost fields (`nodes`, `tab`,
`live`) name what the raw words mean; validity predicates tie them to the words.
Page frames are reached through the higher-half direct map, so a pointer into a
frame is the frame's address plus a constant.

## Where the code does not do what it appears meant to do

- `pmm_alloc` returns 0 for failure and for the page at address 0: a result of 0
  means failure exactly when page 0 is not free (`NullMeansFailure`).
- `pmm_init` collects every whole free page exactly when no free entry's base is
  unaligned: for an unaligned base the offset subtraction wraps and the entry is
  skipped (`InitCollectsWholePages`).
- `pmm_free` leaves one pair of touching ranges unmerged exactly when both
  neighbours touch the freed range (`InsertionsAgree`).
- `vmm_map` completes exactly when the free frames are enough for the tables that
  the range still lacks; if page 0 is free, only the frames of the first range
  above it count (`Map`, `Supply`). Otherwise it calls `vmm_unmap` while holding
  the lock that `vmm_unmap` takes, and never returns (`SelfDeadlock`).
- A page mapped with `C_VMM_CACHE_WRITECOMBINING` becomes uncacheable when the
  processor has a PAT, because its mask selects PAT entry 6 instead of entry 5;
  every other cache type is the one asked for (`CacheTypeIsHonoured`).
- `vmm_unmap` skips page tables that lie wholly inside the range, because the
  count mask turns 512 into 0; on a mapped range it does what it says exactly
  when there is none (`UnmapLaw`). Its scan for present entries passes over those
  between the first and the last index, so a table may also be dropped together
  with tables that were not given back.
- `vmm_unmap` frees the PML4 twice, once in its walk and once more, exactly when
  every mapped page lies in its range (`RootGoesExactly`, `Unmap`,
  `DoubleFreeBreaksList`); that is for a range without whole page tables, in a
  tree without empty ones, and no run of calls makes an empty one (`Run`).
- `mm_alloc` returns the node's address when it uses a range up: that is the
  range's memory exactly when the node is stored at its range's start
  (`ResultIsTaken`). `mm_tryMergeNodes` compares a range's end with the next
  node's address: a list whose nodes lie outside the ranges is never coalesced
  (`NeverJoins`).
- `malloc` computes too small a block for requests above 2^64 - 16 bytes
  (`BlockSizeIsEnough`), and overwrites a list header exactly when it cuts a node
  down to 8 or 16 bytes (`Malloc`, `SliverBreaksPool`).
- The refill loop, once memory is exhausted, ends exactly for requests whose page
  count is a power of two, or is at least 8192 and starts with a 1 and twelve
  zeros: otherwise halving misses the page size (`GivesUpExactly`).
- When the refill loop succeeds it has mapped exactly the rounded request, for
  every mix of blocks, exactly if every whole-page size that halving reaches
  divides the one before (`FillsExactly`): for all requests below 32 MiB and all
  powers of two of pages, but not for 24577 pages (`LargeRequestOverfills`). The
  heap stays well formed exactly when nothing too much was mapped
  (`OnlyExactRefill`).
- The rollback of a refill that falls short starts one page too high: it frees the
  page at address 0 and never the first frame it took (`RollbackMissesFirst`), and
  it never ends after an offset that `vmm_map` refused (`RollbackEnds`).
- In a format, `%%` is a literal percent sign exactly at the end of the format,
  because the `%` action stays in the directive (`PercentNeedsTheEnd`); a sign or
  `0x` is emitted before the padding; `vsnprintf` returns the stored length, where
  section 7.19.6.12 of ISO C99 asks for the full one.
- No AML table parses successfully: the term list loop runs while its offset is
  at most the length, so every list needs an object, every object is a scope, and
  every scope needs a list further on (`ListNeverSucceeds`). The result is -1,
  unless one of the nested scopes has a name that does not fit in the 256 bytes
  the parser has for it, which it does not check (`ParseAml`).

## Model

| member | source | states |
|---|---|---|
| `Words.RoundUpIsLeast` | kernel/src/arch/amd64/mm/mm.c:10-18 | rounding up gives the least page multiple not below the size, exactly when one fits in a word, and 0 otherwise |
| `Words.AlignRangeIsLeast` | kernel/src/arch/amd64/mm/mm.c:120-126 | the aligned range is the least range of whole pages around the given bytes |
| `Words.OrBits` | kernel/src/arch/amd64/mm/vmm.c:192-264 | the C operator | on the model's integers, bit by bit |
| `Ranges.TakeRemovesOneBlock` | kernel/src/arch/amd64/mm/pmm.c:76-103 | an allocation removes exactly one block of the asked size from the free bytes and keeps the list sorted, disjoint and free of empty ranges; without a fit nothing changes |
| `Ranges.PutsAdd` | kernel/src/arch/amd64/mm/pmm.c:122-148 | both insertions add exactly the given bytes and keep the list sorted and disjoint |
| `Ranges.NormalFormIsUnique` | kernel/src/arch/amd64/mm/mm.c:24-48 | a set of free bytes has one fully coalesced list |
| `Ranges.NormaliseKeepsBytes` | kernel/src/arch/amd64/mm/mm.c:24-48 | merging every touching pair gives a coalesced list of the same bytes |
| `Ranges.ForwardFirstCoalesces` | kernel/src/arch/amd64/mm/mm.c:86-118 | from a coalesced list, inserting with the next range first leaves a coalesced one, whichever neighbours touch; the other order leaves one range more exactly when both do |
| `Ranges.InsertionsAgree` | kernel/src/arch/amd64/mm/pmm.c:131-166 | `pmm_free` and `mm_addNodeToMap` are one insertion: the second gives the normal form of the first, which misses one merge exactly when both neighbours touch |
| `Ranges.PutAfterTake` | kernel/src/arch/amd64/mm/pmm.c:67-151 | freeing an allocation at once restores the list node for node exactly when it was split off, or used up a range that touches no neighbour |
| `PhysicalMemory.CutKeepsChain` | kernel/src/arch/amd64/mm/pmm.c:88-103 | the one store of an allocation turns the linked headers in memory into those of the allocated list |
| `PhysicalMemory.LinkKeepsChain` | kernel/src/arch/amd64/mm/pmm.c:131-138 | linking a header in at its place gives the list with it |
| `PhysicalMemory.SwallowKeepsChain` | kernel/src/arch/amd64/mm/pmm.c:140-148 | when the previous range touches, the two merge attempts leave the inserted list: the second one only writes to the swallowed page |
| `PhysicalMemory.JoinNextKeepsChain` | kernel/src/arch/amd64/mm/pmm.c:140-148 | when the previous range does not touch, the two merge attempts leave the inserted list |
| `PhysicalMemory.TakeKeepsShape` | kernel/src/arch/amd64/mm/pmm.c:67-108 | allocating keeps the list page-aligned, inside memory and disjoint, and removes exactly the block's pages |
| `PhysicalMemory.PutKeepsShape` | kernel/src/arch/amd64/mm/pmm.c:110-151 | freeing keeps that shape and adds exactly the block's pages |
| `PhysicalAllocator.UsableSizeMeaning` | kernel/src/arch/amd64/mm/pmm.c:31-51 | how much of a memory map entry is used: all its whole pages when its base is aligned, nothing otherwise |
| `PhysicalAllocator.InitialNodesPages` | kernel/src/arch/amd64/mm/pmm.c:26-62 | which pages the initial list holds |
| `PhysicalAllocator.UnalignedEntryIsSkipped` | kernel/src/arch/amd64/mm/pmm.c:34-40 | a free entry with an unaligned base that holds a whole page loses it |
| `PhysicalAllocator.InitCollectsWholePages` | kernel/src/arch/amd64/mm/pmm.c:16-65 | initialisation collects exactly the whole pages of free entries if and only if the entries that have one start on a page boundary |
| `PhysicalAllocator.NullMeansFailure` | kernel/src/arch/amd64/mm/pmm.c:68-107 | a returned 0 always means that nothing was taken, if and only if page 0 is not free |
| `PhysicalAllocator.DoubleFreeBreaksList` | kernel/src/arch/amd64/mm/pmm.c:110-151 | freeing bytes that are free leaves no well-formed list |
| `PhysicalAllocator.PhysicalAllocator.AddEntry` | kernel/src/arch/amd64/mm/pmm.c:53-61 | one usable entry becomes the new head, its header at its own start |
| `PhysicalAllocator.PhysicalAllocator.Init` | kernel/src/arch/amd64/mm/pmm.c:16-65 | from any sorted memory map, a well-formed list of the usable ranges; no other page is written |
| `PhysicalAllocator.PhysicalAllocator.FindFit` | kernel/src/arch/amd64/mm/pmm.c:76-86 | the search stops at the first range that is large enough, with its predecessor |
| `PhysicalAllocator.PhysicalAllocator.CutBlock` | kernel/src/arch/amd64/mm/pmm.c:88-103 | unlinking or shrinking the found node gives the allocated list and the block at the range's end |
| `PhysicalAllocator.PhysicalAllocator.Alloc` | kernel/src/arch/amd64/mm/pmm.c:67-108 | allocates the first fit of the rounded size, or returns 0 and changes nothing; only free pages are written |
| `PhysicalAllocator.PhysicalAllocator.TryMerge` | kernel/src/arch/amd64/mm/pmm.c:153-166 | the merge of two headers in memory |
| `PhysicalAllocator.PhysicalAllocator.FindPlace` | kernel/src/arch/amd64/mm/pmm.c:122-129 | the search stops where the address belongs |
| `PhysicalAllocator.PhysicalAllocator.LinkIn` | kernel/src/arch/amd64/mm/pmm.c:131-138 | the new header is linked in between its neighbours |
| `PhysicalAllocator.PhysicalAllocator.MergeNeighbours` | kernel/src/arch/amd64/mm/pmm.c:140-148 | the two merge attempts leave the list with the block inserted |
| `PhysicalAllocator.PhysicalAllocator.Free` | kernel/src/arch/amd64/mm/pmm.c:110-151 | inserts the block, keeps the list well formed, writes to free pages and the block's first page only |
| `Spinlock.FreeLockIsTaken` | kernel/src/arch/amd64/spinlock.asm:11-24 | a CPU that starts an acquisition undisturbed holds the lock after two steps if and only if bit 0 of the word was clear, and leaves that bit set and the others as they were |
| `Spinlock.WaiterTakesFreeLock` | kernel/src/arch/amd64/spinlock.asm:11-24 | from anywhere in the waiting loop, a CPU takes a free lock within three instructions |
| `Spinlock.SelfDeadlock` | kernel/src/arch/amd64/mm/vmm.c:289-292 | a CPU that acquires a lock it holds spins for ever |
| `SharedAllocator.CutConserves` | kernel/src/arch/amd64/mm/pmm.c:88-103 | the store that takes a block moves exactly its bytes from the list to the caller |
| `SharedAllocator.LinkInConserves` | kernel/src/arch/amd64/mm/pmm.c:131-138 | the store that links a block in moves exactly its bytes from the caller to the list |
| `SharedAllocator.KeepsWriteHeader` | kernel/src/arch/amd64/mm/pmm.c:113-118 | writing the header before taking the lock disturbs nobody, because the caller still owns the page |
| `SharedAllocator.KeepsAcquire` | kernel/src/arch/amd64/spinlock.asm:11-24 | every step of an acquisition keeps the invariant, and the CPU that gets through finds a well-formed list |
| `SharedAllocator.KeepsRelease` | kernel/src/arch/amd64/spinlock.asm:26-29 | releasing keeps the invariant: the list is whole again before the lock word becomes 0 |
| `SharedAllocator.KeepsSearch` | kernel/src/arch/amd64/mm/pmm.c:76-86 | every step of both searches keeps the invariant |
| `SharedAllocator.KeepsCut` | kernel/src/arch/amd64/mm/pmm.c:88-103 | so does the store of an allocation |
| `SharedAllocator.KeepsLinkIn` | kernel/src/arch/amd64/mm/pmm.c:131-138 | so does the store of an insertion |
| `SharedAllocator.KeepsMergePrevious` | kernel/src/arch/amd64/mm/pmm.c:140-143 | so does the first store of the first merge, after which the swallowed block is off the chain |
| `SharedAllocator.KeepsGrowPrevious` | kernel/src/arch/amd64/mm/pmm.c:162-165 | so does its second store |
| `SharedAllocator.KeepsMergeNext` | kernel/src/arch/amd64/mm/pmm.c:145-148 | so does the first store of the second merge, on the chain or off it |
| `SharedAllocator.KeepsGrowNext` | kernel/src/arch/amd64/mm/pmm.c:162-165 | so does its second store |
| `SharedAllocator.StepKeepsInv` | kernel/src/arch/amd64/mm/pmm.c:67-151 | every step of any CPU, a call, a client's write to its own memory or an instruction, keeps the invariant |
| `SharedAllocator.AllocatorIsSafe` | kernel/src/arch/amd64/mm/pmm.c:67-151 | in every interleaving of any number of CPUs: at most one is between acquire and release, the list is well formed whenever the lock word is 0, held blocks are pairwise disjoint and not free, and free and held bytes are always the initial set |
| `SharedAllocator.StepIsAtomic` | kernel/src/arch/amd64/mm/pmm.c:67-151 | every step is, for the free list and the held blocks, nothing, one whole allocation or one whole free; when a search ends without a node, at that moment no range of the list is large enough, nothing has changed, and the result is 0 |
| `AllocatorCalls.CallTakesEffectOnce` | kernel/src/arch/amd64/mm/pmm.c:67-151 | in every interleaving, between any call of `pmm_alloc` or `pmm_free` and its return exactly one of the CPU's steps has an effect: one allocation of the rounded size whose address is returned, or nothing, because nothing fits at that moment, and 0 is returned; or one free of the given block |
| `AllocatorCalls.CallReturns` | kernel/src/arch/amd64/mm/pmm.c:67-151 | a call that runs alone with the lock free starts, returns with that effect, and leaves the lock free |
| `AllocatorCalls.FewerLeft` | kernel/src/arch/amd64/mm/pmm.c:67-151 | every step of a CPU that has or can get the lock brings it closer to its return |
| `AllocatorCalls.WaiterGetsIn` | kernel/src/arch/amd64/spinlock.asm:11-24 | a waiting CPU is inside the critical section within three steps of its own once the lock word is clear |
| `PageTables.OrIsAdd` | kernel/src/arch/amd64/mm/vmm.c:215-264 | or-ing flags into an aligned address, as the model of the entries does, adds them |
| `PageTables.FrameOfEntry` | kernel/src/arch/amd64/mm/vmm.c:200-203 | an entry's frame and its present and large-page bits are those it was made of |
| `PageTables.LeafFlagsFit` | kernel/src/arch/amd64/mm/vmm.c:57-77 | leaf flags stay below the address bits, keep PRESENT, and carry bit 7 only as the PAT bit of a PAT context |
| `PageTables.LeafFlagsAreBits` | kernel/src/arch/amd64/mm/vmm.c:184-194 | bit by bit, what a leaf entry carries for every flag, each of the eight cache types and both mask tables: READ_WRITE exactly as asked for, USER_SUPERVISOR exactly in the lower half, PRESENT and ACCESSED always |
| `PageTables.CacheTypeIsHonoured` | kernel/src/arch/amd64/mm/vmm.c:57-66 | under the PAT value that the kernel sets, the entry selects the requested memory type exactly unless write-combining is asked for |
| `PageTables.EntryNamesTable` | kernel/src/arch/amd64/mm/vmm.c:178-182 | the entry of every table carries PRESENT, READ_WRITE, USER_SUPERVISOR, PWT and ACCESSED and no other flag |
| `PageTables.AddTable` | kernel/src/arch/amd64/mm/vmm.c:205-216 | hanging a zeroed frame into an absent entry keeps the tree and maps nothing |
| `PageTables.SetLeaf` | kernel/src/arch/amd64/mm/vmm.c:263-264 | writing a leaf entry keeps the tree |
| `PageTables.LeafAfterSet` | kernel/src/arch/amd64/mm/vmm.c:263-264 | and changes the meaning of exactly one page |
| `PageTables.TranslateFindsLeaf` | kernel/src/arch/amd64/mm/vmm.c:344-403 | walking the tables in memory finds the frame of the page's leaf, or 0, and never takes a large-page branch |
| `PageTables.RightsAreTheLeafs` | kernel/src/arch/amd64/mm/vmm.c:178-194 | along the whole walk, presence and the rights to write and to access from user mode are those of the page's own leaf |
| `FrameSupply.SupplyShrinks` | kernel/src/arch/amd64/mm/pmm.c:67-108 | the supply is the number of single frames the allocator gives before it returns 0: it gives one exactly while the supply is positive, which then falls by one |
| `FrameSupply.SupplyIsFree` | kernel/src/arch/amd64/mm/pmm.c:67-108 | unless page 0 is free, the supply is all free pages |
| `FrameSupply.BlockCount` | kernel/src/arch/amd64/mm/pmm.c:88-103 | an allocation takes exactly as many pages as it asks for out of the free ones |
| `FrameSupply.AllFound` | kernel/src/arch/amd64/mm/vmm.c:197-261 | once every page of the range has its page table, the tables that were missing before are exactly the ones added |
| `FrameSupply.NotAllFound` | kernel/src/arch/amd64/mm/vmm.c:197-261 | while a page lacks one, fewer have been added |
| `FrameSupply.NoneLeft` | kernel/src/arch/amd64/mm/vmm.c:205-210 | when the tables have grown by as many as there were free frames, no frame is free |
| `AddressSpace.Digits` | kernel/src/arch/amd64/mm/vmm.c:172-175 | the four indices are the base-512 digits of the page number |
| `AddressSpace.AddressSpace.constructor` | kernel/src/arch/amd64/mm/vmm.c:462-468 | a zeroed PML4 is a tree that maps nothing |
| `AddressSpace.AddressSpace.HangTable` | kernel/src/arch/amd64/mm/vmm.c:212-215 | zeroing a fresh frame and naming it in an entry with the flags above adds one table and changes no translation |
| `AddressSpace.AddressSpace.AllocFrame` | kernel/src/arch/amd64/mm/vmm.c:205-216 | a frame is had exactly while the supply lasts; one at address 0 is lost |
| `AddressSpace.AddressSpace.EnsureTable` | kernel/src/arch/amd64/mm/vmm.c:197-217 | the next table is found or allocated, and it is neither exactly when it is absent and the allocator has no frame for it; no translation changes, and each new table uses up one frame |
| `AddressSpace.AddressSpace.MapPage` | kernel/src/arch/amd64/mm/vmm.c:197-264 | the walk from the cached tables writes exactly the page's leaf; it fails only when the page has no table and every frame the allocator had has become a table |
| `AddressSpace.AddressSpace.NextPage` | kernel/src/arch/amd64/mm/vmm.c:266-286 | the carry gives the indices of the next page and keeps exactly the cached tables it shares with the last one |
| `AddressSpace.AddressSpace.MapPages` | kernel/src/arch/amd64/mm/vmm.c:197-287 | the loop maps n pages across all carries, or stops at the first page whose table cannot be had, exactly when the frames do not suffice |
| `AddressSpace.MappedRights` | kernel/src/arch/amd64/mm/vmm.c:133-301 | the processor grants writing to a mapped page exactly when READ_WRITE was asked for, and user mode exactly for addresses of the lower half |
| `AddressSpace.AddressSpace.Map` | kernel/src/arch/amd64/mm/vmm.c:133-301 | the meaning is the old one overridden on exactly the n pages of the aligned range, page i going to frame i, across all carries, every entry carrying bit by bit the flags asked for and every table named by an entry that passes all rights on; it completes exactly when the allocator has a frame for every table the range lacks, and otherwise maps exactly a prefix; unequal page offsets are refused with nothing changed; new tables lie on the range's path only and frames are conserved |
| `AddressSpace.AddressSpace.ScanEmpty` | kernel/src/arch/amd64/mm/vmm.c:694-704 | the two scans find no present entry up to the first and from the last index |
| `AddressSpace.AddressSpace.ClearEntries` | kernel/src/arch/amd64/mm/vmm.c:652-654 | clears exactly the leaves of the counted pages |
| `AddressSpace.AddressSpace.UnmapLeafTable` | kernel/src/arch/amd64/mm/vmm.c:646-708 | level 1 of the walk keeps its specification, a masked count of 512 included |
| `AddressSpace.AddressSpace.UnmapChildren` | kernel/src/arch/amd64/mm/vmm.c:658-690 | the loop deals with the children one after the other, clearing the entries of freed ones |
| `AddressSpace.AddressSpace.UnmapUpperTable` | kernel/src/arch/amd64/mm/vmm.c:657-711 | the upper levels of the walk keep their specification |
| `AddressSpace.AddressSpace.UnmapRecursive` | kernel/src/arch/amd64/mm/vmm.c:610-712 | the walk removes the range's pages except those of whole page tables, leaves every other page alone, gives a table back exactly when it reports so, and ends (by level) |
| `AddressSpace.AddressSpace.Unmap` | kernel/src/arch/amd64/mm/vmm.c:303-334 | the same for the aligned range; for a range without whole page tables, in a tree without empty ones, the walk frees the PML4, which is then about to be freed again, exactly when every mapped page lies in the range |
| `AddressSpace.AddressSpace.GetPhysicalAddress` | kernel/src/arch/amd64/mm/vmm.c:344-403 | returns the frame that the tree's meaning gives for the address, 0 when it gives none |
| `Unmapping.ChildDone` | kernel/src/arch/amd64/mm/vmm.c:660-688 | one turn of the walk's loop keeps what the loop promises |
| `Unmapping.TableFreed` | kernel/src/arch/amd64/mm/vmm.c:693-709 | giving an empty-looking table back keeps the specification; tables still below it are lost only when the range holds a whole page table |
| `Unmapping.WholeTableSkipped` | kernel/src/arch/amd64/mm/vmm.c:639 | a count that the mask turns into 0 leaves a whole table as it is |
| `Unmapping.RootGoesExactly` | kernel/src/arch/amd64/mm/vmm.c:303-334 | for a range without whole page tables in a tree without empty ones: the PML4 goes exactly when every mapped page lies in the range |
| `Unmapping.UnmapLeavesNoneEmpty` | kernel/src/arch/amd64/mm/vmm.c:693-709 | unmapping such a range leaves no empty table |
| `Unmapping.TableHasLeaf` | kernel/src/arch/amd64/mm/vmm.c:344-403 | in a tree without empty tables every table in use has a mapped page below it |
| `RoundTrip.UnmapLaw` | kernel/src/arch/amd64/mm/vmm.c:610-712 | on a mapped range, unmapping removes exactly the range's pages and loses no frame, if and only if the range contains no whole page table |
| `RoundTrip.WholeBlockTest` | kernel/src/arch/amd64/mm/vmm.c:639 | that condition as a comparison of the range's ends |
| `RoundTrip.EmptyTablesGo` | kernel/src/arch/amd64/mm/vmm.c:693-709 | a table on the walked path goes exactly when it is left without a present entry, and its frame becomes free |
| `RoundTrip.MapThenUnmapRestores` | kernel/src/arch/amd64/mm/vmm.c:133-334 | mapping and unmapping unmapped pages restores every translation, the tree, every table's contents and the free frames, exactly when something else keeps the PML4 in use |
| `RoundTrip.MapAndUnmap` | kernel/src/arch/amd64/mm/vmm.c:133-334 | the same of the two calls one after the other, and when the first one completes |
| `MemoryRuns.RunConserves` | kernel/src/arch/amd64/mm/vmm.c:133-334 | after any sequence of map, unmap, allocate and free steps the tables form one tree without empty tables, each non-root table named by one entry, and free, table and client frames are disjoint and together the initial set |
| `MemoryRuns.StepConserves` | kernel/src/arch/amd64/mm/vmm.c:133-334 | one such call; frames that clients keep are not written |
| `MemoryRuns.MapLeavesNoneEmpty` | kernel/src/arch/amd64/mm/vmm.c:133-301 | mapping leaves no empty table |
| `MemoryRuns.AllTranslate` | kernel/src/arch/amd64/mm/vmm.c:344-403 | whether every page of a range translates to a frame |
| `MemoryRuns.CallersMayCall` | kernel/src/arch/amd64/mm/vmm.c:133-334 | which calls callers may make, for example: any rounded size, any held block, any page, any page that translates |
| `MemoryRuns.MapCall` | kernel/src/arch/amd64/mm/vmm.c:133-301 | a call of `vmm_map` takes the map step, or does not return, exactly when the frames do not suffice |
| `MemoryRuns.UnmapCall` | kernel/src/arch/amd64/mm/vmm.c:303-334 | a call of `vmm_unmap` on translated pages without whole page tables takes the unmap step, or frees the PML4 twice, exactly when nothing else is mapped |
| `MemoryRuns.AllocCall` | kernel/src/arch/amd64/mm/pmm.c:67-108 | a call of `pmm_alloc` takes the allocation step, and the new block is apart from all held ones |
| `MemoryRuns.FreeCall` | kernel/src/arch/amd64/mm/pmm.c:110-151 | a call of `pmm_free` on a held block takes the free step |
| `MemoryRuns.Perform` | kernel/src/arch/amd64/mm/vmm.c:133-334 | any one of these calls: skipped exactly when its caller may not make it, not returning or freeing twice exactly under the stated conditions, and otherwise one step; no page frame is made or forgotten |
| `MemoryRuns.Run` | kernel/src/arch/amd64/mm/vmm.c:133-334 | any sequence of calls on one address space and its allocator, from any tree without empty tables: it is a run of such steps, so the tree, the held blocks and the free list stay apart and together are the initial free frames and tables |
| `RangeList.TakeInBand` | kernel/src/arch/amd64/mm/mm.c:50-80 | on lists whose nodes start their ranges, `mm_alloc` is the abstract allocation and keeps the list so |
| `RangeList.AddInBand` | kernel/src/arch/amd64/mm/mm.c:86-118 | on lists inside the address space, `mm_addNodeToMap` is the abstract insertion |
| `RangeList.ResultIsTaken` | kernel/src/arch/amd64/mm/mm.c:59-78 | in general the returned address is that of the taken memory exactly when no range is used up whose node is stored elsewhere |
| `RangeList.NeverJoins` | kernel/src/arch/amd64/mm/mm.c:24-48 | when no range ends where a node is stored, inserting only adds the node |
| `RangeList.ChainIsUnique` | kernel/src/arch/amd64/mm/mm.c:50-58 | memory holds at most one list at a head |
| `RangeList.CutKeepsChain` | kernel/src/arch/amd64/mm/mm.c:59-78 | the one store of `mm_alloc` turns the chained nodes into those of the list after the allocation |
| `RangeList.MergeKeepsChain` | kernel/src/arch/amd64/mm/mm.c:38-42 | the two stores of a merge leave the merged list |
| `RangeList.RangeList.Alloc` | kernel/src/arch/amd64/mm/mm.c:50-80 | first fit with the exact-fit and split cases, NULL without a fit; only node headers are written |
| `RangeList.RangeList.TryMerge` | kernel/src/arch/amd64/mm/mm.c:24-48 | merges with the next node exactly when the range ends where that node is stored |
| `RangeList.RangeList.FindPlace` | kernel/src/arch/amd64/mm/mm.c:92-101 | the search stops where the node's address belongs |
| `RangeList.RangeList.LinkIn` | kernel/src/arch/amd64/mm/mm.c:103-109 | links the node in between its neighbours |
| `RangeList.RangeList.AddNode` | kernel/src/arch/amd64/mm/mm.c:86-118 | for any list and any node with a header of its own: inserts the node and merges with neither, either or both neighbours, with wrapping ends and sizes; only headers are written |
| `Heap.BlockSizeIsEnough` | kernel/src/stdlib.c:18-27 | block sizes are multiples of 8 with room for the header, exactly for requests up to 2^64 - 16; larger ones wrap |
| `Heap.TakenBytes` | kernel/src/stdlib.c:29-38 | an allocation takes exactly the block's bytes out of the pool |
| `Heap.TakeKeeps` | kernel/src/stdlib.c:29-49 | handing out a block keeps the heap: sorted disjoint pool, live blocks disjoint, aligned and of their recorded size, every refilled byte free or in exactly one block |
| `Heap.FreeKeeps` | kernel/src/stdlib.c:52-69 | taking a block back keeps the heap, with the size that `malloc` stored |
| `Heap.RefillKeeps` | kernel/src/stdlib.c:133-140 | pushing the new region in front keeps the pool sorted, because regions come from the window's high end |
| `Heap.OnlyExactRefill` | kernel/src/stdlib.c:133-140 | a pushed region that is longer or shorter than its reservation breaks the heap |
| `Heap.ClientKeeps` | kernel/src/stdlib.c:44-49 | a client that writes inside its own block keeps the heap |
| `Heap.SliverBreaksPool` | kernel/src/stdlib.c:44-47 | after a split that leaves 8 or 16 bytes, memory no longer holds the pool that `mm_alloc` left |
| `Heap.RunKeepsHeap` | kernel/src/stdlib.c:17-69 | over any run of allocations, frees, refills and client writes the heap stays as above, so free and live bytes are always the bytes refilled |
| `Heap.BlockIsKept` | kernel/src/stdlib.c:17-69 | between a block's allocation and its free, no step changes its words except its client's own writes |
| `Heap.Heap.constructor` | kernel/src/arch/amd64/mm/vmm.c:476-480 | an empty pool and the whole window of 0x7f80000000 bytes from 0xffffff8000000000 |
| `Heap.Heap.Reserve` | kernel/src/arch/amd64/mm/vmm.c:103-113 | a reservation is cut from the high end of the window |
| `Heap.Heap.Push` | kernel/src/stdlib.c:133-142 | the three header stores put a node over the region in front of the pool; a region that ends at the lowest refilled address is a refill step |
| `Heap.Heap.Refill` | kernel/src/stdlib.c:71-142 | nothing changes exactly when the reservation does not fit the window; a refill that goes through backs its pages with frames of their own, leaves the heap well formed exactly when it mapped the rounded request, and then adds it below all earlier ones; for a power of two of pages, page 0 not free, it goes through exactly when the free frames suffice for pages and tables; a refill that falls short is where the loop ended, with no free frame left if it ran out, and one that does not return has taken a block that is not mapped up to its end |
| `Heap.Heap.Claim` | kernel/src/stdlib.c:29-47 | the block is the first fit and carries its size; the pool in memory survives exactly when no sliver is left |
| `Heap.Heap.Malloc` | kernel/src/stdlib.c:17-50 | NULL, with nothing changed, exactly when nothing fits and the window has no room; a result is a new block of the computed size with other blocks' data unchanged, and the heap stays well formed exactly when the cut node keeps 0 or at least 24 bytes; when a refill is needed for a power of two of pages, page 0 not free, a block results exactly when the free frames suffice for pages and tables |
| `Heap.Heap.Free` | kernel/src/stdlib.c:52-69 | frees the block with its recorded size, does nothing for NULL, keeps the heap and all other data |
| `Heap.Heap.Write` | kernel/src/stdlib.c:44-49 | a client's store into its block keeps the heap |
| `BlockSizes.GivesUpExactly` | kernel/src/stdlib.c:88-96 | when every allocation fails, halving reaches the page size exactly for the stated page counts |
| `BlockSizes.FillsExactly` | kernel/src/stdlib.c:85-112 | every mix of blocks that fills the request maps exactly the rounded request, if and only if every whole-page size that halving reaches divides the one before |
| `BlockSizes.SmallRequestsSplit` | kernel/src/stdlib.c:85-112 | that holds for every request below 8192 pages |
| `BlockSizes.PowersSplit` | kernel/src/stdlib.c:85-112 | and for every power of two of pages |
| `BlockSizes.LargeRequestOverfills` | kernel/src/stdlib.c:85-112 | but not for 24577 pages: some mix of blocks maps another amount |
| `Refill.TakeBlock` | kernel/src/stdlib.c:86-88 | allocating a block beside a tree keeps the tree and its meaning; a result takes exactly the block's frames, and 0 means, unless page 0 was free, that no range was large enough |
| `Refill.MapBlock` | kernel/src/stdlib.c:98-111 | mapping a block of the reservation completes exactly when the free frames suffice for the missing tables, or does not return |
| `Refill.GiveBack` | kernel/src/stdlib.c:107-110 | giving a refused block back restores the free frames and the meaning |
| `Refill.BackBlock` | kernel/src/stdlib.c:85-112 | one turn: no block, and then no free frame if it asked for one page; or the pages are mapped behind those before, to frames that are neither free nor tables; or the offset is refused and the block given back, exactly for offsets that are no whole pages; or it does not return, because frames are short for the tables |
| `Refill.Fill` | kernel/src/stdlib.c:71-112 | the loop is its arithmetic on the real allocator's answers: what it counts is mapped, every page to a frame of its own that was free and is now neither free nor a table, success maps exactly the rounded request where the block sizes divide, it runs out only when no frame is left, and for a power of two of pages, page 0 not free, it succeeds exactly when the free frames suffice for the pages and the tables they lack |
| `Refill.HeapPagesAreWritable` | kernel/src/stdlib.c:98-106 | the pages behind the heap are present, writable, supervisor and write-back, each on its own frame |
| `Refill.EnoughFrames` | kernel/src/stdlib.c:85-112 | pages mapped and tables that were missing are together at most the frames that were free |
| `Refill.TooFewFrames` | kernel/src/stdlib.c:85-112 | when no frame is left and pages are still unmapped, they were more |
| `Refill.TooFewForTables` | kernel/src/arch/amd64/mm/vmm.c:289-292 | nor are the frames enough when the next block's tables cannot be had |
| `Refill.RollbackMissesFirst` | kernel/src/stdlib.c:114-126 | the rollback gives back address 0 and every frame of the loop but the first |
| `Refill.RollbackEnds` | kernel/src/stdlib.c:115-126 | counting down by pages ends exactly from a whole number of pages |
| `Format.DigitsReadBack` | kernel/src/sprintf.c:213-217 | the digit loop's digits read back as the value, without leading zeros |
| `Format.FieldReadsBack` | kernel/src/sprintf.c:219-232 | a padded field reads back as the value and is as long as the longer of its digits and the adjusted minimum |
| `Format.FieldFitsScratch` | kernel/src/sprintf.c:196-232 | a field fits in the 32-character scratch buffer exactly when the adjusted minimum is at most 32 |
| `Format.NumberReadsBack` | kernel/src/sprintf.c:195-378 | every number printed by d, u, x or p reads back as the argument for all flags and lengths: all 64 bits with the l modifier and for p, otherwise the number of its low 32 bits, signed for d |
| `Format.NumberIsPrinted` | kernel/src/sprintf.c:195-378 | the characters of every number: sign or 0x, then fillers up to the minimum length, '0' exactly under the zero flag and spaces otherwise, then the digits without leading zeros of what the argument stands for |
| `Format.TextIsClipped` | kernel/src/sprintf.c:282-297 | a string is printed up to its precision |
| `Format.CharacterIsLowByte` | kernel/src/sprintf.c:191-194 | a character is the argument's low byte |
| `Format.PlainFormat` | kernel/src/sprintf.c:107-121 | a format without a percent sign prints itself, whatever the arguments |
| `Format.UnknownIsDropped` | kernel/src/sprintf.c:379-381 | any other character ends its directive, and both are dropped |
| `Format.MatchesInOrder` | kernel/src/sprintf.c:184-382 | arguments match a format exactly when there is an acceptable one for each conversion, in order |
| `Format.Int32IsCongruent` | kernel/src/sprintf.c:148-149 | lengths and results wrap like a 32-bit int |
| `Format.ParseInvertsWriting` | kernel/src/sprintf.c:106-177 | the parser inverts the writing of formats: flags, lengths, modifier and conversion of every directive, and every literal but the percent sign |
| `Format.PercentNeedsTheEnd` | kernel/src/sprintf.c:189-190 | two percent signs mean a literal one followed by the rest exactly when there is no rest |
| `Format.RenderStep` | kernel/src/sprintf.c:106-177 | one character's output and arguments, and the rest's, make up the whole |
| `Format.Context.Out` | kernel/src/sprintf.c:384-394 | a character is stored exactly while the limit allows |
| `Format.Context.NextDigit` | kernel/src/sprintf.c:213-217 | one turn of the digit loops splits off the last digit |
| `Format.Context.WriteDigits` | kernel/src/sprintf.c:213-217 | the scratch buffer's tail from the index holds the digits |
| `Format.Context.PadScratch` | kernel/src/sprintf.c:219-232 | and then the padded field, the index staying in range |
| `Format.Context.PutSigned` | kernel/src/sprintf.c:195-239 | the d conversion prints the specified text |
| `Format.Context.PutPointer` | kernel/src/sprintf.c:243-281 | so does p |
| `Format.Context.PutText` | kernel/src/sprintf.c:282-297 | so does s, with its precision |
| `Format.Context.PutUnsigned` | kernel/src/sprintf.c:298-334 | so does u |
| `Format.Context.PutHex` | kernel/src/sprintf.c:335-378 | so does x |
| `Format.Context.CheckAction` | kernel/src/sprintf.c:184-382 | an action moves the parser, consumes its argument and puts out its text as specified |
| `Format.Context.Feed` | kernel/src/sprintf.c:107-176 | so does every character of the format |
| `Format.Context.Generic` | kernel/src/sprintf.c:99-182 | the machine's output is the rendering of the parsed format, stored up to the limit and NUL-terminated, and the stored length is returned |
| `Format.Vsprintf` | kernel/src/sprintf.c:89-97 | stores the whole rendering, then NUL, and returns its length |
| `Format.Vsnprintf` | kernel/src/sprintf.c:72-87 | stores exactly the first size - 1 characters of that same rendering, then NUL, returns how many, and touches nothing behind; a size of 0 means no limit |
| `Format.KeptIsTruncation` | kernel/src/sprintf.c:72-87 | the stored length is the full one exactly when that is below the size; a size of 0 means no limit |
| `Aml.PkgRoundTrip` | kernel/src/acpi/aml.c:544-564 | decoding inverts the encoding of every package length below 2^28 and reads exactly its bytes |
| `Aml.PkgBounded` | kernel/src/acpi/aml.c:544-564 | decoded lengths are below 2^28 and take one to four bytes of the table |
| `Aml.OrIsAdd` | kernel/src/acpi/aml.c:556-558 | the bytes are or-ed, as the model of the loop does, into clear bits, which adds them |
| `Aml.ParsePkgLength` | kernel/src/acpi/aml.c:544-564 | the byte loop computes the decoded length |
| `Aml.StripPad` | kernel/src/acpi/aml.c:379-406 | padding a stripped segment gives its four bytes back; stripping a padded one gives it back unless it ends in an underscore |
| `Aml.ParseNameSeg` | kernel/src/acpi/aml.c:379-406 | writes the stripped segment, reports its length, and touches nothing else; it leaves the buffer exactly when the segment does not fit |
| `Aml.NameRoundTrip` | kernel/src/acpi/aml.c:408-542 | parsing the encoding of any name (backslash and caret prefixes; null, single, dual or multi segments of up to four characters that start with A to Z or an underscore) gives its prefixes and dot-joined stripped segments, and reads exactly the encoding |
| `Aml.NamedExactly` | kernel/src/acpi/aml.c:408-542 | behind its backslashes and carets a name parses exactly when the next byte is 0, 0x2e, 0x2f, A to Z or an underscore and the table does not end too soon |
| `Aml.NameInside` | kernel/src/acpi/aml.c:408-542 | a parsed name takes at least one byte and none past the table's end |
| `Aml.ShortNameFits` | kernel/src/acpi/aml.c:408-542 | every name of up to 51 segments, five prefixes counting as one, fits in the buffer of the scope parser |
| `Aml.OverrunsExactly` | kernel/src/acpi/aml.c:326-337 | a scope's name overruns its buffer exactly when text and NUL are more than 256 bytes |
| `Aml.ParseSegments` | kernel/src/acpi/aml.c:425-474 | the segment loops write the dot-joined segments, fail exactly at the end of the table, and leave the buffer exactly when the text does not fit |
| `Aml.ParseNameString` | kernel/src/acpi/aml.c:408-542 | the name's text, NUL-terminated, and the bytes it took; failure; or a store behind the buffer, exactly when text and NUL do not fit |
| `Aml.BodyEndsWithPackage` | kernel/src/acpi/aml.c:363-374 | a scope's body ends where its package ends exactly when the package length covers the header; otherwise the length wraps |
| `Aml.ListNeverSucceeds` | kernel/src/acpi/aml.c:566-590 | no term list succeeds, for any bytes, any length and any answers of the namespace: it fails, unless the chain of first scopes meets an overlong name |
| `Aml.ObjectNeverSucceeds` | kernel/src/acpi/aml.c:592-609 | nor does any term object |
| `Aml.ParseTermList` | kernel/src/acpi/aml.c:566-590 | the loop computes the term list's result and ends on every table |
| `Aml.ParseTermObj` | kernel/src/acpi/aml.c:592-609 | computes the object's result: only a scope opcode is known |
| `Aml.ParseDefScope` | kernel/src/acpi/aml.c:310-377 | computes the scope's result; success would advance by the package length plus one |
| `Aml.ParseAml` | kernel/src/acpi/aml.c:291-308 | the entry point returns -1 for every table, unless the chain of first scopes meets an overlong name; it never returns 0 |

## Left out

- AddressSpace.AddressSpace.Map: the out-of-frames path stops at the call of `vmm_unmap` on the held lock; what is proved there is that exactly a prefix is mapped.
- AddressSpace.AddressSpace.Unmap: requires the page tables of the range to be there, because the recursion follows absent entries into page 0; it stops before the second free of the PML4.
- AddressSpace.AddressSpace.GetPhysicalAddress: reads the tables through the direct map, where the C code dereferences physical addresses.
- Heap.Heap.Refill: stops where the rollback of a refill that falls short starts, with no promise about the heap after it (`RollbackMissesFirst`, `RollbackEnds`): the `vmm_free` that ends the rollback needs an entry of an empty entry pool. The words that new page frames hold are a parameter, because the heap's words are not tied to the frames behind them.
- Heap.Heap.Malloc: excludes requests whose block size is 0 or cannot be rounded up to pages, and a refill that uses the window up exactly (`ResultIsTaken` says what `mm_alloc` returns then); after a refill that mapped another amount than it reserved it stops with the heap that `OnlyExactRefill` speaks of.
- Refill.Fill: when page 0 is free, a block that contains it is lost to the allocator's 0, and the exact conditions on the frames are not stated.
- RangeList.RangeList.AddNode: no callback for merged nodes, as `free` calls it.
- Format.NumberIsPrinted: minimum lengths whose adjusted value fits in the scratch buffer, and no wrap of the adjustment.
- Format.Vsprintf: matching arguments only; a missing or mismatched argument and the negation of the least long are undefined in C. Lengths of more than nine digits wrap like a 32-bit int.
- Format.Vsnprintf: as Vsprintf; a field that outgrows the scratch buffer is excluded (`FieldFitsScratch`).
- Aml.ParseNameString: stops at the first store behind the buffer; what the C code overwrites then is not modelled.
- Aml.ParseDefScope: the namespace (path resolution, node creation) is an arbitrary answer per scope; the parent walk of the C code never fills its name buffer.
- MemoryRuns.Run: unmaps only ranges without whole page tables whose pages all translate; the run stops at the two calls that do not return.
- Whether the page tables are interleaved by several CPUs: `vmm_map` and `vmm_unmap` are single steps; the physical allocator below them is the interleaved one.
- The kernel's out-of-band entry pool (`vmm_refillEntryPool`), which links one entry only.
- CR3, the PAT MSR, CPUID, TLB behaviour, mapping of the kernel's sections, boot glue.
- GDT, IDT, PIC, TSS, interrupt and task switching code: register plumbing.
- ACPI table discovery, the file system stub, `list.c`, `string.c`: shallow members.
