# Verified model of the Peregrine hypervisor's memory core

A Dafny 4.11 model of the parts of the Peregrine hypervisor that everything else
rests on: the page-table manager, the pool its tables come from, the physical
page allocator, the SMMUv3 command queue, the virtual interrupts of a vCPU, the
cpio reader of the boot image, and the memory and string primitives. `dafny
verify dfyconfig.toml` checks the whole project.

## How the model is built

*Values and steps.* What an operation means is a function on values (trees of
page-table entries, pools as lists, pages as sets of owners). What the C code
does is a class or a method that updates memory step by step and is proved to
compute that function. The theorems are about the functions, so they hold of the
steps.

| files | what they hold |
|---|---|
| `Arith` | alignment, rounding and remainders without division, and the lemmas that tie them to division |
| `Pool`, `PoolProofs`, `MPool` | the free-page pool: its meaning, conservation of entries, the intrusive lists |
| `PageTree`, `PageMap`, `PagePrepare`, `PageDefrag`, `PageQuery`, `PageConserve`, `PageShape` | page tables as trees: map, two-phase update, defragmentation, queries, conservation, shape |
| `Tlb`, `TlbMap` | table writes as seen by hardware that caches translations |
| `PageRange`, `PageTable`, `PageUpdate` | from bytes to pages; prepare and commit, whole runs, the life of a table; what an update of bytes does to every page |
| `Aarch64`, `VmModes` | the entry encoding and memory modes |
| `MmMemory`, `MmWalk`, `Mm` | tables in memory, and the manager that walks and rewrites them |
| `PmaSpec`, `PmaSearch`, `PmaAlign`, `PmaSplit`, `PmaRoom`, `Pma`, `PmaCached` | the physical page allocator: ownership, search, alignment, splitting and when it succeeds, the allocator, its cache |
| `Smmu` | the SMMUv3 command queue |
| `InterruptSpec`, `InterruptRuns`, `Interrupts` | virtual interrupts: the calls, what runs of them leave behind, the bit fields |
| `CpioSpec`, `Cpio` | the cpio reader |
| `MemWords`, `MemSet`, `MemCopy`, `MemMove`, `StrCopy` | memset, memcpy, memmove, string_ncpy |

*Units.* Inside the page-table manager and the page allocator, addresses are page
numbers; `PageRange.ToRequest` and `PmaAlign.BytesToPages` do the conversion from
bytes. Addresses are unbounded naturals, except where wrap-around is the point:
the interrupt counters, the SMMU registers and slot computation, the overlap test
of memmove, the steps of the cpio iterator, the ranges given to the page-table
manager, and the undo counter and addresses of the page allocator are 32-bit or
64-bit. An ID of the page allocator has a bit in
the 16-bit entries of the pages array only if it is below 8 (`PmaSpec.Bit`).
Table entries, modes and memory words are bit vectors.

*Memory.* `Mm` and `MPool` keep tables and list nodes in maps from addresses to
contents, so that freeing a page and writing a list node into it is a map
update. The memory primitives work on an array of bytes whose index is the
address. The bit fields of a vCPU are arrays of bits, word by word.

*Hardware.* TLB fills and evictions are arbitrary steps between any two table
writes. The SMMU consumes commands before every register access as an arbitrary
schedule says.

## Where the code does not do what one would expect

The members named with each of these say exactly when the code does what one would
expect. All but the last, where every input of such a length fails, come with a
lemma that gives an input.

- `mm_ptable_map` rounds the end of the range from the rounded-down physical
  start, so an unaligned start can add a page: `PageRange.RangeExact`,
  `PageRange.RangeTooLong`.
- It also clears the bits from 48 on of the begin, but not of the end. So a range
  from 2^48 on covers everything between what is left of its begin and the end of
  the address space: `PageRange.RangeExact`, `PageRange.HighRangeMapsAll`.
- `mm_vm_page_table_walk` does not refuse an address outside the address space. It
  indexes past the root tables, or answers for another page:
  `PageQuery.WalkExact`, `PageQuery.WalkOutside`.
- `mm_map_level` leaves a block alone when its attributes are already the
  requested ones, even if it maps to other frames: `PageTable.CommitExact`,
  `PageTable.StaleIsKept`.
- Defragmentation looks at attributes only, so it changes the meaning of tables
  that map uniform attributes to frames that are not consecutive or not aligned:
  `PageDefrag.DefragExact`, `PageDefrag.AliasesAreLost`. Identity mappings are
  never affected: `PageTable.IdentityRun`.
- `pma_assign` with size zero can mark the end of a chunk on a page that the ID
  does not own: `PmaSpec.GrantKeepsChunks`, `PmaSpec.NothingGrantedBreaks`.
- `pma_reserve_memory` does not test the ID. One without a bit is told that it got
  the pages and gets none: `PmaSpec.ClaimTakes`, `PmaSpec.EightTakesNothing`.
- The undo loop of `pma_reserve_memory` counts down with an unsigned index and ends
  if and only if the range does not start at page 0: `Pma.UndoEnds`,
  `Pma.PageAllocator.Reserve`, `Pma.ReserveToTheEndOrFromZero`.
- The range checks of the page allocator let accesses past the array through.
  `pma_assign` accepts `PAGE_COUNT` as a start and any end, `pma_reserve_memory`
  and `pma_release_memory` accept `PAGE_COUNT` as an end, and `pma_is_assigned` has
  no check. The outcome of each call says exactly when it leaves the array:
  `Pma.PageAllocator.Assign`, `Pma.PageAllocator.Reserve`,
  `Pma.PageAllocator.Release`, `Pma.PageAllocator.IsAssigned`, with the inputs in
  `Pma.AssignPastTheEnd`, `Pma.ReserveToTheEndOrFromZero`, `Pma.ReleaseToTheEnd` and
  `Pma.ScanPastTheEnd`.
- The aligned search goes on a whole unit further when the page after a used one is
  already a multiple, so it passes over free aligned runs. It succeeds if and only
  if one of the runs it looks at is free: `PmaSearch.ChosenExact`,
  `PmaSearch.AlignedRunMissed`; how much room is always enough:
  `PmaSearch.AmpleRoomFound`.
- `pma_free` trusts the cache. Through an address whose entry has outlived its
  allocation it can free the end of a chunk and leave the rest without one; it keeps
  chunks if and only if a chunk of the ID begins at the address:
  `PmaCached.CachedAllocator.Free`, `PmaSpec.DropKeepsChunks`,
  `PmaSpec.TailDroppedBreaks`; a run in which this happens:
  `PmaCached.StaleEntryBreaks`.
- A split allocation that asks for the identity is mapped to itself as a whole if and
  only if it need not be split; all pieces after the first are mapped behind the number that asks for it:
  `PmaSplit.SplitIdentity`. A piece of another allocation whose address happens to
  be that number goes astray: `PmaSplit.SplitMeans`. Inputs for both:
  `PmaSplit.SecondHalfStrays`.
- `pma_is_assigned` looks at no page and says yes if the range goes around the end
  of the address space to a lower page: `PmaCached.CachedAllocator.IsAssigned`,
  `PmaCached.RangeAround`.
- `string_ncpy` reads the word with the NUL to its end, which is outside memory if
  memory ends before: `StrCopy.Strncpy`, `StrCopy.NulWordOutside`.
- A pending interrupt whose type is changed by an enable is counted under its old
  type and later taken off the other counter: `InterruptSpec.CountersExact`,
  `InterruptSpec.PendingFiqMiscounts`.
- The overlap test of `memmove_peregrine` is wrong for every length above 2^63:
  `MemMove.OverlapTestExact`.

## Model

| member | source | states |
|---|---|---|
| `PoolProofs.AllocConserves` | src/mpool.c:180-237 | for every address: allocating takes exactly the returned aligned entry out of the free set of the pool and its fallbacks, fails only when all of them are empty, and keeps the pool valid |
| `PoolProofs.FreeConserves` | src/mpool.c:245-254 | freeing adds exactly that entry |
| `PoolProofs.AddChunkConserves` | src/mpool.c:149-174 | adding a buffer adds exactly the aligned entries that fit inside it |
| `PoolProofs.CarveConserves` | src/mpool.c:261-320 | carving a run out of the chunk list returns an aligned run inside one chunk and puts back every other entry, alignment slack on both sides included |
| `PoolProofs.AllocContiguousConserves` | src/mpool.c:261-347 | a contiguous allocation takes exactly the returned entries out of the free set |
| `PoolProofs.AllocContiguousFinds` | src/mpool.c:261-347 | it succeeds if and only if some chunk along the fallback chain holds an aligned run of that length |
| `PoolProofs.FiniConserves` | src/mpool.c:103-138 | finishing a pool moves every free entry to the fallback and loses none |
| `MPool.MPool.constructor` | src/mpool.c:60-67 | a new pool is empty |
| `MPool.MPool.WithFallback` | src/mpool.c:93-97 | a new pool that can take exactly what its fallback holds |
| `MPool.MPool.From` | src/mpool.c:74-87 | the new pool has what the old one had, the old one has nothing |
| `MPool.MPool.AddChunk` | src/mpool.c:149-174 | the node written into the chunk makes the lists represent the pool with that chunk |
| `MPool.MPool.AllocNoFallback` | src/mpool.c:180-218 | unlinking from the entry list, or shortening the first chunk, computes the specified allocation and keeps both intrusive lists intact |
| `MPool.MPool.Alloc` | src/mpool.c:224-237 | the walk along the fallbacks computes the specified allocation |
| `MPool.MPool.Free` | src/mpool.c:245-254 | the node written into the freed page makes the lists represent the pool with that entry |
| `MPool.MPool.AllocContiguousNoFallback` | src/mpool.c:261-320 | the search and the relinking of split chunks compute the specified carving |
| `MPool.MPool.AllocContiguous` | src/mpool.c:334-347 | the same along the fallbacks |
| `MPool.MPool.Fini` | src/mpool.c:103-138 | both list walks together give the fallback everything and leave the pool empty |
| `PageMap.MapListWf` | src/mm.c:374-444 | mapping keeps tables well formed: full tables, aligned blocks inside the address range, no table at level 0 |
| `PageMap.MapListView` | src/mm.c:374-444 | what every page translates to after a map, committed or not, complete or failed half way |
| `PageMap.SplitView` | src/mm.c:312-362 | splitting an entry into a table changes the translation of no page |
| `PageTree.SpanBytes` | src/mm.c:101-104 | the size of an entry: a page at level 0, 512 times as much at each level above |
| `PageConserve.FreeListConserves` | src/mm.c:196-213 | freeing a subtree gives back each of its tables once |
| `PageConserve.MapListConserves` | src/mm.c:284-444 | tables in the tree plus free pages stay the same collection through any map, failed ones included |
| `PagePrepare.PrepareMakesReadyList` | src/mm.c:538-544 | a successful prepare leaves every table in place that the commit is going to need |
| `PagePrepare.ReadyListSucceeds` | src/mm.c:560-566 | a prepared commit succeeds with any pool, even an empty one, and takes no page from it |
| `PagePrepare.ReadyListKept` | src/mm.c:546-566 | a commit keeps prepared what was prepared for a disjoint range |
| `PageDefrag.DefragShape` | src/mm.c:638-747 | what defragmentation makes of an entry is decided by whether all its leaves are absent or uniform in attributes |
| `PageDefrag.SafeDefragListView` | src/mm.c:638-778 | defragmenting a safe table changes the translation of no page |
| `PageDefrag.DefragExact` | src/mm.c:638-778 | the result is well formed and means the same if and only if the table is safe: every uniform subtree maps consecutive frames from an aligned one |
| `PageDefrag.AliasesAreLost` | src/mm.c:638-665 | a table whose pages all map to one frame loses its meaning |
| `PageDefrag.IdentityListSafe` | src/mm.c:633-665 | tables of identity mappings are safe |
| `PageDefrag.DefragListConserves` | src/mm.c:672-778 | defragmentation gives back each table it removes once and never takes one |
| `PageShape.DefragListShaped` | src/mm.c:672-778 | every table keeps its shape, safe to defragment or not |
| `PageQuery.GetAttrsExact` | src/mm.c:792-905 | the attribute query answers `a` if and only if the range is not empty, lies in the address space and every page in it has attributes `a`, at whatever level |
| `PageQuery.FindInExact` | src/mm.c:839-862 | the software walk reaches a block exactly when the page is mapped, and the block's frame plus the offset is the translation |
| `PageQuery.OffsetInBlock` | src/mm.c:1052-1076 | subtracting index times entry size level by level leaves the address modulo the block size, and what lies above the root tables |
| `PageQuery.PageTableWalk` | src/mm.c:1052-1076 | the whole walk, for every address: when the index leaves the root tables, when nothing is mapped, and what is returned otherwise |
| `PageQuery.WalkExact` | src/mm.c:1052-1076 | the walk answers with the translation of the page, or with none if there is none, if and only if the address is in the address space or the entry it is mistaken for is absent |
| `PageQuery.WalkOutside` | src/mm.c:857-862 | an address at which the walk leaves the root tables and one at which it answers for page 0 |
| `Tlb.ReplayDominates` | src/mm.c:277-304 | no behaviour of hardware caches more than filling at every opportunity does |
| `Tlb.WritesFill` | src/mm.c:277-310 | the hardware that this is about: a write of a valid entry can be cached at once and removes nothing that is cached; only an invalidation does |
| `Tlb.BreakThenMake` | src/mm.c:284-304 | removing, invalidating and rewriting an entry leaves no stale translation cached |
| `Tlb.ReplaceInStep` | src/mm.c:284-304 | replacing an entry keeps TLB and table in step |
| `TlbMap.MapListInStep` | src/mm.c:374-444 | mapping, unmapping and splitting keep them in step for every page, on every table of the right shape, whatever frames it maps to |
| `TlbMap.DefragListInStep` | src/mm.c:672-778 | so does defragmentation |
| `TlbMap.MapListQuiet` | src/mm.c:286-297 | without the flag no mapping invalidates anything |
| `TlbMap.DefragListQuiet` | src/mm.c:286-297 | nor does defragmentation |
| `PageRange.RangeExact` | src/mm.c:477-527 | for all 64-bit arguments: the request is for exactly the pages of the bytes asked for, up to the end of the address space, if and only if what the physical begin loses of its low and high bits does not move the end, or the end is capped and does not go around; and from a range outside nothing remains inside |
| `PageRange.RangeTooLong` | src/mm.c:499-501 | a range that maps one page too many |
| `PageRange.HighRangeMapsAll` | src/mm.c:499-514 | at 2^48 one page is asked for and the request is for all pages; one page further, for all but the first |
| `PageTable.CommitExact` | src/mm.c:477-566 | a commit that succeeds makes every page of the range translate as asked if and only if no block with those attributes maps it elsewhere; other pages never change |
| `PageTable.StaleIsKept` | src/mm.c:389-399 | a commit that succeeds and leaves the page of the request on its old frame |
| `PageTable.UpdateIsAtomic` | src/mm.c:578-590 | an update that is refused changes no translation, one that is done changes only its range, and it never panics between prepare and commit |
| `PageUpdate.UpdateExact` | src/mm.c:578-590 | an update that is done makes every page of the request translate as asked if and only if no block with those attributes maps it elsewhere and is left alone; other pages never change |
| `PageUpdate.RangeMapped` | src/mm.c:477-590 | the same in terms of the byte arguments: where the range is kept, every page of it is mapped to the frame as far from the physical begin as the page is from the IPA, with the attributes, or to nothing, if and only if nothing stale is left alone; no other page changes |
| `PageUpdate.BytesMapped` | src/mm.c:477-590 | byte by byte: the page of the o-th byte of the IPA range is mapped to the frame of the o-th byte of the physical range |
| `PageTable.PreparedCommitsSucceed` | src/mm.c:529-566 | after any number of successful prepares, commits of disjoint ranges among them in any order succeed with whatever pool is left and take no page |
| `PageTable.PrepareAllKeepsView` | src/mm.c:529-544 | preparing, successfully or not, changes no translation |
| `PageTable.RunRefines` | src/mm.c:477-778 | every run of map, unmap and defragment acts on each page like assignments to a map from pages to translations, if it defragments only safe tables and maps no page with its old attributes elsewhere |
| `PageTable.IdentityRun` | src/mm.c:1101-1186 | every run of identity mappings meets both conditions |
| `PageTable.RunCoherent` | src/mm.c:277-778 | after every run, also one that defragments what is not safe, and every behaviour of the hardware between its writes, what the TLB holds for a page is what the table says |
| `PageTable.RunConserves` | src/mm.c:196-778 | over every run, tables plus free pages stay the same collection |
| `PageTable.LifeConserves` | src/mm.c:228-275 | from init through any run to fini, every page is back in the pool exactly as often as before |
| `Aarch64.PageAddrBack` | src/arch/aarch64/mm.c:189-272 | the address goes through a page entry unchanged |
| `Aarch64.PageAttrsBack` | src/arch/aarch64/mm.c:189-292 | so do the attributes; the bit that marks a page is not one of them |
| `Aarch64.LargeAddrBack` | src/arch/aarch64/mm.c:189-272 | the address goes through a block entry unchanged |
| `Aarch64.LargeAttrsBack` | src/arch/aarch64/mm.c:189-292 | so do the attributes |
| `Aarch64.BlockRecognised` | src/arch/aarch64/mm.c:189-248 | a block entry is recognised as a block and not as a table at every level that allows blocks |
| `Aarch64.TableRoundTrip` | src/arch/aarch64/mm.c:177-292 | a table entry is recognised as a table and as nothing else, gives back its address, and has the valid bit as its only attribute |
| `Aarch64.AbsentRoundTrip` | src/arch/aarch64/mm.c:165-248 | the absent entry is not present, no block, no table, and has no attributes |
| `Aarch64.TableBits` | src/arch/aarch64/mm.c:223-248 | which words are valid and which are tables |
| `Aarch64.BlockBits` | src/arch/aarch64/mm.c:205-239 | which words are blocks, at every level |
| `Aarch64.TableWord` | src/arch/aarch64/mm.c:177-182 | the descriptor that hardware reads for a table: type, address, nothing else |
| `Aarch64.PageWord` | src/arch/aarch64/mm.c:189-198 | for a page: type, valid bit, address, attributes |
| `Aarch64.LargeWord` | src/arch/aarch64/mm.c:189-198 | for a large block |
| `Aarch64.EncodeRoundTrip` | src/arch/aarch64/mm.c:165-292 | every entry the manager builds is read back as it was, at every level |
| `Aarch64.PageMoves` | src/mm.c:346-350 | adding to the word of a page entry gives the entry of the address plus as much, with the same attributes |
| `Aarch64.LargeMoves` | src/mm.c:346-350 | the same for block entries |
| `Aarch64.ModeRoundTrip` | src/arch/aarch64/mm.c:476-568 | a mode survives its translation to stage-2 attributes and back, for every mode |
| `Aarch64.Stage2Fields` | src/arch/aarch64/mm.c:476-533 | what hardware reads from the attributes of every mode: memory type, access, execution, shareability, the software bits, and no other bit |
| `Aarch64.Stage1Fields` | src/arch/aarch64/mm.c:433-474 | the same for stage 1 |
| `Aarch64.ModeFields` | src/arch/aarch64/mm.c:535-569 | the mode read from any attributes, field by field |
| `Aarch64.Stage1AttrsPresent` | src/arch/aarch64/mm.c:435-474 | stage-1 attributes fit their mask, always differ from those of a table, and are those of a present entry unless the mode is invalid |
| `Aarch64.Stage2AttrsPresent` | src/arch/aarch64/mm.c:476-532 | stage-2 attributes fit their mask, always differ from those of a table, and are those of a present entry if and only if the mode is not the unmapped one |
| `Aarch64.CombineKeepsBlockAttrs` | src/arch/aarch64/mm.c:601-624 | merging a table into a block keeps the attributes of the blocks it held |
| `Aarch64.CombineFields` | src/arch/aarch64/mm.c:601-624 | what the attributes of a table do to every bit of those of a block |
| `Aarch64.AttrsFaithful` | src/arch/aarch64/mm.c:189-292 | absent entries, tables and mapped modes of both stages have the attributes that the tree model gives them |
| `VmModes.MapThenGetMode` | src/mm.c:1028-1040 | after mapping a range with any mapped mode, asking for the mode of any non-empty part of it returns that mode |
| `VmModes.GetModeExact` | src/mm.c:1028-1040 | a mode is returned if and only if the rounded range is not empty, in the address space and has the same attributes everywhere, and it is the mode of those |
| `VmModes.ModeMapped` | src/mm.c:978-992 | after mapping with any mode the page of every byte is mapped to the frame of that byte with the attributes of the mode, or is unmapped if the mode says so |
| `MmWalk.IndexSelects` | src/mm.c:130-146 | the index of an address selects the entry that covers it and never leaves the table, and the level end is the end of that table |
| `MmWalk.NextBlock` | src/mm.c:110-114 | the next block starts where the current entry ends |
| `Mm.MemoryManager.FreePagePte` | src/mm.c:196-213 | frees in memory what the specification frees in the tree, and touches no other table |
| `Mm.MemoryManager.ReplaceEntry` | src/mm.c:284-304 | the stored entry is the logged one, and the writes, invalidations and freed subtree are those of the specification |
| `Mm.MemoryManager.PopulateTablePte` | src/mm.c:312-362 | the table built in a fresh page is the split of the entry; without a page nothing changes |
| `Mm.MemoryManager.MapLevel` | src/mm.c:374-444 | walking a table computes the specified map for the part of the range in it |
| `Mm.MemoryManager.MapRoot` | src/mm.c:451-470 | walking the root tables computes the specified map of the whole range |
| `Mm.MemoryManager.PtableMap` | src/mm.c:477-527 | from bytes to pages and through the root, for any arguments: the map that `RangeExact` and `CommitExact` are about |
| `Mm.MemoryManager.PtableUpdate` | src/mm.c:578-590 | prepare, then commit |
| `Mm.MemoryManager.DefragEntry` | src/mm.c:672-747 | defragments an entry in memory as the specification does in the tree, on every table |
| `Mm.MemoryManager.DefragTable` | src/mm.c:672-747 | the loop over a table finds out whether its entries can be merged |
| `Mm.MemoryManager.MergeEntry` | src/mm.c:638-665 | replaces a table by the one entry its entries amount to |
| `Mm.MemoryManager.PtableDefrag` | src/mm.c:753-778 | defragments all root tables |
| `Mm.MemoryManager.PtableInit` | src/mm.c:228-254 | all entries of the fresh root tables are absent; nothing is taken on failure |
| `Mm.MemoryManager.PtableFini` | src/mm.c:259-275 | gives every table back to the pool |
| `PmaSpec.ClaimKeepsChunks` | src/pma.c:395-437 | turning free pages into a chunk keeps the chunk invariant of every ID |
| `PmaSpec.ClaimBits` | src/pma.c:668-678 | what claiming does to the two bits of every ID on every page |
| `PmaSpec.GrantBits` | src/pma.c:785-795 | what sharing does: nothing to other IDs |
| `PmaSpec.DropBits` | src/pma.c:867-876 | what giving up does: nothing to other IDs |
| `PmaSpec.CutOutBits` | src/pma.c:464-491 | what releasing does: nothing to other IDs, and the page before ends a chunk that runs into the pages |
| `PmaSpec.ClaimTakes` | src/pma.c:413-420 | reserved pages are taken if and only if the ID has a bit or there are none |
| `PmaSpec.EightTakesNothing` | src/pma.c:413-420 | ID 8 reserves a page and the page stays free |
| `PmaSpec.GrantKeepsChunks` | src/pma.c:738-812 | sharing pages keeps the invariant if and only if at least one page is shared or the marked page is owned already |
| `PmaSpec.NothingGrantedBreaks` | src/pma.c:785-795 | three pages on which assigning nothing breaks the invariant |
| `PmaSpec.DropKeepsChunks` | src/pma.c:824-887 | freeing from a page to the end of its chunk keeps the invariant if and only if the chunk begins there |
| `PmaSpec.TailDroppedBreaks` | src/pma.c:870-877 | freeing the second page of a chunk of two breaks it |
| `PmaSpec.CutOutKeepsChunks` | src/pma.c:441-494 | cutting pages out of chunks keeps the invariant |
| `PmaSpec.ReserveThenRelease` | src/pma.c:395-494 | reserving free pages and releasing them restores the array exactly |
| `PmaSpec.Handover` | src/load.c:278-296 | claimed by one ID, granted to another and dropped by the first is the same as claimed by the second |
| `Pma.PageAllocator.constructor` | src/pma.c:69-69 | memory for the array, with any contents |
| `Pma.PageAllocator.Init` | src/pma.c:532-577 | after it the pages of the array and page 0 belong to the hypervisor and all others are free; and when the reservation of the array is refused or leaves the array |
| `Pma.PageAllocator.GetStartPage` | src/pma.c:277-312 | the one page where the chunk that reaches the given page begins |
| `Pma.PageAllocator.GetSize` | src/pma.c:348-371 | the length of the owner's chunk around the page; for another ID the distance to the next end of a chunk of that ID or of memory |
| `Pma.PageAllocator.IsAssigned` | src/pma.c:505-530 | true exactly when every page of the range exists and belongs to the ID; the scan leaves the array exactly when all pages up to its end do and the range goes on |
| `Pma.PageAllocator.Free` | src/pma.c:824-887 | clears exactly one chunk of exactly one ID, and says exactly when it does |
| `Pma.PageAllocator.Assign` | src/pma.c:738-812 | exactly when it is refused, done, or leaves the array, and that exactly those pages are shared |
| `Pma.AssignRefused` | src/pma.c:741-782 | exactly which arguments and pages make it refuse, and which make it leave the array |
| `Pma.PageAllocator.Reserve` | src/pma.c:395-437 | all pages or none for every range and ID; exactly when it is refused, done, leaves the array, or never ends |
| `Pma.PageAllocator.Release` | src/pma.c:441-494 | exactly those pages leave the ID's chunks, what is left are chunks, and exactly when it is refused or leaves the array |
| `Pma.UndoEnds` | src/pma.c:429-431 | the 64-bit count down falls below the start of the range if and only if that is not 0 |
| `Pma.AssignPastTheEnd` | src/pma.c:758-795 | two assignments that leave the array |
| `Pma.ReserveToTheEndOrFromZero` | src/pma.c:408-434 | a reservation that leaves the array and one that never ends |
| `Pma.ReleaseToTheEnd` | src/pma.c:457-467 | a release that leaves the array |
| `Pma.ScanPastTheEnd` | src/pma.c:513-527 | a range whose scan leaves the array |
| `Pma.PageAllocator.Search` | src/pma.c:639-661 | the loop takes the run that the chain of runs it looks at leads to, for every alignment and offset |
| `PmaSearch.ChosenExact` | src/pma.c:639-666 | a run is taken if and only if one of those looked at is free, and it is one of those |
| `PmaSearch.VisitsAligned` | src/pma.c:654-659 | every run looked at after the first starts at the offset from a multiple of the alignment |
| `PmaSearch.NextStartExact` | src/pma.c:651-659 | the next run starts at the offset from the least multiple behind the page after the used one |
| `PmaSearch.LowestFound` | src/pma.c:639-661 | without an alignment the lowest run that fits is taken |
| `PmaSearch.AmpleRoomFound` | src/pma.c:639-661 | with one, a run is found if there are as many free pages on end as are needed plus a unit and the offset |
| `PmaSearch.AlignedRunMissed` | src/pma.c:654-659 | a free aligned run that is passed over |
| `Pma.PageAllocator.AlignedAlloc` | src/pma.c:594-701 | a success claims the run that `PlaceExact` is about, which was free, of exactly the rounded-up length, congruent to the page of the IPA, or to 0 for the identity, modulo the alignment in effect, for that ID alone, and changes no other page; a failure changes nothing |
| `Pma.PageAllocator.ChooseAlignment` | src/pma.c:616-635 | the loop over the levels finds the largest one of which the range holds a whole aligned entry |
| `PmaAlign.FitsExact` | src/pma.c:626-628 | the comparison with the entry size and the offset tells whether the range from the page of the IPA on holds a whole aligned entry of the level |
| `PmaAlign.HoldsEntryBytes` | src/pma.c:616-619 | that is, whether [ipa, ipa + size) does, for an IPA at a page boundary |
| `PmaAlign.PlaceExact` | src/pma.c:594-666 | an allocation finds a place if and only if its arguments are valid and a run that the search looks at under the alignment in effect is free; the place is free and congruent to the IPA, and the lowest without alignment |
| `PmaAlign.PagesHold` | src/pma.c:647-647 | the number of pages taken is the least that holds the size |
| `PmaAlign.AutoAligned` | src/pma.c:616-635 | with automatic alignment the frames of some entry of the chosen level in the range are aligned like the entry, so that one entry can map them, and no higher level has an entry in the range |
| `Pma.PageAllocator.AlignedAllocWithSplit` | src/pma.c:713-731 | the recursion allocates exactly the specified pieces, each half with its own alignment, and keeps those of the first half when the second fails |
| `PmaSplit.SplitSound` | src/pma.c:713-731 | the pieces were free and are apart; on success they make up the whole size, each mapped at what is asked for at its place, and there is one piece if and only if there was room for the whole |
| `PmaSplit.HalfExact` | src/pma.c:719-721 | the first half is half of the whole pages, rounded up |
| `PmaRoom.SplitSucceeds` | src/pma.c:713-731 | with automatic alignment or none and enough splits to come down to single pages, a split allocation succeeds if and only if there are as many free pages as it needs, wherever they are, and uses exactly so many |
| `PmaSplit.HypervisorToItself` | src/pma.c:316-326 | all pieces of the hypervisor are mapped to themselves |
| `PmaSplit.SplitMeans` | src/pma.c:680-690 | on success the pieces of a VM tile the IPA range exactly once if and only if none is asked for at the number for the identity and lies elsewhere; so always, if that number is not a page boundary of the range |
| `PmaSplit.SplitIdentity` | src/pma.c:713-731 | a VM that asks for the identity gets one whole piece mapped to itself if and only if there is room for the whole; otherwise the first piece is mapped to itself and the others tile the pages behind the number |
| `PmaSplit.SecondHalfStrays` | src/pma.c:713-731 | two splits in a memory with single free pages: the second piece of an identity mapping behind the number, and the second piece of another mapping taken for an identity |
| `Pma.PageAllocator.HandOver` | src/load.c:395-413 | allocate with any alignment, assign with the size found, free: the VM owns the run as one chunk and nothing else has changed |
| `PmaCached.RunsApart` | src/pma.c:85-120 | live allocations never overlap |
| `PmaCached.AllocKeepsCache` | src/pma.c:101-110 | caching an allocation over whatever had its slot keeps every other live allocation described correctly |
| `PmaCached.SetOwnersKeepsCache` | src/pma.c:803-863 | so does changing the owners of an entry, for all allocations that do not start at its address |
| `PmaCached.CachedAllocator.Alloc` | src/pma.c:594-701 | allocates like the uncached allocator, and what is then in the cache |
| `PmaCached.CachedAllocator.Assign` | src/pma.c:738-812 | adds an owner to a whole live allocation in the pages and in the cache; for any other range, what happens to the pages and which live allocations the cache still describes |
| `PmaCached.CachedAllocator.Free` | src/pma.c:824-887 | for every address: the start that is used, when it succeeds, what it frees, and that chunks are kept if and only if one begins there, as always for the start of a live allocation |
| `PmaCached.CachedAllocator.GetStartPage` | src/pma.c:277-312 | for every address the answer of the cache or of the scan; for the start of a live allocation they are the same, whatever was evicted or is stale |
| `PmaCached.CachedAllocator.GetSize` | src/pma.c:348-371 | the same for the size, for every owner of a live allocation |
| `PmaCached.CachedAllocator.IsAssigned` | src/pma.c:505-530 | the same for ranges, also those that go around the address space; cache and scan agree on every part of a live allocation that begins where it begins |
| `PmaCached.RangeAround` | src/pma.c:513-529 | a range whose last page is below its first one |
| `PmaCached.CachedStartExact` | src/pma.c:279-311 | the start in the cache is the one of the scan if and only if the page is taken and no chunk of the ID runs into it |
| `PmaCached.StaleEntryBreaks` | src/pma.c:824-887 | one page, one page, free both, two pages, free through the address of the second: the free succeeds and leaves a chunk without an end |
| `Smmu.EmptySlotsExact` | src/arch/aarch64/arm_smmuv3/arm_smmuv3.c:747-765 | the 32-bit computation from index and wrap bit gives exactly the queue size minus the commands not consumed at the time of the reads |
| `Smmu.MeetExact` | src/arch/aarch64/arm_smmuv3/arm_smmuv3.c:796-834 | equal index and wrap bit mean that everything is consumed, and nothing else does |
| `Smmu.NextWriteExact` | src/arch/aarch64/arm_smmuv3/arm_smmuv3.c:614-644 | the next producer value stands for one command more, across the end of the ring |
| `Smmu.WriteKeeps` | src/arch/aarch64/arm_smmuv3/arm_smmuv3.c:646-659 | with a free slot, writing the next one overwrites no unconsumed command |
| `Smmu.CommandQueue.Consume` | src/arch/aarch64/arm_smmuv3/arm_smmuv3.c:614-669 | the command the hardware reads from memory is the oldest one not consumed: first in, first out |
| `Smmu.CommandQueue.Hardware` | src/arch/aarch64/arm_smmuv3/arm_smmuv3.c:732-865 | hardware that consumes at any time never gets ahead of the producer |
| `Smmu.CommandQueue.IssueCmd` | src/arch/aarch64/arm_smmuv3/arm_smmuv3.c:732-794 | appends the command if and only if there was room when the driver looked, under every interleaving with the hardware |
| `Smmu.CommandQueue.RdMeetsWrIdx` | src/arch/aarch64/arm_smmuv3/arm_smmuv3.c:796-834 | true means that everything has been consumed; it gives up after exactly 100000 looks, and hardware that consumes before every look is not given up on if the queue has at most as many slots |
| `Smmu.CommandQueue.SynchronizeCmdq` | src/arch/aarch64/arm_smmuv3/arm_smmuv3.c:606-865 | at most one command is issued, with the opcode of CMD_SYNC, no completion signal and no other bit; success means that it and every earlier command have been consumed |
| `InterruptSpec.CountersExact` | inc/pg/vcpu.h:49-56 | after every run the 32-bit sum of the counters is the number of enabled and pending interrupts; each counter is right if and only if type changes of pending interrupts cancel out |
| `InterruptSpec.RunCounts` | src/api.c:512-620 | by how much each counter is off after any run |
| `InterruptSpec.EnableCounts` | src/api.c:512-550 | enabling moves the counters apart exactly when it changes the type of a pending interrupt |
| `InterruptSpec.DisableCounts` | src/api.c:551-569 | disabling keeps the counters as right as they were |
| `InterruptSpec.InjectCounts` | src/api.c:248-300 | so does injecting |
| `InterruptSpec.GetCounts` | src/api.c:580-620 | so does taking |
| `InterruptSpec.PendingFiqMiscounts` | src/api.c:525-550 | a two-step run after which both counters are wrong and the next take wraps below zero |
| `InterruptSpec.GetsDrain` | src/api.c:575-620 | repeated gets return exactly the enabled and pending interrupts in ascending order, each once, then the invalid ID for ever |
| `InterruptRuns.RunHistory` | src/api.c:248-620 | after every run, from the calls alone: an interrupt is enabled if and only if it was enabled and not disabled since, pending if and only if it was injected and no get returned it since, and an FIQ if and only if it was enabled as one and neither as an IRQ nor disabled since |
| `InterruptRuns.AnswerExact` | src/api.c:580-620 | the next get returns the least interrupt that those calls left enabled and pending, or the invalid ID |
| `Interrupts.VcpuInterrupts.Enable` | src/api.c:512-573 | the bit fields and counters follow the specified enable and disable, for the two types and for a number that is neither; an invalid ID changes nothing |
| `Interrupts.VcpuInterrupts.Inject` | src/api.c:248-300 | the bit fields follow the specified injection, and the primary VM is told to kick the vCPU, or another vCPU that can switch wakes it, exactly when this is the first enabled and pending interrupt |
| `Interrupts.VcpuInterrupts.Get` | src/api.c:580-620 | the word-by-word search finds the lowest enabled and pending interrupt and takes it |
| `CpioSpec.SameNames` | src/arch/aarch64/std.c:304-319 | comparing terminated strings stays inside them and tells whether they are equal |
| `CpioSpec.DifferenceAt` | src/arch/aarch64/std.c:304-319 | the comparison returns the difference of the first characters that differ, or at the end of the first string |
| `CpioSpec.ParseEncoded` | src/cpio.c:56-99 | reading an encoded file finds its name, contents and end, unless it is the trailer |
| `CpioSpec.ParseExact` | src/cpio.c:33-99 | for any bytes: the layout of the header, byte by byte, the padding, and exactly when no file is found |
| `CpioSpec.FindEncoded` | src/cpio.c:104-118 | in the archive of any list of files, looking for a name finds the contents of the first file of that name, or nothing if there is none |
| `Cpio.MemIter.Advance` | src/memiter.c:123-133 | moves exactly when the limit allows, also for lengths that go around the address space |
| `Cpio.Strncmp` | src/arch/aarch64/std.c:304-319 | the difference of the first characters that differ, zero exactly for strings that agree up to a NUL or the length |
| `Cpio.Next` | src/cpio.c:56-99 | on any bytes: reads the next file with every access inside the archive, or leaves the iterator alone |
| `Cpio.GetFile` | src/cpio.c:104-118 | ends on any bytes, and what it returns lies inside the archive and is the specified search result |
| `MemSet.Memset` | src/arch/aarch64/std.c:22-108 | fills exactly the range for every length and alignment, with aligned word stores only |
| `MemSet.FillEndBytes` | src/arch/aarch64/std.c:31-42 | the overlapping byte stores fill up to four bytes at each end, and all of a range of up to eight |
| `MemSet.FillEndWords` | src/arch/aarch64/std.c:66-81 | the overlapping word stores fill up to 28 bytes at each end |
| `MemSet.FillMiddle` | src/arch/aarch64/std.c:95-101 | the 64-bit loop fills the rest but for what is filled already |
| `MemWords.SplatBytes` | src/arch/aarch64/std.c:58-58 | the multiplication puts the byte into all four places |
| `MemCopy.MergedBytes` | src/arch/aarch64/std.c:166-204 | shifting and merging two adjacent source words gives the four source bytes in between, for every misalignment |
| `MemCopy.CopyMerged` | src/arch/aarch64/std.c:157-208 | the merge loops copy exactly, read only inside the source and leave less than 19 bytes |
| `MemCopy.CopyAligned` | src/arch/aarch64/std.c:132-155 | the word loop and the bits of the rest copy exactly what is left |
| `MemCopy.CopyRest` | src/arch/aarch64/std.c:209-228 | so do the bits of the rest by bytes |
| `MemCopy.Memcpy` | src/arch/aarch64/std.c:110-235 | copies exactly the range between ranges that do not overlap, for every length and pair of alignments, and writes nothing else |
| `MemMove.OverlapTestExact` | src/arch/aarch64/std.c:245-247 | the unsigned comparison tells whether the ranges overlap if and only if the length is at most 2^63 |
| `MemMove.MoveUp` | src/arch/aarch64/std.c:249-265 | copying upwards is right for a destination below the source |
| `MemMove.MoveDown` | src/arch/aarch64/std.c:266-283 | copying downwards is right for a destination above the source |
| `MemMove.Memmove` | src/arch/aarch64/std.c:237-286 | copies as if through a buffer, however the ranges overlap, and writes nothing else |
| `MemWords.DetectExact` | src/string.c:24-25 | the bit trick finds a NUL exactly when one of the eight bytes is one |
| `StrCopy.WordInside` | src/string.c:93-106 | a word without a NUL lies wholly inside the string |
| `StrCopy.NulWordOutside` | src/string.c:99-102 | a string of two characters four bytes before the end of memory, read as a word |
| `StrCopy.Strncpy` | src/string.c:85-118 | the buffer holds the string up to its length and NULs in the rest, and nothing else is written; reading stays in memory exactly when the word with the NUL does |

## Left out

- `MemMove.Memmove`: lengths above 2^63, for which `OverlapTestExact` shows that the code takes the branch for ranges that do not overlap.
- `Pma.PageAllocator.AlignedAlloc`: alignments from 31 to 254, for which the shift is not defined in C, are treated as powers of two.
- Concatenated root tables are one table of several times 512 entries in memory; the loops of `mm_map_root` and `mm_ptable_defrag` go over its parts.
- The loops of the pool over its fallbacks are recursion down the chain.
- Locks are not modelled; every operation is taken as running alone.
- The page-table calls inside the page allocator are taken as succeeding; undoing after a failed mapping is a to-do in the source.
- `PmaCached.CachedAllocator.Assign`: what is known of a live allocation is given up when a part of it is shared, because the cache then claims the whole for the ID.
- `Pma.PageAllocator.Reserve`: IDs of 16 and above, for which the shift is not defined in C, are treated like those from 8 on.
- After an access outside the pages array the model stops.
- `Aarch64.EncodeRoundTrip`: addresses are words; that the page numbers of the tree model and the address bits of the words correspond is not stated.
- Wrap-around of addresses in the pool is not modelled.
- `PageRange.RangeExact`: address spaces of more than 48 bits, which the architecture code does not set up.
- Barriers, cache maintenance and system registers appear only as TLB and SMMU steps.
- Parsing of device trees and manifests, because it rests on a library that is not part of this model.
- Boot, VM loading beyond the hand-over of memory, the GIC, virtio, debug and performance-monitor emulation, UART, logging, the Linux driver and the FF-A helpers: register access, sequencing and text.
- UUID parsing: its scratch buffer has no defined terminator, so the code does not decide a round trip.
