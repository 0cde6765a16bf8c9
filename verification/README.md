# UNIX Version 11 kernel: verified model

This project models the algorithmic core of the UNIX Version 11 kernel and proves that it
does what its callers rely on. Each component has the same shape. Pure functions over a state
datatype say what an operation computes (`AllocF`, `MapF`, `WalkParts`, `Place`, ...). A class
or an in-place method runs the steps of the source, with its loops and recursion, and is proved
to compute that function. Lemmas relate the function to an independent description: a map from
byte addresses to their status, a flat map from pages to entries, a flat byte array, lexical
normalisation of paths, the number of live users of a page.

| files | component |
|---|---|
| `Align`, `RamTable`, `Repainting`, `PhysSpec`, `PhysResize`, `PhysAllocate`, `PhysCanon`, `PhysPlace`, `PhysFree`, `PhysDamage`, `PhysStale`, `PhysRun`, `PhysAlloc` | the physical RAM allocator, whose record table lives in memory it manages itself |
| `Bits`, `PageCfg`, `PageTree`, `PageMap`, `PagePrune`, `PageRange`, `PageNeed`, `PageSpace`, `PageRun`, `PageFlags`, `PageLife`, `Glacier` | the page-table manager |
| `VfsPath`, `Vfs`, `VfsChange`, `VfsLaws` | path walking, mounts and namespace changes |
| `BlockIo`, `Fat`, `FatLayout` | byte access over block devices and partitions, the FAT reader and the layout of its volumes |
| `AcpiMap`, `AcpiSpace`, `Reloc`, `RelocWords`, `Line` | ACPI mapping counts and their effect on page tables, two-stage kernel relocation, line drawing |
| `Wrappers`, `Stride` | the `Option` type, loops over the pages of a byte range |

## What does not hold

Some properties one would expect of the code are false. For each, a lemma says exactly when the
property holds, and a lemma gives an input, or a family of inputs, on which it does not.

- `shrink` rounds the start of the part it frees but not its size. It returns exactly the tail
  of the table's storage if and only if the kept size is a whole number of pages
  (`ShrinkTailExact`), which among the configurable page sizes is so only for 4 KiB
  (`WholePagesIff`). With 16 KiB or 64 KiB pages it frees foreign memory (`ShrinkFreesForeign`).
- `free` keeps the records disjoint if and only if it does not split the record that holds the
  table while every slot is in use (`FreeDisjointIff`, `ConflictMeans`; input in `FreeCanBreak`).
  It keeps them fully merged if and only if it does not grow the table while it still holds a
  record that touches it (`FreeMergesIff`; input in `FreeCanFragment`). It fails if and only if
  it has to grow the table and no free memory can hold the larger one (`FreeFailsIff`).
- `map_page` keeps every table in use if and only if the pool is empty or has a frame for each
  table absent on the way (`MapNonEmptyIff`; input in `FailExample`).
- A kernel `unmap_page` keeps a process space intact if and only if the space does not use the
  table under the root entry of the page while that table, and each below it on the way, has no
  other entry (`KernelUnmapMirrorsIff`, `UnmapEmptiesIff`). The family of inputs in `StaleRoot`
  leaves a process root that leads to a freed table.
- Once all ACPI regions are unmapped again, translations are as before if and only if no page of
  a mapped region was translated before (`UnmappedRestoresIff`; inputs in `TranslationLost`).
- A mount under a path that is not canonical is accepted but affects no walk (`MountElsewhere`;
  inputs in `MountTrailingSlash`).
- A write panics if and only if it is empty and at an aligned offset (`BlockFile.Write`).
- A FAT table entry panics if and only if it straddles two sectors (`NextClustIff`; input in
  `StraddleExample`), which only FAT12 entries do. The reader's choice of the FAT type agrees
  with section "FAT Type Determination" of the Microsoft FAT32 File System Specification if and
  only if the 16-bit size field is zero just for large counts (`TypeRule`; inputs in
  `TypeDisagrees`).
- Two-stage relocation equals one-stage relocation if and only if no cell is named so often that
  the surplus shifts show (`TwoStagesAreOne`; inputs in `TwiceIsWrong`).

## Model

| member | source | states |
|---|---|---|
| `Align.AlignUpLeast` | kernel/src/ram/mod.rs:248-263 | `align_up` is the least aligned value not below its argument |
| `Align.AlignDownGreatest` | kernel/src/ram/mod.rs:248-263 | `align_down` is the greatest aligned value not above its argument |
| `Align.SizeAlignProps` | kernel/src/ram/mod.rs:248-263 | `size_align` (characterised by `SizeAlignLeast`) never rounds down, is never zero, and is idempotent, so building parameters twice is harmless |
| `Align.SizeAlignMonotone` | kernel/src/ram/mod.rs:248-263 | `size_align` is monotone |
| `Bits.SizeAlignLeast` | kernel/src/ram/mod.rs:258-263 | a size below a page is rounded to the least power of two that holds it, so to less than twice the size, and zero to one; any other size to the least whole number of pages |
| `RamTable.InsertPaints` | kernel/src/ram/physalloc.rs:416-458 | inserting a record that overlaps nothing adds exactly its bytes to the byte map and keeps all records disjoint |
| `RamTable.InsertCoalesced` | kernel/src/ram/physalloc.rs:416-458 | merging on both sides keeps the table fully coalesced |
| `RamTable.InsertCount` | kernel/src/ram/physalloc.rs:416-458 | how an insertion changes the number of valid records |
| `Repainting.CarveBytes` | kernel/src/ram/physalloc.rs:384-414 | cutting a range out removes exactly its bytes once the saved parts are back |
| `Repainting.RepaintBytes` | kernel/src/ram/physalloc.rs:384-414 | cutting a range out and inserting it with a new kind changes the byte map on the range only, and keeps disjointness and coalescing |
| `Repainting.RepaintHolds` | kernel/src/ram/physalloc.rs:384-414 | a range elsewhere stays inside a single record of its kind |
| `Repainting.PartsNoBridge` | kernel/src/ram/physalloc.rs:384-414 | the saved parts never close a gap, so putting them back cannot shrink the table |
| `PhysResize.PlacementSafe` | kernel/src/ram/physalloc.rs:466-497 | the new table storage is page aligned, inside one free conventional record and clear of the pending request, in each placement case |
| `PhysResize.PlacementOffStorage` | kernel/src/ram/physalloc.rs:466-503 | old and new table storage do not meet |
| `PhysResize.AllocHereRepaints` | kernel/src/ram/physalloc.rs:351-379 | on a free range inside one record of the right type the split of `alloc` succeeds and is a repaint of the range |
| `PhysResize.ExpandMoves` | kernel/src/ram/physalloc.rs:460-513 | `expand` fails only if no placement exists; otherwise it keeps every record, claims the new storage, frees the old, and its inner `unwrap` cannot fail |
| `PhysResize.ExpandQuiet` | kernel/src/ram/physalloc.rs:460-513 | the allocation and the release inside `expand` never resize the table again |
| `PhysResize.CompactKeeps` | kernel/src/ram/physalloc.rs:515-549 | compaction moves every record out of the slots that are given up |
| `PhysResize.ShrinkTailExact` | kernel/src/ram/physalloc.rs:537-543 | `shrink` frees exactly the tail of the table storage if and only if the kept size is whole pages |
| `PhysResize.ShrinkCutQuiet` | kernel/src/ram/physalloc.rs:515-549 | the release inside `shrink` never resizes the table again |
| `PhysResize.ShrinkMoves` | kernel/src/ram/physalloc.rs:515-549 | `shrink` keeps all records and the byte map, except that the given-up storage becomes free |
| `PhysAllocate.MakeRoomMoves` | kernel/src/ram/physalloc.rs:342-349 | after the growth check the table has four spare records, and only table storage has changed |
| `PhysAllocate.TargetShape` | kernel/src/ram/physalloc.rs:331-340 | the range a request names or the search finds has the rounded size and the requested alignment |
| `PhysAllocate.AllocBytes` | kernel/src/ram/physalloc.rs:331-382 | `alloc` keeps the invariant; on success exactly the returned aligned range, free before and clear of the table, changes to its new kind; on failure at most the table moves |
| `PhysCanon.RunInOneRecord` | kernel/src/ram/physalloc.rs:416-458 | in a coalesced table a run of bytes of one kind lies inside one record |
| `PhysCanon.FirstFitComplete` | kernel/src/ram/physalloc.rs:317-329 | the search returns none exactly when no aligned free run of the size and type exists in the byte map |
| `PhysPlace.FindsFirstFit` | kernel/src/ram/physalloc.rs:317-329 | the search returns the least aligned address of the first record in the table that has room for the rounded size, and nothing exactly when no record has |
| `PhysCanon.PlacementComplete` | kernel/src/ram/physalloc.rs:466-497 | the placement search of `expand` succeeds exactly when the byte map has an aligned free place clear of the pending request |
| `PhysPlace.PlacementFirst` | kernel/src/ram/physalloc.rs:466-497 | `expand` puts the table at the least aligned address clear of the pending request in the first free record that has one, and fails exactly when none has |
| `PhysCanon.ExpandIff` | kernel/src/ram/physalloc.rs:460-513 | `expand` succeeds exactly when the byte map has such a place for the larger table |
| `PhysCanon.ExpandKeepsRequest` | kernel/src/ram/physalloc.rs:342-367 | growing the table leaves a pending request inside one free record |
| `PhysCanon.AllocSucceeds` | kernel/src/ram/physalloc.rs:331-382 | a request, at a given address or anywhere, succeeds if and only if its types allow it, it changes something, the bytes it names (or some aligned run) are free in the byte map or, in a crowded table, storage about to be left, and a crowded table has a free place to grow into |
| `PhysPlace.AllocWhere` | kernel/src/ram/physalloc.rs:331-382 | a request for an address gets the least aligned one not below it, any other the first fit of the table before the call |
| `PhysPlace.AllocLength` | kernel/src/ram/physalloc.rs:342-349 | a successful request doubles the table exactly when fewer than four records are spare, and otherwise never enlarges it |
| `PhysCanon.Canonical` | kernel/src/ram/physalloc.rs:48-59 | two coalesced tables with the same byte map hold the same valid records |
| `PhysCanon.FiltSizeCountsBytes` | kernel/src/ram/physalloc.rs:293-300 | the size sum of disjoint records is the number of bytes they cover |
| `PhysCanon.TotalsFollowBytes` | kernel/src/ram/physalloc.rs:293-300 | the totals depend on the byte map only |
| `PhysFree.AddQuietSound` | kernel/src/ram/physalloc.rs:416-458 | adding a record without growing keeps the table sound and paints exactly its bytes, also if it shrinks the table |
| `PhysFree.AddGrowSound` | kernel/src/ram/physalloc.rs:416-458 | growing while a record is pending keeps the table sound; it stays coalesced exactly when the record does not touch the moving storage |
| `PhysFree.AddGrowBroken` | kernel/src/ram/physalloc.rs:416-458 | growing while the pending record carries the table itself makes two records overlap |
| `PhysPlace.AddLength` | kernel/src/ram/physalloc.rs:416-458 | the number of records after `add`: doubled when a record needs a slot of a full table, halved (to at least 128) when closing a gap leaves at most a quarter in use and the smaller table takes less storage, else unchanged |
| `PhysFree.FreeSteps` | kernel/src/ram/physalloc.rs:384-414 | putting the left part back never resizes, so `free` comes down to two further insertions |
| `PhysFree.FreeBytes` | kernel/src/ram/physalloc.rs:384-414 | outside the conflict `free` keeps the table sound and turns exactly its range into free conventional memory |
| `PhysFree.FreeBreaks` | kernel/src/ram/physalloc.rs:384-414 | in the conflict the resulting table has overlapping records |
| `PhysFree.FreeDisjointIff` | kernel/src/ram/physalloc.rs:384-414 | `free` keeps records disjoint if and only if it avoids the conflict |
| `PhysFree.FreeCoalescedIff` | kernel/src/ram/physalloc.rs:384-414 | `free` keeps the table coalesced if and only if no record is added beside the moving storage |
| `PhysFree.FreeRoomy` | kernel/src/ram/physalloc.rs:384-414 | with a slot to spare `free` cannot fail and keeps the whole invariant |
| `PhysDamage.ConflictMeans` | kernel/src/ram/physalloc.rs:384-414 | the conflict in terms checkable before the call: a full table, and a range cut out of the table's own record between other memory and the table |
| `PhysDamage.FreeCanBreak` | kernel/src/ram/physalloc.rs:384-458 | a state that meets the whole invariant from which freeing one page makes records overlap |
| `PhysStale.FreeFailsIff` | kernel/src/ram/physalloc.rs:384-458 | `free` fails exactly when it has to grow the table and no free memory outside the range can hold the larger one |
| `PhysStale.FreeNothing` | kernel/src/ram/physalloc.rs:384-414 | freeing an empty range cannot fail and leaves all records as they were |
| `PhysStale.StaleMeans` | kernel/src/ram/physalloc.rs:384-458 | what keeps `free` from merging, in terms of the table and the bytes before the call |
| `PhysStale.FreeMergesIff` | kernel/src/ram/physalloc.rs:384-458 | outside the conflict `free` keeps a coalesced table coalesced exactly when it does not grow it while holding a record that touches it |
| `PhysStale.FreeCanFragment` | kernel/src/ram/physalloc.rs:384-458 | a state that meets the whole invariant from which freeing one page leaves mergeable records |
| `PhysDamage.WholePagesIff` | kernel/src/ram/physalloc.rs:537-543 | rounded table sizes are whole pages only for 4 KiB pages |
| `PhysDamage.ShrinkFreesForeign` | kernel/src/ram/physalloc.rs:537-543 | with larger pages halving a 256-record table frees memory wholly behind the table |
| `PhysRun.ReclaimStepBytes` | kernel/src/ram/physalloc.rs:256-273 | an iteration of `reclaim` cannot fail and turns exactly one reclaimable record into free memory |
| `PhysRun.ReclaimProgress` | kernel/src/ram/physalloc.rs:256-273 | the reclaimable bytes shrink with every iteration |
| `PhysRun.ReclaimBytes` | kernel/src/ram/physalloc.rs:256-273 | `reclaim` turns exactly the reclaimable bytes into free memory and keeps the invariant |
| `PhysRun.StepSafe` | kernel/src/ram/physalloc.rs:256-549 | one alloc, reclaim, or free of any covered range off the table (a held range, a part of one, or memory nobody holds) keeps the table sound, the remaining holds held and disjoint, and the total unchanged |
| `PhysRun.WithoutWhole` | kernel/src/ram/physalloc.rs:384-414 | freeing a whole held range just ends that hold |
| `PhysRun.RunSafe` | kernel/src/ram/physalloc.rs:256-549 | in every configuration of every run the records are disjoint, the table is hosted in used memory, held ranges are disjoint from each other and from the table, and the total is conserved |
| `PhysRun.RunCoalesced` | kernel/src/ram/physalloc.rs:256-549 | if no free of the run is stale (see `StaleMeans`) the table is fully coalesced throughout |
| `PhysRun.AllocLeavesRoom` | kernel/src/ram/physalloc.rs:331-382 | an allocation that does not resize the table leaves room to free it |
| `PhysRun.AllocFreeRoundTrip` | kernel/src/ram/physalloc.rs:331-458 | allocating conventional memory and freeing it, with no resize in between, restores exactly the original records |
| `PhysAlloc.SplitQuiet` | kernel/src/ram/physalloc.rs:369-379 | the first two insertions of `alloc` find room and close no gap |
| `PhysAlloc.ClaimByAlloc` | kernel/src/ram/physalloc.rs:499-509 | the recursive allocation of `expand` resizes nothing and yields the claimed table |
| `PhysAlloc.ReleaseReady` | kernel/src/ram/physalloc.rs:510 | the recursive release of `expand` resizes nothing |
| `PhysAlloc.ShrinkReady` | kernel/src/ram/physalloc.rs:515-549 | the recursive release of `shrink` resizes nothing |
| `PhysAlloc.PhysAlloc.CountValid` | kernel/src/ram/physalloc.rs:291 | counts the valid records |
| `PhysAlloc.PhysAlloc.Find` | kernel/src/ram/physalloc.rs:313-315 | finds the first valid record that satisfies the filter |
| `PhysAlloc.PhysAlloc.FindFreeRam` | kernel/src/ram/physalloc.rs:317-329 | computes the range of `FindsFirstFit`, complete by `FirstFitComplete` |
| `PhysAlloc.PhysAlloc.FiltSizeRaw` | kernel/src/ram/physalloc.rs:297-300 | sums the sizes of the valid records that pass the filter |
| `PhysAlloc.PhysAlloc.Reclaim` | kernel/src/ram/physalloc.rs:256-273 | the loop computes `ReclaimF` and terminates |
| `PhysAlloc.PhysAlloc.Alloc` | kernel/src/ram/physalloc.rs:331-382 | the imperative `alloc` computes `AllocF`; the mutual recursion terminates |
| `PhysAlloc.PhysAlloc.Free` | kernel/src/ram/physalloc.rs:384-414 | the imperative `free` computes `FreeF`, or reports where the source panics |
| `PhysAlloc.PhysAlloc.Carving` | kernel/src/ram/physalloc.rs:384-396 | the loop invalidates every record the range cuts and remembers the parts that reach out |
| `PhysAlloc.PhysAlloc.Add` | kernel/src/ram/physalloc.rs:416-458 | the imperative `add` computes `AddF`, with growth and shrinking |
| `PhysAlloc.PhysAlloc.Neighbours` | kernel/src/ram/physalloc.rs:416-425 | the scan finds the last records that end or begin where the new one does |
| `PhysAlloc.PhysAlloc.Expand` | kernel/src/ram/physalloc.rs:460-513 | the imperative `expand`, through its recursive calls, computes `ExpandF` |
| `PhysAlloc.PhysAlloc.Shrink` | kernel/src/ram/physalloc.rs:515-549 | the imperative `shrink`, through its recursive call, computes `ShrinkF` |
| `PhysAlloc.PhysAlloc.Compaction` | kernel/src/ram/physalloc.rs:521-535 | the slot-filling loop computes `Compact` |
| `PageCfg.EntCntFits` | kernel/src/ram/glacier.rs:63-70 | entry counts fit the table; the root has an even number of at least two |
| `PageCfg.SamePage` | kernel/src/ram/glacier.rs:42-70 | two addresses have the same index at every level exactly when their page numbers agree, for every page size and address width |
| `PageCfg.IndicesSpell` | kernel/src/ram/glacier.rs:42-70 | the indices of an address, read as digits from the root down, spell its page number |
| `PageCfg.SameFromDigits` | kernel/src/ram/glacier.rs:50-61 | from a level downwards, equal indices are equal low digits of the page number |
| `PageCfg.IndexAligned` | kernel/src/ram/glacier.rs:59-61 | clearing the offset bits changes no index |
| `PageMap.MapRefines` | kernel/src/ram/glacier.rs:130-170 | `map_page` updates exactly the pages that share all indices; a failure changes no translation; only tables on the way and fresh ones are touched; the tables stay a tree |
| `PagePrune.MapSucceedsIff` | kernel/src/ram/glacier.rs:130-170 | `map_page` succeeds exactly when the pool has a frame for every table absent on the way |
| `PageMap.UnmapRefines` | kernel/src/ram/glacier.rs:172-210 | `unmap_page` clears exactly its page; no other page loses its translation; the tables it frees are distinct tables on its way and leave memory; the tables stay a tree |
| `PageMap.UnmapFreesEmpty` | kernel/src/ram/glacier.rs:180-210 | `unmap_page` frees at most one table per level, from the leaf level up, and each has no entry except the one on the way to the page |
| `PageMap.UnmapEmptiesIff` | kernel/src/ram/glacier.rs:180-210 | `unmap_rec` reports an empty table exactly when the table, and each below it on the way to the page, is present and has no other entry |
| `PagePrune.MapNonEmpty` | kernel/src/ram/glacier.rs:130-170 | a successful map of a non-zero entry leaves no table below the root empty |
| `PagePrune.FailNonEmptyIff` | kernel/src/ram/glacier.rs:130-170 | a failed map leaves an empty table exactly when the pool had a frame left |
| `PagePrune.MapNonEmptyIff` | kernel/src/ram/glacier.rs:130-170 | every call of `map_page` with a non-zero entry keeps all tables in use exactly when the pool is empty or has a frame for every absent table |
| `PagePrune.FailExample` | kernel/src/ram/glacier.rs:130-170 | a failing map that leaves an empty table |
| `PagePrune.UnmapNonEmpty` | kernel/src/ram/glacier.rs:172-210 | unmapping leaves no table below the root empty |
| `PagePrune.SomePage` | kernel/src/ram/glacier.rs:172-210 | a table in use translates some page |
| `PagePrune.AllUnmappedAllFreed` | kernel/src/ram/glacier.rs:172-210 | when nothing is translated and no table is empty, the tree consists of the root alone |
| `PageRange.MapPage` | kernel/src/ram/glacier.rs:130-170 | `map_page` on a whole space in terms of page numbers |
| `PageRange.MapPagesOutside` | kernel/src/ram/glacier.rs:212-229 | `map_range` changes no page outside the range, whether it succeeds or not |
| `PageRange.MapPagesInside` | kernel/src/ram/glacier.rs:212-229 | a successful `map_range` gives page j of the range physical page j with the flags |
| `PageRange.UnmapPagesExact` | kernel/src/ram/glacier.rs:231-244 | `unmap_range` clears exactly the pages of the range |
| `PageRange.RangeCovers` | kernel/src/ram/glacier.rs:212-244 | the pages of a byte range are exactly those it overlaps; an empty range at an unaligned address has one |
| `PageRange.GetMapped` | kernel/src/ram/glacier.rs:246-272 | the page base of an entry built from an address and flags is the address with the flag bits above the page offset |
| `PageRange.GetAfterMap` | kernel/src/ram/glacier.rs:130-272 | `get_pa` after `map_page`: the mapped page gives its page-aligned address with the high flag bits, or nothing if the flags are not marked present; every other page, and every page after a failure, gives what it gave before |
| `PageRange.MapRangeBytes` | kernel/src/ram/glacier.rs:212-272 | after a successful `map_range` every byte of the range translates to the physical page at the same distance from the start |
| `PageRange.MapRangeOutside` | kernel/src/ram/glacier.rs:212-272 | `map_range` changes no translation of a byte off the overlapped pages, whether it succeeds or not |
| `PageNeed.MapHas` | kernel/src/ram/glacier.rs:130-170 | a successful `map_page` adds exactly the tables on its own way |
| `PageNeed.MapPagesNeed` | kernel/src/ram/glacier.rs:212-229 | mapping n pages succeeds exactly when the pool has a frame for every distinct table absent on their ways before the call, and takes that many |
| `PageNeed.MapRangeSucceedsIff` | kernel/src/ram/glacier.rs:212-229 | the same for the pages a byte range overlaps; a pool with one frame per page and level below the root always suffices |
| `PageSpace.HalfIsTopBit` | kernel/src/ram/glacier.rs:316-318 | the upper half of the root is the upper half of the address space |
| `PageSpace.ForkTranslates` | kernel/src/ram/glacier.rs:109-128 | a new space translates upper-half addresses as the kernel does and no lower-half address; the kernel keeps its translations |
| `PageSpace.LowMapShares` | kernel/src/ram/glacier.rs:130-170 | mapping a lower-half page through a space leaves every kernel translation alone |
| `PageSpace.LowUnmapShares` | kernel/src/ram/glacier.rs:172-210 | unmapping a lower-half page through a space leaves every kernel translation alone |
| `PageSpace.DropListExact` | kernel/src/ram/glacier.rs:291-310 | the recursion of `_drop` lists every table below its start exactly once |
| `PageSpace.DropFreesOwn` | kernel/src/ram/glacier.rs:283-310 | dropping a space frees each table it owns exactly once and changes no kernel translation |
| `PageRun.RunRefines` | kernel/src/ram/glacier.rs:130-210 | every run of maps and unmaps refines the flat map from page number to entry |
| `PageRun.RunConserves` | kernel/src/ram/glacier.rs:130-210 | over every run, failed maps included, no table outside the tree is touched and every frame is still a table or in the pool |
| `PageRun.RunNonEmpty` | kernel/src/ram/glacier.rs:130-210 | in a run without failed maps no table below the root is ever empty |
| `PageFlags.MapFlagged` | kernel/src/ram/glacier.rs:130-170 | `map_page`, failing or not, keeps in every entry that links a table exactly the configured flag bits |
| `PageFlags.UnmapFlagged` | kernel/src/ram/glacier.rs:172-210 | so does `unmap_page` |
| `PageFlags.RunFlagged` | kernel/src/ram/glacier.rs:130-210 | so does every run of maps and unmaps |
| `PageFlags.ForkFlagged` | kernel/src/ram/glacier.rs:109-128 | a new space starts with flagged links if the kernel has them |
| `PageRun.RunFreesAll` | kernel/src/ram/glacier.rs:172-210 | a run without failed maps that ends with nothing mapped leaves exactly the root and the tables outside the tree, and the pool has gained exactly the other tables of the starting tree |
| `PageLife.LifeRestores` | kernel/src/ram/glacier.rs:109-310 | creating a space, any lower-half maps (failing ones too) and unmaps through it, and dropping it leaves memory exactly as before and the pool a permutation of itself; meanwhile the upper half translates as the kernel did at creation |
| `PageLife.KernelMapMirrors` | kernel/src/ram/glacier.rs:130-170 | a kernel map keeps every space intact; the space sees the page exactly if it already used the kernel's table for it |
| `PageLife.KernelUnmapMirrorsIff` | kernel/src/ram/glacier.rs:172-210 | a kernel unmap keeps a space intact if and only if the space does not use the table under the root entry of the page while it, and each table below it on the way, has no other entry |
| `PageLife.TakesTopIff` | kernel/src/ram/glacier.rs:180-210 | in a kernel tree without empty tables this is so exactly when no other page is translated through that table |
| `PageLife.StaleRoot` | kernel/src/ram/glacier.rs:109-210 | map one upper-half page, create a space, unmap the page: the space's root leads to a freed table |
| `PageLife.HistoryMirrors` | kernel/src/ram/glacier.rs:109-310 | through every interleaving of edits by a space and by the kernel that avoids this, both keep their trees, no frame is lost, and dropping the space at any point frees exactly its own tables and changes no kernel translation |
| `Glacier.Glacier.New` | kernel/src/ram/glacier.rs:109-128 | the imperative constructor of a process space computes `Fork`; an exhausted pool is reported where the source panics |
| `Glacier.Glacier.MapPage` | kernel/src/ram/glacier.rs:130-170 | the loop computes `MapF` |
| `Glacier.Glacier.UnmapPageAt` | kernel/src/ram/glacier.rs:172-178 | computes `UnmapF` and returns the emptied tables |
| `Glacier.Glacier.UnmapRec` | kernel/src/ram/glacier.rs:180-210 | the recursion computes `UnmapF` level by level |
| `Glacier.Glacier.MapRange` | kernel/src/ram/glacier.rs:212-229 | the loop stops at the first failure and computes the range map, whose success, effect and frame are `MapRangeSucceedsIff`, `MapRangeBytes` and `MapRangeOutside` |
| `Glacier.Glacier.UnmapRange` | kernel/src/ram/glacier.rs:231-244 | the loop computes the range unmap |
| `Glacier.Glacier.GetPhysical` | kernel/src/ram/glacier.rs:246-272 | the read-only loop computes the flat lookup |
| `Glacier.Glacier.Drop` | kernel/src/ram/glacier.rs:283-310 | the destructor frees the listed tables and the root |
| `Glacier.Glacier.DropRec` | kernel/src/ram/glacier.rs:291-310 | the recursion frees the tables below its start |
| `VfsPath.SplitCanon` | kernel/src/filesys/mod.rs:205-237 | splitting a canonical path yields an empty part and then its names |
| `VfsPath.SplitSlash` | kernel/src/filesys/mod.rs:205-237 | splitting a path extended by a slash and any part yields the parts of the path and that part |
| `VfsPath.CanonicalIdempotent` | kernel/src/filesys/mod.rs:205-237 | normalising twice is normalising once |
| `VfsPath.PushTracks` | kernel/src/filesys/mod.rs:205-237 | appending a name keeps the tracked string equal to the join of the names |
| `VfsPath.PopTracks` | kernel/src/filesys/mod.rs:205-237 | cutting the tracked string at its last slash keeps it equal to the join of the remaining names |
| `Vfs.StepFollows` | kernel/src/filesys/mod.rs:205-237 | a step succeeds exactly when the current node is a directory and the normalised names resolve, and then follows them |
| `Vfs.WalkFollows` | kernel/src/filesys/mod.rs:205-237 | the tracked path is the join of the names on the stack and each stacked node is what its names resolve to, also after leaving a mount by ".." |
| `Vfs.WalkResolves` | kernel/src/filesys/mod.rs:239-247 | a walk succeeds if and only if every location it passes is a directory and resolves, and then yields what the normalised names resolve to |
| `Vfs.WalkCanon` | kernel/src/filesys/mod.rs:239-247 | on a canonical path the walk is plain resolution |
| `Vfs.WalkNormalised` | kernel/src/filesys/mod.rs:205-237 | whatever a path finds, its lexically normalised form finds too |
| `Vfs.MountFound` | kernel/src/filesys/mod.rs:272-279 | after a mount at a canonical path that path leads to the mounted root |
| `Vfs.MountElsewhere` | kernel/src/filesys/mod.rs:272-279 | a mount affects no walk that never passes its path, and none at all under a path that is not canonical |
| `Vfs.MountTrailingSlash` | kernel/src/filesys/mod.rs:272-279 | a mount at a directory path with a slash appended is accepted and the directory stays what it was |
| `Vfs.MountUnmount` | kernel/src/filesys/mod.rs:281-285 | unmounting restores the former file system |
| `VfsChange.ExtendsWalk` | kernel/src/filesys/mod.rs:205-237 | an addition disturbs no successful walk |
| `VfsChange.LinkExtends` | kernel/src/filesys/mod.rs:256-261 | a link is such an addition |
| `VfsChange.CreateExtends` | kernel/src/filesys/mod.rs:249-254 | a creation is such an addition |
| `VfsChange.LinkFound` | kernel/src/filesys/mod.rs:256-261 | after a link the path leads to the node unless a mount shadows it |
| `VfsChange.CreateFound` | kernel/src/filesys/mod.rs:249-254 | after a creation the path leads to the new node unless a mount shadows it |
| `VfsChange.UnlinkGone` | kernel/src/filesys/mod.rs:263-268 | after an unlink the path leads nowhere unless a mount shadows it |
| `VfsChange.LinkUnlink` | kernel/src/filesys/mod.rs:263-268 | unlinking what was just linked restores the file system |
| `VfsLaws.WalkBelow` | kernel/src/filesys/mod.rs:205-237 | a walk one name further: a mount at that path, or else what the directory reached has under the name |
| `VfsLaws.WalkDot` | kernel/src/filesys/mod.rs:205-237 | a part "." or an empty one at the end asks for a directory and changes nothing else |
| `VfsLaws.WalkDotDot` | kernel/src/filesys/mod.rs:205-237 | ".." at the end leads from a directory to the one whose canonical path is shorter by a name, also out of a mount; the root is its own parent |
| `VfsLaws.LinkSucceedsIff` | kernel/src/filesys/mod.rs:256-261 | `link` succeeds if and only if the path ends in a name and the parts before it lead, over directories, to a virtual directory without that name |
| `VfsLaws.UnlinkSucceedsIff` | kernel/src/filesys/mod.rs:263-268 | `unlink` succeeds if and only if that directory has the name |
| `VfsLaws.CreateSucceedsIff` | kernel/src/filesys/mod.rs:249-254 | `create` succeeds if and only if the type is a regular file or a directory and `link` would succeed |
| `VfsLaws.CreatedDirectory` | kernel/src/filesys/mod.rs:108-115 | a created directory is found and is a directory, nothing is found below it, and a name linked below it is found |
| `VfsLaws.CreatedFile` | kernel/src/filesys/mod.rs:108-115 | a created regular file is found and is no directory: nothing is found below it, and neither a link below it nor a mount on it succeeds |
| `VfsLaws.MountSucceedsIff` | kernel/src/filesys/mod.rs:272-279 | `mount` succeeds if and only if the string is not a mount yet and the path leads, over directories, to a directory |
| `VfsLaws.UnmountElsewhere` | kernel/src/filesys/mod.rs:281-285 | unmounting keeps the root and affects no walk that never passes the path |
| `VfsLaws.UnmountUncovers` | kernel/src/filesys/mod.rs:281-285 | after unmounting a canonical path, it leads to what the directory above has under its last name |
| `VfsChange.VirtualFileSystem.WalkInner` | kernel/src/filesys/mod.rs:205-237 | the loop over the mutable stack and string computes `WalkParts` |
| `VfsChange.VirtualFileSystem.Link` | kernel/src/filesys/mod.rs:256-261 | computes `LinkF`, with its error cases |
| `VfsChange.VirtualFileSystem.Create` | kernel/src/filesys/mod.rs:249-254 | computes `CreateF`, with its error cases (see `CreateSucceedsIff`, `CreatedDirectory`, `CreatedFile`); a failure changes nothing |
| `VfsChange.VirtualFileSystem.Unlink` | kernel/src/filesys/mod.rs:263-268 | computes `UnlinkF`, with its error cases |
| `VfsChange.VirtualFileSystem.Mount` | kernel/src/filesys/mod.rs:272-279 | computes `MountF`, with its error cases |
| `VfsChange.VirtualFileSystem.Unmount` | kernel/src/filesys/mod.rs:281-285 | computes `UnmountF`, with its error cases |
| `BlockIo.Disk.ReadBlock` | kernel/src/device/nvme.rs:72-87 | the chunked loop fills the buffer with a slice of the flat device bytes; it fails exactly when a block is missing, after moving the bytes up to the end of the device |
| `BlockIo.Disk.WriteBlock` | kernel/src/device/nvme.rs:89-109 | the chunked read-modify-write loop overwrites exactly its bytes of the flat device; it fails exactly when a block is missing, after writing the bytes up to the end of the device |
| `BlockIo.BlockFile.Read` | kernel/src/filesys/dev.rs:54-63 | a read at any offset returns exactly that slice of the flat bytes, from the partition start on |
| `BlockIo.BlockFile.Write` | kernel/src/filesys/dev.rs:65-76 | a write at any offset changes exactly its bytes although middle blocks start as zeros; it panics exactly for empty data at an aligned offset; a write within the partition never fails |
| `BlockIo.Window` | kernel/src/filesys/dev.rs:137-159 | the block window of a byte range contains it and exceeds it by less than a block |
| `BlockIo.WindowWrite` | kernel/src/filesys/dev.rs:148-159 | writing the window back with only its first and last block read changes just the data |
| `BlockIo.PartitionIsolated` | kernel/src/filesys/dev.rs:119-159 | overwriting bytes within one range of blocks changes no byte of a disjoint one, and is read back |
| `BlockIo.PartitionsIndependent` | kernel/src/filesys/dev.rs:119-159 | after any sequence of in-range writes through several partition files each partition holds exactly the result of its own writes |
| `Fat.TypeRule` | kernel/src/filesys/parts/fat.rs:339-348 | the type decision agrees with the published rule exactly when the 16-bit size field is zero just for large counts |
| `Fat.TypeDisagrees` | kernel/src/filesys/parts/fat.rs:323-348 | volumes whose type the reader decides differently from the published rule |
| `FatLayout.DataStart` | kernel/src/filesys/parts/fat.rs:350-362 | cluster 2 starts at the first sector boundary at or behind the reserved sectors, the tables and the 32-byte entries of the root directory |
| `FatLayout.ClustersApart` | kernel/src/filesys/parts/fat.rs:350-362 | the clusters lie one behind the other from there on, so none shares a byte with another or with the area in front |
| `FatLayout.ClustersFit` | kernel/src/filesys/parts/fat.rs:323-362 | the clusters that end within the volume are those numbered from 2 up to one more than the cluster count |
| `Fat.NextClustIff` | kernel/src/filesys/parts/fat.rs:364-407 | reading one sector gives the entry of the flat table if and only if it does not straddle; a straddling one panics |
| `Fat.StraddleExample` | kernel/src/filesys/parts/fat.rs:364-407 | the FAT12 entry of cluster 341 with 512-byte sectors panics |
| `Fat.NoStraddle` | kernel/src/filesys/parts/fat.rs:364-407 | FAT16 and FAT32 entries never straddle sectors whose size is a multiple of four |
| `FatLayout.PackedEntry` | kernel/src/filesys/parts/fat.rs:364-399 | the entry taken from a packed table is the one packed there: two FAT12 entries share three bytes, of a FAT32 entry the lower 28 bits count |
| `FatLayout.TableDecodes` | kernel/src/filesys/parts/fat.rs:364-407 | on a volume whose table packs a list of entries, each cluster is followed by the one its entry names, or by the end of the chain from the end mark of the type on |
| `FatLayout.SectorDecodes` | kernel/src/filesys/parts/fat.rs:364-407 | `next_clust`, which reads one sector, yields just that for entries that do not straddle |
| `Fat.FillMore` | kernel/src/filesys/parts/fat.rs:152-198 | copying part of a cluster continues the fill with the right file bytes |
| `Fat.FillDone` | kernel/src/filesys/parts/fat.rs:152-198 | when the chain ends or the buffer is full the read is complete |
| `Fat.ReadIsSlice` | kernel/src/filesys/parts/fat.rs:152-198 | a read fills exactly the bytes the chain has from the offset on, with a slice of the concatenated clusters (placed by `FileByteAt`), and leaves the rest of the buffer alone |
| `FatLayout.FileByteAt` | kernel/src/filesys/parts/fat.rs:152-198 | a byte of the n-th cluster of a file is the device byte at the start of the data plus the clusters before it; none if the cluster is not on the device |
| `Fat.FatFile.Read` | kernel/src/filesys/parts/fat.rs:152-198 | the imperative read refines that description, terminates also on cyclic chains, and succeeds if and only if every table entry and cluster it comes across is readable |
| `Fat.FatFile.Skip` | kernel/src/filesys/parts/fat.rs:152-198 | the first loop reaches the cluster that holds the offset, or the end of the chain |
| `Fat.FatFile.Fill` | kernel/src/filesys/parts/fat.rs:152-198 | the second loop fills the buffer cluster by cluster |
| `AcpiMap.CoversMeans` | kernel/src/device/acpi.rs:34-35 | a page belongs to a region exactly when it begins before its end and reaches past its start |
| `AcpiMap.AcquireCounts` | kernel/src/device/acpi.rs:34-45 | mapping a region adds one to the count of exactly its pages |
| `AcpiMap.ReleaseCounts` | kernel/src/device/acpi.rs:60-71 | unmapping a live region takes one from the count of exactly its pages |
| `AcpiMap.StepCounted` | kernel/src/device/acpi.rs:28-72 | each map, and each unmap of a live region, keeps counts equal to the number of live regions per page |
| `AcpiMap.RunCounted` | kernel/src/device/acpi.rs:28-72 | in every configuration of every run a count is the number of live covering regions, a page is mapped exactly while that is positive, and the page-table manager is called only on changes between zero and one |
| `AcpiSpace.RunTouches` | kernel/src/device/acpi.rs:28-72 | the calls of a run are about exactly the pages of all regions ever mapped |
| `AcpiSpace.RunTranslates` | kernel/src/device/acpi.rs:28-72 | with the calls carried out on page tables, a page of a live region translates to itself, a page of regions all unmapped again to nothing, every other page as before |
| `AcpiSpace.UnmappedRestoresIff` | kernel/src/device/acpi.rs:28-72 | after all regions are unmapped, translations are as before the run if and only if no page of a mapped region was translated before |
| `AcpiSpace.TranslationLost` | kernel/src/device/acpi.rs:41-68 | mapping and unmapping a page that was translated loses its translation |
| `AcpiMap.Handler.MapPhysicalRegion` | kernel/src/device/acpi.rs:28-54 | the loop over pages computes `MapRegion` |
| `AcpiMap.Handler.UnmapPhysicalRegion` | kernel/src/device/acpi.rs:56-72 | the loop over pages computes `UnmapRegion` |
| `Reloc.ScanLast` | efi/src/main.rs:118-129 | the scan keeps for each tag the last entry before the end of the section |
| `RelocWords.ScanFinds` | efi/src/main.rs:118-129 | the relocation entries, their size and the symbol table are the values of the last entries tagged 7, 8 and 6 before the first tag 0 |
| `RelocWords.ScanMisses` | efi/src/main.rs:118-129 | without an entry tagged 8 there is nothing to relocate |
| `RelocWords.LoadedCell` | efi/src/main.rs:131-151 | from the raw words: after loading, a cell holds the base plus the signed addend of the last entry that names it, plus the symbol value for the symbolic types of the architecture |
| `RelocWords.LoadedOther` | efi/src/main.rs:131-151 | a word that no entry of a relocated type names keeps its value |
| `RelocWords.MovedCell` | kernel/src/ram/reloc.rs:59-104 | after the move such a cell holds the upper-half base plus the same, plus the distance once more for every further entry that names it |
| `RelocWords.MovedOther` | kernel/src/ram/reloc.rs:59-104 | every other word is the running kernel's |
| `Reloc.TwoStageWord` | efi/src/main.rs:135-151 | a cell ends at base plus target plus the distance once per entry that names it; every other word is unchanged |
| `Reloc.TwoStagesAreOne` | kernel/src/ram/reloc.rs:96-104 | two stages equal one-stage relocation if and only if surplus shifts vanish modulo 2^64 |
| `Reloc.TwiceIsWrong` | kernel/src/ram/reloc.rs:96-104 | a cell named twice ends in the wrong place for every non-zero distance |
| `Reloc.DistinctOnce` | kernel/src/ram/reloc.rs:96-104 | distinct cells suffice |
| `Reloc.SameCells` | kernel/src/ram/reloc.rs:71-95 | the kernel finds the same cells in the relocated image as the loader did |
| `Reloc.LoadThenMove` | kernel/src/ram/reloc.rs:59-104 | from loading to the copy: each cell ends as the upper-half base plus its link-time target (in raw words `MovedCell`) and every other word is the running kernel's |
| `Reloc.NoOverflow` | kernel/src/ram/reloc.rs:96-104 | targets that fit above the upper-half base overflow in neither stage |
| `Reloc.ScanLoaded` | efi/src/main.rs:118-129 | the loader's scan loop computes `Scan` |
| `Reloc.Load` | efi/src/main.rs:118-151 | the loader's in-place relocation, which reads entries from the image it writes, computes `Place`, whose words are `LoadedCell` and `LoadedOther` |
| `Reloc.ScanRunning` | kernel/src/ram/reloc.rs:71-88 | the kernel's scan loop finds the same entry table |
| `Reloc.Move` | kernel/src/ram/reloc.rs:65-104 | copying and shifting computes `Shift` |
| `Line.PlotAllExact` | kernel/src/device/vga.rs:104-112 | exactly the cells of the plotted points on the screen change |
| `Line.ErrorStep` | kernel/src/device/vga.rs:138-161 | the error term takes the major step always and keeps within half a pixel |
| `Line.TrackStep` | kernel/src/device/vga.rs:138-161 | an iteration advances by one on the major axis and keeps the point near the line |
| `Line.TrackEnd` | kernel/src/device/vga.rs:138-161 | the loop ends exactly at the second endpoint |
| `Line.Vga.SetPixel` | kernel/src/device/vga.rs:104-112 | sets one cell, or none off the screen |
| `Line.Vga.DrawLine` | kernel/src/device/vga.rs:138-161 | plots exactly max(abs(dx), abs(dy)) + 1 points from the first endpoint to the second, each within half a pixel of the ideal line, and draws exactly these; the doubled error term of every iteration is given by the point and is at most three times the longer side |

## Left out

- Page sizes other than 4 KiB in the allocator's invariant: it contains that rounded table sizes are whole pages, because `shrink` is wrong otherwise (see `ShrinkTailExact`); a table of at least 128 records stored at a page-aligned address is part of it too.
- `PhysAlloc::init` and the embedded first table: the invariant is taken as the initial state.
- The record table is a sequence held by the allocator object and its storage a range of addresses; that the records are bytes inside this range is stated by the invariant, not by a memory model.
- `OwnedPtr::merge`, `OwnedPtr::split`, `with_blocks` and the block statistics on top of `filtsize_raw`: easy accessors.
- Address sums and sizes are unbounded integers in the allocator, the page tables and the file systems; wrap-around at 2^64 is modelled in relocation only.
- PhysRun.RunSafe: covers runs in which no free meets the conflict of `FreeDisjointIff`, because the property is false beyond it, and frees only memory that some record covers.
- PhysFree.FreeDisjointIff: asks that the freed range does not meet the table's storage, and that an empty range is freed only in a coalesced table.
- PhysRun.StepSafe: memory allocated as `Reclaimable` or reserved is not counted as held, since `reclaim` and later requests take it by design; it can be freed like any other.
- Glacier: page-table frames come from a pool of free, aligned frames instead of the RAM allocator; `flush`, `activate`, `identity_map`, `init` and `remap` are hardware effects or boot steps.
- PageSpace.DropFreesOwn: covers spaces through which only lower-half pages were mapped, as the sharing of the upper half intends.
- PageLife.KernelUnmapMirrorsIff: like the other lemmas on kernel edits, speaks of tables with at least two levels.
- Vfs: nodes are identities in a map; directory nodes of partitions are described by their look-up function; file contents, `list`, `truncate` and metadata are not modelled.
- BlockIo: device and partition files share one class, a device being a partition that starts at block zero; the single-block transfers of the NVMe library are reads and writes of a sequence of blocks that fail only past its end, and running out of DMA memory is not modelled.
- BlockIo.BlockFile.Read: does not limit the range to the partition's block count, because the source does not.
- Fat: `for_each_ent`, `list` and `walk` of FAT directories, long names, and volumes whose sector size differs from the device's block size; an arithmetic overflow in the cluster count is an unknown type.
- AcpiMap: a failing page map panics in the source; the handler records its calls to the page-table manager in order.
- AcpiSpace.RunTranslates: like `UnmappedRestoresIff`, covers runs in which every page map succeeds and all regions lie within the width of virtual addresses.
- Reloc: an image is a sequence of 64-bit words, since the tables and cells are read and written through pointers that must be eight-byte aligned; trailing bytes of an image whose size is no multiple of eight are only copied. ELF loading, the choice of `hihalf`, the stack switch and the jump are not modelled.
- Reloc.LoadThenMove: relocation cells do not lie inside the dynamic section, the relocation entries or the symbols used, and these and the cells are untouched between the stages.
- RelocWords.LoadedCell: like the other lemmas on words, asks for the same layout; `MovedCell` and `MovedOther` also ask that tables and cells are untouched between the stages.
- Line.Vga.DrawLine: coordinates are unbounded; the contract bounds the doubled error term by three times the longer side, so 32-bit arithmetic is safe for lines where that fits.
- Spin locks and interrupt guards: every call is atomic.
- Assembly, interrupt controllers, UEFI calls, ACPI, device-tree and GPT parsing, PCI, NVMe and xHCI drivers, the heap, `ApList` and process control.
