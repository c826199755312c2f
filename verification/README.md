# GeekToyOS: memory management and freestanding library, verified

GeekToyOS is a small x86_64 kernel. This project models the parts of it that hold algorithms rather than hardware
access, and proves what callers rely on:

- the four-level page tables with 4K, 2M and 1G leaves (`PageTable`, `PageWalk`, `PageRegion`, `PageRights`,
  `PageMirror`, `PagePiece`, `PageLeaves`, `RegionCuts`, `RegionMirror`, `PageMapper`, `RegionTheorems`, `BootTables`,
  `DirectMap`, `SmpInit`);
- the intrusive circular lists (`Rings`) and the buddy allocator on top of them (`BuddyBlocks`, `BuddyTheorems`,
  `BuddyZone`, `BuddyAsWritten`);
- the page bitmap, the boot allocator and the hand-over to the buddy allocator (`Bitmap`, `Memory`);
- the slab caches (`SlabPages`, `SlabCache`, `Kmalloc`);
- the 64-bit arithmetic that replaces libgcc (`Arith64`, `BitCount`), the calendar (`Calendar`), the printf engine
  (`PrintFmt`, `PrintMeaning`), and `memcpy` and `memmove` (`MemCopy`).

`Machine` holds the word sizes, and `Division` and `Powers` the arithmetic facts, that the others share.

The main results, one per part:

- every run of mapping calls, from the boot tables on, keeps the tables a tree of distinct frames but for the one table
  that two root entries share; `arch_map_region` changes no translation outside its region and the mirror that this
  table gives it, and maps the inside as requested, and with the access rights requested, under exact conditions
  (`PageMapper.PageTables.ArchMapRegion`, `RegionTheorems.MapsAsRequestedIff`, `RegionTheorems.OutsideKeptIff`,
  `RegionTheorems.AccessAsRequestedIff`), each address with the largest leaf that the request allows
  (`PageLeaves.LeafSizes`, `PageLeaves.PickIsLargest`);
- the free blocks of the buddy allocator are determined by the free pages, which gives safety, conservation and
  independence of history over every run (`BuddyBlocks.Canonical`, `BuddyTheorems.RunsAreSafe`), and a request hands out
  the pages asked for exactly when their number is that of the block it takes (`BuddyTheorems.HandedOutIff`);
- the bitmap and the buddy lists never disagree, so the double-free check is exact (`Memory.PhysMemory.BuddyInit`,
  `Memory.PhysMemory.DoubleFreeCheck`);
- live slab objects never overlap, whatever clients store in them (`SlabCache.LiveObjectsApart`,
  `SlabCache.Cache.ClientStore`);
- the branch-free long division is right for every pair of words (`Arith64.Divmoddi4`);
- the calendar's two closed formulas agree with counting days, and invert each other under an exact condition
  (`Calendar.MktimeInvertsGmtime`, `Calendar.GmtimeInvertsMktimeIff`);
- the printf engine terminates and prints what a small denotational definition says (`PrintFmt.SprintBuf.VPrintFmt`),
  and that is for each directive the field, numeral or name that its reader expects, or exactly not
  (`PrintMeaning.SpellingReadIff`, `PrintMeaning.StringMeans`, `PrintMeaning.NumberMeans`);
- the word-at-a-time copy refines a byte-by-byte one (`MemCopy.Memcpy`, `MemCopy.Memmove`).

Code that works in place is modelled in place: classes whose fields are the C structures' fields, loops as in the
source, each method proved against a function on values; the theorems are lemmas about those functions.

## Where the code differs from its intent

- `src/kernel/mm/buddy.c:31` keeps the BUDDY flag that removal is meant to clear. `BuddyZone` clears it;
  `BuddyAsWritten` keeps the line as it is, shows a run in which a held page becomes free, and proves exactly when the
  line leaves the right free blocks and the right counts.
- `src/kernel/mm/buddy.c:68` tests `sz & (1 == 0)`, so every order is 0. `BuddyAsWritten` runs that loop and proves
  that a request then hands out the pages it asks for only when it asks for one. `BuddyZone` counts trailing zeros, as
  the loop is meant to; for a number of pages that is no power of two, which line 63 only logs and `kmalloc` passes
  for more than 8192 bytes, pages that are still free are handed out all the same: `BuddyAsWritten.OrderRepairedIff`
  is exact, and `BuddyAsWritten.ThreePagesStayFree` is an input.
- `src/kernel/mm/buddy.c:99` does not bound the buddy. The lookup stays inside the zone exactly when both ends of the
  zone are multiples of the largest block (`BuddyZone.BuddiesInsideIff`, with `BuddyZone.OddZoneLooksOutside` for an
  input); for other zones `BuddyZone` takes page structures up to the next such multiple, with clear flags.
- `src/kernel/mm/memory.c:115` does not clear the page array. `Memory` and `BuddyZone` take it with all flags clear.
- `src/kernel/mm/memory.c:118-126` goes wrong when the top page is not available; `Memory.InitWalkIff` proves that
  this is the exact condition, and `Memory.LastPageIff` says for which memory maps `mem_map_init` leaves it available.
- `src/kernel/mm/memory.c:106` rounds the start of an available region down; `Memory.PartialPageReleasedIff` says
  exactly when it releases a page that is only partly available.
- `src/kernel/mm/memory.c:50` cuts its search at the end of memory; `Memory.FirstFitIff` says when that matters, and
  `Memory.CutRunIsHandedOut` is an input.
- `src/arch/x86_64/mm.c:51-58,74-81` splits a present large leaf although a leaf of that size was requested;
  `RegionTheorems.MapsAsRequestedIff` gives the exact condition and `RegionTheorems.RemapOfLargeLeafFails` an input.
- `src/arch/x86_64/mm.c:17,31` makes every table entry writable and supervisor-only, so no leaf with PTE_U under such
  a table is open to users, and splitting an open one closes it: `RegionTheorems.AccessAsRequestedIff` and
  `PageMirror.SharedSplitKeepsAccessIff` are exact, and `RegionTheorems.UserPageStaysClosed` is an input.
- `src/arch/x86_64/boot.S:114-124` lets entries 0 and 256 of the root share a table, and `arch_clear_low_page` is
  called once, after the last mapping call (`src/arch/x86_64/smp.c:82`). At every call, therefore, whatever happens to
  the bottom 512G happens to the kernel's direct mapping too, and the other way round. The model's tables are the real
  ones; the tree that the proofs work on leaves out one of the two entries (`PageMirror.Hidden`), and what
  `arch_map_region` and its callers promise is stated for the real tables. `RegionTheorems.OutsideKeptIff` says
  exactly when a call leaves everything outside its region alone. The call in `src/arch/x86_64/smp.c:81` does not:
  clearing the start-up page of the other processors also unmaps the kernel's own mapping of it, for good
  (`RegionTheorems.ClearingLowUnmapsDirect`, `SmpInit.ArchSmpInit`).
- `src/arch/x86_64/mm.c:170-177` counts the size from the start of the page and looks at the first page only:
  `DirectMap.KmapReachesIff` says when `arch_kmap` makes the bytes asked for reachable, and
  `DirectMap.KmapMissesSecondPage` is an input for which it does not.
- `src/kernel/mm/slab.c:59-61` takes address 0 for a failed page allocation; a failure comes back as 2^64 - 4096
  (`Memory.NullAddressIff`), so it is never noticed.
- `src/kernel/mm/slab.c:133-135` leaves a slab with free objects on the full list; the invariant is stated that way.
- `src/kernel/mm/slab.c:149-182` is not always the best fit; `Kmalloc.SizeIndex` says for which sizes it is.
- `src/lib/printfmt.c:63-66` takes a precision spelled `0` for the flag of that name: `%.0s` prints the whole string.
  `PrintMeaning.SpellingReadIff` shows that nothing else is misread.
- `src/lib/printfmt.c:58-61` is commented as padding on the right, but makes numbers pad with dashes on the left;
  `PrintFmt.NumberOnTheLeftIff` is exact about it.
- `src/lib/printfmt.c:179` reads the argument of a plain `%d` as unsigned; `PrintFmt.PlainDecimalIff` is exact about
  it.
- `src/lib/error.c:3-4` says that padding and width are for numeric formats only; the code pads strings too, and the
  model follows the code.
- `src/lib/string.c:16-19` tests a pointer that it does not advance; `MemCopy.ReachStays` says exactly when that
  writes past the end.

## Model

| member | source | states |
|---|---|---|
| `PageTable.NodeDeterminesPath` | src/arch/x86_64/mm.c:28-93 | in a table tree, two addresses whose walks reach the same table frame agree on every higher index: each frame hangs under one entry only |
| `PageTable.PathDeterminesNode` | src/arch/x86_64/mm.c:28-93 | addresses with the same higher indices walk through the same tables |
| `PageTable.WriteKeepsOthers` | src/arch/x86_64/mm.c:118-122 | a walk that does not use the written entry finds what it found before |
| `PageTable.WriteLeafKeepsTree` | src/arch/x86_64/mm.c:118-122 | writing a leaf or an absent entry keeps the tables a tree, also when a table drops out of it |
| `PageTable.LinkKeepsTree` | src/arch/x86_64/mm.c:39-50 | hanging a fresh table under an entry keeps the tables a tree |
| `PageTable.UsesIsSlot` | src/arch/x86_64/mm.c:28-93 | the addresses whose walk uses an entry are exactly those of one aligned slot |
| `PageTable.LinkEffect` | src/arch/x86_64/mm.c:12-26 | what every walk finds after a table of leaves or absent entries is hung under an entry: outside the slot nothing changes, inside the new table decides |
| `PageTable.LeafWriteEffect` | src/arch/x86_64/mm.c:118-122 | what every walk finds after an entry is overwritten: outside the slot nothing changes |
| `PageTable.LeafOnPath` | src/arch/x86_64/mm.c:51-58 | an entry on the walk of an address is a large leaf exactly when the walk ends in a leaf of that size |
| `PageTable.SplitKeepsMeaning` | src/arch/x86_64/mm.c:12-26 | the 512 entries that replace a 1G or 2M leaf give every address of the leaf the physical address and the leaf attributes it had (for the rights of the whole walk see `PageRights.SplitKeepsAccessIff`) |
| `PageWalk.SplitLeaf` | src/arch/x86_64/mm.c:51-58 | replacing a large leaf by its table of pieces changes no address's physical address or leaf attributes and keeps the tree |
| `PageWalk.WalkFinds` | src/arch/x86_64/mm.c:43-92 | the allocating walk stops at the entry of the level asked for, or at the 4K entry when a large leaf was in the way, with every other slot translating as before |
| `PageWalk.WalkShrinks` | src/arch/x86_64/mm.c:59-63 | the branch that gives a table back: the tree stays a tree, the freed frame is in the pool and in no table, and only addresses of the slot are affected |
| `PageWalk.WalkReads` | src/arch/x86_64/mm.c:95-100 | the reading walk reports the physical address of the translation, or 0 when a table on the way is absent |
| `PageWalk.ReportedMeans` | src/arch/x86_64/mm.c:95-100 | what the reading walk reports is the physical address of a translation, and 0 without a 4K table on the way |
| `PageMapper.PageTables.Zalloc` | src/arch/x86_64/mm.c:16 | takes a zeroed frame that no table of the tree uses, or fails and changes nothing exactly when the pool of free frames is empty |
| `PageMapper.PageTables.ExpandPage` | src/arch/x86_64/mm.c:12-26 | splits a large leaf in place, of shared tables too: no physical address or leaf attribute changes, the one new table entry is writable and supervisor-only, and one frame is used |
| `PageMapper.PageTables.PgdirWalk` | src/arch/x86_64/mm.c:28-93 | with PG_ALLOC the slot found is the one `WalkFinds` describes; without it nothing is written and the result is the translation; every table entry is an old one or writable and supervisor-only; a walk takes three frames at most, and fails only if there were fewer |
| `PageMapper.PageTables.MapRegion` | src/arch/x86_64/mm.c:102-124 | the loop maps the rounded piece with leaves of the level asked for and translates nothing of the tree outside it differently, also when it runs out of frames; a block under an old large leaf gets a single 4K entry; three frames for each leaf suffice |
| `PageMapper.PageTables.constructor` | src/arch/x86_64/boot.S:112-140 | the tables the boot code makes, shared entry and all, satisfy the invariant and are writable and supervisor-only |
| `PageMapper.PageTables.ArchMapRegion` | src/arch/x86_64/mm.c:126-158 | the five-way cut into 4K, 2M and 1G pieces, on tables that may still share a root entry: the invariant is kept over every call; the region and, while a table is shared, its mirror are mapped as `RegionDone` says with leaves of the sizes that `LeavesDone` says, and every other address translates as before and has no larger leaf, also when frames run out; it succeeds whenever there are three frames for each leaf; every table entry is an old one or writable and supervisor-only |
| `PageMapper.PageTables.CheckPgtable` | src/arch/x86_64/mm.c:95-100 | reads only, and returns the physical address of the translation, at every canonical address of shared tables too |
| `PageMapper.PageTables.ArchClearLowPage` | src/arch/x86_64/mm.c:183-186 | the bottom 512G fault from then on, every other access stays as it was, and the tables are a tree |
| `PageMapper.PageTables.ArchKmap` | src/arch/x86_64/mm.c:170-177 | returns the direct-mapping address; maps from the start of the page on exactly when the first page does not read back as itself, and changes nothing otherwise |
| `DirectMap.KmapReachesIff` | src/arch/x86_64/mm.c:170-177 | when `arch_kmap` maps, over no large leaf, all bytes asked for are where the direct mapping should have them if and only if those behind the mapping it makes were already |
| `DirectMap.MappedEndIff` | src/arch/x86_64/mm.c:170-177 | there are none of those if and only if the bytes take no more pages than their number alone requires |
| `DirectMap.KmapMissesSecondPage` | src/arch/x86_64/mm.c:175 | a concrete failing input: of two bytes across a page boundary over the boot tables, the second stays unmapped |
| `RegionCuts.CutsOrderedIff` | src/arch/x86_64/mm.c:131-157 | the cut points are in order, so that the pieces tile the region, exactly when no rounding wraps past the top of the address space |
| `RegionCuts.PieceFollows` | src/arch/x86_64/mm.c:144-157 | mapping the next piece extends what is mapped, whatever mix of leaf sizes came before |
| `PageLeaves.PickIsLargest` | src/arch/x86_64/mm.c:131-157 | the cut gives every address the largest leaf whose whole block lies in [vaddr, vaddr + size), 1G only with the processor feature |
| `PageLeaves.RegionIsRounded` | src/arch/x86_64/mm.c:131-157 | the region mapped is the one asked for, rounded out to whole pages |
| `PageLeaves.LeafSizes` | src/arch/x86_64/mm.c:126-158 | afterwards each present address of the region, but under an old leaf as large, ends in a leaf of exactly that size |
| `PageLeaves.NoNewGiants` | src/arch/x86_64/mm.c:146-153 | without the feature no walk ends in a 1G leaf that was not there before, also when frames run out |
| `PageLeaves.MapsTo` | src/arch/x86_64/mm.c:126-158 | each address of the region, but under an old leaf as large, translates to the byte as far from paddr as it is from vaddr, with exactly the attribute bits asked for |
| `RegionCuts.LeafCountBound` | src/arch/x86_64/mm.c:126-158 | the number of leaves that the frame bound speaks of is at most the number of pages |
| `PageMapper.PermOfBits` | src/arch/x86_64/mm.c:138-142 | the attribute bits written are those given, and Present is among them unless PG_CLEAR is given without it |
| `RegionTheorems.MapsAsRequestedIff` | src/arch/x86_64/mm.c:126-158 | after `arch_map_region` nothing outside the region and its mirror has changed, and every address inside translates to itself minus (vaddr - paddr) with the leaf attributes asked for if and only if no address that gets a 2M or 1G leaf lay under a leaf that large |
| `RegionTheorems.OutsideKeptIff` | src/arch/x86_64/mm.c:126-158 | nothing at all outside the region changes if and only if no table is shared or the mirrored part of the region translated already as mapping it makes it |
| `RegionTheorems.ClearingLowUnmapsDirect` | src/arch/x86_64/smp.c:81 | a concrete failing input: over the boot tables, clearing the page at 0x8000 unmaps the direct mapping of the same page |
| `RegionTheorems.RemapOfLargeLeafFails` | src/arch/x86_64/mm.c:74-81 | a concrete failing input of the above: a present 2M leaf is split although a 2M leaf was requested, only its first page is mapped anew, and that with the page-size bit, which in a 4K entry selects the memory type |
| `RegionTheorems.AccessAsRequestedIff` | src/arch/x86_64/mm.c:126-158 | over tables that are writable and supervisor-only, shared or not, which the boot code makes and every mapping call keeps, no effective access (address, attributes, write and user rights of the whole walk) outside the region and its mirror changes, and inside the accesses are those asked for if and only if no large leaf was in the way and nothing present was asked for users |
| `RegionTheorems.UserPageStaysClosed` | src/arch/x86_64/mm.c:31 | a concrete failing input: a page mapped with PTE_U over the boot tables is mapped, and users cannot reach it |
| `PageRights.SplitRights` | src/arch/x86_64/mm.c:12-26 | on any table tree, splitting a leaf takes user access from its addresses, keeps their write access, and changes no rights elsewhere |
| `PageRights.SplitKeepsAccessIff` | src/arch/x86_64/mm.c:12-26 | on any table tree, a split changes no effective access at all if and only if the walk to the leaf did not grant users access |
| `PageMirror.SharedSplitKeepsAccessIff` | src/arch/x86_64/mm.c:12-26 | the same on tables that share a root entry, for all canonical addresses |
| `PageRights.PlainStays` | src/arch/x86_64/mm.c:28-93 | tables that are all writable and supervisor-only stay so over every mapping call |
| `PageRights.PlainAccess` | src/arch/x86_64/mm.c:28-93 | under such tables an access is the translation: writable as the leaf says, and never for users |
| `BootTables.ClearedBootIsTree` | src/arch/x86_64/boot.S:112-140 | the boot tables are a tree, and all writable and supervisor-only, once the low entry of the root is cleared |
| `BootTables.BootMaps` | src/arch/x86_64/boot.S:112-140 | the boot tables map the first 1G to itself and into the direct mapping, writable, and no other canonical address |
| `BootTables.SharedTableIsNoTree` | src/arch/x86_64/boot.S:114-119 | while two root entries share a table the tables are no tree |
| `PageMirror.SharedTableMirrors` | src/arch/x86_64/boot.S:114-119 | while they do, the bottom 512G and the direct mapping translate alike and grant the same access, whatever is mapped there |
| `PageMirror.SeenWalk` | src/arch/x86_64/boot.S:114-119 | every translation and every effective access of the real tables is one of the tree without one of the two entries, at the address itself or its mirror |
| `PageMirror.HideOther` | src/arch/x86_64/boot.S:114-119 | either of the two entries may be left out: both trees satisfy the invariant |
| `PageMirror.LowCleared` | src/arch/x86_64/mm.c:183-186 | clearing the low entry turns the real tables into a tree and changes no access above the bottom 512G |
| `RegionMirror.RegionSeen` | src/arch/x86_64/mm.c:126-158 | mapping a region in the tree maps the region and its mirror in the real tables, and nothing else |
| `SmpInit.ArchSmpInit` | src/arch/x86_64/smp.c:73-83 | after the start-up of the other processors the bottom 512G and the direct mapping of the start-up pages fault, and every other address translates as before; it succeeds with six frames for each page |
| `RegionTheorems.LeafOffsetIff` | src/arch/x86_64/mm.c:118-122 | a large leaf translates its block with the offset asked for if and only if the block's image is aligned to the leaf size |
| `Rings.ListMemory.InitHead` | include/lib/list.h:30-31 | a new head is an empty ring; the other rings stay |
| `Rings.ListMemory.InitNode` | include/lib/list.h:30-31 | a node outside every ring points to itself; all rings stay |
| `Rings.InsertEffect` | include/lib/list.h:37-53 | inserting a loose node at any position of a ring is sequence insertion on that ring; next and prev stay inverse and every other ring is unchanged |
| `Rings.RemoveEffect` | include/lib/list.h:44-56 | removing a node at any position is sequence removal on its ring and leaves the node loose; every other ring is unchanged |
| `Rings.ListMemory.AddLast` | include/lib/list.h:53 | appends to one ring |
| `Rings.ListMemory.AddFirst` | include/lib/list.h:51 | prepends to one ring |
| `Rings.ListMemory.Remove` | include/lib/list.h:56 | drops the node at its position from one ring |
| `Rings.ListMemory.MoveFirst` | include/lib/list.h:59-62 | takes the node off its ring and puts it first on another, possibly the same, ring |
| `Rings.ListMemory.Empty` | include/lib/list.h:34-35 | true exactly for the empty sequence |
| `Rings.ListMemory.Front` | include/lib/list.h:82 | the first node of the sequence, and none of an empty one |
| `BuddyBlocks.WholeBlock` | src/kernel/mm/buddy.c:88-119 | without two free buddies of equal order below the top, a wholly free aligned block lies inside one free block |
| `BuddyBlocks.Canonical` | src/kernel/mm/buddy.c:88-119 | the free blocks are determined by the set of free pages alone |
| `BuddyBlocks.ExpandKeepsInv` | src/kernel/mm/buddy.c:47-57 | splitting frees all of a block but its first 2^target pages and keeps alignment, disjointness and canonical form |
| `BuddyBlocks.MergeCanAdd` | src/kernel/mm/buddy.c:96-110 | merging with a free buddy gives an aligned block that no free page is in |
| `BuddyBlocks.FreeBlockKeepsInv` | src/kernel/mm/buddy.c:88-119 | a coalescing free adds exactly the pages of the block and keeps the invariant |
| `BuddyTheorems.FreeRangeKeepsInv` | src/kernel/mm/buddy.c:121-143 | the greedy cut of any range tiles it exactly: its pages and no others become free |
| `BuddyTheorems.GreedyStep` | src/kernel/mm/buddy.c:127-142 | the largest aligned power of two that fits is what the range free starts with, and the rest is again a free of a range |
| `BuddyTheorems.AllocThenFreeRestores` | src/kernel/mm/buddy.c:61-143 | allocating from a block and freeing again restores the same set of free blocks |
| `BuddyTheorems.RangeFreesCommute` | src/kernel/mm/buddy.c:121-143 | freeing [a,b) and [b,c), in either order, gives the same blocks as freeing [a,c) |
| `BuddyTheorems.AllocIsSafe` | src/kernel/mm/buddy.c:61-86 | an allocation hands out pages that nobody held and keeps the safety invariant |
| `BuddyTheorems.FreeIsSafe` | src/kernel/mm/buddy.c:121-143 | a free of held pages keeps the safety invariant |
| `BuddyTheorems.RunsAreSafe` | src/kernel/mm/buddy.c:61-143 | over every run of allocations and frees: no page is free and held at once, none is lost, blocks are aligned and disjoint, nr_free_pages is the number of free pages |
| `BuddyTheorems.HistoryDoesNotMatter` | src/kernel/mm/buddy.c:61-143 | two runs that end with the same pages held end with the same free blocks and the same count |
| `BuddyTheorems.HandedOutIff` | src/kernel/mm/buddy.c:61-86 | for a request of nr pages served by a block of 2^k, every page asked for is managed, was held by nobody and is not free afterwards if and only if nr = 2^k, and only then do the books balance |
| `BuddyZone.BuddiesInsideIff` | src/kernel/mm/buddy.c:97-103 | every page structure that the merge loop reads is one of the zone's if and only if both ends of the zone are multiples of the largest block |
| `BuddyZone.OddZoneLooksOutside` | src/kernel/mm/buddy.c:97-103 | a concrete failing input: the last page of a zone of three has its buddy beyond the end |
| `BuddyZone.PageIsBuddy` | src/kernel/mm/buddy.c:22-25 | the test on flag and order is the test whether that block is on its free list |
| `BuddyZone.Zone.constructor` | src/kernel/mm/buddy.c:4-15 | the empty zone of any bounds is valid when all page flags start clear and there are page structures for the largest blocks it touches |
| `BuddyZone.Zone.DelPage` | src/kernel/mm/buddy.c:27-32 | takes exactly this block off the free set, count and list together (flag cleared); the rest of the list keeps its order |
| `BuddyZone.Zone.AddPage` | src/kernel/mm/buddy.c:34-45 | adds exactly this block to the free set, count, flag and order, and at the end of the list of its order |
| `BuddyZone.Zone.ExpandBuddy` | src/kernel/mm/buddy.c:47-57 | the loop over lists and page structures refines the split of a block set, and conserves sum of count[k] * 2^k |
| `BuddyZone.Zone.OrderOf` | src/kernel/mm/buddy.c:67-70 | the number of trailing zero bits of any positive request (loop condition repaired) |
| `BuddyZone.Zone.TakeBlock` | src/kernel/mm/buddy.c:72-85 | for any order: fails and changes nothing exactly when no free block is large enough; otherwise takes the front of the smallest order that serves, splits it down to the order, and subtracts nr from nr_free_pages and 2^order from the sum of count[k] * 2^k |
| `BuddyZone.Zone.PageAlloc` | src/kernel/mm/buddy.c:61-86 | for any positive request: the block taken has as many pages as the greatest power of two that divides it, and nr_free_pages still is the sum of count[k] * 2^k if and only if nothing was taken or the request is that power of two |
| `BuddyZone.Zone.MergeOnce` | src/kernel/mm/buddy.c:96-110 | one round merges exactly when the buddy block is free |
| `BuddyZone.Zone.FreeOne` | src/kernel/mm/buddy.c:88-119 | the merge loop refines the coalescing free on block sets |
| `BuddyZone.Zone.PickOrder` | src/kernel/mm/buddy.c:131-141 | the inner loop finds the largest order that fits, so the outer loop makes progress |
| `BuddyZone.Zone.PageFree` | src/kernel/mm/buddy.c:121-143 | the range free on lists and page structures refines the one on block sets, and adds nr to nr_free_pages |
| `BuddyAsWritten.FreeWrittenIff` | src/kernel/mm/buddy.c:31 | with the flag kept on removal, as the line is written, a free leaves the right free blocks if and only if the merge meets no stale flag of its order |
| `BuddyAsWritten.CountsWrittenIff` | src/kernel/mm/buddy.c:27-32 | and every free_area count still equals the length of its list if and only if it meets none: where it does, that order's count falls one below |
| `BuddyAsWritten.StaleFlagFreesHeldPage` | src/kernel/mm/buddy.c:31 | a concrete failing run: two one-page allocations and one free make the page still held free again |
| `BuddyAsWritten.OrderWritten` | src/kernel/mm/buddy.c:67-70 | the loop with the condition as it parses finds order 0 for every request |
| `BuddyAsWritten.PageAllocWritten` | src/kernel/mm/buddy.c:61-86 | `buddy_page_alloc` with that loop (and line 31 repaired) takes one page for every request, books the number asked for, and leaves a valid zone if and only if nothing was taken or one page was asked for |
| `BuddyAsWritten.OrderWrittenIff` | src/kernel/mm/buddy.c:67-84 | with order 0, as `OrderWritten` computes it, a request hands out the pages asked for, all of them managed, unheld and no longer free, if and only if it asks for one page; only then do the books balance |
| `BuddyAsWritten.OrderRepairedIff` | src/kernel/mm/buddy.c:61-86 | with the order repaired, a request hands out the pages asked for if and only if their number is a power of two |
| `BuddyAsWritten.ThreePagesStayFree` | src/kernel/mm/slab.c:189-191 | a concrete failing request of both versions: three pages out of a free block of four, two of which are still free |
| `Bitmap.BitArray.constructor` | src/lib/bitmap.c:6-10 | the bitmap over a given number of bits |
| `Bitmap.BitArray.Set` | src/lib/bitmap.c:12-65 | sets exactly the bits of [start, start+len) clamped to the size, and no other bit of the array |
| `Bitmap.BitArray.SetWithin` | src/lib/bitmap.c:27-36 | the one-byte path: the two masks leave exactly the bits of the range |
| `Bitmap.BitArray.SetAcross` | src/lib/bitmap.c:38-64 | head mask, whole bytes and tail mask together refine the bit-by-bit range |
| `Bitmap.BitArray.Find` | src/lib/bitmap.c:67-142 | the least index of the clamped range that holds the value, or -1 exactly when there is none, as an `int`: indices from 2^31 on are truncated, and below that the result is exact |
| `Bitmap.BitArray.FindIndex` | src/lib/bitmap.c:67-141 | the index before it is converted to `int` |
| `Bitmap.BitArray.Probe` | src/lib/bitmap.c:80-89 | the masked comparison with the skip byte tells whether one of the masked bits has the value |
| `Bitmap.BitArray.FindWithin` | src/lib/bitmap.c:77-91 | the one-byte path of the search |
| `Bitmap.BitArray.FindAcross` | src/lib/bitmap.c:92-130 | head byte, whole bytes and tail byte of the search |
| `Bitmap.LowestBit` | src/lib/bitmap.c:131-141 | the shift loop ends at the lowest bit that holds the value |
| `Memory.FirstFitIff` | src/kernel/mm/memory.c:44-56 | the search, whose second scan is cut at the end of the bitmap, gives the lowest full run if and only if the last page is in use or some full run exists |
| `Memory.CutRunIsHandedOut` | src/kernel/mm/memory.c:44-56 | a concrete failing input: of two pages the last is available, and a request for two is given it |
| `Memory.InitWalkIff` | src/kernel/mm/memory.c:112-127 | no search of the hand-over walk comes back as -1 if and only if the last page is available |
| `Memory.AgreeAfterAlloc` | src/kernel/mm/memory.c:154-173 | marking the allocated pages used keeps the bitmap in agreement with the buddy blocks and the count |
| `Memory.AgreeAfterFree` | src/kernel/mm/memory.c:182-197 | marking the freed pages available keeps that agreement |
| `Memory.WalkStep` | src/kernel/mm/memory.c:118-126 | one maximal run of available pages is freed: none of its pages was free before |
| `Memory.PhysMemory.BlockPageAlloc` | src/kernel/mm/memory.c:44-56 | terminates and returns the lowest l from which all pages up to min(l + nr, pfn_max) are available, or PFN_NOTFOUND exactly when there is none |
| `Memory.PhysMemory.BuddyInit` | src/kernel/mm/memory.c:112-127 | for memory of any size whose last page is available: after the hand-over a page is available in the bitmap exactly when it lies in a free buddy block, and nr_free_pages counts them |
| `Memory.PhysMemory.PhyPageAlloc` | src/kernel/mm/memory.c:154-173 | for any positive request: failure changes nothing; success takes a block of the greatest power of two of pages that divides it, all of which were available, and marks the pages asked for; bitmap, lists and count still agree if and only if nothing was taken or the request is that power of two |
| `Memory.NullAddressIff` | src/kernel/mm/memory.c:168-172 | the address returned is 0 for page frame 0 only, and 2^64 - 4096 for a failed allocation |
| `Memory.PhysMemory.DoubleFreeCheck` | src/kernel/mm/memory.c:188-192 | the check fires exactly when a page of the range is already in a free block, and names such a page |
| `Memory.PhysMemory.PhyPageFree` | src/kernel/mm/memory.c:182-197 | frees exactly the range in bitmap and buddy lists; the agreement is kept |
| `Memory.MarksPagesOfRegion` | src/kernel/mm/memory.c:98-107 | for page-aligned regions the clipped range holds exactly the pages that lie wholly in the region and above the reserved memory |
| `Memory.MemMapInit` | src/kernel/mm/memory.c:70-110 | after both passes a page is available exactly when an available region's clipped range holds it; no such page reaches into the reserved memory or the bitmap, for which room is reserved, and the bitmap covers memory to its last page |
| `Memory.PartialPageReleasedIff` | src/kernel/mm/memory.c:98-107 | a region above the reserved memory releases a page that starts before it if and only if the region does not start on a page boundary |
| `Memory.LastPageIff` | src/kernel/mm/memory.c:70-110 | when the regions that reach into the last page are whole pages, that page, which the hand-over needs, is marked available if and only if memory does not end within the reserved part |
| `SlabPages.SlotSlab` | src/kernel/mm/slab.c:124-128 | masking an object's address to the page gives its slab, and the object lies behind the header |
| `SlabPages.SlotsApart` | src/kernel/mm/slab.c:72-82 | distinct objects of one or two slabs do not overlap |
| `SlabPages.NewSlabOk` | src/kernel/mm/slab.c:72-83 | a grown page is an acyclic list of exactly objs_per_page distinct slots |
| `SlabPages.TakeObject` | src/kernel/mm/slab.c:110-113 | popping keeps the list acyclic, inuse + free constant |
| `SlabPages.ReturnObject` | src/kernel/mm/slab.c:128-132 | pushing an object that is not on the list keeps it acyclic |
| `SlabCache.LiveObjectsApart` | src/kernel/mm/slab.c:86-138 | live objects overlap neither each other nor a free slot nor a slab header |
| `SlabCache.StoreKeeps` | src/kernel/mm/slab.c:86-138 | whatever word a client stores within an object it holds, every free list stays intact |
| `SlabCache.UsableIff` | src/kernel/mm/slab.c:33-54 | a cache has at least one object a page if and only if the rounded size fits behind the header |
| `SlabCache.PackedPage` | src/kernel/mm/slab.c:33-41 | one more object would not fit behind the header, unless there are 512 |
| `SlabCache.MoveEffect` | include/lib/list.h:59-62 | a moved slab is on the new list only, and the others are where they were |
| `SlabCache.FrontServes` | src/kernel/mm/slab.c:92-98 | a slab on the partial or the free list has a free object |
| `SlabCache.Cache.constructor` | src/kernel/mm/slab.c:33-54 | the empty cache of any object size: objects are the fewest whole words that hold the request, as many a page as fit behind the header up to 512, and the cache is usable if and only if one fits |
| `SlabCache.Cache.Grow` | src/kernel/mm/slab.c:56-84 | threads a fresh page, its objects in order of address; words of other pages keep their values |
| `SlabCache.Cache.PickSlab` | src/kernel/mm/slab.c:92-107 | the front of the partial list, with nothing changed; else the front of the free list, moved; and only when both are empty a new page; nothing exactly when the address the page allocator returns then is 0 |
| `SlabCache.Cache.TakeFrom` | src/kernel/mm/slab.c:109-122 | hands out the first free object of the slab, which moves to the full list exactly when it has no other |
| `SlabCache.Cache.Alloc` | src/kernel/mm/slab.c:86-122 | returns an object that was not live and keeps the cache invariant: the first free object of the front of the partial list, else of the free list, with no word of memory changed, and only when both are empty the lowest object of a new page; the lists afterwards are given; 0 exactly when no list can serve and the address the page allocator returns is 0, which `Memory.NullAddressIff` shows a failed allocation never returns |
| `SlabCache.Cache.Free` | src/kernel/mm/slab.c:124-138 | the object is no longer live and is the first of its slab's free objects, the invariant is kept, the slab moves to the front of the free list exactly when nothing of it is in use (a full slab stays on the full list until then), and only the object's first word is written |
| `SlabCache.Cache.ClientStore` | src/kernel/mm/slab.c:86-138 | clients' stores of words within live objects keep the invariant, so it holds over every run of alloc, free and store |
| `Kmalloc.SizeIndex` | src/kernel/mm/slab.c:149-182 | the class always holds the request, and it is the smallest that does if and only if the request is at most 48 or above 192 bytes; up to 64, 128 and 192 it has 96, 192 and 256 bytes |
| `Arith64.Clzdi2` | src/lib/div.c:112-121 | shifted left by the result the word just fits into 64 bits |
| `Arith64.Ctzdi2` | src/lib/div.c:135-144 | the word is an odd number times 2 to the result |
| `Arith64.BitsToDo` | src/lib/div.c:176-178 | the number of rounds is between 1 and 63 and leaves a first remainder below the divisor; one round for divisors above 2^63 |
| `Arith64.WrapBit` | src/lib/div.c:184 | the sign of b - rem - 1 tells whether rem reaches b, also for divisors above 2^63 |
| `Arith64.DivisionStarts` | src/lib/div.c:176-179 | the loop state before the first round |
| `Arith64.Round` | src/lib/div.c:180-186 | one round keeps the invariant: rem < b, numerator bits at the top of the word, quotient bits at its bottom |
| `Arith64.LongDivision` | src/lib/div.c:175-188 | a = b * q + r with r < b for every a >= b >= 2 |
| `Arith64.Divmoddi4` | src/lib/div.c:149-189 | a = b * q + r with r < b for every 64-bit a and b > 0; traps exactly for b = 0 |
| `Arith64.TruncatesIff` | src/lib/div.c:192-230 | quotient and remainder of the signed routines are the only pair that truncates toward zero with the remainder on the numerator's side (C99 section 6.5.5) |
| `Arith64.QuotientHoldsIff` | src/lib/div.c:192-196 | exactly one quotient, the least number by -1, is not a 64-bit number |
| `Arith64.Divdi3` | src/lib/div.c:192-196 | the truncated quotient whenever a word holds it, and the least number otherwise |
| `Arith64.Moddi3` | src/lib/div.c:225-230 | the remainder with the numerator's sign for every pair |
| `Arith64.Ashldi3` | src/lib/div.c:63-79 | the two halves together are the number times 2^b modulo 2^64 |
| `Arith64.Ashrdi3` | src/lib/div.c:82-98 | the two halves together are the signed number over 2^b, rounded toward minus infinity |
| `Arith64.Lshrdi3` | src/lib/div.c:206-222 | the two halves together are the number over 2^b, rounded down |
| `BitCount.PairsCount` | src/lib/div.c:236 | the subtraction borrows nowhere and leaves in each pair of bits their count |
| `BitCount.AndIsKeep1` | src/lib/div.c:236 | `&` with 0x55... keeps every other bit of the word |
| `BitCount.StepsAreKeeps` | src/lib/div.c:237-238 | the masked sums of the second and third step lose nothing: `&` with 0x33... and 0x0F... keeps every other field, and no sum leaves its field |
| `BitCount.EightsCountOnes` | src/lib/div.c:248-250 | after three steps the bytes hold counts of at most eight that sum to the number of ones |
| `BitCount.Popcount32Counts` | src/lib/div.c:233-242 | the branch-free count, with its masks applied bit by bit, equals counting bit by bit, for every 32-bit word |
| `BitCount.Popcount64Counts` | src/lib/div.c:245-255 | the branch-free count, with its masks applied bit by bit, equals counting bit by bit, for every 64-bit word |
| `Calendar.DateIsUnique` | src/lib/time.c:25-60 | a day number, counted by years and months under the Gregorian rules, names one date |
| `Calendar.GaussCountsDays` | src/lib/time.c:6-23 | the formula with 367*mon/12 and February last counts the same days as going year by year and month by month, for every date from year 1 |
| `Calendar.MktimeCountsDays` | src/lib/time.c:6-23 | with every operation's width in place, `mktime` is the seconds since 1970 minus the offset, modulo 2^32 |
| `Calendar.JumpLands` | src/lib/time.c:36-39 | the jump by groups of 1461 days with its correction lands on the first day of a year, for every day count |
| `Calendar.FindYear` | src/lib/time.c:36-45 | the loop ends in the year that the day lies in |
| `Calendar.FindMonth` | src/lib/time.c:46-58 | the loop ends with mon < 12 in the month that the day lies in |
| `Calendar.Tm.BreakDown` | src/lib/time.c:29-60 | for every second count the fields are a valid date and clock that name it; weekday and day of the year agree with counting days |
| `Calendar.WeekdayIs` | src/lib/time.c:35 | the week day advances with the day, and 1 January 1970 was a Thursday |
| `Calendar.Tm.GmtimeAt` | src/lib/time.c:25-60 | the fields name the timestamp plus the offset, modulo 2^32 |
| `Calendar.Tm.Gmtime` | src/lib/time.c:62-66 | the fields name the timestamp itself |
| `Calendar.Tm.Localtime` | src/lib/time.c:68-72 | the fields name the timestamp plus eight hours, modulo 2^32 |
| `Calendar.MktimeInvertsGmtime` | src/lib/time.c:6-72 | `mktime` undoes `gmtime` and `localtime` for every timestamp, past the end of the word too |
| `Calendar.GmtimeInvertsMktimeIff` | src/lib/time.c:6-72 | a valid date comes back from its timestamp if and only if its local clock, in seconds since 1970, is a 32-bit number |
| `MemCopy.ForwardCopies` | src/lib/string.c:4-28 | a byte-by-byte forward copy gives the old source at the target when the target does not start inside the source |
| `MemCopy.ForwardRepeats` | src/lib/string.c:30-46 | when it does, a forward copy repeats its first bytes, which is why `memmove` needs its other branch |
| `MemCopy.CopyWords` | src/lib/string.c:15-22 | the word loop is a forward copy of whole words, up to seven bytes more than were left |
| `MemCopy.ReachIs` | src/lib/string.c:4-28 | head, word and tail loop together copy n bytes, or up to the end of the last word |
| `MemCopy.ReachStays` | src/lib/string.c:15-22 | exactly n bytes are written if and only if not (aligned alike, a whole word fits, and the end is off a word boundary); otherwise writing ends on the next word boundary, fewer than eight bytes on, inside any memory of whole words that holds both ranges |
| `MemCopy.OverrunWrites` | src/lib/string.c:15-22 | otherwise the byte after the target is overwritten with the byte after the source |
| `MemCopy.Memcpy` | src/lib/string.c:4-28 | refines the byte-by-byte forward copy for every overlap and alignment |
| `MemCopy.MemcpyCopies` | src/lib/string.c:4-28 | n bytes are copied when the target does not start inside the source, nothing below the target changes, and nothing above it unless the copy runs over |
| `MemCopy.Memmove` | src/lib/string.c:30-46 | for every overlap and alignment the first n bytes of the target are the old source (C99 section 7.21.2.2), and nothing else changes unless `memcpy` runs over |
| `PrintFmt.DigitsEvaluate` | src/lib/printfmt.c:12-28 | the digits evaluate back to the number, without superfluous zeros |
| `PrintFmt.NumeralsAgree` | src/lib/printfmt.c:12-28 | any numeral is the digits of the number it reads as, so the digits are the only one |
| `PrintFmt.NumberFillsField` | src/lib/printfmt.c:12-28 | a number takes the larger of its width and its digits |
| `PrintFmt.SprintBuf.PrintNum` | src/lib/printfmt.c:12-28 | the recursion prints max(0, width - digits) pads and then the digits, most significant first |
| `PrintFmt.SprintBuf.Put` | src/lib/printfmt.c:228-234 | every character counts, and the buffer holds the first of them as far as there is room |
| `PrintFmt.SprintBuf.PutString` | src/lib/printfmt.c:127-141 | a string is cut at the precision and padded to the width on the side the flag says |
| `PrintFmt.SprintBuf.PutNumeric` | src/lib/printfmt.c:176-194 | the sign, the prefix and the field of a number |
| `PrintFmt.ScanFlags` | src/lib/printfmt.c:49-109 | the switch refines reading flags, width, precision and length one after the other |
| `PrintFmt.BackUp` | src/lib/printfmt.c:201-206 | the backward scan ends right after the `%` that started the directive |
| `PrintFmt.SprintBuf.VPrintFmt` | src/lib/printfmt.c:33-209 | terminates on every format, in spite of the backward scan, and prints what `Render` says, which the rows of `PrintMeaning` explain |
| `PrintFmt.LiteralText` | src/lib/printfmt.c:42-46 | text without `%` prints itself |
| `PrintFmt.UnknownIsLiteral` | src/lib/printfmt.c:201-206 | a directive with an unknown conversion prints itself, flags included; an argument taken by `*` stays taken |
| `PrintFmt.PlainDecimalIff` | src/lib/printfmt.c:176-194 | a plain `%d` shows an int's decimal numeral if and only if it is not negative, because it is read as unsigned |
| `PrintFmt.LongDecimal` | src/lib/printfmt.c:176-194 | `%ld` and `%lld` show the decimal numeral of every 64-bit number, the least one included |
| `PrintFmt.NumberOnTheLeftIff` | src/lib/printfmt.c:58-61 | the flag `-` puts a number on the left of its field, as its comment promises, if and only if there is nothing to pad: otherwise it pads with dashes on the left |
| `PrintFmt.VSnprintf` | src/lib/printfmt.c:236-251 | stores the first min(count, n - 1) characters and a NUL, leaves the rest of the buffer alone and returns the count; -E_INVAL exactly for no buffer or n < 1 |
| `PrintMeaning.StringMeans` | src/lib/printfmt.c:127-141 | `%s` fills a field with the string, or with its first characters as the precision says: at the right end behind the padding character, or under `-` at the left end before spaces; a null pointer prints as `(null)`, and under `#` unprintable characters as `?` |
| `PrintMeaning.NumberMeans` | src/lib/printfmt.c:144-194 | `%d`, `%u`, `%o`, `%x` and `%p` print a numeral that reads back as the argument in base 10, 10, 8, 16 and 16, behind the padding, and that behind the sign or `0x` |
| `PrintMeaning.CharMeans` | src/lib/printfmt.c:112-114 | `%c` prints its argument's low byte |
| `PrintMeaning.ErrorMeans` | src/lib/printfmt.c:117-124 | `%e` prints the name of an error number or of its negative, and behind the last name the number |
| `PrintMeaning.SpellingReadIff` | src/lib/printfmt.c:49-109 | a directive made of a padding flag, `#`, a width, a precision and `l`s is read as it asks if and only if it does not spell the precision 0, which is read as the flag `0` |
| `PrintMeaning.StarPrecision` | src/lib/printfmt.c:85-105 | a precision given by `*` counts, 0 included |
| `PrintMeaning.DirectivePrints` | src/lib/printfmt.c:41-109 | such a directive prints its conversion of the next argument, and the rest of the format follows |
| `PrintMeaning.FileAndLine` | src/kernel/main.c:48 | `%s:%d:` prints file, colon, line and colon |
| `PrintMeaning.LongHex` | src/kernel/main.c:76 | `%lx` prints the hexadecimal numeral of every 64-bit number |
| `PrintMeaning.TwoDigits` | src/lib/time.c:126 | `%0*d` with width 2 prints every number below 100 with two digits |

## Left out

- PageMapper.PageTables.ArchMapRegion: requires that no rounding wraps and that the offset is aligned to the largest leaf used, which `RegionCuts.CutsOrderedIff` and `RegionTheorems.LeafOffsetIff` show to be needed, that the region lies in one canonical half, and that its image lies below 2^52; the TLB and the direct map of physical memory are not modelled.
- PageMapper.PageTables.MapRegion: is stated of the tree without the entry left out, and so are PgdirWalk and ExpandPage; ArchMapRegion chooses the entry that the walks of the region do not use.
- PageMapper.PageTables.ArchKmap: ends of 2^47 - 2^31 and above, where a rounding may wrap, are excluded; `arch_kunmap` does nothing.
- PageMapper.PageTables.Zalloc: page-table frames come from a pool of free frames; the source only logs when its allocator has none and goes on, while the model's operations report it and stop.
- PageWalk.WalkShrinks: the branch that maps 1G or 2M over a table frees that table's frame only; the smaller tables below it stay allocated, as in the source.
- PageTable.SplitKeepsMeaning: an entry is modelled as a frame number and twelve attribute bits, so the no-execute bit and the other high bits are not represented, which the source does not set for physical addresses below 2^52.
- BuddyZone.Zone.PageAlloc: a request for 0 pages is excluded, for which the repaired loop would not end; nr_free_pages is an unbounded integer, so that its wrap below zero after a request that takes fewer pages than it books shows as a negative number.
- Memory.PhysMemory.BuddyInit: the same of a number of pages that is no multiple of 1024; a last page that is in use is excluded, for which the walk frees a range at -1.
- BuddyZone.Zone.constructor: the source has page structures for the zone's own pages only, so that for other bounds than multiples of the largest block the lookup reads whatever lies behind them.
- BuddyZone.Zone.PageFree: frees outside the zone, which line 124 only logs, and of pages already free are excluded.
- BuddyZone.Zone.MergeOnce: `^` and `&` on aligned page numbers are written as the arithmetic they amount to there.
- Memory.PhysMemory.PhyPageAlloc: the model returns on failure, where the source logs, marks page number 2^64 - 1 and returns its address; requests of 2^63 pages and more are excluded; the branch before `mem_init`, a bump allocator, is left out.
- Memory.MemMapInit: the memory map is a sequence of regions; parsing the Multiboot2 tags is left out.
- Memory.PhysMemory.BlockPageAlloc: bitmaps within eight bits of 2^31 and larger, whose indices `bitmap_find` cannot return as an int, are excluded.
- SlabCache.Cache.Alloc: the address that the page allocator returns is a parameter; a failed allocation, which comes back as 2^64 - 4096, is then used as a page like any other, and no theorem says that memory is there.
- SlabCache.Cache.Free: freeing an object that is not live is excluded; the source checks nothing.
- SlabCache.Cache.constructor: the alignment argument is the word size, which every caller passes; cache names and locks are left out, and the methods are sequential critical sections.
- Kmalloc.SizeIndex: `kmalloc` and `kfree` themselves only dispatch on the size and the page flag and are left out; what their requests for more than 2048 bytes get is `BuddyAsWritten.OrderRepairedIff`.
- Arith64.Ashldi3: the parts joined by `|` have no bit in common, so the model adds them; `__absvdi2`, `__ffsdi2`, `__udivdi3`, `__umoddi3` and the 32-bit `__clzsi2` and `__ctzsi2` are left out as easy variants.
- BitCount.Popcount64Counts: words are natural numbers and `&` a recursive function on their bits; no step leaves the word, so no operation is truncated.
- Calendar.Tm.GmtimeAt: `tm_isdst` and `tm_zone` are left out, which the source does not touch; `strftime` is left out as easy.
- Calendar.MktimeCountsDays: dates before year 1 of the Gregorian calendar and years beyond an int are excluded, and so are fields out of range.
- MemCopy.Memcpy: memory is an array of whole words and sizes are natural numbers; for sizes of 2^63 and more the signed counter of the source would start negative and copy nothing.
- PrintFmt.SprintBuf.VPrintFmt: widths, precisions and counts are unbounded integers, arguments are 64-bit slots with missing ones read as zero, and `%e` of the least int, which indexes its table out of bounds, prints an error number.
- PrintMeaning.SpellingReadIff: directives with several padding flags, or with flags behind the width, are covered by `PrintFmt.ScanFlags` alone.
- PrintFmt.SprintBuf.Put: the other sink, the console, is left out; it prints every character.
- The scheduler, the rest of SMP bring-up, traps, timers, ACPI, console and video, and the i386 port are left out: hardware access, or too little logic to model.
- `memset`, `memcmp` and the string functions are left out: easy loops.
