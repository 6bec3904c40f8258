# A model of RVM1.5's memory management and CPU lifecycle

RVM1.5 is a type-1.5 hypervisor: it is loaded under a running Linux, takes over every online CPU, and runs that Linux as its one guest. This project models the two parts of it that carry its guarantees, and what is built on them.

* **Page tables.** Four-level tables kept in raw 512-entry frames, in three entry formats (x86, Intel EPT, AMD NPT), with 1 GiB, 2 MiB and 4 KiB pages chosen on the fly. The mutable tables are proved to mean a flat map from addresses to pages: `Tables.QueryIsLookup` and `Regions.LeafTarget` are the two ends of that, and the class `PageTables.PageTable` carries it through every operation, failing ones included.
* **Region sets.** `MemorySets.MemorySet` keeps an ordered map of regions over such a table. Over any script of inserts, deletes and clears the recorded regions are the ones a plain map would hold, all of them are translated right, and no `unwrap` panics, also after a `map` that failed part-way; while none has failed the table translates nothing else.
* **What is built on them.** The nested table of the root cell, the hypervisor's own table with its direct map, the frame allocator, and guest memory access across pages of any size.
* **CPU lifecycle.** Boot and shutdown as transition systems over any number of CPUs, one atomic load, store or fetch-and-add per step, under every interleaving and every failure. Boot ends with every CPU activated when no step of it failed, and with none activated and every CPU returned when one did.

| file | about |
|---|---|
| `Pte.dfy`, `Blocks.dfy` | entries and their three encodings; aligned blocks of the 48-bit space |
| `Words.dfy`, `Setters.dfy` | entries as 64-bit numbers, and the source's bitwise operations on them |
| `Tables.dfy`, `Shape.dfy` | raw frames, the walk, the tree invariant, and the tree seen from raw links |
| `Regions.dfy` | regions, mappers, greedy page sizing and its closed form |
| `Steps.dfy`, `RegionMaps.dfy`, `Unmaps.dfy` | what one page operation, and one whole `map` or `unmap`, does to a table; `unmap` however the pages lie |
| `PageTable.dfy`, `TableRuns.dfy`, `Clones.dfy` | the page table class; `map` then `unmap`; clones that share subtrees |
| `RegionSets.dfy`, `MemorySet.dfy`, `SetRuns.dfy` | overlap, the region set class, whole runs |
| `HvMemory.dfy`, `Isolation.dfy`, `HvTheorems.dfy` | the two builders; isolation; agreement of the two tables |
| `Frames.dfy`, `FrameRuns.dfy` | the frame allocator and where its pool lies |
| `GuestAccess.dfy`, `GuestAlias.dfy` | reading and writing guest memory; a guest with two pages on one frame |
| `Boot.dfy`, `Disable.dfy` | the boot protocol and the disable rendezvous |

How to read the contracts: `View` is the state of one table at one moment, `Tree` says that no other table writes its frames, `tables` and `leaves` map each block of the address space to its table frame or its terminal entry, and `Lookup` is the flat meaning. `Typed` is the weaker invariant that survives sharing between clones. A set that `Keeps` has every page of its recorded regions; one that `Agrees` has no other page.

Some promises do not hold of the code as it stands, or hold on a condition. Each of these has the exact condition in a contract, and a failing case beside it.

* An x86 leaf with empty flags for the first page reads as unused (`Pte.SetLeafMeaning`, `Pte.EmptyLeafLost`).
* Two regions that overlap are missed when one of them ends at 2^64 (`RegionSets.OverlapExact`, `RegionSets.OverlapMissedAtTop`).
* `unmap` of a region succeeds exactly when pages fill it and none sticks out; otherwise it fails or panics at the first place where they do not (`Unmaps.UnmapExact`, `PageTables.PageTable.Unmap`, `Unmaps.LargerPagePanics`).
* After a delete, an empty table left behind makes a larger page at the same place fail (`SetRuns.LeftoverExample`; the condition is `Leftover` in `MemorySets.MemorySet.Insert`).
* The frame pool stays inside the hypervisor's memory only if rounding its base to a physical page fits in the slack at the end (`Frames.PoolPlacement`, `Frames.PoolOverruns`).
* The region that hides the hypervisor holds all of its memory exactly when that memory rounds whole: `hvPhys % 4096 + hvSize` is at most `hvSize` rounded up (`Isolation.HiddenCovers`). Otherwise even an identity-mapped region can lead the guest into the rest (`Isolation.TailReached`), and it is kept out exactly when all regions are clear of it (`Isolation.IdentityIsolates`).
* In general the nested table keeps the guest out of the hypervisor's memory exactly when no configured region is mapped onto it (`Isolation.IsolationExact`; `Isolation.Escape` finds the address that gets in).
* A configured range is mapped as a whole exactly when it rounds whole, and to the configured memory exactly when both sides start at the same place in a page (`HvTheorems.GuestCovers`, `HvTheorems.GuestTargetExact`, `HvTheorems.DescTailLost`, `HvTheorems.DescShifted`).
* Guest RAM seen through the two tables is the same memory only if the hypervisor's memory starts at a page (`HvTheorems.TablesAgreeExact`, `HvTheorems.TablesDiffer`).
* A write followed by a read gives the data back exactly when bytes that share a place agree (`GuestAccess.WriteThenRead`, `GuestAlias.AliasLost`).
* Every CPU reads the full count, and so waits for all others before leaving, exactly in runs where each asks after all have activated (`Disable.GuardIsExact`, `Disable.TooEarly`).

## Model

| member | source | states |
|---|---|---|
| Pte.SetTableMeaning | src/arch/x86_64/page_table.rs:90-93 | in all three formats, a link written over any word is present, not huge, and gives the table's frame back |
| Pte.SetLeafAny | src/arch/x86_64/page_table.rs:80-89 | a terminal entry written over any word gives back its page kind, exactly the flags the format can hold, and bits 12 to 52 of the address |
| Pte.SetLeafMeaning | src/arch/x86_64/page_table.rs:63-97 | an address below 2^52 is given back to the page, and the entry reads as unused in one case only: x86, no flags, not huge, first page |
| Pte.EmptyLeafLost | src/arch/x86_64/page_table.rs:83-89 | that case written out |
| Pte.X86FlagsBack | src/arch/x86_64/page_table.rs:14-61 | x86 and NPT flag bits convert back to READ plus the WRITE, EXECUTE, USER and IO that were asked for |
| Pte.SetFlagsNpt | src/arch/x86_64/amd/npt.rs:28-33 | an NPT leaf is always a user page, and otherwise reads back as asked |
| Pte.EptFlagsBack | src/arch/x86_64/intel/ept.rs:47-80 | EPT flag bits convert back to the READ, WRITE and EXECUTE that were asked for, whatever the word held, and the entry is never unused because its memory type is not zero |
| Words.DecodeExact | src/arch/x86_64/page_table.rs:58-61 | the split of a 64-bit entry into the field under the address mask and the other bits loses nothing: two words split alike iff they are equal |
| Setters.SetAddrSplit | src/arch/x86_64/page_table.rs:80-82 | the masked store of an address, bit by bit on the number, is the split form's `SetAddr` |
| Setters.SetFlagsSplit | src/arch/x86_64/page_table.rs:14-89 | so is the store of the flags on x86 and NPT, with the number `or`-ed from the hardware's own bits: PRESENT 1, WRITABLE 2, USER_ACCESSIBLE 4, NO_CACHE 16, HUGE_PAGE 128, NO_EXECUTE bit 63 |
| Setters.SetTableSplit | src/arch/x86_64/page_table.rs:90-93 | and the store of a link |
| Setters.SetEptAddrSplit | src/arch/x86_64/intel/ept.rs:105-107 | the EPT's `set_bits(12..52, ..)` is the split form's `SetAddr` |
| Setters.SetEptLowSplit | src/arch/x86_64/intel/ept.rs:134-137 | and its two stores of flags and memory type are `SetEptLow` |
| Setters.SetEptFlagsSplit | src/arch/x86_64/intel/ept.rs:108-114 | with READ 1, WRITE 2, EXECUTE 4, HUGE_PAGE 128 and memory type 6 that is the split form's `SetFlags` |
| Setters.SetEptTableSplit | src/arch/x86_64/intel/ept.rs:115-121 | the store of a link, 7 with memory type 0, is the split form's `SetTable` |
| Setters.GettersSplit | src/arch/x86_64/page_table.rs:64-78 | address, unused, huge and present read the same from the number and from its split form; for the EPT present means that one of bits 0..3 is set |
| Tables.QueryIsLookup | src/memory/paging.rs:233-240 | on a tree, `query` equals a flat lookup among the terminal entries, error kind included, for every address |
| Tables.WalkEnds | src/memory/paging.rs:145-165 | the walk ends at the slot of the one page that covers the address, or fails exactly where there is none |
| Tables.TreeLink | src/memory/paging.rs:528-539 | hanging a zeroed frame in an unused slot keeps the tree, and neither block nor frame was in use before |
| Shape.TreeShape | src/memory/paging.rs:275-304 | from the raw entries alone: `intrm_tables` holds exactly the frames that links reach from the root, and each is reached along a single path |
| Shape.FollowMeaning | src/memory/paging.rs:518-526 | following links along any path of indices finds the table of the block the path covers, or nothing |
| Regions.GreedyIsClosedForm | src/memory/paging.rs:414-445 | the page size the loop picks at each point is the closed form: 1 GiB iff the whole aligned block lies in the region, offset or target is a multiple and huge pages are allowed; else 2 MiB by the same test; else 4 KiB |
| Regions.PageAtChosen | src/memory/paging.rs:416-445 | every position of a region lies in a page the closed form chooses for it |
| Regions.NextCut | src/memory/paging.rs:443-444 | the page after a chosen page starts where that one ends, up to the end of the region |
| Regions.LeafTarget | src/memory/mapper.rs:12-19 | the terminal entries of a region translate each of its bytes to the mapper's address with the visible flags; for a fixed mapper to the fixed page plus the offset |
| PageTables.PhysMem.NewZero | src/memory/paging.rs:275-280 | one free page becomes live, and its frame is zeroed, page-aligned and in no table; failure means none was free and changes nothing, success that one was |
| PageTables.PageTable.NextTableOrCreate | src/memory/paging.rs:528-539 | an unused slot gets a new table that `intrm_tables` records; otherwise the slot's own table or error comes back and nothing changes; lack of memory is reported only when no frame is free, and free plus recorded frames stay as many |
| PageTables.PageTable.GetEntryOrCreate | src/memory/paging.rs:284-304 | reaches the table of the wanted level, adding only tables on the way to the address; it fails because a larger page is in the way, then with MappedToHugePage if that page is present, or for lack of memory, then with no frame free |
| PageTables.PageTable.MapPage | src/memory/paging.rs:306-314 | adds exactly one terminal entry; it fails with AlreadyMapped iff the slot itself is taken, with MappedToHugePage when a larger present page covers it, and with NoMemory only when no frame is free; otherwise nothing was in the way |
| PageTables.PageTable.UnmapPage | src/memory/paging.rs:316-324 | removes exactly the page that covers the address and gives its size and physical address, or fails iff none does; no table goes away |
| PageTables.PageTable.Update | src/memory/paging.rs:326-331 | rewrites exactly the entry the walk ends at, keeping the tree; an unused 4 KiB slot is written too, and an entry written all zero is gone |
| PageTables.PageTable.Map | src/memory/paging.rs:407-447 | maps all chosen pages of the region, or stops at a page boundary with exactly the pages before it mapped and the failing page's own cause, no frame being free if that is memory; keeps the tree, the record of tables, and every root slot in use |
| PageTables.PageTable.Unmap | src/memory/paging.rs:449-469 | a region whose pages are all mapped is unmapped page for page with no error and neither assertion firing; on any tree and any region the outcome is that of the first position the pages there do not fill: NotMapped if there is no page, a panic if there is one that sticks out of the region; on success nothing is mapped in the region and all else answers as before |
| Unmaps.UnmapExact | src/memory/paging.rs:449-469 | so `unmap` succeeds iff pages, of whatever sizes, fill the region and none sticks out |
| Unmaps.LargerPagePanics | src/memory/paging.rs:463-464 | unmapping one 4 KiB page of a 2 MiB page panics, whatever else is mapped |
| RegionMaps.PrefixTranslates | src/memory/paging.rs:407-447 | after `map`, whole or cut short, every byte before the stop has the mapper's translation |
| RegionMaps.RestUnchanged | src/memory/paging.rs:407-447 | and every other address answers as before, error kind included |
| RegionMaps.MapThenUnmap | src/memory/paging.rs:449-469 | `map` then `unmap` of a region restores the terminal entries |
| TableRuns.MapAndUnmap | src/memory/paging.rs:407-469 | `map` and then `unmap` of a region: if the first succeeds so does the second, and every address answers as before; if the first fails, with the cause that stands at the failing page, memory being the cause only when no frame is free |
| PageTables.PageTable.Clone | src/memory/paging.rs:354-366 | the clone has a new root with the same 512 entries and records no tables; it takes one frame, and is missing iff none was free; nothing else changes |
| Clones.CloneAndRun | src/memory/paging.rs:476-481 | table and clone answer alike right after cloning, and after any interleaving of `map`, `unmap` and `update` on either they still answer alike at every address whose root slot was in use at clone time |
| Clones.SameSlotSameAnswer | src/memory/paging.rs:145-150 | equal root entries at an address's slot give equal answers at the address |
| RegionSets.OverlapExact | src/memory/mm.rs:41-47 | the overlap test is exact for regions that end below 2^64, and finds nothing for one that ends at 2^64 |
| RegionSets.OverlapMissedAtTop | src/memory/mm.rs:41-47 | a region that ends at 2^64 is not seen to overlap itself |
| RegionSets.NeighboursDecide | src/memory/mm.rs:68-80 | on a set of disjoint regions, looking at the nearest region on each side equals looking at all of them |
| RegionSets.AgreeMeaning | src/memory/mm.rs:83-97 | when the terminal entries are those of the recorded regions, an address is mapped iff a region contains it, and then to that region's target |
| RegionSets.CoversMore | src/memory/mm.rs:94-95 | pages that a `map` adds for a region that overlaps none, all or only some, leave the recorded regions' pages as they were |
| RegionSets.NothingLeftOver | src/memory/paging.rs:282-310 | where every table holds a page, no table stands in the way of a region that overlaps nothing |
| MemorySets.MemorySet.Insert | src/memory/mm.rs:83-97 | on any set that keeps its recorded pages, also after failures: rejects exactly the overlapping regions; success records the region under a new key and adds its pages; a failing `map` leaves exactly the pages before the failing one, and either no frame is free or something was in that page's way, larger pages being told from taken slots by the error. On a set that agrees, that can only be a leftover table, and success keeps the agreement |
| MemorySets.MemorySet.Delete | src/memory/mm.rs:100-114 | on any such set: removes exactly the named region and its pages, its unmapping never fails, and no table is freed |
| MemorySets.MemorySet.Clear | src/memory/mm.rs:116-121 | on any such set, so also when an unfinished one is dropped: `unwrap` never panics, nothing stays recorded, and only pages that no region asked for stay mapped |
| MemorySets.RecordedAnswers | src/memory/mm.rs:83-121 | on a set that keeps its recorded pages, every address of a recorded region has that region's target |
| MemorySets.QueryAnswers | src/memory/mm.rs:83-121 | on one that agrees, `query` succeeds iff a recorded region contains the address, with that region's target, and otherwise fails with NotMapped |
| SetRuns.Run | src/memory/mm.rs:83-121 | over any script, failures included: the recorded regions are those of a plain map, every answer is right for its time, no `unwrap` panics and all recorded pages are kept; with no failed `map` the set agrees; and the first `map` to fail in a script of inserts alone on a new set fails for lack of memory; that answer always finds no frame free, and free plus recorded frames stay as many |
| SetRuns.LeftoverExample | src/memory/paging.rs:282-310 | insert and delete a 4 KiB region: a 2 MiB region at the same place then overlaps nothing and its insert fails with AlreadyMapped; the first insert itself fails only when no frame is free |
| HvMemory.NewSet | src/memory/mm.rs:54-59 | an empty set on a new table, in a frame no other table uses; it is missing iff no frame was free |
| HvMemory.NewRoot | src/cell.rs:16-45 | never succeeds when two of the regions it is to insert overlap, and otherwise fails only with no frame free; on success the set records exactly the hidden hypervisor range and the configured regions; in any case no frame of another table was written |
| HvMemory.NewRootOrDrop | src/memory/mm.rs:157-165 | dropping the set that a failing builder leaves does not panic, and the failure has the same causes |
| HvMemory.NewCell | src/cell.rs:54-62 | from no set at all: the root cell's table is made, or the answer says whether the root frame, memory or an overlap was the reason |
| HvMemory.InitHvPageTable | src/memory/mod.rs:109-160 | never succeeds when two regions overlap or a direct-map region would wrap, and otherwise fails only with no frame free; the answer says which; on success the set records exactly the core, the data area and a direct-map region for each DMA region |
| HvTheorems.HypervisorMapped | src/memory/mod.rs:118-132 | when core and memory of the hypervisor are whole pages, every byte of that memory is found through its own table at the address computed for it, writable everywhere and executable exactly in the core |
| HvTheorems.NothingElseMapped | src/memory/mod.rs:116-154 | an address the hypervisor's table maps lies in the core, the data area or the direct map of a DMA region |
| HvTheorems.DirectTarget | src/memory/mod.rs:134-153 | the direct map sends each address of a DMA region to that region's memory, to read and write and not to execute |
| Regions.RoundedCovers | src/memory/mm.rs:29-38 | rounding a range to a region keeps all of it iff what the start moves down is made up for by what the size grows |
| Isolation.HiddenCovers | src/cell.rs:24-29 | the hidden region holds all of the hypervisor's memory iff that memory rounds whole |
| Isolation.HypervisorHidden | src/cell.rs:24-29 | then every guest-physical address in the hypervisor's memory leads into the empty page, without write or execute |
| Isolation.HiddenExact | src/cell.rs:24-29 | and only then, unless the configuration maps guest memory onto the empty page |
| Isolation.IsolationExact | src/cell.rs:24-38 | no guest-physical address outside the hidden region leads into the hypervisor's memory iff no configured region is mapped onto that memory |
| Isolation.Escape | src/cell.rs:30-38 | for any configured region that is, an address that leads into it |
| Isolation.IdentityIsolates | src/cell.rs:30-38 | with identity-mapped regions the guest is kept out iff they are clear of the memory the hidden region does not hold, so always when the hypervisor's memory rounds whole |
| Isolation.TailReached | src/cell.rs:24-38 | a hypervisor loaded in the middle of a page whose last 2 KiB an identity-mapped region gives to the guest |
| Isolation.TailedUsable | src/cell.rs:24-38 | that configuration overlaps nowhere, so the builder takes it |
| Isolation.GuestTarget | src/cell.rs:30-38 | an address of a configured region goes to that region's memory with exactly the configured flags the format can hold |
| HvTheorems.StartsCorrespond | src/memory/mod.rs:134-153 | a direct-map region starts at the page of its guest region iff the hypervisor's memory starts at a page |
| HvTheorems.TablesAgreeExact | src/memory/mod.rs:134-154 | for an address of guest RAM the two tables give the same host-physical address iff the hypervisor's memory starts at a page, whatever the page sizes |
| HvTheorems.TablesDiffer | src/memory/mod.rs:134-154 | a load address in the middle of a page: the first address of guest RAM leads to different memory through the two tables |
| HvTheorems.ShiftedUsable | src/memory/mod.rs:116-154 | both builders take that configuration |
| HvTheorems.DirectMapCovers | src/memory/mod.rs:134-154 | with the hypervisor's memory starting at a page, the direct map covers every address of the region |
| HvTheorems.GuestCovers | src/cell.rs:30-38 | a region holds all addresses its descriptor is configured for iff they round whole |
| HvTheorems.GuestTargetExact | src/cell.rs:30-38 | a configured address goes to the memory configured for it iff both sides of the descriptor start at the same place in a page, and has the configured flags |
| HvTheorems.DescTailLost | src/memory/mm.rs:29-31 | a descriptor whose last half page is in no region |
| HvTheorems.DescShifted | src/memory/mapper.rs:33-35 | a descriptor whose first address goes elsewhere |
| HvTheorems.ConfiguredAgree | src/memory/mod.rs:134-154 | every configured address of guest RAM that rounds whole leads to one memory through both tables, the configured one if both sides start at the same place in a page; the guest has it with its configured flags, the hypervisor to read and write |
| HvTheorems.InitCell | src/cell.rs:16-45 | building the root cell's table, failing or not, leaves the hypervisor's table, in frames of the same allocator, as it was; a failure names its cause |
| HvTheorems.InitMemory | src/main.rs:99-101 | when both tables are built and the hypervisor's memory starts at a page, all of that holds of them; when one fails, dropping it does not panic, and the cause is an overlap, a wrapping region or no frame free |
| Frames.FrameAllocator.Init | src/memory/frame.rs:36-40 | the pool has its pages free, based at the next page boundary |
| Frames.FrameAllocator.Alloc | src/memory/frame.rs:45-49 | one free page becomes live; fails iff none is free |
| Frames.FrameAllocator.AllocContiguous | src/memory/frame.rs:54-70 | the whole run becomes live, aligned from the pool base, and in memory as far as the base is |
| Frames.FrameAllocator.Dealloc | src/memory/frame.rs:83-89 | exactly the pages of the run become free again |
| Frames.FrameAllocator.Drop | src/memory/frame.rs:184-196 | dropping an owned frame returns exactly its run; a `from_paddr` frame returns nothing |
| Frames.InitPool | src/memory/frame.rs:199-205 | the allocator starts with every page of the free memory free and none live |
| Frames.PartitionTake | src/memory/frame.rs:45-70 | taking a free run keeps live runs pairwise disjoint and free plus live the whole pool |
| Frames.PartitionDrop | src/memory/frame.rs:75-89 | so does giving one back |
| Frames.Conservation | src/memory/frame.rs:36-90 | free pages and live pages together count the pool |
| Frames.PoolPlacement | src/consts.rs:24-36 | the per-CPU areas lie apart between the core and the configuration, and every pool page at or above the free memory, clear of both; the pool loses less than a page at each end; all end inside the hypervisor's memory iff the rounding of the base fits in the slack |
| Frames.PoolOverruns | src/memory/frame.rs:199-205 | a layout in which the last pool page ends past the hypervisor's memory |
| FrameRuns.RunFrames | src/memory/frame.rs:36-90 | after any script of allocations and drops the frames held lie in the pool and clear of each other, and their pages and the free ones together are as many as the pool has |
| FrameRuns.LiveTotal | src/memory/frame.rs:54-89 | the pages of disjoint runs are as many as the runs are long together |
| FrameRuns.InitAndRun | src/memory/frame.rs:199-205 | from initialisation on, every frame held lies at or above the free memory, clear of the per-CPU areas and the configuration, and ends inside the hypervisor's memory if the rounding fits |
| GuestAccess.WalkSame | src/memory/paging.rs:145-165 | a walk through tables in byte memory depends only on the frames it visits |
| GuestAccess.QuerySamePage | src/memory/paging.rs:233-240 | on the rest of the page that covers an address, translation adds the distance |
| GuestAccess.NumberBytes | src/memory/paging.rs:145-165 | a table entry read from byte memory is the little-endian number of its eight bytes, each of them at its place |
| GuestAccess.StoredWord | src/memory/paging.rs:145-165 | a 64-bit word stored byte by byte in an entry is the entry that walks then read |
| GuestAccess.Read | src/memory/gaccess.rs:60-94 | a null pointer is refused as null and any other that is no multiple of the alignment as misaligned; otherwise it succeeds iff every byte is mapped, and then byte i is the memory at the translation of address i, across pages of any size; if not it reports the first fault |
| GuestAccess.Write | src/memory/gaccess.rs:60-116 | pointers are refused by the same two tests, and change nothing; otherwise memory and result are those of the page-by-page write, and when the range misses the tables its translation reads, memory is that of writing the bytes one by one up to the first fault |
| GuestAccess.PagesAreBytes | src/memory/gaccess.rs:96-116 | when the range misses the tables its translation reads, page by page equals byte by byte, and a write that faults has written exactly the bytes before the fault |
| GuestAccess.SpotKept | src/memory/gaccess.rs:96-116 | such a write leaves every translation in the range as it was |
| GuestAccess.LastWins | src/memory/gaccess.rs:96-116 | of the bytes written to one place the last one stays |
| GuestAccess.WriteThenRead | src/memory/gaccess.rs:74-116 | reading back after such a write gives the data iff bytes that share a physical place were given the same value |
| GuestAlias.AliasLost | src/memory/gaccess.rs:74-116 | a guest memory with two pages on one frame, on which data that differs at the shared places is not read back |
| Boot.AllOrNothing | src/main.rs:114-155 | in every run, if any CPU activates at any time then none fails or returns at any time |
| Boot.CleanExactly | src/main.rs:93-148 | in every run some CPU is on the way back to the driver iff a step of boot has failed: the configuration check, the page table, the root cell or the `init` of a CPU; until then ERROR_NUM is zero |
| Boot.FailureStopsAll | src/main.rs:93-155 | if such a step fails at any time, no CPU activates at any time of that run |
| Boot.NothingSkipped | src/main.rs:93-142 | a CPU gets to `init` only after the configuration was checked and table and root cell were made with success, past it only by its own success, and to activation only after that of every CPU |
| Boot.ReturnsNonZero | src/main.rs:144-155 | every return to the driver carries a non-zero code |
| Boot.CodesAreReal | src/main.rs:144-155 | a CPU returns what was stored last at some moment after its own store, and that is the error number of a step that really failed, or EBUSY of a CPU that left a barrier because of one |
| Boot.BootOrder | src/main.rs:114-142 | at every moment: who runs `init` finds table and root cell made, only the CPU with id 0 does the primary's part, who activates comes after the last `init`, ids are distinct with one primary, and who is past a barrier or about to leave it finds its counter at the target |
| Boot.StepInv | src/main.rs:51-142 | every step of every CPU keeps the boot invariant |
| Boot.RoomToEnter | src/percpu.rs:35-47 | with no more CPUs online than slots, none is turned away |
| Boot.FullTurnsAway | src/percpu.rs:35-38 | with all slots taken, a CPU that has yet to look never enters, and returns with EINVAL if at all |
| Boot.SomeUnblocked | src/main.rs:55-64 | while any CPU is unfinished some CPU is not spinning in vain, also after a failure |
| Boot.RoundLowers | src/main.rs:55-64 | any stretch of a run in which each CPU moves twice brings the boot measure down |
| Boot.BootEnds | src/main.rs:114-155 | 17 n such stretches end with all n CPUs activated if no step of boot failed, and, if one did, with none activated and all returned, each with the number of a failure or EBUSY |
| Disable.GuardIsExact | src/hypercall/mod.rs:87-88 | every CPU reads the full count iff each asks to leave only after all have activated |
| Disable.Rendezvous | src/hypercall/mod.rs:87-98 | in such runs no CPU is out of the loop before all have arrived, and the counter is the number of CPUs less those gone |
| Disable.TooEarly | src/hypercall/mod.rs:87-98 | with two CPUs, one that asks too early is gone while the other has not arrived |
| Disable.NoUnderflow | src/percpu.rs:95-104 | ACTIVATED_CPUS never goes below zero, guarded or not |
| Disable.AllLeave | src/hypercall/mod.rs:87-98 | 5 n stretches in which each CPU moves end with all gone and the counter at zero, guarded or not |

## Left out

- VMCS and VMCB set-up, vCPU enter and exit, Linux context switching, MSRs and control registers: hardware effects; `vcpu.enter` is taken not to return and `vcpu.exit` to succeed.
- The MSR bitmap: its mask is a conjunction with a zero page, so it has no intended meaning to prove.
- `as_ref` and `as_mut` of guest pointers: they compare the offset in a 4 KiB page with the size of the page found, so that no page is crossed holds for 4 KiB mappings only, where `GuestAccess.QuerySamePage` says the rest.
- Agreement of `query` with the processor on tables the guest made: the source tests 4 KiB entries for non-zero, not for present; the meaning of `query` is proved for tables built by this code.
- Returning the frames of a dropped table: dropping a set is modelled up to its `clear`.
- `MemorySet::clone` and dropping a clone: dropping clears entries that the original shares; clones are modelled at page-table level and before either is dropped.
- Insides of the bitmap and buddy allocators: the bitmap is a set of free indices, its run search an input, the heap is absent.
- TLB flushes, `activate` and the clone lock: each page-table operation is one atomic step.
- The panic path of `src/lang.rs`: it decrements ACTIVATED_CPUS outside the rendezvous.
- Memory ordering weaker than sequential consistency: each atomic access is one step on one shared state.
- Configuration layouts, logging, UART, statistics, CPUID tables: I/O or finite tables; sizes and region lists are inputs.
- PageTables.PageTable.GetEntryOrCreate: stated for one table reached level by level, with the slot index left to the caller, because a reference into a frame has no counterpart here.
- PageTables.PageTable.Update: asks an EPT address to be below 2^52, where the source panics.
- PageTables.PageTable.MapPage: asks for an address below 2^52, and non-empty flags on x86, as `PageTables.PageTable.Map` does.
- PageTables.PageTable.Map: asks for whole pages within one 48-bit space onto 52-bit physical addresses, and non-empty flags on x86; outside that the source wraps, panics or writes entries that read as unused.
- HvMemory.NewRoot: asks that the configured regions are of that kind, below 2^48, and for a new set.
- HvMemory.InitHvPageTable: asks that its regions are of that kind, in the canonical address window, and for a new set.
- HvTheorems.HypervisorMapped: asks that core and memory of the hypervisor are whole pages that fit above HV_BASE.
- PageTables.PageTable.Unmap: the outcome on any tree asks that the region lies within one 48-bit space.
- Isolation.HiddenExact: asks that the hypervisor's memory lies below 2^48 and that no configured region is mapped onto the empty page; one direction, `Isolation.HypervisorHidden`, needs neither.
- GuestAccess.PagesAreBytes: asks that the range misses the frames its own translation reads; what happens otherwise is stated by `GuestAccess.Write` only.
- Boot.BootEnds: asks for no more online CPUs than slots in the header, and that exactly the online CPUs enter.
