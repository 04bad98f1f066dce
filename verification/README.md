# DarkCore, modelled and proved

DarkCore is a small kernel for the i386.  This project models the parts of it that decide something
without a device: physical and virtual memory, the loader, the LiteFS file system with its host-side
writer, the scheduler, and keyboard input.  What each of them promises is proved about the model, for
all inputs and all runs.

`dafny verify dfyconfig.toml` checks the whole project.

## How the model is built

| files | what they model |
|---|---|
| Align, Options | page arithmetic on 32-bit sizes |
| Regions, RegionPasses, FrameLayout, Frames, PhysicalMemory, Boot | the firmware memory map, the passes that turn it into usable regions, frame tables, first fit |
| Paging, PageSearch, Blocks, VirtualMemory, SearchDefects, Translation | two-level page tables in memory, ownership of physical blocks, blocks of virtual pages, when the search for them is sound |
| Threads, NineBits, PhysicalBytes, Loader | making a thread, loading an image and a path into it byte by byte |
| LiteFsFormat, LiteFsWriter, LiteFsTree | the on-disk structures, the host's generator and its walk over a directory tree |
| Strings, LiteFsReader, LiteFsRoundTrip, LiteFsPaths, LiteFsContents, LiteFsLookup, LiteFsDirectories | path parts, the kernel's reader, what it reads of what was written, what it finds of what is not there |
| Scheduling, Scheduler | the timer interrupt, switching, the ring of threads |
| Keyboard | the byte queue and its decoder |

Code that changes things step by step is a class or a method with the loops of the original; what it
computes is a function, and the promises are lemmas about that function or postconditions.

**Physical memory.**  A descriptor table is an array that is cut, sorted, merged and compacted in
place.  `Bytes` is the set of addresses that a table makes usable.  `RemoveExtraRegions` is exact set
subtraction on it, and it ends because descriptors plus holes still inside them never get more.  Frame
tables keep `Runs`: a frame is busy exactly if it lies in the run of one head.

**Virtual memory.**  Memory is 2^20 pages of 0x400 words.  `Flat` is the meaning of the two levels: one
entry for each virtual page of each directory.  `Vmm.Valid` says that the live blocks of the physical
manager are exactly those that some directory, table or page entry uses, or somebody outside, each by one
owner, and that free entries are blank.  The manager's own blocks are two frames each, so this is
ownership frame by frame.  Every operation of the class requires it and ensures it, so it holds over
every run, with any number of directories, and beside what the scheduler takes for itself.  The owners
are a ghost map; `Left` counts the one-page requests that the physical manager can still serve, and is
how a precondition says that memory does not run out.

**LiteFS.**  Writer and reader share the sector layouts, so a disk is a sequence of structures; what a
structure of another kind reads as is left open.  The host's tree, its numbering, the image, the path
string and the buffer are connected end to end by `LiteFsContents.ReadTreeFile`.

**Scheduler.**  `Scheduling` has the steps on values; the class does them by the instructions of the
interrupt handler, with frames pushed to and popped from the threads' own stacks.

## Where the code does not do what its callers may expect

Each of these is a lemma that says exactly when the code does:

- A frame count of a region of two aligned pages wraps around (`FrameLayout.FramesFitIff`).
- A descriptor whose 64-bit end wraps passes the 4 GiB guard (`RegionPasses.KeptEndsBelow4GIff`).
- Three descriptors at one address leave two behind (`RegionPasses.MergeLeavesNoSimilarIff`).
- The processor asks for the user bit in both levels, and no table that the manager makes for itself carries it
  (`Threads.TablesLackUserBit`), so the user bit of stack and image pages has no effect.
- The stack pointer of a thread with a stack of fewer than four bytes is not on its stack (`Threads.StackWordIff`).
- A request that wraps to no frames damages a block (`Frames.EmptyRequestKeepsRunsIff`).
- The page search can return pages in use for any count from 2 to 2^20 - 2 (`SearchDefects.AlwaysSoundIff`), in
  directories that the manager itself can make (`SearchDefects.LeadToBusyPages`).
- Mapping over an allocated page strands its block (`Paging.MapKeepsOwnershipIff`).
- Strings of equal odd length are always equal (`Strings.SameNameIsEqualityIff`), so a sibling can hide
  another one (`LiteFsPaths.EveryPathResolvesIff`).
- A missing directory in a path is skipped if an earlier one is there (`LiteFsLookup.SearchIgnoresMissing`), so
  a path can lead to the wrong object exactly if it has more than three parts (`LiteFsLookup.PathsAreExactIff`).
- A partition name of 32 characters or more is read on into the entry count (`LiteFsFormat.PartitionNameKeptIff`).
- A request whose end wraps in 64 bits reads far behind the file (`LiteFsRoundTrip.ClippedInsideIff`).
- Object numbers collide for some trees (`LiteFsTree.UniqueIdsIff`).
- Reading from inside a chunk starts at its first byte, and offsets lose their upper half
  (`LiteFsRoundTrip.OffsetWorksIff`).
- A voluntary switch loses the running context, and so does a tick at the wrong moment of a removal
  (`Scheduling.StepKeepsContextsIff`); an array that moves breaks the ring (`Scheduling.MovingKeepsRingIff`).
- Some codes cannot be told from prefixes (`Keyboard.DecodesIff`).

## Model

| member | source | states |
|---|---|---|
| Align.AlignUpIsNextPage | library/common/typedefs.cxx:51-53 | rounding up always leaves the value behind: the result is the next page boundary strictly above it, and it wraps to zero exactly on the last page |
| Align.AlignDownLosesAPage | library/common/typedefs.cxx:55-63 | rounding down gives up between one and two whole pages, and ends at zero for everything below two pages |
| Align.FramesForRequest | library/pmm/pmm.cxx:62 | a request takes one frame more than the whole frames in it, always more bytes than were asked for, and none when the sum wraps |
| Regions.CutPieces | library/pmm/pmm.cxx:210-238 | whatever the overlap, the usable pieces of a cut have a byte exactly if the region has it and the extra region does not |
| Regions.CutIsSubtraction | library/pmm/pmm.cxx:210-238 | one cut is set subtraction on bytes: none of the extra region stays and no other byte goes |
| Regions.SpliceStaysDisjoint | library/pmm/pmm.cxx:227-234 | a disjoint table stays disjoint when a descriptor gives way to its pieces |
| Regions.HolesOfPieces | library/pmm/pmm.cxx:227-234 | when a hole splits a region, each further hole lies in at most one piece and the hole itself in neither |
| Regions.CutKeepsPotential | library/pmm/pmm.cxx:206-241 | descriptors plus the non-empty extra regions inside them: no trim or split raises that number |
| Regions.PotentialBoundsLength | library/pmm/pmm.cxx:206 | that number bounds the length of the table |
| RegionPasses.CutAt | library/pmm/pmm.cxx:210-238 | the in-place cut of one descriptor leaves the rest of the table in order and puts exactly the pieces in its place |
| RegionPasses.CutStep | library/pmm/pmm.cxx:208-240 | each round of the inner loop keeps the bytes outside the extra regions, the bound on the length and disjointness, and clears one more extra region from the descriptor |
| RegionPasses.CutByAll | library/pmm/pmm.cxx:208-240 | after the inner loop the descriptor has no byte of any extra region; pieces split off wait behind it |
| RegionPasses.RemoveExtraRegions | library/pmm/pmm.cxx:202-243 | terminates although it grows the table it walks; the bytes afterwards are exactly those before minus all extra regions; the final count is at most the initial potential; disjointness is kept |
| RegionPasses.KeptEndsBelow4GIff | library/pmm/pmm.cxx:151 | a descriptor that passes the guard really ends below 4 GiB exactly if its length is at most 4 GiB: longer ones pass when the 64-bit sum wraps |
| RegionPasses.LooksBelow4GIff | library/pmm/pmm.cxx:151 | which descriptors pass the guard, where no sum wraps: exactly those that start below 4 GiB and end there at most |
| RegionPasses.KeptInOrder | library/pmm/pmm.cxx:146-156 | the first pass filters: joined tables give joined results |
| RegionPasses.KeptAlone | library/pmm/pmm.cxx:151 | and a single descriptor whose end does not wrap is kept exactly if it ends below 4 GiB |
| RegionPasses.TweakRegionDescriptors | library/pmm/pmm.cxx:146-156 | the result is the descriptors that pass the guard, in order, also when source and destination are the same table |
| RegionPasses.BubbleUp | library/pmm/pmm.cxx:167-173 | one pass of the sort brings the largest remaining descriptor to its place and only rearranges |
| RegionPasses.SortRegionDescriptors | library/pmm/pmm.cxx:162-175 | sorted by address, a rearrangement of the same descriptors, no byte gained or lost, and descriptors at one address keep their order |
| RegionPasses.RemoveSimilarRegionDescriptors | library/pmm/pmm.cxx:181-194 | the in-place pass computes the pairwise merge, which the next lemmas pin down |
| RegionPasses.SurvivorAt | library/pmm/pmm.cxx:185-192 | of two descriptors at an address, the second survives if the first is usable; otherwise the first does, with the larger length if their kinds agree; a single one stays as it is |
| RegionPasses.UsableAfterMergeIff | library/pmm/pmm.cxx:185-192 | where at most two share an address, what is left is usable exactly if all of them were, and it is the last of them then: a descriptor that is not usable always prevails |
| RegionPasses.EveryAddressStays | library/pmm/pmm.cxx:185-192 | no address is lost, whatever the table |
| RegionPasses.MergeSelects | library/pmm/pmm.cxx:185-192 | every descriptor after merging is one of those before, so no byte becomes usable |
| RegionPasses.MergeStaysDisjoint | library/pmm/pmm.cxx:185-192 | merging keeps usable descriptors disjoint |
| RegionPasses.MergeLeavesNoSimilarIff | library/pmm/pmm.cxx:184-193 | in a sorted table no two neighbours share an address afterwards exactly if no three descriptors did before: the index steps past a merged pair |
| Frames.OccupyKeepsRuns | library/pmm/pmm.cxx:80-84 | marking a free range keeps the invariant: a frame is busy exactly if it lies in one run, runs stay in the table, and only run heads have a count |
| Frames.ReleaseKeepsRuns | library/pmm/pmm.cxx:126-132 | so does freeing through any descriptor, whether it heads a run or not |
| Frames.RunsAreDisjoint | library/pmm/pmm.cxx:126-132 | no frame lies in two runs |
| Frames.ReleaseUndoesOccupy | library/pmm/pmm.cxx:80-84 | freeing what was just allocated restores the frame table exactly |
| Frames.EmptyRequestKeepsRunsIff | library/pmm/pmm.cxx:58-91 | a request whose frame count wraps to zero writes to the first descriptor; the invariant survives exactly if that frame heads no block |
| Frames.FindFit | library/pmm/pmm.cxx:64-88 | first fit: the place found has enough free frames, and no earlier place in any table has |
| Frames.FirstFitServes | library/pmm/pmm.cxx:70-85 | first fit in one table never wastes a place: the number of further requests it can serve goes down by one, or was zero |
| Frames.RequestServed | library/pmm/pmm.cxx:64-88 | a request fails exactly if no further request of its size can be served, and otherwise uses up exactly one |
| Frames.LiveGrows | library/pmm/pmm.cxx:80-84 | an allocation adds exactly one live page, one that was not live |
| Frames.LiveShrinks | library/pmm/pmm.cxx:126-132 | a release removes exactly the page of its frame from the live ones |
| FrameLayout.AlignShrinks | library/pmm/pmm.cxx:21-24 | aligning a region gives bytes away but never gains any, although its start moves up |
| FrameLayout.AlignmentLoss | library/pmm/pmm.cxx:21-24 | exactly how much: the start moves up by at most a page, the length loses between one and two pages, less than two pages are lost whole, and so are 4 GiB, which the cast truncates |
| FrameLayout.FramesFitIff | library/pmm/pmm.cxx:266-269 | the frame table and its frames fit the aligned region exactly if its length is not two pages; at that length the count wraps to 2^32-1 |
| FrameLayout.AlignedToTwoPagesIff | library/pmm/pmm.cxx:23 | which raw lengths end in that case: those from 0x3000 up to 0x4000 |
| FrameLayout.FramesUseTheRoom | library/pmm/pmm.cxx:266-269 | a longer region has as many frames as fit with their descriptors into all but its last page, but for one |
| FrameLayout.FirstFramePlace | library/pmm/pmm.cxx:40-45 | the first frame is on the first page boundary above the frame descriptors, and the last one ends in the region |
| FrameLayout.FramePlace | library/pmm/pmm.cxx:40-49 | frame j is the j-th page behind the descriptors, page-aligned, not zero, and ends inside the region |
| FrameLayout.FreshTableIs | library/pmm/pmm.cxx:38-51 | boot writes a descriptor for each of these pages, in order, none of them busy |
| FrameLayout.TablesHaveDistinctPages | library/pmm/pmm.cxx:38-51 | over all disjoint regions no two frame descriptors stand for the same page |
| PhysicalMemory.CompactRegions | library/pmm/pmm.cxx:26-32 | the in-place compaction, including the element that it skips after each removal |
| PhysicalMemory.CompactFacts | library/pmm/pmm.cxx:26-32 | compaction keeps alignment and disjointness and gains no byte |
| FrameLayout.CompactKeepsOrder | library/pmm/pmm.cxx:26-32 | and the regions that have frames stay, each as often as before and in order |
| PhysicalMemory.LivePagesAreFrames | library/pmm/pmm.cxx:58-91 | only frames that were laid at boot are ever handed out |
| PhysicalMemory.BusyPageIff | library/pmm/pmm.cxx:80-84 | the busy frames are exactly the pages of the live blocks |
| PhysicalMemory.OneBlockPerPage | library/pmm/pmm.cxx:80-84 | two blocks that share a page are the same |
| PhysicalMemory.OwnTableIsSpared | library/pmm/pmm.cxx:14-20 | no frame and no frame descriptor is laid over the descriptor table, although its first bytes are not cut out |
| PhysicalMemory.OwnTablePlace | library/pmm/pmm.cxx:14-18 | what is cut out for the descriptor table starts at the next page and ends at most two pages behind the table, except in the last page of memory |
| PhysicalMemory.Pmm.Initialize | library/pmm/pmm.cxx:10-52 | the regions are exactly what alignment and compaction leave of the table after its own bytes are cut out; frame tables laid, nothing live; sound if regions were disjoint and none is two pages long |
| PhysicalMemory.Pmm.AllocatePhysicalMemory | library/pmm/pmm.cxx:58-91 | zero exactly if no run is long enough, otherwise the first; the frame tables are those with exactly that run marked; the invariant and soundness are kept |
| PhysicalMemory.Pmm.FreePhysicalMemory | library/pmm/pmm.cxx:116-139 | frees exactly the run that the address heads; unknown and non-head addresses change nothing; the page leaves the live set exactly if something was freed |
| PhysicalMemory.Pmm.ReallocatePhysicalMemory | library/pmm/pmm.cxx:98-110 | exactly when it succeeds; a failed call leaves all tables as they were; a successful one takes the first fit, frees only the old block and has copied the bytes of it that were asked for; nothing outside the new block is written to |
| PhysicalMemory.MoveIff | library/pmm/pmm.cxx:98-110 | it succeeds exactly if first fit finds room and the address is the start of a live block, or of the place found |
| PhysicalMemory.CopiedBytes | library/pmm/pmm.cxx:98-102 | every byte that was asked for and lies in a page of the old block is in the new one |
| PhysicalMemory.NewBlockApart | library/pmm/pmm.cxx:98-102 | a new block never overlaps the block that is copied from |
| PhysicalMemory.AfterAllocation | library/pmm/pmm.cxx:98-107 | the rollback of a failed reallocation restores the tables |
| Boot.PotentialAtMost | library/pmm/pmm.cxx:206 | the table never needs more than one descriptor per descriptor and extra region |
| Boot.InitializeMemory | kernel/kernel.cxx:21-37 | the whole boot sequence: where no address occurs more than twice, the table that is laid out has exactly the bytes of the surviving descriptors outside the extra regions; the final regions are what alignment and compaction leave of it; every byte is firmware-usable; sound for a disjoint map without two-page regions, and then no frame lies on the descriptor table |
| Boot.PreparedBytesAre | kernel/kernel.cxx:21-25 | after the three passes a byte is usable exactly if some descriptor has it that ends below 4 GiB, is the last such at its address, and shares the address with usable ones only |
| Boot.ExtraBytesAre | kernel/kernel.cxx:27-32 | the bytes that are set aside: the first 0x500, the kernel image, [0x80000, 0x100000) and [0xF00000, 0x1000000) |
| Boot.EveryFrameIsUsableMemory | kernel/kernel.cxx:21-37 | each byte of each frame is usable memory of the firmware map, outside every extra region, and behind its region's descriptors |
| Paging.EntryStep | library/vmm/vmm.hxx:56-78 | rewriting one table entry changes one translation of one directory and no other page that is not a table |
| Paging.DirectoryStep | library/vmm/vmm.cxx:26-27 | a fresh block becomes a directory: all translations stay, its own are blank, ownership is kept |
| Paging.TableStep | library/vmm/vmm.cxx:52-62 | a fresh block becomes a table: no translation of any directory changes, ownership is kept |
| Paging.NewTableFlags | library/vmm/vmm.cxx:59-62 | an entry where nothing was gets exactly the flags asked for, with the Allocated mark |
| Paging.TablesStayPresent | library/vmm/vmm.cxx:42-69 | every directory entry is blank, or a table that is present and writable: the tables that the manager makes for itself keep it so |
| Paging.MissingTablesAre | library/vmm/vmm.cxx:51-52 | the count of missing tables that preconditions and results speak of is the number of entries without a table |
| Paging.WalkBounds | library/vmm/vmm.cxx:162-182 | a walk ends at the end of its range or at 4 GiB, and its last table is that of its last page |
| Paging.NewPageStep | library/vmm/vmm.cxx:109-119 | an entry takes a fresh block: one translation changes, ownership is kept |
| Paging.ClearStep | library/vmm/vmm.cxx:142-145 | an entry is blanked and its block loses its owner: ownership is kept |
| Paging.DataStep | library/format/lef/lef.cxx:31 | writing to a data page changes no translation |
| Paging.MapOverAllocatedStrands | library/vmm/vmm.cxx:171-176 | mapping over an allocated page leaves its block without any user: the reason why mapping is only for entries without blocks |
| Paging.MapKeepsOwnershipIff | library/vmm/vmm.cxx:171-176 | mapping one entry keeps the ownership exactly if the entry has no block of its own or is mapped to that very block |
| Paging.OwnersAreDistinct | library/vmm/vmm.cxx:52-62 | no block is used by two owners |
| Paging.MapChain | library/vmm/vmm.cxx:165-179 | two mapped stretches with tables created in between are one: the table boundary cannot be seen |
| Paging.StretchStep | library/vmm/vmm.cxx:171-176 | one more entry of a table is mapped: the stretch, ownership and the directories are kept |
| PageSearch.FindFreePagesBlockPageIndex | library/vmm/vmm.cxx:211-253 | the loops return the first position that the probe accepts, or none |
| PageSearch.ProbeLooksAt | library/vmm/vmm.cxx:222-247 | with all tables there, a position is accepted exactly if the pages that the loops look at are free: page x of the run at entry j + x mod (0x400 - j) of the table x div (0x400 - j) further on |
| PageSearch.ProbeIsSoundWithin | library/vmm/vmm.cxx:222-247 | a position that starts a table or stays in one is accepted only if all its pages are free |
| PageSearch.ProbeIsCompleteWithin | library/vmm/vmm.cxx:222-247 | a free run inside one table is always accepted |
| PageSearch.FreeRunIsFound | library/vmm/vmm.cxx:211-253 | so the search never comes back empty-handed while some table holds a free run of the length |
| PageSearch.SoundWithin | library/vmm/vmm.cxx:211-253 | the search returns free pages whenever its first match starts a table or stays in one |
| PageSearch.FirstIsSound | library/vmm/vmm.cxx:226-241 | the first match is free for fewer than two pages, for 2^20 pages or more, and for 2^20 - 1 if the first table is there |
| SearchDefects.FirstTablesStay | library/vmm/vmm.cxx:23-35 | every directory has its first table: creating one makes it, and whatever keeps the owners of tables keeps it |
| SearchDefects.GrowingKeepsFirstTables | library/vmm/vmm.cxx:91-183 | allocating and mapping leave it |
| SearchDefects.FreeingKeepsFirstTables | library/vmm/vmm.cxx:130-152 | so does freeing pages |
| SearchDefects.NewDirectoryHasFirstTable | library/vmm/vmm.cxx:32 | a new directory has it, and the others keep theirs |
| SearchDefects.AlwaysSoundIff | library/vmm/vmm.cxx:226-241 | over all states that satisfy the manager's invariant, with the first table in every directory, the search returns free pages only, exactly for fewer than two or at least 2^20 - 1 pages: each later table is scanned from the same entry on instead of from zero |
| SearchDefects.WitnessIsState | library/vmm/vmm.cxx:226-241 | the failing memories are states of the manager: sound frame tables, blocks of two frames, one owner each |
| SearchDefects.LastPageOfEachTable | library/vmm/vmm.cxx:229 | in a directory where only the last page of each table is free, the search returns pages in use for 2 to 0x400 pages |
| SearchDefects.BusyPageBehindTable | library/vmm/vmm.cxx:229 | in one where only the first page of the second table is in use, it returns that page for 0x401 to 2^20 - 2 pages |
| SearchDefects.LeadToBusyPages | library/vmm/vmm.cxx:23-35 | from every state with enough memory, the manager's own operations lead to such a directory, for each of those counts |
| Blocks.AllocChain | library/vmm/vmm.cxx:102-124 | two filled stretches with tables created in between are one |
| Blocks.CloseBlock | library/vmm/vmm.cxx:350-351 | marking the last of a freshly filled free range makes a block: own new physical blocks, one closing mark, nothing else changed |
| Blocks.FilledEntry | library/vmm/vmm.cxx:109-119 | an entry of a filled free range has the given attributes, the busy and allocated marks, no closing mark, and a block that nobody owned |
| Blocks.FreeOne | library/vmm/vmm.cxx:142-145 | one more entry is freed: exactly its block loses its owner |
| Blocks.FreeUndoesBlock | library/vmm/vmm.cxx:395-431 | freeing a block restores every translation and leaves every older block and data page alone |
| Blocks.ScanFindsEnd | library/vmm/vmm.cxx:407-422 | from any page of a block the scan stops at the end of that block |
| Blocks.ScanIff | library/vmm/vmm.cxx:407-422 | from any page the scan ends at the first closing mark exactly if there are tables all the way, and nowhere otherwise |
| Blocks.ScannedTables | library/vmm/vmm.cxx:407-422 | a scan that ends has only seen tables that exist, so freeing does too |
| Blocks.BlockStays | library/vmm/vmm.cxx:321-354 | a block stays a block through every operation that changes other translations |
| Blocks.CheckStep | library/vmm/vmm.cxx:332-344 | one round of the check: free so far, all tables there, or a busy page seen for good |
| Blocks.CheckCreatesFew | library/vmm/vmm.cxx:332-344 | a check of up to 0x400 pages creates at most two tables, also when it goes on after a busy page |
| VirtualMemory.Vmm.CreateTables | library/vmm/vmm.cxx:42-69 | makes exactly the missing tables and counts them; each new one has the flags that were asked for and the Allocated mark; changes no translation, and stops early only without memory |
| VirtualMemory.Vmm.MapPages | library/vmm/vmm.cxx:154-183 | every entry of the range, cut at 4 GiB, maps its consecutive physical page, all other translations stay, missing tables are made present and writable; refused only beyond 2^24 |
| VirtualMemory.Vmm.CreatePages | library/vmm/vmm.cxx:91-128 | entries with a block keep it, all others get a new block that nobody owned; nothing else changes |
| VirtualMemory.Vmm.AllocateVirtualMemoryToPage | library/vmm/vmm.cxx:321-354 | succeeds exactly if the whole range exists and is free, then makes one block of exactly that range; a refused call changes no translation |
| VirtualMemory.Vmm.FreePages | library/vmm/vmm.cxx:130-152 | blanks exactly the range and returns exactly its blocks |
| VirtualMemory.Vmm.FindClosing | library/vmm/vmm.cxx:407-422 | the loops compute the scan for the next closing mark |
| VirtualMemory.Vmm.FreeVirtualMemory | library/vmm/vmm.cxx:395-431 | frees up to the next closing mark, and nothing at all if there is none |
| VirtualMemory.Vmm.AllocateVirtualMemory | library/vmm/vmm.cxx:271-319 | makes a block of the first match of the search and returns its address; fails exactly if there is no match |
| VirtualMemory.Vmm.CreateDirectory | library/vmm/vmm.cxx:23-35 | a new directory maps its own two pages, present and writable in both levels, and nothing else, and both are the frames of the block that it owns; all other directories and address spaces are unchanged |
| VirtualMemory.NewDirectoryTables | library/vmm/vmm.cxx:23-35 | with it, too, every entry of every directory is blank or a table that is present and writable |
| VirtualMemory.TableAdded | library/vmm/vmm.cxx:52-62 | with the new table the physical manager's live blocks are again exactly the owned ones |
| VirtualMemory.PagePlaced | library/vmm/vmm.cxx:109-119 | and so with a new page |
| VirtualMemory.BlockReturned | library/vmm/vmm.cxx:143-144 | and so after a block has been returned |
| Translation.AddressIsFlat | library/vmm/vmm.cxx:433-446 | where there is a table, the two levels give the page of the flat map plus the offset |
| Translation.MappedAddress | library/vmm/vmm.cxx:154-183 | after MapPages, any byte of the range is at the page-aligned physical base plus its offset, modulo 2^32, in whatever table |
| Translation.MappedEntry | library/vmm/vmm.cxx:171-176 | an entry that was free has exactly the given attributes and the busy mark, no block of its own and no closing mark |
| Translation.NewDirectoryAddress | library/vmm/vmm.cxx:23-35 | the first two pages of a new address space are the directory's own |
| Translation.WordBytes | library/vmm/vmm.hxx:56-78 | a word is its four bytes, the lowest one first |
| Translation.OtherAddressesUnchanged | library/vmm/vmm.cxx:154-183 | translations in use outside the range, and in other directories, are unchanged |
| Translation.SamePageSameBytes | library/vmm/vmm.cxx:433-446 | entries that lead to pages of equal contents read the same byte by byte |
| Translation.EveryBlockHasOneOwner | library/vmm/vmm.cxx:23-69 | in every state of the manager, a block is live exactly if something uses it, and only one thing does |
| Translation.EveryFrameHasOneOwner | library/vmm/vmm.cxx:23-69 | a frame, wherever it is in its block, is busy exactly if some directory, table or page, or somebody outside the manager, has it, and only one of them does |
| VirtualMemory.CoherentBlocks | library/pmm/pmm.cxx:58-91 | every block of the manager is two busy frames in a row, the second is nobody else's, a frame is busy exactly if it is in an owned block, and only in one |
| VirtualMemory.Vmm.AllocateForeign | library/scheduler/scheduler.cxx:75-76 | a block of any size that the physical manager gives to somebody else, as to the scheduler: the invariant is kept, and nothing but that block is recorded |
| VirtualMemory.Vmm.FreeForeign | library/pmm/pmm.cxx:116-139 | and when it is given back |
| Translation.NewOwners | library/vmm/vmm.cxx:321-354 | an allocation adds owners for its pages and its tables only |
| Translation.FreeingTheBlock | library/vmm/vmm.cxx:395-431 | freeing by the first page ends at the block's end, restores all translations, and of all new blocks only tables remain |
| Threads.ProbeAtEnd | library/vmm/vmm.cxx:222-247 | the search accepts the first free page of an address space that is filled from below |
| Threads.FirstFreePage | library/vmm/vmm.cxx:211-253 | and nothing else |
| Threads.BlockAtEnd | library/vmm/vmm.cxx:271-319 | an address space filled from below stays so |
| Threads.CreateThread | library/scheduler/scheduler.cxx:31-66 | a stack block at the third page whose entries carry the user bit, the path block right behind, everything else free; all other address spaces as before; every field of the thread, with stack and base pointer four bytes below the end of the stack |
| Threads.StackWordIff | library/scheduler/scheduler.cxx:48-52 | the word at the stack pointer lies on the stack exactly if the stack has at least four bytes; otherwise it begins in the directory's own second page |
| Threads.TablesLackUserBit | library/vmm/vmm.cxx:168 | no directory entry that the manager makes for itself carries the user bit, whatever its page entries carry |
| Loader.HeaderFields | library/format/lef/lef.hxx:14-22 | stack size, base address, file size and entry point are the 32-bit numbers at 4, 8, 12 and 16 of the image |
| Loader.CallOutcome | library/format/lef/lef.cxx:18-23 | the call for a page succeeds exactly for every second page; the others are refused because the page is taken already |
| Loader.LoadingTakes | library/format/lef/lef.cxx:18-23 | a successful call reserves two pages and disturbs no page copied before |
| Loader.CopyPlaces | library/format/lef/lef.cxx:25-31 | source and destination are different pages, and the source page is as it was before the loop |
| Loader.SourceKept | library/format/lef/lef.cxx:17-37 | making the thread changes neither the mapping nor the contents of a source page that is a data page or no frame at all |
| Loader.LoadingCopies | library/format/lef/lef.cxx:25-36 | copying the next page keeps the source and all pages copied before |
| Loader.CopyPage | library/common/memory-utils.cxx:8-15 | the word loop makes the destination page equal to the source page |
| Loader.StackAndPathStay | library/format/lef/lef.cxx:17-37 | loading the image leaves the stack and the path of the new thread alone |
| Loader.LoadedBytes | library/format/lef/lef.cxx:15-37 | every byte of the pages reads through the new directory as in the source |
| Loader.LoadPage | library/format/lef/lef.cxx:17-37 | one round of the loop copies one page, whether its allocation was granted or refused |
| Loader.LoadProgram | library/format/lef/lef.cxx:4-37 | every byte k of the file reads as data[k] at base + k through the new directory, in pages whose entries carry the user bit; stack and path are there; every field of the thread; no other address space and no page in use has changed |
| PhysicalBytes.Copy | library/common/memory-utils.cxx:8-27 | copying in units of four, two or one bytes stores exactly the bytes, whatever their number |
| PhysicalBytes.StoredBytes | library/common/memory-utils.cxx:8-27 | storing bytes changes those bytes and no other byte of memory |
| Loader.WritePath | library/format/lef/lef.cxx:39-45 | the path's bytes and the final zero can be read through the new directory; only that one page changes |
| Loader.CreateThread | library/format/lef/lef.cxx:4-48 | the whole: file and path can be read byte by byte through the new directory, every field of the thread is as asked for, and nothing that was in use has changed |
| Strings.CompareUnits | library/common/memory-utils.cxx:62-84 | the unit loop decides equality of the bytes it covers |
| Strings.Compare | library/common/memory-utils.cxx:62-84 | equality for an even count; always true for an odd one |
| Strings.SameNameIsEqualityIff | library/common/string.cxx:78-84 | string equality is equality exactly on strings of even length |
| Strings.FindFirstSubstr | library/common/string-utils.cxx:107-124 | the first occurrence at or behind the offset, or none |
| Strings.Split | library/common/string.cxx:130-157 | the loops compute the parts behind the leading delimiters |
| Strings.PartsTile | library/common/string.cxx:130-157 | the parts are free of delimiters and tile the string up to a final delimiter |
| Strings.TilingIsUnique | library/common/string.cxx:130-157 | there is only one such tiling |
| Strings.SplitJoin | library/common/string.cxx:120-157 | splitting a path joined from names gives back exactly the names |
| LiteFsReader.NameAt | library/common/string.cxx:120-128 | a part of a path is its characters; an empty one between two delimiters stands for all of the path behind it |
| LiteFsFormat.PartitionNameKeptIff | utils/lite-fs/source/lite-fs.cxx:122-136 | a partition name reads back as written exactly if it is shorter than 32 characters, or its rest is what the entry count behind the field looks like; of a longer one, what reads back is 32 characters and that |
| LiteFsFormat.EntryNameKeptIff | utils/lite-fs/source/lite-fs.cxx:143-157 | an entry name reads back as written exactly if it is shorter than 256 characters; of a longer one the first 255 do |
| LiteFsFormat.NumberIsStored | utils/lite-fs/source/lite-fs.cxx:135 | the bytes of a count, lowest first, are those of the number |
| LiteFsWriter.ChunkRunsAreDisjoint | utils/lite-fs/source/lite-fs.cxx:179-203 | chunks of different files are in different sectors, behind all descriptors and inside the image |
| LiteFsWriter.ChunksHoldTheFile | utils/lite-fs/source/lite-fs.cxx:180 | a file of n bytes takes (n + 8) div 504 + 1 sectors: one for every byte and one behind its last full chunk, at most two more than full ones |
| LiteFsWriter.ReallocateArray | utils/lite-fs/source/lite-fs.cxx:241-251 | the old contents are kept; the rest may be anything |
| LiteFsWriter.WriteChunks | utils/lite-fs/source/lite-fs.cxx:186-203 | each chunk has its part of the file, padded with zeros, and leads on exactly if it is full |
| LiteFsWriter.WriteObject | utils/lite-fs/source/lite-fs.cxx:143-207 | one round adds a descriptor with the right relative offset and the data, and disturbs nothing written before |
| LiteFsWriter.GeneratePartition | utils/lite-fs/source/lite-fs.cxx:115-213 | the image has all descriptors in order and all chunk chains at their offsets |
| LiteFsTree.GetFileSystemObjects | utils/lite-fs/source/lite-fs.cxx:16-64 | the recursive loop computes the numbered walk |
| LiteFsContents.EntryHasChain | utils/lite-fs/source/lite-fs.cxx:16-64 | nothing of the tree is left out: every file and directory, by its path, has a chain of objects of the same names, and the last one has its data, or the number of its entries |
| LiteFsContents.ObjectIsEntry | utils/lite-fs/source/lite-fs.cxx:16-64 | and every object is some file or directory of the tree |
| LiteFsTree.TopCount | utils/lite-fs/source/lite-fs.cxx:36 | the size of a directory is the number of its entries, whatever numbers are used below |
| LiteFsTree.WalkIsClosed | utils/lite-fs/source/lite-fs.cxx:24-60 | every parent is the given one or an earlier object |
| LiteFsTree.WalkIsConsistent | utils/lite-fs/source/lite-fs.cxx:24-60 | with unique numbers, each directory's size is the number of objects that name it as parent, and all of them come later |
| LiteFsTree.NumberedInOrder | utils/lite-fs/source/lite-fs.cxx:27-55 | trees in which only the last entry of a listing may be a directory with non-empty directories in it are numbered consecutively |
| LiteFsTree.UniqueIdsIff | utils/lite-fs/source/lite-fs.cxx:37 | numbers are unique exactly for those trees |
| LiteFsReader.FindPartition | library/lite-fs/lite-fs.cxx:126-132 | the partition found has that name, and all before it can be read and have other names; if none is found, every partition of that name is behind one that cannot be read |
| LiteFsReader.FsHeaderRead | library/lite-fs/lite-fs.cxx:8-14 | a file system is there exactly if sector 1 has the signature, and its header reads as it was written |
| LiteFsReader.PartitionHeaderRead | library/lite-fs/lite-fs.cxx:29-40 | partition i starts as many sectors behind the file system's header as that says, and its descriptors in the next one |
| LiteFsReader.ReadablePartitionsAre | library/lite-fs/lite-fs.cxx:116-121 | the size of the root is the number of partitions whose header can be read |
| LiteFsReader.SearchTable | library/lite-fs/lite-fs.cxx:166-173 | the loop finds the first object of that parent and name |
| LiteFsReader.FindChild | library/lite-fs/lite-fs.cxx:166-173 | first match: the one found matches and no earlier one does |
| LiteFsReader.WalkNames | library/lite-fs/lite-fs.cxx:159-176 | the loop over the path's directories, with its found flag that is never reset |
| LiteFsReader.Find | library/lite-fs/lite-fs.cxx:100-185 | the whole search computes the location of a path |
| LiteFsReader.GetObjectDescriptor | library/lite-fs/lite-fs.cxx:100-185 | describes the root, a partition or an object, or reports that nothing was found |
| LiteFsReader.CopyChunks | library/lite-fs/lite-fs.cxx:384-397 | the copying loop delivers the chain of chunks |
| LiteFsReader.ReadFile | library/lite-fs/lite-fs.cxx:316-400 | for all 64-bit offsets and counts: delivers the bytes of the chunks of the object that the path leads to, and fails for everything else; how many, and which bytes of the file they are, the lemmas of the round trip say |
| LiteFsRoundTrip.ClippedInsideIff | library/lite-fs/lite-fs.cxx:370-371 | the bytes asked for lie inside the file exactly if the offset does and the sum of offset and count does not wrap; their number is then what the file has from the offset on, if the count is zero or too large, and otherwise the count |
| LiteFsRoundTrip.ChainCopies | library/lite-fs/lite-fs.cxx:384-397 | following the writer's chunks from any offset copies the file's bytes, to the end of the chunk that has the last byte asked for; inside the first chunk from its start |
| LiteFsRoundTrip.FileBytesAreCopied | library/lite-fs/lite-fs.cxx:370-399 | exact contents of the buffer for any offset and count that stay inside the file |
| LiteFsRoundTrip.OffsetWorksIff | library/lite-fs/lite-fs.cxx:373-390 | that is what was asked for, for all files of a size, exactly if the offset is a multiple of the chunk size below 2^32 or nothing is asked for |
| LiteFsRoundTrip.MountedFile | utils/lite-fs/source/lite-fs.cxx:181 | the relative offset in a descriptor leads to the file's own chunks |
| LiteFsRoundTrip.FileRoundTrip | utils/lite-fs/source/lite-fs.cxx:115-213 | reading n bytes at a chunk boundary gives back file[offset..offset+n] for every file of every generated partition, and then the file or zeros up to whole chunks; n is all the rest if the count is zero or too large |
| LiteFsPaths.ResolvesIff | library/lite-fs/lite-fs.cxx:178-182 | once its directory is found, an object is found exactly if no earlier sibling passes for it |
| LiteFsPaths.ChainResolves | library/lite-fs/lite-fs.cxx:159-182 | a path of objects without earlier look-alikes leads to its last object |
| LiteFsPaths.EveryPathResolvesIff | library/lite-fs/lite-fs.cxx:159-182 | every object is found by its own path exactly if no reachable object has an earlier look-alike sibling |
| LiteFsPaths.TreeIsReachable | utils/lite-fs/source/lite-fs.cxx:24-60 | every object of a host tree is the end of some path |
| LiteFsPaths.TreePathsResolveIff | library/lite-fs/lite-fs.cxx:159-182 | on the partition of a host tree, every path leads to its object exactly if no object has an earlier look-alike sibling |
| LiteFsPaths.DirectoryFound | library/lite-fs/lite-fs.cxx:251-260 | a directory without look-alikes is found by its path |
| LiteFsPaths.DistinctSiblings | library/common/string.cxx:78-84 | among siblings of different names, look-alikes are exactly those of the same odd length |
| LiteFsLookup.SearchIgnoresMissing | library/lite-fs/lite-fs.cxx:159-176 | the search for a directory fails exactly if the first name is missing; otherwise it ends where the names that are there lead, passing over all others, and if all are there it ends in the right directory |
| LiteFsLookup.MissingNameIsPassedOver | library/lite-fs/lite-fs.cxx:159-182 | a name that a directory does not have is passed over behind it, at any depth: the path leads where it would lead without that name |
| LiteFsLookup.SearchIsExactIff | library/lite-fs/lite-fs.cxx:159-176 | the search finds a directory only if all names are there, on every disk, exactly for paths of at most one directory |
| LiteFsLookup.ExactIsLocated | library/lite-fs/lite-fs.cxx:100-185 | what a path leads to if all its names have to be there is always what the code finds, and for up to three parts nothing else is |
| LiteFsLookup.PathsAreExactIff | library/lite-fs/lite-fs.cxx:100-185 | over all disks, a path leads only where it should exactly if it has at most three parts: the partition, one directory and the object |
| LiteFsLookup.SmallIsMounted | utils/lite-fs/source/lite-fs.cxx:16-64 | the disk of that counterexample is what the host writes for a tree of two directories |
| LiteFsLookup.LongPathIsFound | library/lite-fs/lite-fs.cxx:159-182 | on it, a path with any number of missing directories leads to an object |
| LiteFsPaths.PartitionFoundIff | library/lite-fs/lite-fs.cxx:126-132 | a partition is found by name exactly if all before it can be read and none passes for it |
| LiteFsPaths.PathResolves | library/lite-fs/lite-fs.cxx:100-185 | the path string of an object on a generated partition leads to its own descriptor |
| LiteFsPaths.ReadStoredFile | library/lite-fs/lite-fs.cxx:316-400 | from the host's file to the kernel's buffer: reading by path at a chunk boundary delivers the stored bytes, all the rest of them if the count is zero or too large, in exactly as many whole chunks as that takes |
| LiteFsContents.ReadTreeFile | library/lite-fs/lite-fs.cxx:316-400 | the same from the host's directory tree: where no name passes for an earlier one, every file of the tree is delivered under its path |
| LiteFsDirectories.DirectoryIterator.CreateDirectoryIterator | library/lite-fs/lite-fs.cxx:187-264 | where the iterator starts and what it counts, for the root, a partition and a directory |
| LiteFsDirectories.DirectoryIterator.GetNextObjectInformation | library/lite-fs/lite-fs.cxx:266-314 | for every state of the iterator: the next entry of the directory among as many sectors as the partition has entries, or nothing and no change; if the count was right, the next child in table order, and nothing exactly if none is left; in the root, the next partition exactly if there is one that can be read |
| LiteFsDirectories.FirstOfRest | library/lite-fs/lite-fs.cxx:293-311 | the scan stops inside the table as long as a child is left, whatever the sectors behind it hold |
| LiteFsDirectories.ListDirectory | usermode/programs/shell-tty/source/main.cxx:91-99 | going through a directory gives every child once, in table order, and then nothing |
| LiteFsDirectories.ListRoot | library/lite-fs/lite-fs.cxx:266-288 | going through the root gives the partitions in order, each with its own name, up to the first one that cannot be read |
| LiteFsDirectories.FreshIterator | library/lite-fs/lite-fs.cxx:251-260 | for a directory of a generated tree the count is right and all children are behind its descriptor |
| LiteFsDirectories.FreshTop | library/lite-fs/lite-fs.cxx:216-230 | so it is for the top of a partition |
| LiteFsDirectories.ListStoredDirectory | library/lite-fs/lite-fs.cxx:187-314 | from the host's tree to a listing: going through a directory by its path gives name, type and size of exactly its entries, each once and in the host's order, as many as its size says |
| LiteFsDirectories.ListStoredTop | library/lite-fs/lite-fs.cxx:187-314 | the same for the top of a partition, for every tree of the host, however its objects are numbered |
| LiteFsDirectories.ChildrenAreOrdered | library/lite-fs/lite-fs.cxx:293-311 | the children of a directory are all the objects that name it, each once, in table order |
| LiteFsDirectories.ChildrenAre | library/lite-fs/lite-fs.cxx:293-311 | an object is listed exactly if it names the directory as its parent |
| Scheduling.ContextsArePreserved | library/scheduler/sheduler.asm:38-137 | in every run of ticks, computation, switching on and off, threads that come, leave and switch, in which no step loses a context, each thread's context is the one it gave itself last or was created with |
| Scheduling.SpacesAreKept | library/scheduler/sheduler.asm:38-137 | in every run, a thread keeps the directory and path that it was created with, and whenever the processor works for it, that directory is selected |
| Scheduling.NewThreadRuns | library/scheduler/scheduler.cxx:68-103 | a thread that is added in a run which loses no context works with its own registers in its own address space |
| Scheduling.StepKeepsSpace | library/scheduler/sheduler.asm:38-137 | one step of that |
| Scheduling.StepKeepsContextsIff | library/scheduler/scheduler.cxx:122-137 | a step keeps all contexts exactly if it is no voluntary switch of a thread that stays and no preempting tick between a thread's leaving and its switch, or the context in question is saved already |
| Scheduling.PromptRunLosesNothing | library/scheduler/scheduler.cxx:122-137 | so a run loses none, whatever its ticks, if every thread that leaves is switched away from at once |
| Scheduling.ThreadsStayApart | library/scheduler/scheduler.cxx:122-137 | two threads never change places, however many leave |
| Scheduling.TickKeepsContextsIff | library/scheduler/sheduler.asm:51-109 | a tick changes no context, except that one which preempts between leaving and switching saves the leaving thread's over the first thread's |
| Scheduling.SwitchKeepsContextsIff | library/scheduler/sheduler.asm:111-137 | a voluntary switch keeps all contexts exactly if it ends a removal or the current one is saved already |
| Scheduling.TickedIs | library/scheduler/sheduler.asm:38-109 | what a tick changes, field by field: the tick counts, and if the thread is preempted its saved context, state and count; the thread at the next place goes on in its own address space; all other records stay |
| Scheduling.SwitchedIs | library/scheduler/sheduler.asm:111-137 | from any place, a voluntary switch goes on with the thread at the next place, as it was saved and in its own address space |
| Scheduling.LeftIs | library/scheduler/scheduler.cxx:123-132 | what leaving changes: the threads behind move up by one, and of every record only the link |
| Scheduling.FairSchedule | library/scheduler/sheduler.asm:38-109 | for every run of n fresh threads, none coming or leaving, with T ticks while switching is on: thread (1 + T div 101) mod n is current, worked ticks have a closed form, sum to T and differ by at most 101 |
| Scheduling.ClosedForm | library/scheduler/sheduler.asm:38-109 | in every run, current thread, remaining counts and worked ticks depend only on the number of ticks with switching on: (1 + T div 101) mod n holds the processor |
| Scheduling.TicksAreShared | library/scheduler/sheduler.asm:46-49 | worked ticks sum to T and no two threads differ by more than 101 |
| Scheduling.WorkedStep | library/scheduler/sheduler.asm:46-104 | each tick is charged to the thread that holds the slot |
| Scheduling.HolderIs | library/scheduler/scheduler.cxx:12-26 | slot q belongs to thread (1 + q) mod n |
| Scheduling.StartIsFair | library/scheduler/scheduler.cxx:12-26 | the first run of fresh threads starts that schedule |
| Scheduling.DisabledTicks | library/scheduler/sheduler.asm:39-44 | over any run with switching off, threads, current thread and directory stay, and the tick count goes up by the ticks |
| Scheduling.AddingKeepsRing | library/scheduler/scheduler.cxx:87-90 | a new thread keeps the links one cycle in array order |
| Scheduling.AddedIs | library/scheduler/scheduler.cxx:87-90 | a new thread's record is the given one but for its link, and of the others only the last one's link changes |
| Scheduling.MovingKeepsRingIff | library/scheduler/scheduler.cxx:72-90 | when the array has moved, the cycle survives exactly if the address is the same or there was one thread |
| Scheduling.RemovingKeepsRing | library/scheduler/scheduler.cxx:124-132 | removing a thread keeps the cycle through all others in order |
| Scheduling.RemovalKeepsContexts | library/scheduler/scheduler.cxx:122-137 | and keeps their contexts, if no interrupt comes before the switch |
| SchedulerState.Scheduler.Tick | library/scheduler/sheduler.asm:38-109 | the instructions, with the interrupt frame on the threads' own stacks, do exactly one step of the schedule; other stack words stay |
| SchedulerState.Scheduler.Save | library/scheduler/sheduler.asm:51-75 | the saved record is the interrupted context, with the stack pointer before the frame |
| SchedulerState.Scheduler.SwitchThreadNext | library/scheduler/sheduler.asm:111-137 | goes on with the next thread as it was saved |
| SchedulerState.Scheduler.Run | library/scheduler/scheduler.cxx:12-26 | starts with a switch from the first thread |
| SchedulerState.Scheduler.AddThread | library/scheduler/scheduler.cxx:68-103 | the record at the end of the array is the given one but for its link, of the others only the last one's link changes, and a full array is replaced by a bigger one; the ring survives exactly if the array stays where it is or held at most one thread |
| SchedulerState.Scheduler.LeaveArray | library/scheduler/scheduler.cxx:123-132 | the part with interrupts off: the first thread stays, any other is taken out of the array, and the first one is called current while the processor still works for the one that left |
| SchedulerState.Scheduler.RemoveCurrentThread | library/scheduler/scheduler.cxx:122-137 | that part and then the switch to the thread behind the first one |
| Keyboard.Keyboard.IrqHandler | library/ps2/ps2-keyboard.cxx:214-221 | a byte joins the end of the queue |
| Keyboard.Keyboard.ReadBufferLastByte | library/ps2/ps2-keyboard.cxx:48-53 | takes the oldest byte of the queue |
| Keyboard.Keyboard.GetInput | library/ps2/ps2-keyboard.cxx:143-191 | takes one byte, or two behind a prefix E0 or F0, or three behind a prefix and F0; the code is that of the last one, with E000 for E0, and the key is released exactly if there was an F0; shift, caps lock and map are updated |
| Keyboard.DecodesIff | library/ps2/ps2-keyboard.cxx:147-169 | an event comes back from its encoding, whatever follows, exactly if its code cannot be taken for a prefix where it stands |
| Keyboard.FirstOfAll | library/ps2/ps2-keyboard.cxx:147-169 | decoding a stream gives its first event and leaves the rest of the stream |
| Keyboard.Keyboard.UpdateKeys | library/ps2/ps2-keyboard.cxx:171-187 | a shift key sets or clears the shift state, pressing caps lock toggles its state, nothing else changes either, and the current map is again the one for the two states |
| Keyboard.ShiftAfterIff | library/ps2/ps2-keyboard.cxx:171-177 | the shift state after a history is set exactly if the last event of a shift key was a press |
| Keyboard.CapsAfterIff | library/ps2/ps2-keyboard.cxx:171-177 | caps lock is on exactly if its key has gone down an odd number of times |
| Keyboard.ReadAll | library/ps2/ps2-keyboard.cxx:143-191 | for every sequence of well-formed events, however their bytes arrive between the reads: the same codes and releases in order, no byte left, each with the map that the history asks for |

## Left out

- AllocateVirtualMemory: requires that the search finds nothing or free pages; `PageSearch.SoundWithin` says when it does. When it does not, the code overwrites entries in use.
- AllocateVirtualMemoryToPage: requires enough physical memory for its pages and the tables of its check, and a byte count below 0xFFFFF000: a larger one makes no pages, and the code then writes through an uninitialised pointer. The same bound holds for AllocateVirtualMemory, whose rollback on exhaustion frees whole tables in use.
- CreatePages: requires enough physical memory, and flags with the busy bit, which all callers pass: pages without it would be found free by the next search.
- MapPages: requires entries without blocks, as `Paging.MapOverAllocatedStrands` explains, and enough memory for its tables: without it the code goes on in page zero.
- FreePages: requires that the tables of the range exist, because the code reads them unasked.
- CreateDirectory: a directory for which there is memory, but not for its first table, is not modelled.
- FreeTables, FreeDirectory, UnmapPages, ReallocateVirtualMemory: their code frees or unmarks what is still in use, or what is not there.
- Paging is on or off for the processor around every operation; the model sees memory by physical address throughout, and has no faults, protection or translation cache.
- InitializeMemory: requires room in the table for the splits and lengths that do not wrap; the code checks neither.
- Initialize: empty regions may stay, because the compaction skips the element that moves up; they are harmless to the allocator.
- ReallocatePhysicalMemory: requires a request that does not wrap and a source inside the address space.
- CreateThread: requires enough physical memory, and a stack that leaves room for the path in 4 GiB. Scheduler::CreateThread does not check its directory.
- Loader.CreateThread: a source page must be a data page in use or no frame at all, so that the allocations on the way cannot reuse it; the current path comes in as its bytes, fewer than 0x1000, because the code does not look at the length of its page.
- GeneratePartition: UsedSectorsCount stays zero, because the code writes it through a pointer to the freed first buffer; dates and reserved fields are not modelled.
- GetFileSystemObjects: files that cannot be opened, and the order in which the host lists a directory, are part of the input tree.
- ReadFile: the buffer is the sequence of bytes written; the memory that they go to, and a position in it that wraps after 4 GiB, are not modelled.
- Find: partition headers count at most 62 partitions; the disk has at most 2^32 sectors and reading one either works or finds it missing.
- Compare, FindFirstSubstr: strings are characters without the terminating zero; addresses do not wrap.
- AddThread: the address of a bigger array is a parameter; `VirtualMemory.Vmm.AllocateForeign` is the request for it. Mapping the array into all directories is not modelled.
- SwitchThreadNext: one step, and so are AddThread and the removal with interrupts off; a tick inside the instructions of SwitchThreadNext or AddThread is not modelled.
- Tick: segment registers are stored as whole words; their upper halves are zero from the start. Sleeping and suspended threads are scheduled like all others, as in the code.
- IrqHandler: requires fewer than 128 bytes in the buffer, because the code writes behind it otherwise.
- GetInput: what it does at the end of all input is to wait; the model has bytes arrive before every read.
- Keyboard commands, scan code maps, ReadChar, path completion in the kernel, the terminal, controllers and boot code are hardware or thin wrappers.
