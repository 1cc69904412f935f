# FututrsticOS, modelled and verified in Dafny

FututrsticOS is a small x86-64 kernel. This project models the parts of it that other parts trust, and proves what
they promise:

- **Frames, page tables and the heap.** The bitmap allocator, the four-level page tables that live in the frames it
  hands out, and the page-granular heap. The central objects are the set of free frames and a ghost map from table
  frames to their place in the tree (`roles`). Every method of `Vmm.AddressSpaces` keeps the tree well-formed and the
  two sets of frames apart; once the first kernel space is set up its low 512 GB are shared by all address spaces, and
  stay so under every operation but another such set-up. `KernelMemory` keeps heap and tables apart.
- **NanoFS2.** The file system on a disk of 512-byte sectors, refined to values (`FsSpec`) and from there to an abstract
  tree of names and bytes (`FsRefinement`).
- **The scheduler.** The process table, creation, timer ticks and exits, with safety over all runs, and exact bounds on
  waiting.
- **RIRU executables.** The ELF packer, the kernel's parser and its loader, joined by a round trip on bytes and exact
  conditions for a segment to end up where it asked to be.
- **The framebuffer.** The differential copy to video memory, shown equal to a copy that skips nothing.

Code that changes state is a class whose methods are proved against functions on values; the laws are lemmas about those
functions. What leaves the kernel's own code, such as page-table words, register frames, sectors and file headers, is
also stated in literal bits and bytes, apart from the functions that compute it.

## Where the code does less than one might expect

Each of these is stated and proved of the code as it is.

- A write that needs several new blocks gives them all the same number (`src/fs/fs.c:175-179`), and the blocks stay
  shared afterwards. A file reads back as written if and only if each chunk agrees with the last chunk that has its
  block number (`FsContents.StoreReadsBackExactly`); with no sharing before, if and only if the chunks in new blocks
  repeat each other (`FsContents.UnaliasedReadsBackExactly`), which a caller can ensure by growing a file one block at a
  time (`FsContents.OneNewChunkIsFine`). Runs that lose data are in `FsExamples.AliasedFileReadsWrong` and
  `FsExamples.AliasOutlivesWrite`.
- Block numbers are a high-water mark, so they are not bounded by the table size as `src/wallpaper_layout.h:8-12` says
  (`FsBlockNumbers.BlockNumbersHaveNoBound`). A bound survives an operation if and only if the mark, which
  `fs_disk_stats` reports, is below it or no block is taken (`FsBlockNumbers.BoundSurvivesExactly`); the documented 297
  holds over all runs that take at most 289 blocks, and not over all that take 290 (`FsBlockNumbers.RunBoundExactly`).
- Names are cut to 27 bytes when stored but not when looked up, so names can become ambiguous
  (`FsExamples.LongNamesCollide`); exactly when is `FsTree.CreateUniqueExactly`, `FsTree.MkdirUniqueExactly` and
  `FsTree.RenameUniqueExactly`.
- Mapping a user page through a PML4 slot that was not a user slot opens every page under it whose own entries are
  already user entries (`MapLaws.OtherPagesAccess`). Two user spaces that share the kernel's slot 0 and map one page
  each are enough (`VmmExamples.SharedSlotSpreads`). It never happens to a root that is closed, all of whose user pages
  lie in user slots (`MapLaws.ClosedSpacesIsolateAccess`). A closed root stays closed if and only if no other root maps
  a user page in a slot the two share that is no user slot of the closed one (`MapHistory.StaysClosedExactly`). So a
  process, whose pages and everyone else's lie below 512 GB, is safe from its own first mapping on
  (`MapLaws.OwnMappingCloses`, `MapHistory.ProcessStaysClosed`).
- Setting up the kernel space with everything below 4 GB takes 2054 free frames, no more and no fewer
  (`Vmm.AddressSpaces.PrepareKernelSpace`, `SpaceCosts.LowKernel`); with less the kernel halts.
- All programs run in the same memory. The loader maps a page that is there already to the frame it has
  (`src/riru/loader.c:51-69`), and in a prepared kernel every page below 4 GB is there, mapped to itself, in every address
  space. So loading cannot run out of frames after the first one (`ProgramSpaces.SetUpProgram`), and a second program is
  stored over the first, stack over stack (`ProgramSpaces.ProgramsShareMemory`).
- An exit restarts the rotation at slot 0, so with creations and exits together every waiting process can starve unless
  it is in slot 0 (`SchedulerLaws.StarvesExactly`); without one or the other none can.
- A first present that does not cover the screen clears the force flag all the same
  (`FramebufferLaws.ForcedPresentSyncsExactly`). The pixels it missed catch up exactly when something else is drawn
  and presented there (`FramebufferLaws.UnforcedPresentSyncsExactly`); otherwise they keep their old bytes whatever is
  presented later (`FramebufferLaws.MissedPixelStays`, `FramebufferLaws.PartialPresentExample`).
- A heap request whose size plus header wraps round 64 bits is answered with a single page, or with nothing; every other
  block has room for what was asked (`Heap.KernelHeap.Kmalloc`).
- The packer merges the segments of a class by file offset, starting at the first in table order, and the loader gives
  each section one address. A merged segment is put where it asked to be if and only if it does not start below the
  first in the file and its address and offset are as far apart (`RiruLoadLaws.CopiedExactly`); one that starts below
  loses its beginning, or all of it (`RiruLoadLaws.LowerSegmentIsLost`). It stays there if and only if no later section
  that is out of step with it and no zeroed memory covers it (`RiruLoadLaws.StaysExactly`,
  `RiruLoadLaws.DataOverCode`).
- Zeroed memory is placed after the data, or after the code when there is no data in the file, so a program with one
  data segment gets what it asked for exactly in the cases of `RiruLoadLaws.ZeroedExactly`.
- The path `fs_get_pwd` prints can be taken apart again if and only if no name contains a slash
  (`FsPaths.SplitExactly`), which nothing prevents.

## Files

| files | models |
|---|---|
| `LittleEndian`, `Words` | integers as bytes; 64-bit words and their values |
| `BootInfo`, `BootTags`, `FrameSets`, `FrameAllocator` | `src/memory/pmm.c` |
| `Heap` | `src/memory/kmalloc.c` |
| `KernelMemory` | the heap and the page tables together |
| `PageTables`, `TableStores`, `Translation`, `MapSteps`, `EntryWords`, `Vmm` | `src/memory/vmm.c` |
| `MapLaws`, `MapClosure`, `MapHistory`, `TableCounts`, `RangeLaws`, `RangeOutcomes`, `SpaceSetup`, `SpaceCosts`, `VmmExamples` | what one call, whole ranges, new address spaces and histories of calls do and keep |
| `FsBytes`, `FsSpec`, `NanoFs` | `src/fs/fs.c` |
| `FsInvariants`, `FsContents`, `FsTree`, `FsRefinement`, `FsBlockNumbers`, `FsPaths`, `FsExamples` | what its operations keep and mean |
| `SchedulerSpec`, `SchedulerLaws`, `Scheduler` | `src/process/process.c` |
| `RiruFormat`, `RiruHeader` | `src/riru/riru.c` and `src/riru/riru.h` |
| `RiruPack`, `RiruPacker`, `RiruElf`, `RiruSegments` | `src/tools/riru_pack.c`, and the ELF files it reads |
| `RiruLoad`, `RiruLoadLaws`, `RiruLoader` | `src/riru/loader.c`, and packer and loader together |
| `ProgramSpaces` | the part of `src/riru/loader.c` that sets up the address space, over the page tables |
| `FramebufferColors`, `FramebufferSpec`, `FramebufferLaws`, `Framebuffer` | `src/framebuffer.c` |

`dafny verify dfyconfig.toml` checks everything.

## Model

| member | source | states |
|---|---|---|
| `FrameAllocators.FrameAllocator.PageIsUsed` | src/memory/pmm.c:24-27 | the bitmap test says whether the frame is outside the free set |
| `FrameAllocators.FrameAllocator.PageMarkUsed` | src/memory/pmm.c:20 | removes exactly this frame from the free set; the other seven bits of its byte stay |
| `FrameAllocators.FrameAllocator.PageMarkFree` | src/memory/pmm.c:22 | adds exactly this frame to the free set |
| `FrameAllocators.MaskIsBit` | src/memory/pmm.c:20-27 | frame p is bit p % 8 of byte p / 8, counted from the lowest |
| `FrameAllocators.FrameAllocator.MarkRangeFree` | src/memory/pmm.c:29-46 | adds exactly the frames lying wholly inside the range, counted once each however often they were freed before |
| `FrameAllocators.FrameAllocator.MarkRangeUsed` | src/memory/pmm.c:48-66 | removes exactly the frames the range touches, with the count kept exact |
| `FrameAllocators.FrameAllocator.Init` | src/memory/pmm.c:88-136 | read from the bytes of the boot information, whatever the order or overlap of the regions: a frame is free if and only if it lies wholly inside one available region and touches no reserved range; free_pages is the number of such frames; frame 0 is not one |
| `FrameAllocators.FrameAllocator.FreeEntries` | src/memory/pmm.c:107-127 | one memory-map tag: the free set grows by exactly the whole frames of its available entries, entries read step bytes apart |
| `BootInfo.EntriesRoundTrip` | src/memory/pmm.c:107-127 | walking a memory map written as 24-byte entries anywhere in the information gives back exactly its regions |
| `BootInfo.Step8` | src/memory/pmm.c:128 | the only multiple of 8 from the size up to 7 more, so the walk steps to the next tag as the boot loader padded it |
| `BootTags.TagsReadBack` | src/memory/pmm.c:96-129 | from any tag of written boot information on, the walk finds exactly the memory maps that follow |
| `BootTags.InfoReadsBack` | src/memory/pmm.c:88-129 | boot information written with any tags in any order, each padded with fewer than 8 bytes to a length that 8 divides, can be read, and its regions are the entries of all memory maps in order |
| `FrameSets.InsideByRounding` | src/memory/pmm.c:30-31 | rounding base up and end down selects exactly the frames inside the range |
| `FrameSets.TouchesByRounding` | src/memory/pmm.c:49-50 | rounding base down and end up selects exactly the frames the range touches |
| `FrameSets.FrameZeroReserved` | src/memory/pmm.c:131 | the low megabyte covers frame 0, so address 0 can stand for failure |
| `FrameAllocators.FrameAllocator.AllocPage` | src/memory/pmm.c:138-150 | hands out the lowest free frame and removes only it; 0 exactly when no frame is free |
| `FrameAllocators.FrameAllocator.FreePage` | src/memory/pmm.c:152-168 | frees exactly the named frame; zero, unaligned and out-of-range addresses change nothing; a double free does not count twice |
| `FrameAllocators.FrameAllocator.AllocPages` | src/memory/pmm.c:193-252 | returns the lowest start of a run of count free frames and takes exactly that run; 0 and no change exactly when count is 0 or no such run exists |
| `FrameSets.RunNeedsThatMany` | src/memory/pmm.c:204-209 | no run of count frames can exist among fewer than count free ones, so the early exit loses nothing |
| `Heap.KernelHeap.Kmalloc` | src/memory/kmalloc.c:22-54 | for every 64-bit size: takes the first-fit run of the frames computed, records its length in the header, touches no other memory, and keeps live blocks disjoint and heap_used exact; the block has room for header and payload if and only if their sum does not wrap round; 0 and no change exactly when size or the computed length is 0 or no run is long enough |
| `Heap.KernelHeap.Kfree` | src/memory/kmalloc.c:56-77 | gives back exactly the frames of the block and forgets it; null pointers and headers without the magic number change nothing; heap_used stays exact, so the saturating branch is never taken |
| `Heap.AllocThenFree` | src/memory/kmalloc.c:22-77 | freeing a first-fit block restores the free set from before the allocation |
| `Heap.FitJoins` | src/memory/kmalloc.c:31-51 | a first-fit block meets no live block, and heap_used grows by its size |
| `Heap.FreedLeaves` | src/memory/kmalloc.c:65-74 | removing a live block keeps the others disjoint and in use, and heap_used shrinks by its size |
| `Heap.OtherHeadersStay` | src/memory/kmalloc.c:44-48 | a new header never overwrites the header of another live block |
| `PageTables.SamePath` | src/memory/vmm.c:68-74 | two addresses have the same four indices if and only if they lie on the same 4 KB page of the 48-bit space |
| `SpaceCosts.PathOfNumber` | src/memory/vmm.c:68-74 | the four indices of a page are the digits of its number to base 512 |
| `PageTables.WalkRoles` | src/memory/vmm.c:160-196 | in a well-formed tree every walk from a PML4 meets a PDPT, a page directory and a page table, in this order, whatever the address |
| `TableStores.StoreElsewhere` | src/memory/vmm.c:46-58 | writes outside the tables change no translation in any address space |
| `TableStores.HangTable` | src/memory/vmm.c:80-89 | linking a new zeroed table under an absent entry keeps the tree well-formed, changes no translation and keeps every link |
| `TableStores.RewriteLink` | src/memory/vmm.c:90-103 | merging the user bit into a directory entry keeps the tree and every translation |
| `TableStores.RewriteLookups` | src/memory/vmm.c:131-155 | changing one page-table entry changes the translation of one page, in the address spaces that share that page table, and no other |
| `Vmm.AddressSpaces.AllocateTable` | src/memory/vmm.c:46-58 | a frame that was free and is no table, all 512 entries zero, every other table unchanged; 0 exactly when no frame is left |
| `Vmm.AddressSpaces.EnterTable` | src/memory/vmm.c:80-129 | one directory level: an existing link is followed with the user bit merged in, an absent one gets a fresh zeroed table; with no frame left nothing at all changes |
| `Vmm.AddressSpaces.WalkToTable` | src/memory/vmm.c:76-129 | the result code is the one the state before the call determines (which level is missing, how many frames are left, a huge page); on success the page table reached is the one the address leads to |
| `Vmm.AddressSpaces.MapPageIn` | src/memory/vmm.c:60-158 | the exact result code for every state, and for every outcome: the tree stays well-formed, free frames and table frames together are the same frames, no link is removed, no translation changes on failure and exactly one page-table entry on success; success writes the three directory entries on the way and the page's entry, bit for bit as in EntryWords.MappedBits, and no other word of the tables there were |
| `EntryWords.MappedBits` | src/memory/vmm.c:80-155 | the words a successful call leaves, in literal bits: the entry of a page mapped for the first time has exactly bit 0, the bits of the flags and bits 12 to 51 of the address; of a page that was mapped only bits 1 and 2 can change, and are only added; a new directory entry is frame * 4096 + 3, plus 4 for a user mapping; an old one gains at most bit 2 |
| `EntryWords.WalkWrites` | src/memory/vmm.c:80-129 | the directory levels change three entries of the tables there were, and no other word of them |
| `RangeOutcomes.CodeTellsLevel` | src/memory/vmm.c:84-121 | -2, -3 or -5 exactly when the frames run out at the first, second or third level that has no table |
| `MapLaws.MapUpdatesTranslation` | src/memory/vmm.c:60-196 | success updates the map from pages to frames: every address of the page goes to the requested frame plus its offset, every other address of every address space goes where it went |
| `MapLaws.FailedMapKeepsTranslations` | src/memory/vmm.c:84-151 | every error return, -1 to -6, leaves every translation of every address space as it was, even when tables had been linked already |
| `MapLaws.MappedFrameIsRequested` | src/memory/vmm.c:155 | the address stored is the one requested if and only if it fits the 40-bit field and no flag bit falls into it |
| `MapLaws.FramesConserved` | src/memory/vmm.c:46-158 | no outcome loses or creates a frame: free frames and table frames make up the same set before and after |
| `MapLaws.FrameCountConserved` | src/memory/vmm.c:46-158 | free_pages plus the number of tables is unchanged by every outcome |
| `Vmm.AddressSpaces.GetPhysicalFrom` | src/memory/vmm.c:160-196 | the walk returns the translation of the address in the page-table memory, huge pages included, and 0 for absent pages |
| `EntryWords.PhysicalBits` | src/memory/vmm.c:160-196 | each bit of the physical address: the walk ends at an entry without bit 0, bit 7 of the third entry makes a page of 2 MB, the offset is that of the virtual address and the rest, up to bit 51, is that of the last entry |
| `Translations.WriteAccessIsLeaf` | src/memory/vmm.c:80-155 | write access by the rule of all levels (Intel SDM Volume 3A, section 4.6) equals the writable bit of the last entry |
| `Translations.UserAccessIsLeafAndSlot` | src/memory/vmm.c:80-155 | ring-3 access by the rule of all levels equals the user bit of the last entry and of the PML4 entry; the two levels between never decide |
| `MapLaws.EmptyRootClosed` | src/memory/vmm.c:54-55 | a newly zeroed PML4 has no user page without a user slot |
| `MapLaws.SlotsStayClosed` | src/memory/vmm.c:80-155 | a closed root stays closed under a call if and only if the call is not a successful user mapping for another root in a slot the two share that is no user slot of the first; all of it can be seen before the call |
| `MapLaws.SharersExactly` | src/memory/vmm.c:80-155 | after a successful call another root sees the new entry if and only if the two shared the page's PML4 slot before |
| `MapLaws.OwnMappingCloses` | src/memory/vmm.c:80-155 | a root that is not closed becomes so with a user mapping of its own if and only if its other slots are |
| `MapLaws.ClosedAccessIsLeaf` | src/memory/vmm.c:91-100 | for a root grown from empty, effective ring-3 and write access are exactly the last entry's own bits |
| `MapLaws.AccessIsLeafExactly` | src/memory/vmm.c:91-100 | effective ring-3 access is the last entry's own bit for every page of a root if and only if the root is closed |
| `MapLaws.UserAccessAfterMap` | src/memory/vmm.c:91-103 | who has ring-3 access to any page of any address space after a call, as an if-and-only-if |
| `MapLaws.MappedPageWritable` | src/memory/vmm.c:131-155 | after success the page is writable if and only if that was asked for or it was before |
| `MapLaws.MappedPageUser` | src/memory/vmm.c:91-155 | after success the page is open to ring 3 if and only if that was asked for or it was before |
| `MapLaws.OtherPagesAccess` | src/memory/vmm.c:91-103 | exactly when a call opens another page to ring 3: a user mapping through the same PML4 slot of the same root, the other page already a user page, the slot not yet a user slot; write access to other pages never changes |
| `MapLaws.ClosedSpacesIsolateAccess` | src/memory/vmm.c:91-155 | in a root grown from empty, mapping one page changes nobody's access to any other |
| `MapClosure.MapKeepsPages` | src/memory/vmm.c:131-155 | no call redirects a page that is mapped, or takes a right from it, in any address space |
| `MapClosure.SupervisorMap` | src/memory/vmm.c:80-155 | a call without the user bit gives ring 3 no slot and no page, in any address space |
| `MapClosure.MapCallKeeps` | src/memory/vmm.c:60-158 | one call keeps links, mapped pages and its closed root, which the loops carry over whole ranges |
| `MapHistory.StepStaysClosed` | src/memory/vmm.c:60-268 | one call, mapping or unmapping for any root or work on frames outside the tables, leaves a closed root closed if and only if it does not spread to it as above |
| `MapHistory.StaysClosedExactly` | src/memory/vmm.c:60-268 | from any closed state on, a root is closed in every state of a history if and only if no call of it spreads to the root |
| `MapHistory.AccessIsLeafThroughout` | src/memory/vmm.c:60-268 | from any closed state on, as long as no call spreads to the root, effective ring-3 and write access to every page are the bits of its own entry |
| `MapHistory.ProcessStaysClosed` | src/memory/vmm.c:436-500 | a root whose slot 0 is a user slot stays closed whatever other processes map and unmap below 512 GB |
| `VmmExamples.BootPrepares` | src/memory/vmm.c:287-368 | what kernel set-up ensures is all that the following scenario starts from |
| `VmmExamples.SharedSlotSpreads` | src/memory/vmm.c:436-500 | two new user spaces copy slot 0; one successful call maps a user page for the first, the next another for the second; between the two calls the second space is not closed and ring 3 cannot reach the first page through it, afterwards it can |
| `Vmm.AddressSpaces.MapPages` | src/memory/vmm.c:213-236 | the loop of the range mappers: it succeeds if and only if no page is mapped elsewhere or huge and the tables missing for the whole range, each counted once, are no more than the free frames, and then takes exactly those; an error code is explained by the state it leaves; the pages before the first failing one, and only they, are mapped, each to its frame; mapped pages, links and closed roots stay so; each page mapped has the entry map_page_in leaves for its address and these flags |
| `Vmm.AddressSpaces.MapRange` | src/memory/vmm.c:213-236 | rounds to whole pages and maps exactly those linearly; success under exactly the same condition; on an error exactly the pages before the failing one, with the reason; size 0 does nothing |
| `RangeLaws.RangePages` | src/memory/vmm.c:216-224 | the pages mapped for a range are exactly those that share a byte with it |
| `RangeOutcomes.FailureReason` | src/memory/vmm.c:60-158 | every non-zero code of map_page_in has one of four reasons, visible in the state after the call |
| `RangeOutcomes.SucceedsExactly` | src/memory/vmm.c:60-158 | page-aligned addresses, a page not mapped elsewhere and a frame for each missing table: exactly then map_page_in succeeds |
| `RangeOutcomes.RangeStep` | src/memory/vmm.c:228-235 | one more page: the earlier ones stay mapped, this one is, no other page of the space moves |
| `RangeOutcomes.PageOutcome` | src/memory/vmm.c:228-235 | the next page is mapped if and only if nothing is in its way and the frames at the start were enough for all missing tables up to it |
| `RangeOutcomes.MissingMeans` | src/memory/vmm.c:228-235 | the missing tables of a range are those that the walk of some page of it lacks |
| `TableCounts.WalkDeepens` | src/memory/vmm.c:76-129 | a walk that succeeds takes every walk of the address space as far as it shares the indices, and no walk further; it hangs one table for each level that was missing |
| `TableCounts.HungCount` | src/memory/vmm.c:76-129 | later, the tables a page still needs are those its walk lacked at first and that have not been hung since |
| `RangeOutcomes.RangeConsumes` | src/memory/vmm.c:298-345 | a range mapped after others succeeds if and only if the frames at the start are enough for the missing tables of all of them together |
| `RangeOutcomes.MappedIsLinear` | src/memory/vmm.c:213-236 | a range of mapped pages translates linearly, address by address |
| `RangeLaws.LinearIsIdentity` | src/memory/vmm.c:274-285 | a linear mapping of p to p is the identity on every address of the range |
| `Vmm.AddressSpaces.IdentityMapPhysicalMemory` | src/memory/vmm.c:274-285 | maps a prefix of the pages below 4 GB to themselves, all of them exactly on success; it succeeds if and only if no page is mapped elsewhere or huge and there is a frame for each missing table; an error code is explained by the state it leaves |
| `Vmm.AddressSpaces.MapToItself` | src/memory/vmm.c:274-285 | the loop that maps pages to themselves, with the exact condition for success; pages already mapped so need no frame and cannot fail; it stops only without frames or at a page mapped elsewhere |
| `Vmm.AddressSpaces.UnmapPage` | src/memory/vmm.c:238-268 | the page disappears exactly from the address spaces that share its page table; every other translation stays; huge pages and missing tables change nothing; exactly the one word becomes 0 and every other word of memory stays |
| `RangeLaws.LeafCleared` | src/memory/vmm.c:265 | clearing one entry of a well-formed tree unmaps that page and keeps the tree |
| `Vmm.AddressSpaces.MapUserPage` | src/memory/vmm.c:487-500 | -1 for no root, -2 for addresses at or above 2^47 with no change at all, otherwise map_page_in with the user bit; on success the words are those of map_page_in with bit 2 added to the flags |
| `Vmm.AddressSpaces.CopyKernelSlots` | src/memory/vmm.c:459-463 | slot 0 and slots 256 to 511 of the new root are the kernel's, the others are zero, and no other table is touched |
| `Vmm.AddressSpaces.CreateUserSpace` | src/memory/vmm.c:436-485 | no root exactly when no frame was left; otherwise the new root has the kernel's slots 0 and 256 to 511, no address space loses a page or gains a user page, and the call returns it exactly if the VGA page and the framebuffer are mapped to themselves in it, else 0 because no frame is left or such a page is mapped elsewhere; when the kernel has them below 512 GB it succeeds with that one frame; the screen it returns can be written to |
| `SpaceSetup.CopiedLookup` | src/memory/vmm.c:459-463 | walks of a root with copied slots are the kernel's in slots 0 and 256 to 511 and absent in the others |
| `SpaceSetup.CopiedIsClosed` | src/memory/vmm.c:459-463 | a root copied from a closed one is closed |
| `Vmm.AddressSpaces.PrepareKernelSpace` | src/memory/vmm.c:287-368 | for ranges inside the 48-bit space it succeeds if and only if there is a frame for the PML4 and for each table that the kernel image, the framebuffer, the VGA page and the first 4 GB need; then all of them translate to themselves, and every entry of a page is its own address plus 3; nothing translates to anything but itself, no slot is a user slot, the root is closed, and as the first root it shares slot 0 |
| `Vmm.AddressSpaces.MapKernelRanges` | src/memory/vmm.c:298-368 | its mapping part, from any root in which everything mapped is mapped to itself: it succeeds if and only if there is a frame for each table missing for the four ranges |
| `Vmm.AddressSpaces.MapImageAndScreen` | src/memory/vmm.c:298-337 | the first two of its ranges, with the same exact condition |
| `Vmm.AddressSpaces.MapMore` | src/memory/vmm.c:298-345 | one of its ranges after others: the condition for all of them together |
| `SpaceCosts.AllTablesMissing` | src/memory/vmm.c:287-368 | from an empty PML4 every table of the four ranges is missing |
| `SpaceCosts.LowPlaces` | src/memory/vmm.c:274-285 | the tables of the first pages of memory, exactly, and their number |
| `SpaceCosts.LowKernel` | src/memory/vmm.c:287-368 | with kernel and framebuffer below 4 GB the set-up needs 2053 tables beside the PML4 |
| `SpaceSetup.SelfOnlyKept` | src/memory/vmm.c:287-368 | mapping pages to themselves keeps every entry of a page equal to its own address plus 3, present and writable and nothing else |
| `SpaceSetup.PagesBetweenAre` | src/memory/vmm.c:297-304 | so are those mapped for the kernel image and the framebuffer |
| `SpaceSetup.SelfOnlyNoConflict` | src/memory/vmm.c:287-368 | in such a root no page is in the way of an identity mapping |
| `MapLaws.LowStaysShared` | src/memory/vmm.c:436-500 | once slot 0 is present and shared, no operation that only adds links can end the sharing |
| `MapLaws.LowWindowCoherent` | src/memory/vmm.c:459 | every address below 512 GB translates identically through every root in every state where slot 0 is shared |
| `Vmm.AddressSpaces.TakeFrame` | src/memory/pmm.c:138-150 | a frame given to anyone else is never a table |
| `Vmm.AddressSpaces.GiveFrame` | src/memory/pmm.c:152-168 | an owner freeing a frame that is no table keeps the page tables well-formed |
| `KernelMemory.Kernel.Kmalloc` | src/memory/kmalloc.c:22-54 | over one frame allocator: the heap takes no table frame, every translation stays, headers of live blocks stay intact |
| `KernelMemory.Kernel.Kfree` | src/memory/kmalloc.c:56-77 | freeing any live block gives back no table frame and leaves translations and the other headers alone |
| `KernelMemory.Kernel.MapPageIn` | src/memory/vmm.c:60-158 | new tables lie in no heap block, and no heap memory changes |
| `KernelMemory.Kernel.CreateUserSpace` | src/memory/vmm.c:436-485 | the same for whole address spaces |
| `Vmm.AddressSpaces.WriteElsewhere` | src/memory/vmm.c:46-58 | an owner writing to its frame changes no translation |
| `FsBytes.InodeRoundTrip` | src/fs/fs.h:14-21 | an inode packed into its 54 bytes reads back as itself |
| `FsBytes.BytesRoundTrip` | src/fs/fs.h:14-21 | any 54 bytes read as an inode are written back unchanged |
| `FsBytes.SlotOfWithSlot` | src/fs/fs.c:34-39 | replacing one of the nine inodes in a sector leaves the other eight alone |
| `FsBytes.InodeOfWithInode` | src/fs/fs.c:10-40 | writing inode id on disk changes that inode record and no other |
| `FsBytes.InodeOnDisk` | src/fs/fs.c:10-27 | inode id is the 54 bytes from 54 * ((id - 1) % 9) of sector 1 + (id - 1) / 9: 28 of name, then parent, four blocks and size, four bytes each, lowest first, the directory flag and a spare byte |
| `FsBytes.InodeBytesWritten` | src/fs/fs.c:29-40 | writing inode id changes its own 54 bytes and no other byte of the disk |
| `NanoFsDisk.NanoFs.InodeRead` | src/fs/fs.c:10-26 | the stored inode; ids 0 and above 72 read as zeros |
| `NanoFsDisk.NanoFs.InodeWrite` | src/fs/fs.c:28-40 | replaces exactly that inode, the data area untouched; ids 0 and above 72 change nothing |
| `NanoFsDisk.NanoFs.InodeAlloc` | src/fs/fs.c:42-50 | the first inode with an empty name, 0 when there is none |
| `NanoFsDisk.NanoFs.BlockAlloc` | src/fs/fs.c:52-67 | one more than the highest block number of any live inode, at least 9 |
| `FsSpec.HighWater` | src/fs/fs.c:52-66 | an upper bound on all live block numbers that is reached, or 8 |
| `FsSpec.LookupFrom` | src/fs/fs.c:69-84 | the first live inode with this name and parent; 0 only when there is none |
| `NanoFsDisk.NanoFs.LookupName` | src/fs/fs.c:69-84 | the disk scan finds the inode the table of inodes determines |
| `NanoFsDisk.NanoFs.FsDiskStats` | src/fs/fs.c:463-483 | the used sectors reported are one more than the highest live block number |
| `NanoFsDisk.NanoFs.FsFormat` | src/fs/fs.c:86-102 | an empty inode table and the root as current directory; the data sectors keep their bytes; sector 0 is one that fs_mount accepts, with 131072 sectors |
| `NanoFsDisk.NanoFs.FsMount` | src/fs/fs.c:104-122 | 1 exactly if sector 0 starts with NANOFS2, its zero byte and version 2; the current directory is then the root and the number of sectors the one stored, else nothing changes |
| `NanoFsDisk.MountsExactly` | src/fs/fs.c:111-118 | the string and number comparisons succeed exactly for these twelve bytes |
| `NanoFsDisk.SuperBlockBytes` | src/fs/fs.c:86-95 | the sector fs_format writes is accepted by fs_mount, which halts the boot otherwise |
| `NanoFsDisk.NanoFs.FsCreate` | src/fs/fs.c:124-147 | the disk afterwards is the specified one: -1 for a taken name, -2 for a full table, else one new inode with a fresh block; like every operation it leaves sector 0 alone, so the disk can be mounted again |
| `NanoFsDisk.NanoFs.FsMkdir` | src/fs/fs.c:369-386 | as for files, without a block |
| `NanoFsDisk.NanoFs.GrowBlocks` | src/fs/fs.c:175-179 | every missing block of one call gets the same number |
| `NanoFsDisk.NanoFs.WriteChunk` | src/fs/fs.c:183-194 | one zero-padded chunk in one sector, nothing else changed |
| `NanoFsDisk.NanoFs.FsWrite` | src/fs/fs.c:149-199 | text cut to 2044 bytes, chunked over the grown block list; the disk afterwards is the specified one |
| `NanoFsDisk.NanoFs.FsWriteBinary` | src/fs/fs.c:201-255 | -3 above 2044 bytes; otherwise as fs_write, except that an empty write clears the first block |
| `NanoFsDisk.NanoFs.FsRead` | src/fs/fs.c:257-297 | returns the count and fills exactly that prefix of the buffer with the file's bytes; the rest of the buffer and the disk stay |
| `NanoFsDisk.NanoFs.FsAppend` | src/fs/fs.c:299-342 | the old content and as much of the text as fits, written back whole |
| `NanoFsDisk.NanoFs.FsDelete` | src/fs/fs.c:344-352 | zeroes the inode, non-empty directories included |
| `NanoFsDisk.NanoFs.FsRename` | src/fs/fs.c:354-367 | -2 when the new name is taken; otherwise only the name changes |
| `NanoFsDisk.NanoFs.FsChangeDir` | src/fs/fs.c:388-414 | "/", "..", "." and names; -1 for a missing name, -2 for a file |
| `NanoFsDisk.NanoFs.FsGetPwd` | src/fs/fs.c:440-461 | the names of the directories from the root, each after a slash; the loop ends because the parents lead to the root |
| `FsInvariants.StepKeepsInv` | src/fs/fs.c:124-414 | after every operation, with any names and any growth: non-zero blocks of different live inodes are disjoint and at least 9, files own the blocks their length needs, directories own none |
| `FsInvariants.StoreKeepsInv` | src/fs/fs.c:149-255 | growing a file keeps block ownership disjoint |
| `FsContents.ReadsBackExactly` | src/fs/fs.c:278-295 | reading gives some bytes if and only if every chunk of them is in its block |
| `FsContents.StoreReadsBackExactly` | src/fs/fs.c:149-255 | in every state, files with shared blocks included: after a write the file reads back as the bytes written if and only if each chunk agrees with the last chunk that has its block number, after the missing blocks got the one new number |
| `FsContents.StoreOnDisk` | src/fs/fs.c:175-207 | every byte of the disk after a write, in every state: the last block with a number holds its 511 bytes of the file and zeros after them, an empty binary file has a cleared first block, all other sectors stay, and missing blocks have the number after the highest live one |
| `FsContents.NeededMeans` | src/fs/fs.c:170-173 | block b is needed exactly for b = 0 or a length above 511 * b |
| `FsContents.UnaliasedReadsBackExactly` | src/fs/fs.c:149-255 | for a file with distinct block numbers that is: the chunks that fell into new blocks repeat the last of them |
| `FsContents.OneNewChunkIsFine` | src/fs/fs.c:175-179 | a write that needs at most one new block always meets that condition |
| `FsExamples.AliasedFileReadsWrong` | src/fs/fs.c:175-179 | format, create, write three different chunks: the write reports success and the file holds something else |
| `FsExamples.AliasOutlivesWrite` | src/fs/fs.c:175-179 | sharing outlives the write that made it: equal chunks read back, and then three different chunks that need no new block do not |
| `FsContents.StoreLeavesOthers` | src/fs/fs.c:149-255 | with no condition on growth, writing one file changes no other inode record and no other file's content |
| `FsContents.ContentLength` | src/fs/fs.c:270-296 | a live file reads back as many bytes as its size says |
| `FsTree.NeverRepeats` | src/fs/fs.c:440-461 | an inode whose parents lead to the root never meets itself again on the way |
| `FsTree.StepKeepsTree` | src/fs/fs.c:42-50 | in every state and with any names, parents never cycle and the current directory reaches the root through live directories, although directories with entries can be deleted and inode numbers are reused |
| `FsTree.CreateUniqueExactly` | src/fs/fs.c:128-140 | a creation keeps (name, parent) unique if and only if the name cut to 27 bytes was free, while the check is made on the uncut name |
| `FsTree.MkdirUniqueExactly` | src/fs/fs.c:369-386 | the same for directories |
| `FsTree.RenameUniqueExactly` | src/fs/fs.c:354-367 | a rename keeps it if and only if the cut new name was free or was the renamed inode's own |
| `FsExamples.LongNamesCollide` | src/fs/fs.c:128-140 | format, then create two names that differ in the 28th byte: both succeed and are stored alike |
| `FsTree.StepKeepsNames` | src/fs/fs.c:124-414 | with names of 1 to 27 bytes other than "/", "." and "..", (name, parent) stays unique among live inodes |
| `FsTree.PwdRoundTrip` | src/fs/fs.c:388-461 | cd to the root and then along the names pwd shows leads back to the same directory |
| `FsRefinement.ReadGivesContent` | src/fs/fs.c:257-297 | fs_read with a large enough buffer returns exactly the bytes the abstract tree has for the name |
| `FsRefinement.StepRefines` | src/fs/fs.c:124-414 | each operation with non-empty text names, at most one new block and room on the disk does to the disk what the abstract tree operation does, and answers what the tree says |
| `FsRefinement.CodesAgree` | src/fs/fs.c:124-414 | the answers of all eight operations, in every state with sane blocks: delete 0 exactly if the name is in the current directory, rename -1 without the old name and -2 for a taken new one, creations -1 for a taken name and -2 without a free id, writes -1 for no such name, -2 for a directory and -3 above 2044 bytes, cd -1 and -2 likewise |
| `FsRefinement.FirstFound` | src/fs/fs.c:69-84 | a name stands for the first of the 72 entries that have it in the current directory |
| `FsRefinement.FirstUnused` | src/fs/fs.c:42-50 | a new entry gets the first of the 72 ids without one |
| `FsRefinement.RunRefines` | src/fs/fs.c:124-414 | the same over whole runs: files hold the bytes last written, appended to, renamed and deleted as the tree says, and the sequence of answers is that of the tree |
| `FsRefinement.FormattedIsEmpty` | src/fs/fs.c:86-102 | a formatted disk is the empty tree and satisfies every invariant |
| `FsRefinement.RunKeepsInvariants` | src/fs/fs.c:124-414 | block ownership and the tree hold over every run, with no condition on names or growth |
| `FsRefinement.ReachablePwdRoundTrip` | src/fs/fs.c:354-461 | in every state reached from a formatted disk with names of 1 to 27 bytes other than "/", "." and "..", the components pwd shows lead from the root back to the current directory |
| `FsPaths.SplitExactly` | src/fs/fs.c:440-461 | the text pwd prints can be split at its slashes into the names if and only if no name contains a slash |
| `FsPaths.ReachablePathRoundTrip` | src/fs/fs.c:354-461 | in every state reached with plain names without slashes, the text pwd prints, split at its slashes, leads from the root back to the current directory |
| `FsRefinement.SmallAppendIsCareful` | src/fs/fs.c:299-342 | an append of at most 511 bytes never needs two new blocks |
| `FsBlockNumbers.BlockNumbersHaveNoBound` | src/wallpaper_layout.h:8-12 | every block number from 9 to 2^32 - 2 is reached by creating and deleting two empty files, in as few block-taking operations as possible, so the documented range 9 to 297 does not hold |
| `FsBlockNumbers.StepRaises` | src/fs/fs.c:52-67 | in every state an operation raises the highest live block number by exactly one if it takes a block (a creation, or a write into a missing block), and never otherwise |
| `FsBlockNumbers.BoundSurvivesExactly` | src/wallpaper_layout.h:8-12 | a bound on all block numbers survives an operation if and only if the highest number is below it or no block is taken; fs_disk_stats reports that number |
| `FsBlockNumbers.RunRaises` | src/fs/fs.c:52-67 | over any run the highest number grows by at most the operations that took a block |
| `FsBlockNumbers.RunBoundExactly` | src/wallpaper_layout.h:8-12 | a bound holds over all runs from a formatted disk that take at most so many blocks if and only if it is at least 8 more than that number; 297 holds for 289 and no more |
| `ProcessTable.Scheduler.ProcessInit` | src/process/process.c:27-41 | an empty table, nothing current |
| `ProcessTable.Scheduler.FindFreeSlot` | src/process/process.c:43-50 | the first slot that is not RUNNING, -1 when all are |
| `ProcessTable.Scheduler.ProcessCreate` | src/process/process.c:52-82 | the first slot that is not RUNNING gets the next pid and the initial frame; RUNNING slots are untouched |
| `ProcessTable.Scheduler.FindNext` | src/process/process.c:201-209 | the loop over offsets finds the slot the rotation chooses |
| `ProcessTable.Scheduler.SchedulerTick` | src/process/process.c:178-225 | saves the interrupted frame, chooses, installs the chosen slot's frame and address space; the state afterwards is the specified one |
| `ProcessTable.Scheduler.ProcessExitFromSyscall` | src/process/process.c:134-162 | the current slot becomes EXITED with its exit code, the kernel resumes; without a current process nothing happens |
| `ProcessTable.Scheduler.ProcessByPid` | src/process/process.c:238-245 | the only used slot with this pid, -1 when there is none |
| `SchedulerLaws.StepKeepsInv` | src/process/process.c:43-225 | every operation keeps: the current slot is RUNNING, pids of used slots are distinct and below next_pid |
| `SchedulerLaws.CreateSparesRunning` | src/process/process.c:43-82 | creation succeeds if and only if some slot is not RUNNING, never overwrites a RUNNING one, and changes one slot: a RUNNING process with the next pid, its entry, stack and CR3, and registers to start there |
| `SchedulerLaws.ChosenIsNearest` | src/process/process.c:197-211 | the tick chooses the RUNNING slot nearest in the rotation, and none exactly when none is RUNNING |
| `SchedulerLaws.IdleTickChangesNothing` | src/process/process.c:211-217 | with nothing to run nothing was current: the switch to the kernel space in that branch never happens and the tick is the identity |
| `SchedulerLaws.TickKeepsSlots` | src/process/process.c:178-225 | a tick changes no slot except the saved registers of the interrupted one |
| `SchedulerLaws.FramesAreLastSaved` | src/process/process.c:52-225 | over every run each RUNNING process holds what an outside record of creations and interruptions calls for: the frame of its own last preemption, or, never preempted, rip at its entry, rsp at its stack, ring 3 selectors, interrupts on and all other registers zero |
| `SchedulerLaws.InstalledFrameIsDue` | src/process/process.c:191-221 | the frame a tick installs is the one the record calls for; with nothing to run the interrupted frame stays |
| `SchedulerLaws.FirstTickStarts` | src/process/process.c:52-82 | whatever happens in between, the first tick to choose a new process starts it at the entry and stack it was created with, under its pid and in its address space |
| `SchedulerLaws.ExitLeaves` | src/process/process.c:134-162 | an exit keeps the low 32 bits of RDI as a signed code in an EXITED slot without CR3, touches no other slot, and resumes the kernel at its return point on its own stack, interrupts on and all other registers as they were |
| `SchedulerLaws.RootIsCut` | src/memory/vmm.c:511-518 | the root loaded is bits 12 to 51 of CR3 |
| `SchedulerLaws.StepKeepsSpace` | src/process/process.c:134-225 | the loaded page-table root is always the current process's, or the kernel's when idle |
| `SchedulerLaws.RunKeepsSpace` | src/process/process.c:134-225 | the same over every run whose processes have a non-zero CR3 |
| `SchedulerLaws.WaitingLowersMeasure` | src/process/process.c:134-225 | without creations, every tick that passes a waiting slot over and every other process's exit lowers (RUNNING slots, distance in the rotation) |
| `SchedulerLaws.RunCounts` | src/process/process.c:43-162 | over any run, RUNNING slots plus exits equal the RUNNING slots at the start plus creations |
| `SchedulerLaws.WaitBound` | src/process/process.c:134-225 | in any run, the ticks a waiting slot i is passed over are at most its distance plus i for each exit |
| `SchedulerLaws.ChosenWithinATurn` | src/process/process.c:178-225 | without exits, and with any creations, a waiting slot is chosen within N ticks |
| `SchedulerLaws.ChosenWithoutCreation` | src/process/process.c:134-225 | without creations it is chosen within N * N ticks |
| `SchedulerLaws.RotationResetStarves` | src/process/process.c:155-192 | from an idle CPU with slot 0 RUNNING, a run that passes a waiting slot over any given number of times: exits restart the rotation at slot 0 |
| `SchedulerLaws.StarvesExactly` | src/process/process.c:134-225 | from every state, a waiting process can be passed over any number of times if and only if it is not in slot 0 |
| `SchedulerLaws.ExitCodeStays` | src/process/process.c:12-16 | an exit code stays readable by pid until a creation takes the slot |
| `RiruFormat.HeaderRoundTrip` | src/riru/riru.h:22-49 | a header written at the start of a file, padding included, reads back as itself |
| `RiruHeader.HeaderInFile` | src/riru/riru.h:22-50 | the offset of every header field in the file |
| `RiruFormat.RangeValid` | src/riru/riru.c:8-16 | true exactly when offset plus size is within the file, without computing the sum |
| `RiruFormat.Validate` | src/riru/riru.c:18-67 | 0 if and only if magic, version, kind, sizes, section ranges, entry and addresses are all acceptable |
| `RiruHeader.RefusedByFirst` | src/riru/riru.c:18-67 | a file is refused with -k exactly if check k, read off the bytes of the file, is the first it does not pass |
| `RiruFormat.Parse` | src/riru/riru.c:69-99 | an image exactly for acceptable files, every section pointer of which stays inside the file; otherwise the error code of the validation |
| `RiruPack.SegmentError` | src/tools/riru_pack.c:261-291 | no error exactly when every loadable segment has memsz at least filesz and lies in the file |
| `RiruElf.TableAccepted` | src/tools/riru_pack.c:210-255 | the checks up to the table, by the fields a linker writes: magic, 64-bit class, x86-64, 56-byte program headers, and a table that ends inside the file |
| `RiruElf.ElfHeaderReadsBack` | src/tools/riru_pack.c:22-43 | the header fields of an ELF-64 file, written one after another, are found where the packer looks for them |
| `RiruElf.TableReadsBack` | src/tools/riru_pack.c:45-58 | so are the program headers, wherever in the file the table is |
| `RiruPack.AddedEnd` | src/tools/riru_pack.c:160-192 | inside a file nothing wraps: merging keeps the start and takes the higher end |
| `RiruPack.GatherIsMerge` | src/tools/riru_pack.c:298-318 | after the classifying loop each span starts at its first member, ends at the highest member end, and lies in the file |
| `RiruSegments.SpansByBits` | src/tools/riru_pack.c:296-319 | the three spans by the bits of the headers: code merges the loadable segments with flag bit 0, data those with bit 1 and not bit 0, read-only data those with neither that do not lie below the first code address; the zeroed size is the sum of memsz - filesz over the data segments, to 64 bits |
| `RiruSegments.ClassesByBits` | src/tools/riru_pack.c:296-319 | the members of each class are exactly these headers, in table order |
| `RiruSegments.SelectedMeans` | src/tools/riru_pack.c:296-319 | a header is among those selected exactly if it is in the table and passes the test |
| `RiruSegments.FirstCodeIsLowest` | src/tools/riru_pack.c:259-286 | the first code address is the lowest of a loadable executable segment, all ones without one |
| `RiruPack.SpanHoldsMember` | src/tools/riru_pack.c:160-192 | every member that does not start below the first is contained in the span, byte for byte |
| `RiruLoadLaws.SpanHoldsExactly` | src/tools/riru_pack.c:160-192 | the span contains a member, whatever its bytes, if and only if the member does not start below the first |
| `RiruPack.ExecutableIsFound` | src/tools/riru_pack.c:286-325 | with executable code there is always a code span, so the last error branch is dead |
| `RiruPack.LayoutIsSound` | src/tools/riru_pack.c:327-353 | sections are 16-aligned, after the header, in order, disjoint and inside the image |
| `RiruPack.PackThenParse` | src/tools/riru_pack.c:194-422 | for every file packed: the parser accepts the output if and only if the entry and the addresses of non-empty sections are non-zero, and then yields exactly the bytes of each merged span, the addresses and the entry |
| `RiruHeader.PackedHeaderFields` | src/tools/riru_pack.c:327-400 | the output header, byte by byte: magic RIRU, version 1, x86-64, executable, no flags, the entry, a stack of 1 MB, addresses and sizes of the three spans, the zeroed size, the length of the file, and section offsets that 16 divides |
| `RiruPack.PackedSections` | src/tools/riru_pack.c:327-422 | the three spans sit in the output at the offsets the layout computed |
| `RiruPacker.SegmentInfo.AddSegment` | src/tools/riru_pack.c:160-192 | the record afterwards is the specified one, with 64-bit wrap-around |
| `RiruPacker.CheckSegments` | src/tools/riru_pack.c:259-291 | the first failing check over the table, and the lowest code address |
| `RiruPacker.GatherSegments` | src/tools/riru_pack.c:293-318 | the three records and the bss size are the folds over the table |
| `RiruPacker.BuildImage` | src/tools/riru_pack.c:327-422 | the buffer filled by header and section copies is the specified output |
| `RiruPacker.Pack` | src/tools/riru_pack.c:194-422 | for files up to 2^60 bytes whose header table does not wrap round: a file exactly when no check fails, and then the specified one; otherwise the first failing check |
| `RiruLoader.CopySection` | src/riru/loader.c:274-296 | copies exactly these bytes to exactly these addresses |
| `RiruLoader.ZeroMemory` | src/riru/loader.c:123-126 | zeroes exactly these addresses |
| `RiruLoader.Load` | src/riru/loader.c:128-322 | the result code of the first failing check, and user memory afterwards: unchanged before the stores, else code, read-only data, data and zeros stored in this order; a bad entry point is refused only after the stores |
| `ProgramSpaces.MapProgramPage` | src/riru/loader.c:51-85 | one page of map_range: a page that is there keeps its frame and takes none, any other gets a free frame, which is given back when it cannot be mapped, so a failure loses no frame; -1 only without a free frame |
| `ProgramSpaces.MapProgramPages` | src/riru/loader.c:44-121 | the loop of map_range and map_user_stack over the page tables: on success every page is open to ring 3 with the rights asked for, no other bit of any entry of the space changes, no address space loses a page or a right, -1 only without a free frame; over a prepared kernel it always succeeds, takes no frame and moves no address of any space |
| `ProgramSpaces.MapSection` | src/riru/loader.c:44-88 | the same for a section by its addresses: each of them may be read and written by ring 3 |
| `ProgramSpaces.MapWholeProgram` | src/riru/loader.c:203-263 | the sections, the zeroed memory and the stack in this order, with the code of the step that fails; over a prepared kernel the only refusal left is -10 |
| `ProgramSpaces.SetUpProgram` | src/riru/loader.c:192-263 | from the header to an address space: over a prepared kernel with a free frame the code is the one of the checks alone, and one frame is taken; without a frame -6 |
| `ProgramSpaces.RemapMovesNothing` | src/riru/loader.c:50-69 | asking for a mapped page again changes no translation of any address space |
| `ProgramSpaces.ProgramsShareMemory` | src/riru/loader.c:50-69 | over a prepared kernel every address below 4 GB is itself in every address space, so all programs and all their stacks lie in the same memory |
| `RiruLoadLaws.StoredByte` | src/riru/loader.c:274-300 | what each byte of memory holds after the stores: zero in the zeroed part, else the byte of data, read-only data or code that covers it, in this order, else what it held |
| `RiruLoadLaws.PackThenLoad` | src/riru/loader.c:128-322 | for every file packed: the loader accepts the output if and only if some section is non-empty, all of them and the zeroed part lie in the user range and the entry point lies among their pages; memory then holds the merged spans of the ELF file; the result names the entry of the ELF file and the first and last page; an entry outside gives -13 after the stores |
| `RiruLoadLaws.BoundsAreTight` | src/riru/loader.c:139-183 | the base and end reported are the page boundaries around the non-empty sections, and no others are nearer |
| `RiruLoadLaws.LoadCodes` | src/riru/loader.c:139-260 | the code of every refusal before the stores, by the addresses from 0x400000 to 0x40000000: -2, -3 and -4 for the first section outside, -5 for no section, -10 for zeroed memory outside |
| `RiruLoadLaws.CopiedExactly` | src/riru/loader.c:274-296 | a merged segment is in place after its own section is copied, whatever its bytes, if and only if it does not start below the span in the file and its address and offset are as far apart as those of the span |
| `RiruLoadLaws.AlwaysAtExactly` | src/riru/loader.c:274-300 | a byte of the file ends up at an address, whatever the contents, if and only if the last store that covers the address copies that byte |
| `RiruLoadLaws.EndsInPlaceExactly` | src/riru/loader.c:274-300 | the same for whole segments |
| `RiruLoadLaws.StaysExactly` | src/riru/loader.c:274-300 | a segment put in place by its own section is still there at the end if and only if no later section out of step with it and no zero is stored over it |
| `RiruLoadLaws.DataStays` | src/riru/loader.c:230-300 | nothing is stored over a data segment that its section put in place |
| `RiruLoadLaws.ProgramInMemory` | src/riru/loader.c:128-322 | packing and loading a program puts each such segment where it asked to be |
| `RiruLoadLaws.ZeroedExactly` | src/riru/loader.c:230-300 | a program with one data segment gets exactly the zeroed memory it asks for if and only if the segment has bytes in the file or happens to lie where the loader zeroes without them |
| `RiruLoadLaws.LowerSegmentIsLost` | src/tools/riru_pack.c:160-192 | two code segments, the upper one first: accepted, addresses and offsets equally far apart, and the lower one is in no section |
| `RiruLoadLaws.DataOverCode` | src/riru/loader.c:274-296 | code that its section puts in place and an overlapping data section overwrites |
| `FramebufferColors.ColorRoundTrip` | src/framebuffer.c:21-23 | a packed colour unpacks to itself when the three channels do not overlap |
| `FramebufferColors.ChannelsInPlace` | src/framebuffer.c:21-23 | red, green and blue are the eight bits from the mode's three positions up |
| `FramebufferDevice.Framebuffer.EnableBackbuffer` | src/framebuffer.c:56-86 | either both buffers, with a forced present pending, or none; a second call changes nothing |
| `FramebufferDevice.Framebuffer.PutPixel` | src/framebuffer.c:98-113 | changes one cell of the back buffer, or the bytes of one pixel of video memory without one; off-screen pixels are dropped |
| `FramebufferDevice.Framebuffer.GetPixel` | src/framebuffer.c:115-135 | the colour of the stored number, black off the screen |
| `FramebufferDevice.PutThenGet` | src/framebuffer.c:98-135 | a drawn pixel reads back in its colour and no other pixel changes |
| `FramebufferDevice.PutThenGetDirect` | src/framebuffer.c:98-135 | the same without a back buffer, when the number fits the pixel's bytes |
| `FramebufferSpec.Clip` | src/framebuffer.c:311-332 | the clipped area is exactly the on-screen part of the rectangle |
| `FramebufferSpec.OffsetsDisjoint` | src/framebuffer.c:339-341 | bytes of different pixels never overlap when the pitch covers a row |
| `FramebufferSpec.PixelPlaces` | src/framebuffer.c:105-109 | the first pixel is at 0, the next of a row its bytes further, the next row a pitch further; in the buffers 1 and the width |
| `FramebufferDevice.Framebuffer.BlitRect` | src/framebuffer.c:307-366 | the two buffers and video memory afterwards are those of the specified differential copy |
| `FramebufferDevice.Framebuffer.PresentRects` | src/framebuffer.c:368-376 | all rectangles, then the force flag cleared; an empty list or no buffer changes nothing |
| `FramebufferDevice.Framebuffer.PresentAll` | src/framebuffer.c:378-385 | a present of the whole screen |
| `FramebufferLaws.PaintIsCopy` | src/framebuffer.c:346-363 | where video memory agrees with the shadow, skipping an equal pixel and copying it give the same state |
| `FramebufferLaws.PresentEffect` | src/framebuffer.c:346-376 | what a present does to each pixel, in any state, forced or not, in step or not |
| `FramebufferLaws.PresentShowsRects` | src/framebuffer.c:368-376 | in step or forced, exactly the union of the clipped rectangles shows the drawing; every other pixel is as it was |
| `FramebufferLaws.PresentKeepsByte` | src/framebuffer.c:335-364 | no byte outside the pixels of the clipped rectangles is written, padding between rows included |
| `FramebufferLaws.ForcedPresentSyncsExactly` | src/framebuffer.c:346-375 | a forced present leaves video memory in step with the shadow if and only if it covers every pixel that was not; the flag is gone either way |
| `FramebufferLaws.UnforcedPresentSyncsExactly` | src/framebuffer.c:346-376 | without the flag a pixel is in step afterwards if and only if it was, or it is covered and its drawing differs from the shadow |
| `FramebufferLaws.MissedPixelStays` | src/framebuffer.c:346-376 | an out-of-step pixel with an unchanged drawing that the forced present misses keeps its bytes, whatever is presented later |
| `FramebufferLaws.PartialPresentExample` | src/framebuffer.c:368-376 | on any screen two pixels wide or more: a first present of the top left pixel only, and the one beside it stays wrong |
| `FramebufferLaws.FullPresentSyncs` | src/framebuffer.c:378-385 | a forced full-screen present always does |
| `FramebufferLaws.StepKeepsSynced` | src/framebuffer.c:98-376 | draws and presents keep video memory in step, and each equals the plain copy |
| `FramebufferLaws.RunIsPlainRun` | src/framebuffer.c:98-376 | from then on every run equals, byte for byte, the run of a device that copies every pixel |
| `FramebufferLaws.EnabledThenPlain` | src/framebuffer.c:56-385 | enabling the buffers and one full present are enough, whatever was on the screen before |

## Left out

Of the components modelled:

- Roots and tables in `Vmm` are frame numbers, the physical address divided by 4096; page-table memory is one array of
  64-bit words, and heap memory another, each reached only through the frames it owns, which never meet
  (`KernelMemory.Kernel`).
- `map_page_in` repeats one directory level three times and the range mappers repeat one loop; the model has each once
  (`EnterTable`, `MapPages`), with the result code of each level and the arguments of each loop as in the source.
- `vmm_destroy_user_space` frees every identity-mapped page in its window, tables included, so it keeps none of the
  invariants; the scheduler's exit switches to the kernel space and leaves reclamation out.
- Vmm.AddressSpaces.CreateUserSpace: when a mapping fails after the PML4 was allocated the source returns 0 and never
  frees it; the model does the same and counts that PML4 as a table.
- Vmm.AddressSpaces.PrepareKernelSpace: where the source halts for ever the model returns false.
- Vmm.AddressSpaces.MapRange: address ranges do not wrap round 64 bits, here and in the set-up of address spaces.
- `vmm_init`, boot page tables, `invlpg`, CR3 loads and huge pages other than as readers meet them.
- FrameAllocators.FrameAllocator.Init: the boot information is one a boot loader writes: tags and entries of positive
  size lie inside it, and no tag size wraps when rounded up. Ends of regions are computed without 64-bit wrap-around.
- Heap.KernelHeap.Kfree: pointers are those kmalloc returned, with intact headers, or any whose header lacks the magic
  number.
- NanoFsDisk.NanoFs.AtaReadSector: the disk is reliable; a read past its end gives zeros where the source leaves the
  caller's buffer as it was.
- FsContents.StoreReadsBackExactly: the blocks the length needs lie on the disk, whose end the source never checks.
- NanoFsDisk.NanoFs.BlockAlloc: block number 2^32 - 1 is never live, so that the next number does not wrap to 0.
- NanoFsDisk.NanoFs.FsGetPwd: paths longer than its 255 bytes, which the source writes past the start of its buffer,
  are excluded.
- NanoFsDisk.NanoFs.FsAppend: the uninitialised part of the scratch buffer reads as zeros; it is never copied to disk.
- NanoFsDisk.NanoFs.FsMount: a disk that cannot be read, which the source refuses too.
- `fs_list` and `fs_stat`: scans and copies with nothing to keep.
- Null-pointer checks of the C interfaces.
- Pids never wrap; interrupts are atomic steps; what a process computes between two ticks is an arbitrary new frame.
- `process_exec` and `riru_load_file`: creation is the step after loading, with a non-zero CR3 where the address space
  matters (`SchedulerLaws.StepKeepsSpace`).
- RiruLoader.Load: the outcome of setting up the address space and its stack is an input here, and determined by
  `ProgramSpaces.SetUpProgram`; every user address is a byte of its own, and the file lies outside the memory it is
  loaded to.
- ProcessTable.Scheduler.ProcessExitFromSyscall: the destruction of the process's address space is left out.
- RiruPacker.Pack: files up to 2^60 bytes, so that output offsets do not overflow, and whose program header table does
  not end past 2^64, where the source's check would be blind. Reading and writing the host files, and what is printed,
  are not modelled.
- `p_paddr` and `p_align` of ELF program headers, which the packer never reads.
- FramebufferDevice.Framebuffer.EnableBackbuffer: the two outcomes of kmalloc are inputs; the heap is modelled apart.
- Coordinates and sizes of rectangles do not overflow 32 bits; `fb_init`'s acceptance of a mode is the precondition of
  the constructor.
- `fb_clear`, `fb_fill_rect`, images, characters and strings are loops over `fb_put_pixel`.

Of the repository: boot assembly, descriptor tables, interrupt controllers, drivers, ACPI, the GUI, shell and terminal,
fonts, the wallpaper, the disk-image tools and `src/elf/loader.c`, which has no caller in the kernel.
