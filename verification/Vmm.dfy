/** src/memory/vmm.c over src/memory/pmm.c: page-table memory updated in place. */
module Vmm {
  import opened Words
  import opened FrameSets
  import opened FrameAllocators
  import opened PageTables
  import opened TableStores
  import opened Translations
  import opened MapSteps
  import opened EntryWords
  import opened TableCounts
  import opened MapLaws
  import opened MapClosure
  import opened RangeLaws
  import opened RangeOutcomes
  import opened SpaceSetup
  import opened SpaceCosts

  class AddressSpaces {
    const pmm: FrameAllocator
    const mem: array<Word>
    var kernelPml4: nat
    var currentPml4: nat
    ghost var roles: Roles

    ghost predicate Separate()
      reads this
    {
      pmm.bitmap as object != mem && mem.Length == WORDS
    }

    ghost predicate Valid()
      reads this, mem, pmm, pmm.bitmap
    {
      && Separate()
      && pmm.Valid() && pmm.totalPages == MAX_PAGES && 0 !in pmm.Free()
      && WellFormed(mem[..], roles)
      && roles.Keys !! pmm.Free()
    }

    /** The kernel's table for PML4 slot 0 is everyone's. */
    ghost predicate LowWindow()
      reads this, mem
    {
      LowShared(mem[..], roles, kernelPml4)
    }

    lemma KeepLow(m: Memory, r: Roles, f: set<nat>)
      requires Separate() && pmm.Shaped() && Tracked(m, mem[..], r, roles, f, pmm.Free())
      ensures LowShared(m, r, kernelPml4) ==> LowWindow()
    {
      hide Tracked, LowShared, FrameAllocator.Free;
      if LowShared(m, r, kernelPml4) {
        TrackedKeepsLow(m, mem[..], r, roles, f, pmm.Free(), kernelPml4);
      }
    }

    /** No tables yet: memory holds arbitrary words, the allocator is as pmm_init left it. */
    constructor (pmm: FrameAllocator)
      requires pmm.Valid() && pmm.totalPages == MAX_PAGES && 0 !in pmm.Free()
      ensures Valid() && this.pmm == pmm && fresh(mem) && roles == map[] && kernelPml4 == 0 && currentPml4 == 0
    {
      this.pmm := pmm;
      mem := new Word[WORDS];
      kernelPml4, currentPml4 := 0, 0;
      roles := map[];
    }

    /** The clearing loop of allocate_table. */
    method ZeroTable(table: nat)
      requires mem.Length == WORDS && table < MAX_PAGES
      modifies mem
      ensures forall i: nat :: i < ENTRIES ==> Entry(mem[..], table, i) == 0
      ensures forall f: nat, i: nat :: f != table && i < ENTRIES ==> Entry(mem[..], f, i) == old(Entry(mem[..], f, i))
    {
      var base := table * ENTRIES;
      var i := 0;
      while i < ENTRIES
        invariant 0 <= i <= ENTRIES
        invariant forall w :: base <= w < base + i ==> mem[w] == 0
        invariant forall w :: 0 <= w < WORDS && !(base <= w < base + i) ==> mem[w] == old(mem[w])
      {
        mem[base + i] := 0;
        i := i + 1;
      }
    }

    /** allocate_table: a zeroed frame, or 0. */
    method AllocateTable() returns (table: nat)
      requires Valid()
      modifies pmm`freePages, pmm.bitmap, mem
      ensures Valid()
      ensures old(pmm.freePages) == 0 ==> table == 0 && mem[..] == old(mem[..]) && pmm.Free() == old(pmm.Free())
                                          && pmm.freePages == 0
      ensures old(pmm.freePages) > 0 ==>
                && table in old(pmm.Free()) && 0 < table < MAX_PAGES && table !in roles
                && pmm.Free() == old(pmm.Free()) - {table} && pmm.freePages == old(pmm.freePages) - 1
                && (forall i: nat :: i < ENTRIES ==> Entry(mem[..], table, i) == 0)
                && (forall f: nat, i: nat :: f != table && i < ENTRIES ==>
                    Entry(mem[..], f, i) == old(Entry(mem[..], f, i)))
      ensures SameLookups(old(mem[..]), mem[..], roles) && LinksKept(old(mem[..]), mem[..], roles)
      ensures old(LowWindow()) ==> LowWindow()
    {
      hide WellFormed, SameLookups, LinksKept, FrameAllocator.Free, FrameAllocator.Counted, LowShared;
      var physical := pmm.AllocPage();
      ghost var was := mem[..];
      if physical == 0 {
        StoreElsewhere(was, mem[..], roles);
        return 0;
      }
      table := physical / PAGE_SIZE;
      ZeroTable(table);
      StoreElsewhere(was, mem[..], roles);
      if LowShared(was, roles, kernelPml4) {
        LowStaysShared(was, mem[..], roles, roles, kernelPml4);
      }
    }

    // ---- what other owners of frames may do meanwhile -----------------------------------------------

    /** pmm_alloc_page by someone else: the frame handed out is never a table. */
    method TakeFrame() returns (address: nat)
      requires Valid()
      modifies pmm`freePages, pmm.bitmap
      ensures Valid() && (old(LowWindow()) ==> LowWindow())
      ensures address == 0 <==> old(pmm.freePages) == 0
      ensures address == 0 ==> pmm.freePages == 0 && pmm.Free() == old(pmm.Free())
      ensures address != 0 ==>
                address % PAGE_SIZE == 0 && address / PAGE_SIZE in old(pmm.Free()) && address / PAGE_SIZE !in roles
                && pmm.Free() == old(pmm.Free()) - {address / PAGE_SIZE}
    {
      hide WellFormed, FrameAllocator.Free, FrameAllocator.Counted, LowShared;
      address := pmm.AllocPage();
    }

    /** pmm_free_page by the owner of a frame that is not a table. */
    method GiveFrame(address: nat)
      requires Valid() && address / PAGE_SIZE !in roles
      modifies pmm`freePages, pmm.bitmap
      ensures Valid() && (old(LowWindow()) ==> LowWindow())
      ensures pmm.Free() == if 0 < address < MAX_PHYSICAL_MEMORY && address % PAGE_SIZE == 0
                            then old(pmm.Free()) + {address / PAGE_SIZE} else old(pmm.Free())
    {
      hide WellFormed, FrameAllocator.Free, FrameAllocator.Counted, LowShared;
      pmm.FreePage(address);
    }

    /** A write to a frame that is not a table changes no translation in any address space. */
    method WriteElsewhere(frame: nat, index: nat, v: Word)
      requires Valid() && frame !in roles && frame < MAX_PAGES && index < ENTRIES
      modifies mem
      ensures Valid() && SameLookups(old(mem[..]), mem[..], roles) && LinksKept(old(mem[..]), mem[..], roles)
      ensures RootsSame(old(mem[..]), mem[..], roles) && (old(LowWindow()) ==> LowWindow())
    {
      hide WellFormed, SameLookups, LinksKept, FrameAllocator.Free, FrameAllocator.Counted, LowShared;
      ghost var was := mem[..];
      EntryOfStore(was, frame, index, v);
      hide Entry, Store;
      WriteEntry(frame, index, v);
      StoreElsewhere(was, mem[..], roles);
      if LowShared(was, roles, kernelPml4) {
        LowStaysShared(was, mem[..], roles, roles, kernelPml4);
      }
    }

    method ReadEntry(table: nat, index: nat) returns (e: Word)
      requires mem.Length == WORDS && table < MAX_PAGES && index < ENTRIES
      ensures e == Entry(mem[..], table, index)
    {
      e := mem[table * ENTRIES + index];
    }

    method WriteEntry(table: nat, index: nat, v: Word)
      requires mem.Length == WORDS && table < MAX_PAGES && index < ENTRIES
      modifies mem
      ensures mem[..] == Store(old(mem[..]), table, index, v)
    {
      mem[table * ENTRIES + index] := v;
    }

    /** One directory level of map_page_in: follow the entry, merging the user bit, or hang a new zeroed
        table under it.  Returns the next table, or 0 when a table is needed and no frame is left. */
    method EnterTable(table: nat, index: nat, flags: Word) returns (next: nat)
      requires Valid() && Enterable(mem[..], roles, table, index, flags)
      modifies this`roles, pmm`freePages, pmm.bitmap, mem
      ensures Valid()
      ensures next == 0 <==> !old(Present(Entry(mem[..], table, index))) && old(pmm.freePages) == 0
      ensures next == 0 ==>
              mem[..] == old(mem[..]) && roles == old(roles) && pmm.Free() == old(pmm.Free()) && pmm.freePages == 0
      ensures next != 0 ==> Entered(old(mem[..]), mem[..], old(roles), roles, old(pmm.Free()), pmm.Free(), table,
                                    index, flags, next)
      ensures next != 0 ==>
                pmm.freePages == old(pmm.freePages) - (if old(Present(Entry(mem[..], table, index))) then 0 else 1)
    {
      hide SameLookups, LinksKept, Enterable, FrameAllocator.Free, FrameAllocator.Counted, UserAbove, Hangs;
      hide Entry, Store, FrameOf, Present, Huge, User, Writable, MergeUser, TableEntry, UserClosed;
      ghost var was := mem[..];
      TableInMemory(was, roles, table, index, flags);
      var e := ReadEntry(table, index);
      if Present(e) {
        EnterByMerging(was, roles, pmm.Free(), table, index, flags);
        hide WellFormed;
        WriteEntry(table, index, MergeUser(e, flags));
        return FrameOf(e);
      }
      hide WellFormed;
      next := AllocateTable();
      if next != 0 {
        EnterByHanging(was, mem[..], roles, old(pmm.Free()), table, index, flags, next);
        WriteEntry(table, index, TableEntry(next, flags));
        roles := roles[next := Child(roles[table], table, index)];
      }
    }

    /** The directory levels of map_page_in: reach the page table for p, growing the tree as needed. */
    method WalkToTable(pml4: nat, p: Path, flags: Word) returns (result: int, pt: nat)
      requires Valid() && pml4 in roles && roles[pml4].Pml4? && InRange(p)
      modifies this`roles, pmm`freePages, pmm.bitmap, mem
      ensures Valid()
      ensures result == old(WalkResult(mem[..], pml4, p, pmm.freePages))
      ensures result == -2 ==> mem[..] == old(mem[..]) && roles == old(roles) && pmm.Free() == old(pmm.Free())
      ensures result != -2 ==> Progress(old(mem[..]), mem[..], old(roles), roles, old(pmm.Free()), pmm.Free(), pml4,
                                        p.a, flags, true)
      ensures result == 0 ==> Walked(old(mem[..]), mem[..], old(roles), roles, pml4, p, flags, pt)
      ensures result == -2 || result == -3 || result == -5 ==> pmm.freePages == 0
      ensures pmm.freePages <= old(pmm.freePages)
      ensures result == 0 ==> Deepened(old(mem[..]), mem[..], pml4, p, 3)
      ensures result == 0 ==>
                DirWords(old(mem[..]), mem[..], pml4, p, flags)
                && OthersKept(old(mem[..]), mem[..], old(roles), pml4, p)
      ensures result != 0 ==> WordsBelow(old(mem[..]), mem[..], old(roles), pml4, p, flags, result)
      ensures result == 0 ==> pmm.freePages + 3 == old(pmm.freePages) + old(Depth(mem[..], pml4, p))
    {
      hide WellFormed, SameLookups, LinksKept, FrameAllocator.Free, FrameAllocator.Counted, Entered, Enterable;
      hide Progress, Walked, Deepened, Depth, DirWords, OthersKept, DirWord, WordsBelow;
      hide Entry, Store, FrameOf, Present, Huge, User, Writable, Grown, OthersUntouched, RootSlots, UserAbove;
      ghost var m, r0, f0 := mem[..], roles, pmm.Free();
      pt := 0;
      ZeroIsAbsent();
      EnterRoot(m, r0, pml4, p.a, flags);
      var pdpt := EnterTable(pml4, p.a, flags);
      NoLevel(m, r0, pml4, p, flags);
      if pdpt == 0 {
        return -2, 0;
      }
      ghost var m1, r1, f1 := mem[..], roles, pmm.Free();
      ProgressStart(m, m1, r0, r1, f0, f1, pml4, p.a, flags, pdpt);
      SecondEntry(m, m1, r0, r1, f0, f1, pml4, p, flags, pdpt);
      OneLevel(m, m1, r0, r1, f0, f1, pml4, p, flags, pdpt);
      var pd := EnterTable(pdpt, p.b, flags);
      if pd == 0 {
        return -3, 0;
      }
      ghost var m2, r2, f2 := mem[..], roles, pmm.Free();
      ProgressStep(m, m1, m2, r0, r1, r2, f0, f1, f2, pml4, p.a, flags, pdpt, p.b, pd);
      ThirdEntry(m, m1, m2, r0, r1, r2, f0, f1, f2, pml4, p, flags, pdpt, pd);
      EnteredTable(m1, m2, r1, r2, f1, f2, pdpt, p.b, flags, pd);
      TwoLevels(m, m1, m2, r0, r1, r2, f0, f1, f2, pml4, p, flags, pdpt, pd, -4);
      TwoLevels(m, m1, m2, r0, r1, r2, f0, f1, f2, pml4, p, flags, pdpt, pd, -5);
      var e2 := ReadEntry(pd, p.c);
      if Huge(e2) {
        return -4, 0;
      }
      pt := EnterTable(pd, p.c, flags);
      if pt == 0 {
        return -5, 0;
      }
      ghost var m3, r3, f3 := mem[..], roles, pmm.Free();
      ProgressStep(m, m2, m3, r0, r2, r3, f0, f2, f3, pml4, p.a, flags, pd, p.c, pt);
      WalkDone(m, m1, m2, m3, r0, r1, r2, r3, f0, f1, f2, f3, pml4, p, flags, pdpt, pd, pt);
      WalkWrites(m, m1, m2, m3, r0, r1, r2, r3, f0, f1, f2, f3, pml4, p, flags, pdpt, pd, pt);
      WalkDeepens(m, m1, m2, m3, r0, r1, r2, r3, f0, f1, f2, f3, pml4, p, flags, pdpt, pd, pt);
      return 0, pt;
    }

    /** map_page_in. */
    method MapPageIn(pml4: nat, va: Word, pa: Word, flags: Word) returns (result: int)
      requires Valid() && pml4 in roles && roles[pml4].Pml4?
      modifies this`roles, pmm`freePages, pmm.bitmap, mem
      ensures Valid()
      ensures result == old(MapResult(mem[..], pml4, va, pa, pmm.freePages))
      ensures MapEffect(old(mem[..]), mem[..], old(roles), roles, old(pmm.Free()), pmm.Free(), pml4, va, pa, flags,
                        result)
      ensures result == -2 || result == -3 || result == -5 ==> pmm.freePages == 0
      ensures pmm.freePages <= old(pmm.freePages)
      ensures result == 0 ==> Deepened(old(mem[..]), mem[..], pml4, PathOf(va), 3)
      ensures result == 0 ==> WordsWritten(old(mem[..]), mem[..], old(roles), pml4, PathOf(va), pa, flags)
      ensures result != 0 ==> WordsBelow(old(mem[..]), mem[..], old(roles), pml4, PathOf(va), flags, result)
      ensures result == -1 || result == -2 ==> mem[..] == old(mem[..]) && roles == old(roles)
      ensures result == 0 ==> pmm.freePages + 3 == old(pmm.freePages) + old(Depth(mem[..], pml4, PathOf(va)))
      ensures old(LowWindow()) ==> LowWindow()
    {
      hide LowShared, Tracked, Deepened, Depth, DirWords, OthersKept, WordsWritten, WordsBelow;
      hide WellFormed, SameLookups, LinksKept, FrameAllocator.Free, FrameAllocator.Counted, Progress;
      hide Entry, Store, FrameOf, Huge, User, Writable, Grown, OthersUntouched, RootSlots, LeafChanged, UserAbove;
      hide MapEffect, Lookup, PtOf, LeafFor;
      hide Walked, Present, E1, WalkResult, LeafResult;
      ghost var m, r0, f0 := mem[..], roles, pmm.Free();
      if va & 0xFFF != 0 || pa & 0xFFF != 0 {
        NoLevel(m, r0, pml4, PathOf(va), flags);
        NothingMapped(m, r0, f0, pml4, va, pa, flags, -1);
        return -1;
      }
      PathInRange(va);
      var p := PathOf(va);
      hide PathOf;
      var pt;
      result, pt := WalkToTable(pml4, p, flags);
      ghost var n, r, f := mem[..], roles, pmm.Free();
      if result == -2 {
        NothingMapped(m, r0, f0, pml4, va, pa, flags, -2);
        return;
      }
      if result != 0 {
        MapStopped(m, n, r0, r, f0, f, pml4, va, pa, flags, result);
        MapIsTracked(m, n, r0, r, f0, f, pml4, va, pa, flags, result);
        KeepLow(m, r0, f0);
        return;
      }
      EntrySeen(m, n, r0, r, pml4, p, pa, flags, pt);
      result := PutLeaf(pt, p.d, pa, flags);
      if result == 0 {
        MapFinished(m, n, r0, r, f0, f, pml4, va, pa, flags, pt, LeafFor(Entry(n, pt, p.d), pa, flags));
        LeafWrites(m, n, r0, r, pml4, p, pa, flags, pt);
        LeafKeepsDepths(m, n, r, pml4, p, pt, p.d, LeafFor(Entry(n, pt, p.d), pa, flags));
      } else {
        MapStopped(m, n, r0, r, f0, f, pml4, va, pa, flags, -6);
        AllLevels(m, n, r0, pml4, p, flags);
      }
      MapIsTracked(m, mem[..], r0, r, f0, f, pml4, va, pa, flags, result);
      KeepLow(m, r0, f0);
    }

    /** The last level of map_page_in: a present entry for another frame is refused, one for the same frame
        gains permissions, an absent one is filled in. */
    method PutLeaf(pt: nat, index: nat, pa: Word, flags: Word) returns (result: int)
      requires mem.Length == WORDS && pt < MAX_PAGES && index < ENTRIES
      modifies mem
      ensures result == old(LeafResult(Entry(mem[..], pt, index), pa))
      ensures mem[..] == if result == 0 then Store(old(mem[..]), pt, index,
                                                   old(LeafFor(Entry(mem[..], pt, index), pa, flags)))
                         else old(mem[..])
    {
      hide Entry, Store, Present, SameFrame, MergeLeaf, LeafEntry;
      var e := ReadEntry(pt, index);
      if Present(e) {
        if SameFrame(e, pa) {
          WriteEntry(pt, index, MergeLeaf(e, flags));
          return 0;
        }
        return -6;
      }
      WriteEntry(pt, index, LeafEntry(pa, flags));
      return 0;
    }

    /** get_physical_from. */
    method GetPhysicalFrom(pml4: nat, va: Word) returns (physical: Word)
      requires Valid() && pml4 in roles && roles[pml4].Pml4?
      ensures physical == Physical(mem[..], pml4, va)
    {
      hide WellFormed, FrameAllocator.Free, FrameAllocator.Counted, Entry, FrameOf, Present, Huge;
      PathInRange(va);
      var p := PathOf(va);
      hide PathOf, HugeAddress, PageAddress;
      WalkInMemory(mem[..], roles, pml4, p);
      var e4 := ReadEntry(pml4, p.a);
      if !Present(e4) {
        return 0;
      }
      var e3 := ReadEntry(FrameOf(e4), p.b);
      if !Present(e3) {
        return 0;
      }
      var e2 := ReadEntry(FrameOf(e3), p.c);
      if !Present(e2) {
        return 0;
      }
      if Huge(e2) {
        return HugeAddress(e2, va);
      }
      var e1 := ReadEntry(FrameOf(e2), p.d);
      if !Present(e1) {
        return 0;
      }
      return PageAddress(e1, va);
    }

    /** The loop shared by vmm_map_range, vmm_map_kernel_range, the identity map and the kernel, framebuffer
        and user-space set-up: map `pages` pages from v to the frames from p, stopping at the first error with
        `done` pages mapped. */
    method MapPages(pml4: nat, v: nat, p: nat, pages: nat, flags: Word) returns (result: int, ghost done: nat)
      requires Valid() && pml4 in roles && roles[pml4].Pml4?
      requires Nth(v, pages) <= 0x1_0000_0000_0000_0000 && Nth(p, pages) <= 0x1_0000_0000_0000_0000
      modifies this`roles, pmm`freePages, pmm.bitmap, mem
      ensures Valid() && MapsKeep(old(mem[..]), mem[..], old(roles), roles, old(pmm.Free()), pmm.Free(), pml4, flags)
      ensures done <= pages && (result == 0 <==> done == pages) && pmm.freePages <= old(pmm.freePages)
      ensures Plain(v, p, pages, flags) ==>
                && SameOutside(old(mem[..]), mem[..], old(roles), v, done)
                && Elsewhere(old(mem[..]), mem[..], pml4, v, done)
                && PagesMapped(mem[..], pml4, v, p, done) && LinearOn(mem[..], pml4, v, p, done)
                && LeavesWritten(old(mem[..]), mem[..], pml4, v, p, done, flags)
      ensures result != 0 ==> Stopped(mem[..], pml4, WordAt(v, done), WordAt(p, done), pmm.freePages, result)
      ensures Plain(v, p, pages, flags) && p % PAGE_SIZE == 0 ==>
                (result == 0 <==> Enough(old(mem[..]), pml4, v, p, pages, old(pmm.freePages)))
      ensures Plain(v, p, pages, flags) && result == 0 ==>
                && pmm.freePages + |Missing(old(mem[..]), pml4, v, pages)| == old(pmm.freePages)
                && Hung(old(mem[..]), mem[..], pml4, Missing(old(mem[..]), pml4, v, pages))
      ensures old(LowWindow()) ==> LowWindow()
    {
      hide WellFormed, FrameAllocator.Free, FrameAllocator.Counted, MapsKeep, SameOutside, LinearOn, MapEffect;
      hide MapResult, Plain, LowShared;
      hide Stopped, PagesMapped, Elsewhere, Enough, Lookup, PathOf, PageAt, RangeSoFar, Tracked;
      hide Missing, Hung, Deepened, Depth, LeavesWritten;
      ghost var m, r0, f0, atStart := mem[..], roles, pmm.Free(), pmm.freePages;
      var i := 0;
      done := 0;
      MapsKeepStart(m, roles, f0, pml4, flags);
      RangeStart(m, roles, pml4, v, p, flags, atStart);
      while i < pages
        invariant Valid() && 0 <= i <= pages && done == i && pmm.freePages <= atStart
        invariant MapsKeep(m, mem[..], r0, roles, f0, pmm.Free(), pml4, flags)
        invariant Plain(v, p, pages, flags) ==> RangeSoFar(m, mem[..], r0, pml4, v, p, i, flags, atStart, pmm.freePages)
        invariant old(LowWindow()) ==> LowWindow()
      {
        NthBelow(v, i, pages);
        NthBelow(p, i, pages);
        PageAtIs(v, i);
        KeptRoles(m, mem[..], r0, roles, f0, pmm.Free(), pml4, flags);
        ghost var n, r, f, count := mem[..], roles, pmm.Free(), pmm.freePages;
        result := MapPageIn(pml4, ToWord(Nth(v, i)), ToWord(Nth(p, i)), flags);
        MapCallKeeps(n, mem[..], r, roles, f, pmm.Free(), pml4, ToWord(Nth(v, i)), ToWord(Nth(p, i)), flags, result);
        MapsKeepStep(m, n, mem[..], r0, r, roles, f0, f, pmm.Free(), pml4, flags);
        if result != 0 {
          RangeEnds(m, n, mem[..], r0, r, roles, f, pmm.Free(), pml4, v, p, i, pages, flags, atStart, count,
                    pmm.freePages, result);
          return;
        }
        if Plain(v, p, pages, flags) {
          RangeGoesOn(m, n, mem[..], r0, r, roles, f, pmm.Free(), pml4, v, p, i, pages, flags, atStart, count,
                      pmm.freePages);
        }
        i := i + 1;
        done := i;
      }
      if Plain(v, p, pages, flags) {
        RangeDone(m, mem[..], r0, pml4, v, p, pages, flags, atStart, pmm.freePages);
      }
      return 0, pages;
    }

    /** vmm_unmap_page. */
    method UnmapPage(va: Word)
      requires Valid() && currentPml4 in roles && roles[currentPml4].Pml4?
      modifies mem
      ensures Valid()
      ensures UnmapEffect(old(mem[..]), mem[..], roles, currentPml4, PathOf(va))
      ensures var pt := old(PtOf(mem[..], currentPml4, PathOf(va)));
              if pt.None? then mem[..] == old(mem[..])
              else pt.value * 512 + PathOf(va).d < |old(mem[..])|
                   && mem[..] == old(mem[..])[pt.value * 512 + PathOf(va).d := 0]
      ensures old(LowWindow()) ==> LowWindow()
    {
      hide WellFormed, FrameAllocator.Free, FrameAllocator.Counted, Entry, FrameOf, Present, Huge, Store, UnmapEffect;
      hide Lookup, LowShared;
      PathInRange(va);
      var p := PathOf(va);
      hide PathOf;
      WalkInMemory(mem[..], roles, currentPml4, p);
      if PtOf(mem[..], currentPml4, p).None? {
        NothingToUnmap(mem[..], roles, currentPml4, p);
      } else {
        LeafCleared(mem[..], roles, currentPml4, p);
        StoreIs(mem[..], PtOf(mem[..], currentPml4, p).value, p.d, 0);
        UnmapKeeps(mem[..], Store(mem[..], PtOf(mem[..], currentPml4, p).value, p.d, 0), roles, currentPml4, p);
      }
      var e4 := ReadEntry(currentPml4, p.a);
      if !Present(e4) {
        return;
      }
      var e3 := ReadEntry(FrameOf(e4), p.b);
      if !Present(e3) {
        return;
      }
      var e2 := ReadEntry(FrameOf(e3), p.c);
      if !Present(e2) {
        return;
      }
      if Huge(e2) {
        return;
      }
      WriteEntry(FrameOf(e2), p.d, 0);
      if old(LowWindow()) {
        UnmapKeepsLow(old(mem[..]), mem[..], roles, currentPml4, p, kernelPml4);
      }
    }

    /** vmm_map_range (for the current address space) and vmm_map_kernel_range (for the kernel's): map every
        page that [va, va+size) touches, linearly; on an error the first `done` of them are mapped. */
    method MapRange(pml4: nat, va: nat, pa: nat, size: nat, flags: Word) returns (result: int, ghost done: nat)
      requires Valid() && pml4 in roles && roles[pml4].Pml4?
      requires va + size + 2 * PAGE_SIZE <= 0x1_0000_0000_0000_0000
               && pa + size + 2 * PAGE_SIZE <= 0x1_0000_0000_0000_0000
      modifies this`roles, pmm`freePages, pmm.bitmap, mem
      ensures Valid() && MapsKeep(old(mem[..]), mem[..], old(roles), roles, old(pmm.Free()), pmm.Free(), pml4, flags)
      ensures done <= PagesTouched(va, size) && (result == 0 <==> done == PagesTouched(va, size))
      ensures var v, p := RoundDown(va), RoundDown(pa);
              Plain(v, p, PagesTouched(va, size), flags) ==>
                && SameOutside(old(mem[..]), mem[..], old(roles), v, done)
                && PagesMapped(mem[..], pml4, v, p, done) && LinearOn(mem[..], pml4, v, p, done)
                && LeavesWritten(old(mem[..]), mem[..], pml4, v, p, done, flags)
                && (result == 0 <==> Enough(old(mem[..]), pml4, v, p, PagesTouched(va, size), old(pmm.freePages)))
      ensures result != 0 ==>
                Stopped(mem[..], pml4, WordAt(RoundDown(va), done), WordAt(RoundDown(pa), done), pmm.freePages, result)
      ensures old(LowWindow()) ==> LowWindow()
    {
      hide LowShared, WellFormed, FrameAllocator.Free, FrameAllocator.Counted, MapsKeep, SameOutside, LinearOn;
      hide PagesMapped, Plain, Stopped, Enough, Missing, Hung, Elsewhere, LeavesWritten;
      if size == 0 {
        MapsKeepStart(mem[..], roles, pmm.Free(), pml4, flags);
        NothingInRange(mem[..], roles, pml4, RoundDown(va), RoundDown(pa));
        NoPagesMapped(mem[..], pml4, RoundDown(va), RoundDown(pa), flags, pmm.freePages);
        return 0, 0;
      }
      var vStart := RoundDown(va);
      var pStart := RoundDown(pa);
      var offset := va % PAGE_SIZE;
      var total := size + offset;
      var pages := (total + PAGE_SIZE - 1) / PAGE_SIZE;
      RangeFits(va, size);
      RangeFits(pa, size);
      assert pages == PagesTouched(va, size);
      hide PagesTouched, RoundDown;
      result, done := MapPages(pml4, vStart, pStart, pages, flags);
    }

    /** vmm_map_user_page: as map_page_in, for the lower half only, always asking for the user bit. */
    method MapUserPage(cr3: nat, va: Word, pa: Word, flags: Word) returns (result: int)
      requires Valid() && (cr3 == 0 || (cr3 in roles && roles[cr3].Pml4?))
      modifies this`roles, pmm`freePages, pmm.bitmap, mem
      ensures Valid()
      ensures cr3 == 0 ==> result == -1
      ensures cr3 != 0 && va >= 0x0000_8000_0000_0000 ==> result == -2
      ensures cr3 == 0 || va >= 0x0000_8000_0000_0000 ==>
                mem[..] == old(mem[..]) && roles == old(roles) && pmm.Free() == old(pmm.Free())
      ensures cr3 != 0 && va < 0x0000_8000_0000_0000 ==>
                && result == old(MapResult(mem[..], cr3, va, pa, pmm.freePages))
                && MapEffect(old(mem[..]), mem[..], old(roles), roles, old(pmm.Free()), pmm.Free(), cr3, va, pa,
                             flags | PAGE_USER, result)
                && (result == 0 ==>
                      && WordsWritten(old(mem[..]), mem[..], old(roles), cr3, PathOf(va), pa, flags | 4)
                      && pmm.freePages + 3 == old(pmm.freePages) + old(Depth(mem[..], cr3, PathOf(va))))
      ensures old(LowWindow()) ==> LowWindow()
    {
      hide LowShared, WellFormed, FrameAllocator.Free, FrameAllocator.Counted, MapEffect, MapResult, WordsWritten;
      if cr3 == 0 {
        return -1;
      }
      if va >= 0x0000_8000_0000_0000 {
        return -2;
      }
      result := MapPageIn(cr3, va, pa, flags | PAGE_USER);
    }

    /** The loop by which vmm_identity_map_physical_memory, vmm_prepare_kernel_space and
        vmm_create_user_space map `pages` pages from v to themselves. */
    method MapToItself(pml4: nat, v: nat, pages: nat) returns (result: int, ghost done: nat)
      requires Valid() && pml4 in roles && roles[pml4].Pml4? && v % PAGE_SIZE == 0
      requires Nth(v, pages) <= 0x1_0000_0000_0000_0000
      modifies this`roles, pmm`freePages, pmm.bitmap, mem
      ensures Valid()
      ensures MapsKeep(old(mem[..]), mem[..], old(roles), roles, old(pmm.Free()), pmm.Free(), pml4, PAGE_WRITABLE)
      ensures done <= pages && (result == 0 <==> done == pages) && pmm.freePages <= old(pmm.freePages)
      ensures Nth(v, pages) <= ADDRESS_LIMIT ==>
                && SameOutside(old(mem[..]), mem[..], old(roles), v, done)
                && PagesMapped(mem[..], pml4, v, v, done) && LinearOn(mem[..], pml4, v, v, done)
                && LeavesWritten(old(mem[..]), mem[..], pml4, v, v, done, PAGE_WRITABLE)
      ensures result != 0 ==> Stopped(mem[..], pml4, WordAt(v, done), WordAt(v, done), pmm.freePages, result)
      ensures result != 0 ==>
              !PagesMapped(mem[..], pml4, v, v, pages) && (pmm.freePages == 0 || Conflict(mem[..], pml4, v, done))
      ensures Nth(v, pages) <= ADDRESS_LIMIT && SelfOnly(old(mem[..]), pml4) ==>
                SelfOnly(mem[..], pml4) && (result != 0 ==> pmm.freePages == 0)
      ensures Nth(v, pages) <= ADDRESS_LIMIT ==>
                (result == 0 <==> Enough(old(mem[..]), pml4, v, v, pages, old(pmm.freePages)))
      ensures Nth(v, pages) <= ADDRESS_LIMIT && result == 0 ==>
                && pmm.freePages + |Missing(old(mem[..]), pml4, v, pages)| == old(pmm.freePages)
                && Hung(old(mem[..]), mem[..], pml4, Missing(old(mem[..]), pml4, v, pages))
      ensures Nth(v, pages) <= ADDRESS_LIMIT && PagesMapped(old(mem[..]), pml4, v, v, pages) ==>
                result == 0 && pmm.freePages >= old(pmm.freePages)
      ensures old(LowWindow()) ==> LowWindow()
    {
      hide WellFormed, FrameAllocator.Free, FrameAllocator.Counted, MapsKeep, SameOutside, LinearOn, PagesMapped;
      hide LowShared;
      hide Stopped, Enough, Elsewhere, SelfOnly, Conflict, Missing, Hung, WordAt, LeavesWritten;
      PlainFlags(v, pages);
      hide Plain;
      ghost var m, free := mem[..], pmm.freePages;
      if PagesMapped(m, pml4, v, v, pages) {
        MappedNeedNothing(m, pml4, v, pages, free);
      }
      result, done := MapPages(pml4, v, v, pages, PAGE_WRITABLE);
      if result != 0 {
        NthBelow(v, done, pages);
        StoppedAtConflict(mem[..], pml4, v, done, pmm.freePages, result);
        NotAllMapped(mem[..], pml4, v, done, pages);
      }
      if Nth(v, pages) <= ADDRESS_LIMIT && SelfOnly(m, pml4) {
        PlainPartOrAll(v, v, done, pages, PAGE_WRITABLE);
        SelfOnlyKept(m, mem[..], pml4, v, done);
        if result != 0 {
          SelfOnlyNoConflict(mem[..], pml4, v, done);
        }
      }
    }

    /** vmm_identity_map_physical_memory: success means every address below 4 GB translates to itself,
        whatever was mapped before; otherwise the pages before the first failing one do. */
    method IdentityMapPhysicalMemory() returns (result: int, ghost done: nat)
      requires Valid() && kernelPml4 in roles && roles[kernelPml4].Pml4?
      modifies this`roles, pmm`freePages, pmm.bitmap, mem
      ensures Valid()
      ensures MapsKeep(old(mem[..]), mem[..], old(roles), roles, old(pmm.Free()), pmm.Free(), kernelPml4, PAGE_WRITABLE)
      ensures done <= MAX_PAGES && (result == 0 <==> done == MAX_PAGES) && pmm.freePages <= old(pmm.freePages)
      ensures SameOutside(old(mem[..]), mem[..], old(roles), 0, done) && PagesMapped(mem[..], kernelPml4, 0, 0, done)
      ensures LeavesWritten(old(mem[..]), mem[..], kernelPml4, 0, 0, done, PAGE_WRITABLE)
      ensures forall a: nat :: a < Nth(0, done) && a < MAX_PHYSICAL_MEMORY ==>
              Physical(mem[..], kernelPml4, ToWord(a)) == ToWord(a)
      ensures result != 0 ==> Stopped(mem[..], kernelPml4, WordAt(0, done), WordAt(0, done), pmm.freePages, result)
      ensures result == 0 <==> Enough(old(mem[..]), kernelPml4, 0, 0, MAX_PAGES, old(pmm.freePages))
      ensures result == 0 ==>
                && pmm.freePages + |Missing(old(mem[..]), kernelPml4, 0, MAX_PAGES)| == old(pmm.freePages)
                && Hung(old(mem[..]), mem[..], kernelPml4, Missing(old(mem[..]), kernelPml4, 0, MAX_PAGES))
      ensures SelfOnly(old(mem[..]), kernelPml4) ==>
              SelfOnly(mem[..], kernelPml4) && (result != 0 ==> pmm.freePages == 0)
      ensures old(LowWindow()) ==> LowWindow()
    {
      hide WellFormed, FrameAllocator.Free, FrameAllocator.Counted, MapsKeep, SameOutside, LinearOn, PagesMapped;
      hide LowShared;
      hide Physical, ToWord, Nth, Stopped, Enough, SelfOnly, Conflict, WordAt, Missing, Hung, LeavesWritten;
      FourGigabytes();
      PartOfFourGigabytes(MAX_PAGES);
      result, done := MapToItself(kernelPml4, 0, MAX_PAGES);
      forall a: nat | a < Nth(0, done) && a < MAX_PHYSICAL_MEMORY
        ensures Physical(mem[..], kernelPml4, ToWord(a)) == ToWord(a)
      {
        PartOfFourGigabytes(done);
        LinearIsIdentity(mem[..], kernelPml4, 0, done, a);
      }
    }

    /** vmm_create_user_space: a PML4 holding the kernel's slot 0 and upper half, in which the VGA buffer and
        the framebuffer are mapped to themselves.  Returns its frame, or 0.

        When a mapping fails after the PML4 `root` was taken, 0 is returned but the frame stays taken. */
    method CreateUserSpace(fbAddr: nat, fbSize: nat) returns (user: nat, ghost root: nat)
      requires Valid() && kernelPml4 in roles && roles[kernelPml4].Pml4?
      requires fbAddr + fbSize + 2 * PAGE_SIZE <= 0x1_0000_0000_0000_0000
      modifies this`roles, pmm`freePages, pmm.bitmap, mem
      ensures Valid()
      ensures root == 0 <==> old(pmm.freePages) == 0
      ensures root == 0 ==> user == 0 && mem[..] == old(mem[..]) && roles == old(roles) && pmm.Free() == old(pmm.Free())
      ensures root != 0 ==>
                && SpaceAdded(old(mem[..]), mem[..], old(roles), roles, old(pmm.Free()), pmm.Free(), root)
                && PagesKept(old(mem[..]), mem[..], old(roles)) && SupervisorKept(old(mem[..]), mem[..], old(roles))
                && SharesSlots(old(mem[..]), mem[..], kernelPml4, root)
                && (SlotsClosed(old(mem[..]), kernelPml4) ==> SlotsClosed(mem[..], root))
                && (NoUserSlots(old(mem[..]), kernelPml4) ==> NoUserSlots(mem[..], root))
                && (user == root || user == 0)
                && (user == 0 ==> ScreenBlocked(mem[..], root, fbAddr, fbSize, pmm.freePages))
      ensures root != 0 && fbAddr + fbSize + 2 * PAGE_SIZE <= ADDRESS_LIMIT ==>
                (user == root <==> ScreenMapped(mem[..], root, fbAddr, fbSize))
      ensures root != 0 && fbAddr + fbSize + 2 * PAGE_SIZE <= ADDRESS_LIMIT && user == root ==>
                ScreenWritable(mem[..], root, fbAddr, fbSize)
      ensures root != 0 && fbAddr + fbSize + 2 * PAGE_SIZE <= 0x80_0000_0000
              && old(ScreenMapped(mem[..], kernelPml4, fbAddr, fbSize)) ==>
                user == root && pmm.freePages >= old(pmm.freePages) - 1
      ensures old(LowWindow()) ==> LowWindow()
    {
      hide LowShared, WellFormed, FrameAllocator.Free, FrameAllocator.Counted, MapsKeep, SameOutside, LinearOn;
      hide LinksKept;
      hide SameLookups, Entry, Nth, SpaceAdded, PagesMapped, Stopped, Conflict, SelfOnly, Enough, OthersUntouched;
      hide RoundUp, RoundDown;
      hide SlotsClosed, PagesBetween, NoUserSlots, SharesSlots, PagesKept, SupervisorKept, CopiedRoot, ScreenBlocked;
      hide WordAt, LeavesWritten, PagesWritable;
      ghost var m, r0, f0, kernel := mem[..], roles, pmm.Free(), kernelPml4;
      user := AllocateTable();
      root := user;
      if user == 0 {
        return;
      }
      ghost var zeroed := mem[..];
      CopyKernelSlots(user);
      CopiedFrom(m, zeroed, mem[..], r0, kernel, root);
      RootAdded(m, mem[..], r0, kernel, root);
      roles := roles[root := Pml4];
      ghost var m1, r1, f1 := mem[..], roles, pmm.Free();
      VgaFits();
      VgaIsLow();
      FbFits(fbAddr, fbSize);
      NoPagesMapped(m1, root, RoundDown(fbAddr), RoundDown(fbAddr), PAGE_WRITABLE, 0);
      CopiedScreen(m, m1, r0, kernel, root, fbAddr, fbSize);
      ghost var vgaDone, fbDone;
      var result;
      result, vgaDone := MapToItself(user, VGA, 1);
      ghost var m2, r2, f2 := mem[..], roles, pmm.Free();
      KeptRoles(m1, m2, r1, r2, f1, f2, root, PAGE_WRITABLE);
      KeepsRange(m1, m2, r1, r2, f1, f2, root, RoundDown(fbAddr), FbPages(fbAddr, fbSize));
      if vgaDone == 1 {
        LeavesAreWritable(m1, m2, root, VGA, VGA, 1);
      }
      NothingWritable(m2, root, RoundDown(fbAddr));
      fbDone := 0;
      if result == 0 && fbAddr != 0 && fbSize != 0 {
        result, fbDone := MapToItself(user, RoundDown(fbAddr), FbPages(fbAddr, fbSize));
        MapsKeepStep(m1, m2, mem[..], r1, r2, roles, f1, f2, pmm.Free(), root, PAGE_WRITABLE);
        KeepsRange(m2, mem[..], r2, roles, f2, pmm.Free(), root, VGA, 1);
        StillWritable(m2, mem[..], r2, roles, f2, pmm.Free(), root, VGA, 1);
        if fbDone == FbPages(fbAddr, fbSize) && fbAddr + fbSize + 2 * PAGE_SIZE <= ADDRESS_LIMIT {
          LeavesAreWritable(m2, mem[..], root, RoundDown(fbAddr), RoundDown(fbAddr), fbDone);
        }
      }
      SpaceFinished(m, m1, mem[..], r0, roles, f0, pmm.Free(), kernel, root);
      ScreenOutcome(mem[..], root, fbAddr, fbSize, result, vgaDone, fbDone, pmm.freePages);
      if result != 0 {
        user := 0;
      }
    }

    /** The slot-copying part of vmm_create_user_space, on a freshly zeroed table outside the tree. */
    method CopyKernelSlots(user: nat)
      requires Separate() && WellFormed(mem[..], roles) && kernelPml4 in roles && roles[kernelPml4].Pml4?
      requires user !in roles && 0 < user < MAX_PAGES
      requires forall i: nat :: i < ENTRIES ==> Entry(mem[..], user, i) == 0
      modifies mem
      ensures CopiedRoot(old(mem[..]), mem[..], roles, kernelPml4, user)
      ensures forall f: nat, i: nat :: f != user && i < ENTRIES ==> Entry(mem[..], f, i) == old(Entry(mem[..], f, i))
    {
      TableInRange(mem[..], roles, kernelPml4);
      hide WellFormed, Entry, Store;
      var e := ReadEntry(kernelPml4, 0);
      EntryOfStore(mem[..], user, 0, e);
      WriteEntry(user, 0, e);
      var i := 256;
      while i < ENTRIES
        invariant 256 <= i <= ENTRIES
        invariant forall f: nat, k: nat :: f != user && k < ENTRIES ==>
                  Entry(mem[..], f, k) == old(Entry(mem[..], f, k))
        invariant forall k: nat :: k < ENTRIES ==>
                    Entry(mem[..], user, k) == if k == 0 || 256 <= k < i then old(Entry(mem[..], kernelPml4, k)) else 0
      {
        e := ReadEntry(kernelPml4, i);
        EntryOfStore(mem[..], user, i, e);
        WriteEntry(user, i, e);
        i := i + 1;
      }
    }

    /** vmm_prepare_kernel_space; false where the original halts.  It can only fail for want of frames.  On
        success the new kernel root maps every address below 4 GB, the kernel image, the VGA buffer and the
        framebuffer to themselves and nothing else, gives ring 3 nothing, and holds slot 0. */
    method PrepareKernelSpace(kernelStart: nat, kernelEnd: nat, fbAddr: nat, fbSize: nat) returns (ok: bool)
      requires Valid() && kernelStart <= kernelEnd
      requires kernelEnd + 2 * PAGE_SIZE <= 0x1_0000_0000_0000_0000
               && fbAddr + fbSize + 2 * PAGE_SIZE <= 0x1_0000_0000_0000_0000
      modifies this`roles, this`kernelPml4, pmm`freePages, pmm.bitmap, mem
      ensures Valid()
      ensures kernelPml4 == 0 <==> old(pmm.freePages) == 0
      ensures ok ==> kernelPml4 != 0
      ensures kernelPml4 != 0 ==>
                && kernelPml4 in roles && roles[kernelPml4].Pml4? && kernelPml4 !in old(roles)
                && SpaceAdded(old(mem[..]), mem[..], old(roles), roles, old(pmm.Free()), pmm.Free(), kernelPml4)
                && SlotsClosed(mem[..], kernelPml4) && NoUserSlots(mem[..], kernelPml4)
      ensures ok ==> PagesMapped(mem[..], kernelPml4, 0, 0, MAX_PAGES)
      ensures ok ==> forall a: nat :: a < MAX_PHYSICAL_MEMORY ==> Physical(mem[..], kernelPml4, ToWord(a)) == ToWord(a)
      ensures kernelEnd + 2 * PAGE_SIZE <= ADDRESS_LIMIT && fbAddr + fbSize + 2 * PAGE_SIZE <= ADDRESS_LIMIT ==>
                && (kernelPml4 != 0 ==> SelfOnly(mem[..], kernelPml4))
                && (ok <==> 1 + |KernelPlaces(kernelStart, kernelEnd, fbAddr, fbSize)| <= old(pmm.freePages))
                && (!ok ==> pmm.freePages == 0)
                && (ok ==> ScreenMapped(mem[..], kernelPml4, fbAddr, fbSize))
                && (ok ==> PagesMapped(mem[..], kernelPml4, RoundDown(kernelStart), RoundDown(kernelStart),
                                       PagesBetween(kernelStart, kernelEnd)))
      ensures ok && old(roles) == map[] ==> LowWindow()
    {
      hide LowShared, WellFormed, FrameAllocator.Free, FrameAllocator.Counted, MapsKeep, SameOutside, LinearOn;
      hide LinksKept, OthersUntouched;
      hide SameLookups, Entry, Nth, SpaceAdded, Physical, ToWord, RoundUp, RoundDown, SelfOnly, SlotsClosed;
      hide NoUserSlots, KernelPlaces, KernelTables;
      hide PagesMapped, Stopped, Conflict, Enough, Elsewhere, FbPages, PagesBetween, ScreenMapped, WordAt;
      ghost var m, r0, f0 := mem[..], roles, pmm.Free();
      kernelPml4 := AllocateTable();
      if kernelPml4 == 0 {
        return false;
      }
      ghost var g := kernelPml4;
      EmptyRootAdded(m, mem[..], r0, g);
      EmptyRootClosed(mem[..], g);
      EmptyIsSelfOnly(mem[..], g);
      EmptyHasNoUserSlots(mem[..], g);
      AllTablesMissing(mem[..], g, kernelStart, kernelEnd, fbAddr, fbSize);
      roles := roles[g := Pml4];
      ghost var m1, r1, f1 := mem[..], roles, pmm.Free();
      ok := MapKernelRanges(m1, r1, f1, kernelStart, kernelEnd, fbAddr, fbSize);
      KeptRoles(m1, mem[..], r1, roles, f1, pmm.Free(), g, PAGE_WRITABLE);
      KernelFinished(m, m1, mem[..], r0, roles, f0, pmm.Free(), g);
      if ok && r0 == map[] {
        SecondPage();
        assert Physical(mem[..], g, ToWord(0x1000)) == ToWord(0x1000);
        OnlyOneRoot(m1, mem[..], r1, roles, f1, pmm.Free(), g);
        FirstRootSharesLow(mem[..], roles, g);
      }
    }

    /** One loop of vmm_prepare_kernel_space, and the tables it takes beside those of the loops before. */
    method MapMore(v: nat, pages: nat, ghost m1: Memory, ghost s: set<Place>, ghost plain: bool, ghost atStart: nat)
      returns (result: int)
      requires Valid() && kernelPml4 in roles && roles[kernelPml4].Pml4? && v % PAGE_SIZE == 0
      requires Nth(v, pages) <= 0x1_0000_0000_0000_0000 && (plain ==> Nth(v, pages) <= ADDRESS_LIMIT)
      requires HungSoFar(plain, m1, mem[..], kernelPml4, s, atStart, pmm.freePages)
      modifies this`roles, pmm`freePages, pmm.bitmap, mem
      ensures Valid()
      ensures MapsKeep(old(mem[..]), mem[..], old(roles), roles, old(pmm.Free()), pmm.Free(), kernelPml4, PAGE_WRITABLE)
      ensures pmm.freePages <= old(pmm.freePages)
      ensures plain ==>
                && SelfOnly(mem[..], kernelPml4) && (result != 0 ==> pmm.freePages == 0)
                && (result == 0 ==> PagesMapped(mem[..], kernelPml4, v, v, pages))
                && (result == 0 <==> |s + Missing(m1, kernelPml4, v, pages)| <= atStart)
      ensures result == 0 ==>
                HungSoFar(plain, m1, mem[..], kernelPml4, s + Missing(m1, kernelPml4, v, pages), atStart, pmm.freePages)
    {
      hide LowShared, WellFormed, FrameAllocator.Free, FrameAllocator.Counted, MapsKeep, SameOutside, LinearOn;
      hide Nth, SelfOnly, PagesMapped, Stopped, Conflict, Enough, Missing, Hung, WordAt;
      ghost var n, before, done := mem[..], pmm.freePages, 0;
      result, done := MapToItself(kernelPml4, v, pages);
      HungFurther(plain, m1, n, mem[..], kernelPml4, s, v, pages, atStart, before, pmm.freePages, result);
    }

    /** Its first two loops: the kernel image and the framebuffer. */
    method MapImageAndScreen(kernelStart: nat, kernelEnd: nat, fbAddr: nat, fbSize: nat, ghost plain: bool)
      returns (result: int)
      requires Valid() && kernelPml4 in roles && roles[kernelPml4].Pml4? && kernelStart <= kernelEnd
      requires kernelEnd + 2 * PAGE_SIZE <= 0x1_0000_0000_0000_0000
               && fbAddr + fbSize + 2 * PAGE_SIZE <= 0x1_0000_0000_0000_0000
      requires plain ==>
                 && kernelEnd + 2 * PAGE_SIZE <= ADDRESS_LIMIT && fbAddr + fbSize + 2 * PAGE_SIZE <= ADDRESS_LIMIT
                 && SelfOnly(mem[..], kernelPml4)
      modifies this`roles, pmm`freePages, pmm.bitmap, mem
      ensures Valid()
      ensures MapsKeep(old(mem[..]), mem[..], old(roles), roles, old(pmm.Free()), pmm.Free(), kernelPml4, PAGE_WRITABLE)
      ensures var m1 := old(mem[..]);
              var image := Missing(m1, kernelPml4, RoundDown(kernelStart), PagesBetween(kernelStart, kernelEnd));
              var screen := Missing(m1, kernelPml4, RoundDown(fbAddr), FbPages(fbAddr, fbSize));
              && (plain ==>
                    && SelfOnly(mem[..], kernelPml4) && (result != 0 ==> pmm.freePages == 0)
                    && (result == 0 <==> |image + screen| <= old(pmm.freePages))
                    && (result == 0 ==>
                          && PagesMapped(mem[..], kernelPml4, RoundDown(kernelStart), RoundDown(kernelStart),
                                         PagesBetween(kernelStart, kernelEnd))
                          && PagesMapped(mem[..], kernelPml4, RoundDown(fbAddr), RoundDown(fbAddr),
                                         FbPages(fbAddr, fbSize))))
              && (result == 0 ==>
                    HungSoFar(plain, m1, mem[..], kernelPml4, image + screen, old(pmm.freePages), pmm.freePages))
    {
      hide LowShared, WellFormed, FrameAllocator.Free, FrameAllocator.Counted, MapsKeep, SameOutside, LinearOn;
      hide Nth, RoundUp, RoundDown, SelfOnly, PagesMapped, Stopped, Conflict, Enough, PagesBetween, Missing, HungSoFar;
      ghost var root, m1, r1, f1, atStart := kernelPml4, mem[..], roles, pmm.Free(), pmm.freePages;
      ghost var start, pages := RoundDown(kernelStart), PagesBetween(kernelStart, kernelEnd);
      ghost var image := Missing(m1, root, start, pages);
      ghost var screen := Missing(m1, root, RoundDown(fbAddr), FbPages(fbAddr, fbSize));
      HungAtFirst(plain, m1, root, atStart);
      PagesBetweenFit(kernelStart, kernelEnd);
      FbFits(fbAddr, fbSize);
      assert {} + image == image;
      result := MapMore(RoundDown(kernelStart), PagesBetween(kernelStart, kernelEnd), m1, {}, plain, atStart);
      ghost var m2, r2, f2 := mem[..], roles, pmm.Free();
      if result != 0 {
        if plain {
          TooFewFor(image, image + screen, atStart);
        }
        return;
      }
      KeptRoles(m1, m2, r1, r2, f1, f2, root, PAGE_WRITABLE);
      NothingYet(m2, r2, f2, root, RoundDown(fbAddr));
      NoRange(m1, root, RoundDown(fbAddr), image);
      if fbAddr != 0 && fbSize != 0 {
        result := MapMore(RoundDown(fbAddr), FbPages(fbAddr, fbSize), m1, image, plain, atStart);
      }
      MapsKeepStep(m1, m2, mem[..], r1, r2, roles, f1, f2, pmm.Free(), root, PAGE_WRITABLE);
      KeepsRange(m2, mem[..], r2, roles, f2, pmm.Free(), root, start, pages);
    }

    /** Its mapping part, once the root is there. */
    method MapKernelRanges(ghost m1: Memory, ghost r1: Roles, ghost f1: set<nat>,
                           kernelStart: nat, kernelEnd: nat, fbAddr: nat, fbSize: nat) returns (ok: bool)
      requires Valid() && kernelPml4 in roles && roles[kernelPml4].Pml4? && kernelStart <= kernelEnd
      requires m1 == mem[..] && r1 == roles && f1 == pmm.Free()
      requires kernelEnd + 2 * PAGE_SIZE <= 0x1_0000_0000_0000_0000
               && fbAddr + fbSize + 2 * PAGE_SIZE <= 0x1_0000_0000_0000_0000
      modifies this`roles, pmm`freePages, pmm.bitmap, mem
      ensures Valid() && MapsKeep(m1, mem[..], r1, roles, f1, pmm.Free(), kernelPml4, PAGE_WRITABLE)
      ensures ok ==> PagesMapped(mem[..], kernelPml4, 0, 0, MAX_PAGES)
      ensures ok ==> forall a: nat :: a < MAX_PHYSICAL_MEMORY ==> Physical(mem[..], kernelPml4, ToWord(a)) == ToWord(a)
      ensures kernelEnd + 2 * PAGE_SIZE <= ADDRESS_LIMIT && fbAddr + fbSize + 2 * PAGE_SIZE <= ADDRESS_LIMIT
              && SelfOnly(m1, kernelPml4) ==>
                && SelfOnly(mem[..], kernelPml4)
                && (ok <==>
                      |KernelTables(m1, kernelPml4, kernelStart, kernelEnd, fbAddr, fbSize)| <= old(pmm.freePages))
                && (!ok ==> pmm.freePages == 0)
                && (ok ==> ScreenMapped(mem[..], kernelPml4, fbAddr, fbSize))
                && (ok ==> PagesMapped(mem[..], kernelPml4, RoundDown(kernelStart), RoundDown(kernelStart),
                                       PagesBetween(kernelStart, kernelEnd)))
    {
      hide LowShared, WellFormed, FrameAllocator.Free, FrameAllocator.Counted, MapsKeep, SameOutside, LinearOn;
      hide Nth, Physical, ToWord, RoundUp, RoundDown, SelfOnly, PagesMapped, Stopped, Conflict, Enough, PagesBetween;
      hide WordAt, Missing, Hung, HungSoFar, KernelTables, FbPages;
      ghost var root, atStart, iDone := kernelPml4, pmm.freePages, 0;
      ghost var plain := kernelEnd + 2 * PAGE_SIZE <= ADDRESS_LIMIT && fbAddr + fbSize + 2 * PAGE_SIZE <= ADDRESS_LIMIT
                         && SelfOnly(m1, root);
      ghost var all := KernelTables(m1, root, kernelStart, kernelEnd, fbAddr, fbSize);
      ghost var start, pages := RoundDown(kernelStart), PagesBetween(kernelStart, kernelEnd);
      ghost var s3 := Missing(m1, root, start, pages) + Missing(m1, root, RoundDown(fbAddr), FbPages(fbAddr, fbSize));
      RangeByRange(m1, root, kernelStart, kernelEnd, fbAddr, fbSize);
      VgaFits();
      VgaIsLow();
      FourGigabytes();
      var result := MapImageAndScreen(kernelStart, kernelEnd, fbAddr, fbSize, plain);
      ghost var m3, r3, f3 := mem[..], roles, pmm.Free();
      KeptRoles(m1, m3, r1, r3, f1, f3, root, PAGE_WRITABLE);
      if result != 0 {
        if plain {
          TooFewFor(s3, all, atStart);
        }
        return false;
      }
      var vgaResult := MapMore(VGA, 1, m1, s3, plain, atStart);
      ghost var m4, r4, f4, left := mem[..], roles, pmm.Free(), pmm.freePages;
      MapsKeepStep(m1, m3, m4, r1, r3, r4, f1, f3, f4, root, PAGE_WRITABLE);
      KeptRoles(m3, m4, r3, r4, f3, f4, root, PAGE_WRITABLE);
      ghost var s4 := s3 + Missing(m1, root, VGA, 1);
      if vgaResult != 0 && plain {
        TooFewFor(s4, all, atStart);
      }
      var identityResult;
      identityResult, iDone := IdentityMapPhysicalMemory();
      if vgaResult == 0 {
        HungFurther(plain, m1, m4, mem[..], root, s4, 0, MAX_PAGES, atStart, left, pmm.freePages, identityResult);
      }
      MapsKeepStep(m1, m4, mem[..], r1, r4, roles, f1, f4, pmm.Free(), root, PAGE_WRITABLE);
      KeepsRange(m3, m4, r3, r4, f3, f4, root, start, pages);
      KeepsRange(m4, mem[..], r4, roles, f4, pmm.Free(), root, start, pages);
      KeepsRange(m3, m4, r3, r4, f3, f4, root, RoundDown(fbAddr), FbPages(fbAddr, fbSize));
      KeepsRange(m4, mem[..], r4, roles, f4, pmm.Free(), root, RoundDown(fbAddr), FbPages(fbAddr, fbSize));
      KeepsRange(m4, mem[..], r4, roles, f4, pmm.Free(), root, VGA, 1);
      return identityResult == 0 && vgaResult == 0;
    }
  }
}
