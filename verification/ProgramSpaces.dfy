/** The address-space part of riru_load in src/riru/loader.c, over a prepared kernel: where a program's pages go. */
module ProgramSpaces {
  import opened Words
  import opened FrameSets
  import opened FrameAllocators
  import opened PageTables
  import opened Translations
  import opened MapSteps
  import opened EntryWords
  import opened TableCounts
  import opened MapLaws
  import opened MapClosure
  import opened RangeLaws
  import opened RangeOutcomes
  import opened SpaceSetup
  import opened Vmm
  import RiruFormat
  import RiruLoad

  // ---- a prepared kernel -----------------------------------------------------------------------------

  /** The kernel as vmm_prepare_kernel_space leaves it, seen at one low page: mapped to itself, no user slot. */
  ghost predicate LowPage(m: Memory, kernel: nat, a: Word) {
    a & 0xFFF == 0 && a < 0x80_0000_0000 && MappedTo(Lookup(m, kernel, PathOf(a)), a)
  }

  lemma LowPageKept(m: Memory, n: Memory, roles: Roles, kernel: nat, a: Word)
    requires PagesKept(m, n, roles) && kernel in roles && roles[kernel].Pml4? && LowPage(m, kernel, a)
    ensures LowPage(n, kernel, a)
  {
    PathInRange(a);
    hide Lookup, PathOf, MappedTo, PagesKept;
    StillMapped(m, n, roles, kernel, PathOf(a), a);
  }

  /** Mapping a low page to itself in a space that shares slot 0 succeeds, with no frame needed. */
  lemma LowPageMaps(m: Memory, roles: Roles, kernel: nat, r: nat, a: Word, free: nat)
    requires WellFormed(m, roles) && LowShared(m, roles, kernel) && r in roles && roles[r].Pml4?
             && LowPage(m, kernel, a)
    ensures Lookup(m, r, PathOf(a)) == Lookup(m, kernel, PathOf(a)) && MapResult(m, r, a, a, free) == 0
  {
    LowWindowCoherent(m, roles, kernel, r, a);
    hide Lookup, PathOf, SameFrame, WellFormed, LowShared, Depth;
    PageHasTables(m, r, PathOf(a));
    SucceedsExactly(m, roles, r, a, a, free);
  }

  lemma LowPageAt(m: Memory, kernel: nat, i: nat)
    requires PagesMapped(m, kernel, 0, 0, MAX_PAGES) && i < MAX_PAGES
    ensures LowPage(m, kernel, WordAt(0, i))
  {
    FourGigabytes();
    NthBelow(0, i, MAX_PAGES);
    AlignedWord(0, i);
    ToWordValue(Nth(0, i));
    LowValueSmall(ToWord(Nth(0, i)));
    assert MappedTo(Lookup(m, kernel, PageAt(0, i)), WordAt(0, i));
    hide Lookup, PathOf, ToWord, Nth, Value, MappedTo;
  }

  lemma LowPageBounds(m: Memory, kernel: nat, a: Word)
    requires LowPage(m, kernel, a)
    ensures a < 0x80_0000_0000
  {
  }

  /** Slot 0 is everyone's, and maps the first 4 GB to themselves. */
  ghost predicate Ready(m: Memory, roles: Roles, kernel: nat) {
    LowShared(m, roles, kernel) && PagesMapped(m, kernel, 0, 0, MAX_PAGES)
  }

  /** So every program runs in the same memory: each address below 4 GB is itself, in every address space. */
  lemma ProgramsShareMemory(m: Memory, roles: Roles, kernel: nat, r: nat, a: nat)
    requires Ready(m, roles, kernel) && r in roles && roles[r].Pml4? && a < 0x1_0000_0000
    ensures Physical(m, r, ToWord(a)) == ToWord(a)
  {
    hide Physical, LowShared, PagesMapped, LinearOn, ToWord, Value;
    FourGigabytes();
    ToWordValue(a);
    LowValueSmall(ToWord(a));
    MappedIsLinear(m, kernel, 0, 0, MAX_PAGES, PAGE_WRITABLE);
    LinearIsIdentity(m, kernel, 0, MAX_PAGES, a);
    LowWindowCoherent(m, roles, kernel, r, ToWord(a));
  }

  /** Operations that add links and keep pages leave it so. */
  lemma StillReady(m: Memory, n: Memory, roles: Roles, roles': Roles, kernel: nat)
    requires Ready(m, roles, kernel) && PagesKept(m, n, roles) && LowShared(n, roles', kernel)
    ensures Ready(n, roles', kernel)
  {
    hide PagesKept, PagesMapped;
    KeepsMapped(m, n, roles, kernel, 0, 0, MAX_PAGES);
  }

  // ---- one page --------------------------------------------------------------------------------------

  ghost predicate SamePhysical(m: Memory, n: Memory, roles: Roles) {
    forall r, w: Word :: r in roles && roles[r].Pml4? ==> Physical(n, r, w) == Physical(m, r, w)
  }

  lemma SamePhysicalTrans(m: Memory, n: Memory, o: Memory, roles: Roles, roles': Roles)
    requires SamePhysical(m, n, roles) && SamePhysical(n, o, roles')
    requires forall f :: f in roles ==> f in roles' && roles'[f] == roles[f]
    ensures SamePhysical(m, o, roles)
  {
    hide Physical;
  }

  /** Asking for a mapped page again moves nothing, in any address space. */
  lemma RemapMovesNothing(m: Memory, n: Memory, roles: Roles, roles': Roles, free: set<nat>, free': set<nat>,
                          root: nat, va: Word, pa: Word, flags: Word)
    requires root in roles && roles[root].Pml4? && Lookup(m, root, PathOf(va)).Page?
    requires MapEffect(m, n, roles, roles', free, free', root, va, pa, flags, 0)
    ensures SamePhysical(m, n, roles)
  {
    MapKeepsPages(m, n, roles, roles', free, free', root, va, pa, flags, 0);
    NothingAppears(m, n, roles, roles', free, free', root, va, pa, flags);
    hide MapEffect, Lookup, PageKept, PathOf;
    forall r, w: Word | r in roles && roles[r].Pml4?
      ensures Physical(n, r, w) == Physical(m, r, w)
    {
      PathInRange(w);
      KeptAddress(Lookup(m, r, PathOf(w)), Lookup(n, r, PathOf(w)), w);
    }
  }

  lemma NothingAppears(m: Memory, n: Memory, roles: Roles, roles': Roles, free: set<nat>, free': set<nat>,
                       root: nat, va: Word, pa: Word, flags: Word)
    requires root in roles && roles[root].Pml4? && Lookup(m, root, PathOf(va)).Page?
    requires MapEffect(m, n, roles, roles', free, free', root, va, pa, flags, 0)
    ensures forall r, q :: r in roles && roles[r].Pml4? && InRange(q) && Lookup(m, r, q).Unmapped? ==>
              Lookup(n, r, q).Unmapped?
  {
    hide Lookup, PtOf, PathOf, NewLeaf, WellFormed, LinksKept, OthersUntouched, RootSlots, Grown, Entry;
  }

  lemma KeptAddress(was: Translation, now: Translation, w: Word)
    requires PageKept(was, now) && (was.Unmapped? ==> now.Unmapped?)
    ensures Address(now, w) == Address(was, w)
  {
    hide User, Writable, HugeAddress, PageAddress, SameFrame;
    if was.Page? {
      SameFrameSameAddress(now.entry, was.entry, w);
    }
  }

  lemma SameFrameSameAddress(e: Word, f: Word, w: Word)
    requires SameFrame(e, f)
    ensures PageAddress(e, w) == PageAddress(f, w)
  {
  }

  /** The pages are there and open to ring 3, and to writes if the flags ask for it. */
  ghost predicate OpenToProgram(n: Memory, root: nat, start: nat, count: nat, flags: Word) {
    forall i: nat :: i < count ==> OpenPage(Lookup(n, root, PageAt(start, i)), flags)
  }

  predicate OpenPage(t: Translation, flags: Word) {
    t.Page? && LeafUser(t) && (Writable(flags) ==> LeafWritable(t))
  }

  lemma KeptOpen(was: Translation, now: Translation, flags: Word)
    requires PageKept(was, now) && OpenPage(was, flags)
    ensures OpenPage(now, flags)
  {
    hide User, Writable, SameFrame;
  }

  lemma ProgramFlags(flags: Word)
    ensures User((flags | PAGE_USER) | PAGE_USER) && (Writable(flags) ==> Writable((flags | PAGE_USER) | PAGE_USER))
  {
  }

  /** The flags map_range hands down. */
  function Asked(flags: Word): Word {
    (flags | PAGE_USER) | PAGE_USER
  }

  lemma NewLeafOpen(t: Translation, pa: Word, flags: Word)
    ensures OpenPage(Page(NewLeaf(t, pa, Asked(flags))), flags)
  {
    ProgramFlags(flags);
    NewLeafUser(t, pa, Asked(flags));
    NewLeafWritable(t, pa, Asked(flags));
    hide User, Writable, NewLeaf;
  }

  /** The bits of an entry that are no address. */
  function Rights(e: Word): Word { e & 0xFFF0_0000_0000_0FFF }

  /** The bits added to an entry that is there: 2, and 1 if asked for. */
  function AddedBits(flags: Word): Word { (flags | 4) & 6 }

  function WithRights(e: Word, flags: Word): Word { Or(e, AddedBits(flags)) }

  function NewRights(flags: Word): Word { Rights(flags) | 5 }

  /** What a program's mapping may do to a page: add the user bit, and the writable bit if asked to, to an entry that is
      there, or put in a new one with these, bit 0 and the other flags. */
  predicate RightsAdded(was: Translation, now: Translation, flags: Word) {
    || now == was
    || (was.Page? && now.Page? && now.entry == WithRights(was.entry, flags))
    || (was.Unmapped? && now.Page? && Rights(now.entry) == NewRights(flags))
  }

  ghost predicate OnlyRights(m: Memory, n: Memory, root: nat, flags: Word) {
    forall q :: InRange(q) ==> RightsAdded(Lookup(m, root, q), Lookup(n, root, q), flags)
  }

  lemma RightsTwice(t: Translation, u: Translation, w: Translation, flags: Word)
    requires RightsAdded(t, u, flags) && RightsAdded(u, w, flags)
    ensures RightsAdded(t, w, flags)
  {
    hide Rights, WithRights, NewRights;
    if t.Page? && u.Page? {
      AddedTwice(t.entry, flags);
    }
    if u.Page? && Rights(u.entry) == NewRights(flags) {
      AddedToNew(u.entry, flags);
    }
  }

  lemma AddedTwice(e: Word, flags: Word)
    ensures WithRights(WithRights(e, flags), flags) == WithRights(e, flags)
  {
    hide Or, AddedBits;
    JoinedTwice(e, AddedBits(flags));
  }

  lemma JoinedTwice(x: Word, y: Word)
    ensures Or(Or(x, y), y) == Or(x, y)
  {
  }

  lemma AddedToNew(e: Word, flags: Word)
    requires Rights(e) == NewRights(flags)
    ensures Rights(WithRights(e, flags)) == NewRights(flags)
  {
    hide Or, AddedBits, Rights, NewRights;
    RightsOfBoth(e, AddedBits(flags));
    AddedAreRights(flags);
    NewHasAdded(flags);
  }

  lemma RightsOfBoth(x: Word, y: Word)
    ensures Rights(Or(x, y)) == Or(Rights(x), Rights(y))
  {
  }

  lemma AddedAreRights(flags: Word)
    ensures Rights(AddedBits(flags)) == AddedBits(flags)
  {
  }

  lemma NewHasAdded(flags: Word)
    ensures Or(NewRights(flags), AddedBits(flags)) == NewRights(flags)
  {
  }

  lemma OnlyRightsTrans(m: Memory, n: Memory, o: Memory, root: nat, flags: Word)
    requires OnlyRights(m, n, root, flags) && OnlyRights(n, o, root, flags)
    ensures OnlyRights(m, o, root, flags)
  {
    hide Lookup, RightsAdded;
    forall q | InRange(q)
      ensures RightsAdded(Lookup(m, root, q), Lookup(o, root, q), flags)
    {
      RightsTwice(Lookup(m, root, q), Lookup(n, root, q), Lookup(o, root, q), flags);
    }
  }

  lemma NewLeafRights(t: Translation, pa: Word, flags: Word)
    requires !t.HugePage?
    ensures RightsAdded(t, Page(NewLeaf(t, pa, Asked(flags))), flags)
  {
    hide Rights, WithRights, NewRights, MergeLeaf, LeafEntry, Asked, Or;
    FreshRights(pa, flags);
    if t.Page? {
      MergedRights(t.entry, flags);
    }
  }

  lemma MergedRights(e: Word, flags: Word)
    ensures MergeLeaf(e, Asked(flags)) == WithRights(e, flags)
  {
  }

  lemma FreshRights(pa: Word, flags: Word)
    ensures Rights(LeafEntry(pa, Asked(flags))) == NewRights(flags)
  {
  }

  /** One call. */
  lemma CallAddsRights(m: Memory, n: Memory, roles: Roles, roles': Roles, free: set<nat>, free': set<nat>,
                       root: nat, va: Word, pa: Word, flags: Word, freeCount: nat, result: int)
    requires root in roles && roles[root].Pml4? && MapResult(m, root, va, pa, freeCount) == result
    requires MapEffect(m, n, roles, roles', free, free', root, va, pa, Asked(flags), result)
    ensures OnlyRights(m, n, root, flags)
  {
    hide Lookup, MapResult, MapEffect, PathOf, NewLeaf, RightsAdded, Asked;
    if result != 0 {
      FailedElsewhere(m, n, roles, roles', free, free', root, va, pa, Asked(flags), result);
      SameRights(m, n, root, flags);
    } else {
      MappedLeaf(m, n, roles, roles', free, free', root, va, pa, Asked(flags), freeCount);
      NewLeafRights(Lookup(m, root, PathOf(va)), pa, flags);
      forall q | InRange(q)
        ensures RightsAdded(Lookup(m, root, q), Lookup(n, root, q), flags)
      {
        if q != PathOf(va) {
          OtherPageLookup(m, n, roles, roles', free, free', root, va, pa, Asked(flags), result, root, q);
          NoRightsAdded(Lookup(m, root, q), flags);
        }
      }
    }
  }

  lemma NoRightsAdded(t: Translation, flags: Word)
    ensures RightsAdded(t, t, flags)
  {
  }

  lemma SameRights(m: Memory, n: Memory, root: nat, flags: Word)
    requires forall q :: InRange(q) ==> Lookup(n, root, q) == Lookup(m, root, q)
    ensures OnlyRights(m, n, root, flags)
  {
    hide Lookup;
  }

  /** One more page. */
  lemma OpenNext(m: Memory, n: Memory, roles: Roles, roles': Roles, free: set<nat>, free': set<nat>,
                 root: nat, start: nat, i: nat, pa: Word, flags: Word, freeCount: nat)
    requires root in roles && roles[root].Pml4? && OpenToProgram(m, root, start, i, flags)
    requires MapResult(m, root, WordAt(start, i), pa, freeCount) == 0
    requires MapEffect(m, n, roles, roles', free, free', root, WordAt(start, i), pa, Asked(flags), 0)
    ensures OpenToProgram(n, root, start, i + 1, flags)
  {
    hide MapEffect, MapResult, Lookup, OpenPage, PathOf, NewLeaf, WordAt, PageKept, Asked;
    MappedLeaf(m, n, roles, roles', free, free', root, WordAt(start, i), pa, Asked(flags), freeCount);
    NewLeafOpen(Lookup(m, root, PathOf(WordAt(start, i))), pa, flags);
    MapKeepsPages(m, n, roles, roles', free, free', root, WordAt(start, i), pa, Asked(flags), 0);
    forall k: nat | k < i
      ensures OpenPage(Lookup(n, root, PageAt(start, k)), flags)
    {
      KeptOpen(Lookup(m, root, PageAt(start, k)), Lookup(n, root, PageAt(start, k)), flags);
    }
  }

  // ---- mapping a program's pages ---------------------------------------------------------------------

  /** What the loop keeps, from a state with these roles on. */
  ghost predicate Kept(m: Memory, n: Memory, roles: Roles, roles': Roles) {
    PagesKept(m, n, roles) && (forall f :: f in roles ==> f in roles' && roles'[f] == roles[f])
  }

  lemma KeptStep(m: Memory, n: Memory, o: Memory, r0: Roles, r1: Roles, r2: Roles)
    requires Kept(m, n, r0, r1) && Kept(n, o, r1, r2)
    ensures Kept(m, o, r0, r2)
  {
    PagesKeptTrans(m, n, o, r0, r1);
    hide PagesKept;
  }

  /** One call of vmm_map_user_page, whatever it answers. */
  lemma CallKeeps(m: Memory, n: Memory, roles: Roles, roles': Roles, free: set<nat>, free': set<nat>,
                  root: nat, va: Word, pa: Word, flags: Word, result: int)
    requires WellFormed(m, roles) && root in roles && roles[root].Pml4?
    requires MapEffect(m, n, roles, roles', free, free', root, va, pa, flags, result)
    ensures Kept(m, n, roles, roles')
    ensures forall f :: f in roles' && f !in roles ==> f in free
  {
    MapKeepsPages(m, n, roles, roles', free, free', root, va, pa, flags, result);
    hide PagesKept, WellFormed, LinksKept, OthersUntouched, RootSlots, LeafChanged, PathOf, Lookup;
  }

  /** In a prepared kernel's window the page is mapped to itself, and mapping it so again takes no frame. */
  lemma ReadyPage(m: Memory, roles: Roles, kernel: nat, r: nat, start: nat, i: nat, free: nat)
    requires WellFormed(m, roles) && Ready(m, roles, kernel) && r in roles && roles[r].Pml4?
    requires start % PAGE_SIZE == 0 && Nth(start, i) < MAX_PHYSICAL_MEMORY
    ensures var a := WordAt(start, i);
            && Physical(m, r, a) == a && MapResult(m, r, a, a, free) == 0
            && Depth(m, r, PathOf(a)) == 3 && Lookup(m, r, PathOf(a)).Page?
  {
    var k := Nth(start, i) / PAGE_SIZE;
    NthPage(start, i);
    assert Nth(0, k) == Nth(start, i) && k < MAX_PAGES;
    hide Physical, Lookup, PathOf, WellFormed, LowShared, PagesMapped, Nth, MapResult, MappedTo, ToWord, Depth;
    ProgramsShareMemory(m, roles, kernel, r, Nth(start, i));
    LowPageAt(m, kernel, k);
    LowPageMaps(m, roles, kernel, r, WordAt(0, k), free);
    PageOfLow(m, kernel, WordAt(0, k));
    PageHasTables(m, r, PathOf(WordAt(0, k)));
  }

  lemma PageOfLow(m: Memory, kernel: nat, a: Word)
    requires LowPage(m, kernel, a)
    ensures Lookup(m, kernel, PathOf(a)).Page?
  {
    hide Lookup, PathOf;
  }

  lemma NotZero(a: nat)
    requires 0 < a < 0x1_0000_0000_0000_0000
    ensures ToWord(a) != 0
  {
    ToWordValue(a);
    ZeroValue();
    hide ToWord, Value;
  }

  lemma ZeroValue()
    ensures Value(0) == 0
  {
  }

  lemma RootKept(m: Memory, n: Memory, roles: Roles, roles': Roles, root: nat)
    requires Kept(m, n, roles, roles') && root in roles && roles[root].Pml4?
    ensures root in roles' && roles'[root].Pml4?
  {
  }

  lemma RootsKept(m: Memory, n: Memory, roles: Roles, roles': Roles)
    requires Kept(m, n, roles, roles')
    ensures forall f :: f in roles ==> f in roles' && roles'[f] == roles[f]
  {
  }

  lemma NothingKept(m: Memory, roles: Roles, root: nat, start: nat, flags: Word)
    ensures Kept(m, m, roles, roles) && OpenToProgram(m, root, start, 0, flags) && SamePhysical(m, m, roles)
    ensures OnlyRights(m, m, root, flags)
  {
    SameRights(m, m, root, flags);
    hide Lookup, Physical, PageAt, OpenPage, OnlyRights;
    forall r, q | r in roles && roles[r].Pml4? && InRange(q)
      ensures PageKept(Lookup(m, r, q), Lookup(m, r, q))
    {
      PageKeptItself(Lookup(m, r, q));
    }
  }

  lemma ReadyIsShared(m: Memory, roles: Roles, kernel: nat)
    requires Ready(m, roles, kernel)
    ensures LowShared(m, roles, kernel)
  {
  }

  lemma StillReadyKept(m: Memory, n: Memory, roles: Roles, roles': Roles, kernel: nat)
    requires Ready(m, roles, kernel) && Kept(m, n, roles, roles') && LowShared(n, roles', kernel)
    ensures Ready(n, roles', kernel)
  {
    hide Ready, PagesKept, LowShared;
    StillReady(m, n, roles, roles', kernel);
  }

  /** One pass of the loop below. */
  method MapProgramPage(spaces: AddressSpaces, cr3: nat, start: nat, i: nat, flags: Word) returns (result: int)
    requires spaces.Valid() && cr3 in spaces.roles && spaces.roles[cr3].Pml4?
    requires 0 < start && start % PAGE_SIZE == 0 && Nth(start, i) < MAX_PHYSICAL_MEMORY
    modifies spaces`roles, spaces.pmm`freePages, spaces.pmm.bitmap, spaces.mem
    ensures spaces.Valid() && (old(spaces.LowWindow()) ==> spaces.LowWindow())
    ensures Kept(old(spaces.mem[..]), spaces.mem[..], old(spaces.roles), spaces.roles)
    ensures OnlyRights(old(spaces.mem[..]), spaces.mem[..], cr3, flags)
    ensures result != 0 || old(Physical(spaces.mem[..], cr3, WordAt(start, i))) != 0 ==>
              spaces.pmm.Free() + spaces.roles.Keys == old(spaces.pmm.Free() + spaces.roles.Keys)
    ensures result == 0 && FlagsOnly(flags) && old(Physical(spaces.mem[..], cr3, WordAt(start, i))) == 0 ==>
              exists f :: f in old(spaces.pmm.Free()) && f < MAX_PAGES
                && MappedTo(Lookup(spaces.mem[..], cr3, PageAt(start, i)), ToWord(f * PAGE_SIZE))
                && spaces.pmm.Free() + spaces.roles.Keys == old(spaces.pmm.Free() + spaces.roles.Keys) - {f}
    ensures -2 <= result <= 0 && (result == -1 ==> spaces.pmm.freePages == 0)
    ensures result == 0 && old(OpenToProgram(spaces.mem[..], cr3, start, i, flags)) ==>
              OpenToProgram(spaces.mem[..], cr3, start, i + 1, flags)
    ensures old(Ready(spaces.mem[..], spaces.roles, spaces.kernelPml4)) ==>
              && result == 0 && Ready(spaces.mem[..], spaces.roles, spaces.kernelPml4)
              && spaces.pmm.freePages == old(spaces.pmm.freePages)
              && SamePhysical(old(spaces.mem[..]), spaces.mem[..], old(spaces.roles))
  {
    hide OnlyRights;
    hide WellFormed, FrameAllocator.Free, FrameAllocator.Counted, LowShared, Ready, SamePhysical, OpenToProgram, Kept;
    hide PathOf, Lookup, Physical, ToWord;
    PageAtIs(start, i);
    LowAddress(start, i);
    hide Nth;
    var existing := spaces.GetPhysicalFrom(cr3, ToWord(Nth(start, i)));
    if Ready(spaces.mem[..], spaces.roles, spaces.kernelPml4) {
      ReadyPage(spaces.mem[..], spaces.roles, spaces.kernelPml4, cr3, start, i, 0);
    }
    if existing != 0 {
      result := MapAgain(spaces, cr3, start, i, existing, flags);
      return;
    }
    var physical := spaces.TakeFrame();
    if physical == 0 {
      NothingKept(spaces.mem[..], spaces.roles, cr3, start, flags);
      return -1;
    }
    result := MapNewFrame(spaces, cr3, start, i, physical, flags);
  }

  lemma CallConserves(m: Memory, n: Memory, roles: Roles, roles': Roles, free: set<nat>, free': set<nat>,
                      root: nat, va: Word, pa: Word, flags: Word, code: int)
    requires root in roles && roles.Keys !! free
    requires MapEffect(m, n, roles, roles', free, free', root, va, pa, flags, code)
    ensures free' + roles'.Keys == free + roles.Keys
  {
    hide WellFormed, LinksKept, OthersUntouched, RootSlots, LeafChanged, PathOf, Lookup, SameLookups, SharersAgree;
    FramesConserved(roles, roles', free, free');
  }

  /** What one call of vmm_map_user_page leaves. */
  lemma PageAsked(m: Memory, n: Memory, r0: Roles, r1: Roles, f0: set<nat>, f1: set<nat>,
                  root: nat, start: nat, i: nat, pa: Word, flags: Word, freeCount: nat, code: int)
    requires WellFormed(m, r0) && root in r0 && r0[root].Pml4?
    requires MapResult(m, root, WordAt(start, i), pa, freeCount) == code
    requires MapEffect(m, n, r0, r1, f0, f1, root, WordAt(start, i), pa, Asked(flags), code)
    requires r0.Keys !! f0
    ensures Kept(m, n, r0, r1) && OnlyRights(m, n, root, flags)
    ensures forall f :: f in r1 && f !in r0 ==> f in f0
    ensures f1 + r1.Keys == f0 + r0.Keys
    ensures code == 0 && OpenToProgram(m, root, start, i, flags) ==> OpenToProgram(n, root, start, i + 1, flags)
  {
    hide WellFormed, MapResult, MapEffect, Asked, WordAt, Kept, OnlyRights, OpenToProgram;
    CallConserves(m, n, r0, r1, f0, f1, root, WordAt(start, i), pa, Asked(flags), code);
    CallKeeps(m, n, r0, r1, f0, f1, root, WordAt(start, i), pa, Asked(flags), code);
    CallAddsRights(m, n, r0, r1, f0, f1, root, WordAt(start, i), pa, flags, freeCount, code);
    if code == 0 && OpenToProgram(m, root, start, i, flags) {
      OpenNext(m, n, r0, r1, f0, f1, root, start, i, pa, flags, freeCount);
    }
  }

  /** A page that is there is mapped to the same frame again. */
  method MapAgain(spaces: AddressSpaces, cr3: nat, start: nat, i: nat, existing: Word, flags: Word)
    returns (result: int)
    requires spaces.Valid() && cr3 in spaces.roles && spaces.roles[cr3].Pml4?
    requires 0 < start && start % PAGE_SIZE == 0 && Nth(start, i) < MAX_PHYSICAL_MEMORY
    requires Ready(spaces.mem[..], spaces.roles, spaces.kernelPml4) ==> existing == WordAt(start, i)
    modifies spaces`roles, spaces.pmm`freePages, spaces.pmm.bitmap, spaces.mem
    ensures spaces.Valid() && (old(spaces.LowWindow()) ==> spaces.LowWindow())
    ensures Kept(old(spaces.mem[..]), spaces.mem[..], old(spaces.roles), spaces.roles)
    ensures OnlyRights(old(spaces.mem[..]), spaces.mem[..], cr3, flags)
    ensures spaces.pmm.Free() + spaces.roles.Keys == old(spaces.pmm.Free() + spaces.roles.Keys)
    ensures result == 0 || result == -2
    ensures result == 0 && old(OpenToProgram(spaces.mem[..], cr3, start, i, flags)) ==>
              OpenToProgram(spaces.mem[..], cr3, start, i + 1, flags)
    ensures old(Ready(spaces.mem[..], spaces.roles, spaces.kernelPml4)) ==>
              && result == 0 && Ready(spaces.mem[..], spaces.roles, spaces.kernelPml4)
              && spaces.pmm.freePages == old(spaces.pmm.freePages)
              && SamePhysical(old(spaces.mem[..]), spaces.mem[..], old(spaces.roles))
  {
    hide OnlyRights;
    hide WellFormed, FrameAllocator.Free, FrameAllocator.Counted, LowShared, Ready, SamePhysical, OpenToProgram, Kept;
    hide PathOf, Lookup, MapResult, MapEffect, Depth, WordsWritten, Physical, ToWord;
    ghost var m, r0, f0, kernel := spaces.mem[..], spaces.roles, spaces.pmm.Free(), spaces.kernelPml4;
    ghost var atStart, ready := spaces.pmm.freePages, Ready(m, r0, kernel);
    PageAtIs(start, i);
    LowAddress(start, i);
    TableInRange(m, r0, cr3);
    assert Asked(flags) == (flags | PAGE_USER) | PAGE_USER;
    hide Asked, Nth;
    var va := ToWord(Nth(start, i));
    if ready {
      ReadyPage(m, r0, kernel, cr3, start, i, atStart);
      ReadyIsShared(m, r0, kernel);
      assert existing == va;
    }
    hide WordAt;
    var code := spaces.MapUserPage(cr3, va, existing, flags | PAGE_USER);
    ghost var n, r1, f1 := spaces.mem[..], spaces.roles, spaces.pmm.Free();
    PageAsked(m, n, r0, r1, f0, f1, cr3, start, i, existing, flags, atStart, code);
    if code != 0 {
      return -2;
    }
    if ready {
      RemapMovesNothing(m, n, r0, r1, f0, f1, cr3, va, existing, Asked(flags));
      StillReadyKept(m, n, r0, r1, kernel);
    }
    return 0;
  }

  lemma LowAddress(start: nat, i: nat)
    requires 0 < start && Nth(start, i) < MAX_PHYSICAL_MEMORY
    ensures ToWord(Nth(start, i)) != 0 && ToWord(Nth(start, i)) < 0x0000_8000_0000_0000
  {
    NotZero(Nth(start, i));
    ToWordValue(Nth(start, i));
    LowValueSmall(ToWord(Nth(start, i)));
    hide ToWord, Nth, Value;
  }

  lemma AskedFlagsOnly(flags: Word)
    requires FlagsOnly(flags)
    ensures FlagsOnly(Asked(flags))
  {
  }

  /** A page that was not there gets the frame just taken, which is given back if that fails. */
  method MapNewFrame(spaces: AddressSpaces, cr3: nat, start: nat, i: nat, physical: nat, flags: Word)
    returns (result: int)
    requires spaces.Valid() && cr3 in spaces.roles && spaces.roles[cr3].Pml4?
    requires 0 < start && Nth(start, i) < MAX_PHYSICAL_MEMORY
    requires physical % PAGE_SIZE == 0 && physical / PAGE_SIZE !in spaces.roles
    requires physical / PAGE_SIZE !in spaces.pmm.Free() && 0 < physical < MAX_PHYSICAL_MEMORY
    modifies spaces`roles, spaces.pmm`freePages, spaces.pmm.bitmap, spaces.mem
    ensures spaces.Valid() && (old(spaces.LowWindow()) ==> spaces.LowWindow())
    ensures Kept(old(spaces.mem[..]), spaces.mem[..], old(spaces.roles), spaces.roles)
    ensures OnlyRights(old(spaces.mem[..]), spaces.mem[..], cr3, flags)
    ensures spaces.pmm.Free() + spaces.roles.Keys ==
            if result == 0 then old(spaces.pmm.Free() + spaces.roles.Keys)
            else old(spaces.pmm.Free() + spaces.roles.Keys) + {physical / PAGE_SIZE}
    ensures result == 0 || result == -2
    ensures result == 0 && old(OpenToProgram(spaces.mem[..], cr3, start, i, flags)) ==>
              OpenToProgram(spaces.mem[..], cr3, start, i + 1, flags)
    ensures result == 0 && FlagsOnly(flags) ==> MappedTo(Lookup(spaces.mem[..], cr3, PageAt(start, i)),
                                                         ToWord(physical))
  {
    hide OnlyRights;
    hide WellFormed, FrameAllocator.Free, FrameAllocator.Counted, LowShared, OpenToProgram, Kept;
    hide PathOf, Lookup, MapResult, MapEffect, Depth, WordsWritten, ToWord, MappedTo, FlagsOnly;
    ghost var m, r0, f0, atStart := spaces.mem[..], spaces.roles, spaces.pmm.Free(), spaces.pmm.freePages;
    PageAtIs(start, i);
    LowAddress(start, i);
    TableInRange(m, r0, cr3);
    assert Asked(flags) == (flags | PAGE_USER) | PAGE_USER;
    hide Asked, Nth;
    var code := spaces.MapUserPage(cr3, ToWord(Nth(start, i)), ToWord(physical), flags | PAGE_USER);
    ghost var n, r1, f1 := spaces.mem[..], spaces.roles, spaces.pmm.Free();
    PageAsked(m, n, r0, r1, f0, f1, cr3, start, i, ToWord(physical), flags, atStart, code);
    if code != 0 {
      spaces.GiveFrame(physical);
      return -2;
    }
    if FlagsOnly(flags) {
      AskedFlagsOnly(flags);
      PageNowMapped(m, n, r0, r1, f0, f1, cr3, WordAt(start, i), ToWord(physical), Asked(flags), atStart);
    }
    return 0;
  }

  /** The loop of map_range and of map_user_stack: a page that is there is asked for again with the program's rights,
      any other gets a new frame.  In a prepared kernel all pages are there, so it cannot fail, takes no frame and moves
      nothing. */
  method MapProgramPages(spaces: AddressSpaces, cr3: nat, start: nat, pages: nat, flags: Word) returns (result: int)
    requires spaces.Valid() && cr3 in spaces.roles && spaces.roles[cr3].Pml4?
    requires 0 < start && start % PAGE_SIZE == 0 && Nth(start, pages) <= MAX_PHYSICAL_MEMORY
    modifies spaces`roles, spaces.pmm`freePages, spaces.pmm.bitmap, spaces.mem
    ensures spaces.Valid() && (old(spaces.LowWindow()) ==> spaces.LowWindow())
    ensures Kept(old(spaces.mem[..]), spaces.mem[..], old(spaces.roles), spaces.roles)
    ensures OnlyRights(old(spaces.mem[..]), spaces.mem[..], cr3, flags)
    ensures -2 <= result <= 0
    ensures result == 0 ==> OpenToProgram(spaces.mem[..], cr3, start, pages, flags)
    ensures result == -1 ==> spaces.pmm.freePages == 0
    ensures old(Ready(spaces.mem[..], spaces.roles, spaces.kernelPml4)) ==>
              && result == 0 && spaces.pmm.freePages == old(spaces.pmm.freePages)
              && SamePhysical(old(spaces.mem[..]), spaces.mem[..], old(spaces.roles))
  {
    hide OnlyRights;
    hide WellFormed, FrameAllocator.Free, FrameAllocator.Counted, LowShared, Ready, SamePhysical, OpenToProgram, Kept;
    hide PathOf, Lookup, MapResult, MapEffect, Depth, WordsWritten, Physical, ToWord, Nth;
    ghost var m, r0, kernel, atStart := spaces.mem[..], spaces.roles, spaces.kernelPml4, spaces.pmm.freePages;
    var i := 0;
    NothingKept(m, r0, cr3, start, flags);
    while i < pages
      invariant 0 <= i <= pages && spaces.Valid() && (old(spaces.LowWindow()) ==> spaces.LowWindow())
      invariant Kept(m, spaces.mem[..], r0, spaces.roles) && OpenToProgram(spaces.mem[..], cr3, start, i, flags)
      invariant OnlyRights(m, spaces.mem[..], cr3, flags)
      invariant Ready(m, r0, kernel) ==>
                  && Ready(spaces.mem[..], spaces.roles, kernel) && spaces.pmm.freePages == atStart
                  && SamePhysical(m, spaces.mem[..], r0)
    {
      ghost var n, r1, ready := spaces.mem[..], spaces.roles, Ready(m, r0, kernel);
      RootKept(m, n, r0, r1, cr3);
      NthBelow(start, i, pages);
      result := MapProgramPage(spaces, cr3, start, i, flags);
      KeptStep(m, n, spaces.mem[..], r0, r1, spaces.roles);
      OnlyRightsTrans(m, n, spaces.mem[..], cr3, flags);
      if result != 0 {
        return;
      }
      if ready {
        RootsKept(m, n, r0, r1);
        SamePhysicalTrans(m, n, spaces.mem[..], r0, r1);
      }
      i := i + 1;
    }
    return 0;
  }

  // ---- a whole program -------------------------------------------------------------------------------

  const USER_STACK_TOP: nat := 0x3FFF_F000
  const USER_STACK_SIZE: nat := 16 * 1024

  /** Every address of the section is on a page that ring 3 may read and write. */
  ghost predicate SectionOpen(n: Memory, root: nat, address: nat, size: nat) {
    forall a: nat :: address <= a < address + size && a < ADDRESS_LIMIT ==>
      OpenPage(Lookup(n, root, PathOf(ToWord(a))), PAGE_WRITABLE)
  }

  lemma PagesHoldSection(n: Memory, root: nat, address: nat, size: nat)
    requires size == 0 || OpenToProgram(n, root, RoundDown(address), PagesBetween(address, address + size),
                                        PAGE_WRITABLE)
    ensures SectionOpen(n, root, address, size)
  {
    hide Lookup, OpenPage, PathOf, ToWord;
    forall a: nat | address <= a < address + size && a < ADDRESS_LIMIT
      ensures OpenPage(Lookup(n, root, PathOf(ToWord(a))), PAGE_WRITABLE)
    {
      var i := PageWithin(a, address, size);
      OnPage(a, RoundDown(address), i);
    }
  }

  /** The page of the section that holds address a. */
  function PageWithin(a: nat, address: nat, size: nat): (i: nat)
    requires address <= a < address + size
    ensures i < PagesBetween(address, address + size)
    ensures RoundDown(address) % PAGE_SIZE == 0 && a / PAGE_SIZE == RoundDown(address) / PAGE_SIZE + i
  {
    a / PAGE_SIZE - address / PAGE_SIZE
  }

  lemma OnPage(a: nat, start: nat, i: nat)
    requires a < ADDRESS_LIMIT && start % PAGE_SIZE == 0 && a / PAGE_SIZE == start / PAGE_SIZE + i
    ensures PathOf(ToWord(a)) == PageAt(start, i)
  {
    PageOfNumber(a);
    NthPage(start, i);
    assert Nth(start, i) <= a;
    hide PathOf, PageOf, ToWord, Value, Nth;
    SameWalk(ToWord(a), start, i);
  }

  lemma SectionStays(m: Memory, n: Memory, roles: Roles, roles': Roles, root: nat, address: nat, size: nat)
    requires Kept(m, n, roles, roles') && root in roles && roles[root].Pml4? && SectionOpen(m, root, address, size)
    ensures SectionOpen(n, root, address, size)
  {
    hide Lookup, OpenPage, PathOf, ToWord, PageKept;
    forall a: nat | address <= a < address + size && a < ADDRESS_LIMIT
      ensures OpenPage(Lookup(n, root, PathOf(ToWord(a))), PAGE_WRITABLE)
    {
      PathInRange(ToWord(a));
      assert PageKept(Lookup(m, root, PathOf(ToWord(a))), Lookup(n, root, PathOf(ToWord(a))));
      KeptOpen(Lookup(m, root, PathOf(ToWord(a))), Lookup(n, root, PathOf(ToWord(a))), PAGE_WRITABLE);
    }
  }

  lemma UserRangePages(address: nat, size: nat)
    requires RiruLoad.InUserRange(address, size) && size > 0
    ensures 0 < RoundDown(address) && RoundDown(address) % PAGE_SIZE == 0
    ensures Nth(RoundDown(address), PagesBetween(address, address + size)) <= MAX_PHYSICAL_MEMORY
  {
    PagesBetweenFit(address, address + size);
    hide Nth;
  }

  /** map_range, as riru_load calls it. */
  method MapSection(spaces: AddressSpaces, cr3: nat, address: nat, size: nat) returns (result: int)
    requires spaces.Valid() && cr3 in spaces.roles && spaces.roles[cr3].Pml4? && RiruLoad.InUserRange(address, size)
    modifies spaces`roles, spaces.pmm`freePages, spaces.pmm.bitmap, spaces.mem
    ensures spaces.Valid() && (old(spaces.LowWindow()) ==> spaces.LowWindow())
    ensures Kept(old(spaces.mem[..]), spaces.mem[..], old(spaces.roles), spaces.roles)
    ensures OnlyRights(old(spaces.mem[..]), spaces.mem[..], cr3, PAGE_WRITABLE)
    ensures -2 <= result <= 0 && (result == -1 ==> spaces.pmm.freePages == 0)
    ensures result == 0 ==> SectionOpen(spaces.mem[..], cr3, address, size)
    ensures old(Ready(spaces.mem[..], spaces.roles, spaces.kernelPml4)) ==>
              && result == 0 && Ready(spaces.mem[..], spaces.roles, spaces.kernelPml4)
              && spaces.pmm.freePages == old(spaces.pmm.freePages)
              && SamePhysical(old(spaces.mem[..]), spaces.mem[..], old(spaces.roles))
  {
    hide OnlyRights;
    hide WellFormed, FrameAllocator.Free, FrameAllocator.Counted, LowShared, Ready, SamePhysical, OpenToProgram, Kept;
    hide SectionOpen, RoundDown, PagesBetween, Nth;
    ghost var m, r0, kernel := spaces.mem[..], spaces.roles, spaces.kernelPml4;
    if size == 0 {
      NothingKept(m, r0, cr3, 0, PAGE_WRITABLE);
      PagesHoldSection(m, cr3, address, size);
      return 0;
    }
    UserRangePages(address, size);
    result := MapProgramPages(spaces, cr3, RoundDown(address), PagesBetween(address, address + size), PAGE_WRITABLE);
    if result == 0 {
      PagesHoldSection(spaces.mem[..], cr3, address, size);
    }
    if Ready(m, r0, kernel) {
      ReadyIsShared(m, r0, kernel);
      StillReadyKept(m, spaces.mem[..], r0, spaces.roles, kernel);
    }
  }

  /** All sections and the stack of a program with this header. */
  ghost predicate ProgramOpen(n: Memory, root: nat, h: RiruFormat.Header) {
    FileSectionsOpen(n, root, h) && SectionOpen(n, root, ZerosAt(h), h.bssSize)
    && SectionOpen(n, root, 0x3FFF_B000, 0x4000)
  }

  function ZerosAt(h: RiruFormat.Header): nat {
    RiruLoad.BssStart(h.codeSize, h.codeVaddr, h.dataSize, h.dataVaddr, RiruLoad.ImageEnd(h))
  }

  /** Nothing has moved, and the kernel is still prepared. */
  ghost predicate Quiet(m: Memory, n: Memory, roles: Roles, roles': Roles, kernel: nat) {
    SamePhysical(m, n, roles) && Ready(n, roles', kernel)
  }

  /** One more section. */
  lemma SectionDone(m: Memory, n: Memory, o: Memory, r0: Roles, r1: Roles, r2: Roles, kernel: nat)
    requires Kept(m, n, r0, r1) && Kept(n, o, r1, r2)
    ensures Kept(m, o, r0, r2)
    ensures Quiet(m, n, r0, r1, kernel) && Quiet(n, o, r1, r2, kernel) ==> Quiet(m, o, r0, r2, kernel)
  {
    KeptStep(m, n, o, r0, r1, r2);
    RootsKept(m, n, r0, r1);
    hide Ready, Kept, SamePhysical;
    if Quiet(m, n, r0, r1, kernel) && Quiet(n, o, r1, r2, kernel) {
      SamePhysicalTrans(m, n, o, r0, r1);
    }
  }

  predicate SectionsInRange(h: RiruFormat.Header) {
    && RiruLoad.InUserRange(h.codeVaddr, h.codeSize) && RiruLoad.InUserRange(h.rodataVaddr, h.rodataSize)
    && RiruLoad.InUserRange(h.dataVaddr, h.dataSize)
  }

  /** The three sections of the file. */
  method MapFileSections(spaces: AddressSpaces, cr3: nat, h: RiruFormat.Header) returns (code: int)
    requires spaces.Valid() && cr3 in spaces.roles && spaces.roles[cr3].Pml4? && SectionsInRange(h)
    modifies spaces`roles, spaces.pmm`freePages, spaces.pmm.bitmap, spaces.mem
    ensures spaces.Valid() && (old(spaces.LowWindow()) ==> spaces.LowWindow())
    ensures Kept(old(spaces.mem[..]), spaces.mem[..], old(spaces.roles), spaces.roles)
    ensures OnlyRights(old(spaces.mem[..]), spaces.mem[..], cr3, PAGE_WRITABLE)
    ensures code == 0 || -9 <= code <= -7
    ensures code == -8 || code == -9 ==> SectionOpen(spaces.mem[..], cr3, h.codeVaddr, h.codeSize)
    ensures code == -9 ==> SectionOpen(spaces.mem[..], cr3, h.rodataVaddr, h.rodataSize)
    ensures code == 0 ==> FileSectionsOpen(spaces.mem[..], cr3, h)
    ensures old(Ready(spaces.mem[..], spaces.roles, spaces.kernelPml4)) ==>
              && code == 0 && spaces.pmm.freePages == old(spaces.pmm.freePages)
              && Quiet(old(spaces.mem[..]), spaces.mem[..], old(spaces.roles), spaces.roles, spaces.kernelPml4)
  {
    hide OnlyRights;
    hide WellFormed, FrameAllocator.Free, FrameAllocator.Counted, LowShared, Ready, SamePhysical, Kept, SectionOpen;
    hide RiruLoad.InUserRange;
    ghost var m, r0, kernel := spaces.mem[..], spaces.roles, spaces.kernelPml4;
    var result := MapSection(spaces, cr3, h.codeVaddr, h.codeSize);
    ghost var n, r1 := spaces.mem[..], spaces.roles;
    if result != 0 {
      return -7;
    }
    RootKept(m, n, r0, r1, cr3);
    result := MapSection(spaces, cr3, h.rodataVaddr, h.rodataSize);
    ghost var o, r2 := spaces.mem[..], spaces.roles;
    SectionDone(m, n, o, r0, r1, r2, kernel);
    OnlyRightsTrans(m, n, o, cr3, PAGE_WRITABLE);
    SectionStays(n, o, r1, r2, cr3, h.codeVaddr, h.codeSize);
    if result != 0 {
      return -8;
    }
    RootKept(n, o, r1, r2, cr3);
    result := MapSection(spaces, cr3, h.dataVaddr, h.dataSize);
    SectionDone(m, o, spaces.mem[..], r0, r2, spaces.roles, kernel);
    OnlyRightsTrans(m, o, spaces.mem[..], cr3, PAGE_WRITABLE);
    SectionStays(o, spaces.mem[..], r2, spaces.roles, cr3, h.codeVaddr, h.codeSize);
    SectionStays(o, spaces.mem[..], r2, spaces.roles, cr3, h.rodataVaddr, h.rodataSize);
    if result != 0 {
      return -9;
    }
    return 0;
  }

  /** The sections, the zeroed memory and the stack, in this order. */
  method MapWholeProgram(spaces: AddressSpaces, cr3: nat, h: RiruFormat.Header) returns (code: int)
    requires spaces.Valid() && cr3 in spaces.roles && spaces.roles[cr3].Pml4? && SectionsInRange(h)
    modifies spaces`roles, spaces.pmm`freePages, spaces.pmm.bitmap, spaces.mem
    ensures spaces.Valid() && (old(spaces.LowWindow()) ==> spaces.LowWindow())
    ensures Kept(old(spaces.mem[..]), spaces.mem[..], old(spaces.roles), spaces.roles)
    ensures OnlyRights(old(spaces.mem[..]), spaces.mem[..], cr3, PAGE_WRITABLE)
    ensures code == 0 || -12 <= code <= -7
    ensures code == -8 || code == -9 ==> SectionOpen(spaces.mem[..], cr3, h.codeVaddr, h.codeSize)
    ensures code == -9 ==> SectionOpen(spaces.mem[..], cr3, h.rodataVaddr, h.rodataSize)
    ensures -12 <= code <= -10 ==> FileSectionsOpen(spaces.mem[..], cr3, h)
    ensures code == -12 ==> SectionOpen(spaces.mem[..], cr3, ZerosAt(h), h.bssSize)
    ensures code == 0 ==> ProgramOpen(spaces.mem[..], cr3, h)
    ensures code == -10 ==> !RiruLoad.InUserRange(ZerosAt(h), h.bssSize)
    ensures old(Ready(spaces.mem[..], spaces.roles, spaces.kernelPml4)) ==>
              && code == (if RiruLoad.InUserRange(ZerosAt(h), h.bssSize) then 0 else -10)
              && spaces.pmm.freePages == old(spaces.pmm.freePages)
              && Quiet(old(spaces.mem[..]), spaces.mem[..], old(spaces.roles), spaces.roles, spaces.kernelPml4)
  {
    hide OnlyRights;
    hide WellFormed, FrameAllocator.Free, FrameAllocator.Counted, LowShared, Ready, SamePhysical, Kept, SectionOpen;
    hide ZerosAt;
    ghost var m, r0, kernel := spaces.mem[..], spaces.roles, spaces.kernelPml4;
    code := MapFileSections(spaces, cr3, h);
    if code != 0 {
      return;
    }
    ghost var n, r1 := spaces.mem[..], spaces.roles;
    RootKept(m, n, r0, r1, cr3);
    var bssStart := if h.bssSize != 0 then ZerosAt(h) else 0;
    if h.bssSize != 0 && !RiruLoad.InUserRange(bssStart, h.bssSize) {
      return -10;
    }
    var result := MapSection(spaces, cr3, bssStart, h.bssSize);
    ghost var o, r2 := spaces.mem[..], spaces.roles;
    SectionDone(m, n, o, r0, r1, r2, kernel);
    OnlyRightsTrans(m, n, o, cr3, PAGE_WRITABLE);
    FileSectionsStay(n, o, r1, r2, cr3, h);
    if result != 0 {
      return -11;
    }
    RootKept(n, o, r1, r2, cr3);
    NoZeros(o, cr3, h);
    result := MapSection(spaces, cr3, USER_STACK_TOP - USER_STACK_SIZE, USER_STACK_SIZE);
    SectionDone(m, o, spaces.mem[..], r0, r2, spaces.roles, kernel);
    OnlyRightsTrans(m, o, spaces.mem[..], cr3, PAGE_WRITABLE);
    FileSectionsStay(o, spaces.mem[..], r2, spaces.roles, cr3, h);
    SectionStays(o, spaces.mem[..], r2, spaces.roles, cr3, ZerosAt(h), h.bssSize);
    if result != 0 {
      return -12;
    }
    return 0;
  }

  ghost predicate FileSectionsOpen(n: Memory, root: nat, h: RiruFormat.Header) {
    && SectionOpen(n, root, h.codeVaddr, h.codeSize) && SectionOpen(n, root, h.rodataVaddr, h.rodataSize)
    && SectionOpen(n, root, h.dataVaddr, h.dataSize)
  }

  lemma FileSectionsStay(m: Memory, n: Memory, roles: Roles, roles': Roles, root: nat, h: RiruFormat.Header)
    requires Kept(m, n, roles, roles') && root in roles && roles[root].Pml4? && FileSectionsOpen(m, root, h)
    ensures FileSectionsOpen(n, root, h)
  {
    hide Kept, SectionOpen;
    SectionStays(m, n, roles, roles', root, h.codeVaddr, h.codeSize);
    SectionStays(m, n, roles, roles', root, h.rodataVaddr, h.rodataSize);
    SectionStays(m, n, roles, roles', root, h.dataVaddr, h.dataSize);
  }

  lemma NoZeros(m: Memory, root: nat, h: RiruFormat.Header)
    ensures h.bssSize == 0 ==> SectionOpen(m, root, ZerosAt(h), h.bssSize)
  {
  }

  /** riru_load from vmm_create_user_space to the stores.  Over a prepared kernel that maps its screen it takes one
      frame, and fails only if there is none or the zeroed memory leaves the user range. */
  method SetUpProgram(spaces: AddressSpaces, fbAddr: nat, fbSize: nat, h: RiruFormat.Header)
    returns (code: int, cr3: nat)
    requires spaces.Valid() && spaces.kernelPml4 in spaces.roles && spaces.roles[spaces.kernelPml4].Pml4?
    requires fbAddr + fbSize + 2 * PAGE_SIZE <= 0x1_0000_0000_0000_0000 && SectionsInRange(h)
    modifies spaces`roles, spaces.pmm`freePages, spaces.pmm.bitmap, spaces.mem
    ensures spaces.Valid() && -12 <= code <= 0
    ensures Kept(old(spaces.mem[..]), spaces.mem[..], old(spaces.roles), spaces.roles)
    ensures code == 0 ==>
              && cr3 in spaces.roles && spaces.roles[cr3].Pml4? && cr3 !in old(spaces.roles)
              && ProgramOpen(spaces.mem[..], cr3, h)
    ensures old(spaces.pmm.freePages) == 0 ==> code == -6
    ensures old(Ready(spaces.mem[..], spaces.roles, spaces.kernelPml4)) && old(spaces.pmm.freePages) > 0
            && fbAddr + fbSize + 2 * PAGE_SIZE <= 0x80_0000_0000
            && old(ScreenMapped(spaces.mem[..], spaces.kernelPml4, fbAddr, fbSize)) ==>
              && (RiruLoad.ImageBase(h) != 0xFFFF_FFFF_FFFF_FFFF ==> code == RiruLoad.CheckCode(h, 0))
              && spaces.pmm.freePages >= old(spaces.pmm.freePages) - 1
              && Ready(spaces.mem[..], spaces.roles, spaces.kernelPml4)
  {
    hide OnlyRights;
    hide WellFormed, FrameAllocator.Free, FrameAllocator.Counted, LowShared, Ready, SamePhysical, Kept, ProgramOpen;
    hide PagesKept, SupervisorKept, SharesSlots, SlotsClosed, SpaceAdded, ScreenBlocked, ScreenMapped, NoUserSlots;
    hide ScreenWritable;
    ghost var m, r0, f0, kernel := spaces.mem[..], spaces.roles, spaces.pmm.Free(), spaces.kernelPml4;
    ghost var ready, root := Ready(m, r0, kernel), 0;
    cr3, root := spaces.CreateUserSpace(fbAddr, fbSize);
    ghost var n, r1 := spaces.mem[..], spaces.roles;
    SpaceKept(m, n, r0, r1, f0, spaces.pmm.Free(), root, cr3);
    if cr3 == 0 {
      return -6, 0;
    }
    if ready {
      ReadyIsShared(m, r0, kernel);
      StillReadyKept(m, n, r0, r1, kernel);
    }
    code := MapWholeProgram(spaces, cr3, h);
    KeptStep(m, n, spaces.mem[..], r0, r1, spaces.roles);
    RootKept(n, spaces.mem[..], r1, spaces.roles, cr3);
    if RiruLoad.ImageBase(h) != 0xFFFF_FFFF_FFFF_FFFF {
      SpaceChecks(h);
    }
  }

  lemma SpaceKept(m: Memory, n: Memory, roles: Roles, roles': Roles, free: set<nat>, free': set<nat>, root: nat,
                  user: nat)
    requires root == 0 ==> m == n && roles == roles'
    requires root != 0 ==> SpaceAdded(m, n, roles, roles', free, free', root) && PagesKept(m, n, roles)
    requires user != 0 ==> user == root
    ensures Kept(m, n, roles, roles')
    ensures user != 0 ==> user in roles' && roles'[user].Pml4? && user !in roles
  {
    hide PagesKept, LinksKept, OthersUntouched;
    if root == 0 {
      NothingKept(m, roles, 0, 0, 0);
    }
  }

  lemma SpaceChecks(h: RiruFormat.Header)
    requires SectionsInRange(h) && RiruLoad.ImageBase(h) != 0xFFFF_FFFF_FFFF_FFFF
    ensures RiruLoad.CheckCode(h, 0) == if RiruLoad.InUserRange(ZerosAt(h), h.bssSize) then 0 else -10
  {
    hide RiruLoad.ImageBase, RiruLoad.ImageEnd, RiruLoad.BssStart;
  }
}
