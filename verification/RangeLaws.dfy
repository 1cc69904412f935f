/** The mapping loops of vmm.c: what many map_page_in calls do together.  Loop counters and bounds are
    numbers; each call converts the current address to a word. */
module RangeLaws {
  import opened Words
  import opened FrameSets
  import opened PageTables
  import opened TableStores
  import opened Translations
  import opened MapSteps
  import opened MapLaws
  import opened MapClosure

  /** Addresses from here on repeat the lower ones: the walk uses bits 0 to 47. */
  const ADDRESS_LIMIT: nat := 0x1_0000_0000_0000

  // ---- pages as numbers ------------------------------------------------------------------------------

  lemma PageOfNumber(a: nat)
    requires a < ADDRESS_LIMIT
    ensures Value(PageOf(ToWord(a))) == a / PAGE_SIZE
  {
    hide PageOf, ToWord, Value;
    ToWordValue(a);
    PageOfValue(ToWord(a));
  }

  lemma PageOfValue(w: Word)
    requires Value(w) < ADDRESS_LIMIT
    ensures Value(PageOf(w)) == Value(w) / PAGE_SIZE
  {
    hide PageOf, Value;
    PageValue(w);
    Below36Bits(w >> 12);
    PageOfIsMasked(w);
  }

  lemma PageOfIsMasked(w: Word)
    ensures PageOf(w) == (w >> 12) & 0xF_FFFF_FFFF
  {
  }

  lemma SamePageNumber(v: Word, w: Word)
    ensures PageOf(v) == PageOf(w) <==> Value(PageOf(v)) == Value(PageOf(w))
  {
    if Value(PageOf(v)) == Value(PageOf(w)) {
      ValueInjective(PageOf(v), PageOf(w));
    }
    hide PageOf;
  }

  /** The address of word w in the page whose base is `base`. */
  function AtOffset(base: Word, w: Word): Word {
    (base & PAGE_MASK) + (w & 0xFFF)
  }

  /** An address is its page's base plus its offset. */
  lemma BasePlusOffset(w: Word, base: Word)
    requires PageAligned(base) && w >> 12 == base >> 12 && base & PAGE_MASK == base
    ensures AtOffset(base, w) == w
  {
  }

  lemma AddressFieldOf48Bits(base: Word)
    requires base <= 0xFFFF_FFFF_FFFF && PageAligned(base)
    ensures base & PAGE_MASK == base
  {
  }

  lemma Small48(b: Word)
    requires Value(b) < ADDRESS_LIMIT
    ensures b <= 0xFFFF_FFFF_FFFF
  {
  }

  lemma AddressOnPage(a: nat, base: nat)
    requires a < ADDRESS_LIMIT && base % PAGE_SIZE == 0 && base <= a < base + PAGE_SIZE
    ensures PageAligned(ToWord(base)) && AtOffset(ToWord(base), ToWord(a)) == ToWord(a)
  {
    hide ToWord, Value, PageAligned, AtOffset;
    ToWordValue(base);
    ToWordValue(a);
    WordOnPage(ToWord(a), ToWord(base));
  }

  lemma WordOnPage(w: Word, base: Word)
    requires Value(base) % PAGE_SIZE == 0 && Value(w) / PAGE_SIZE == Value(base) / PAGE_SIZE
             && Value(base) < ADDRESS_LIMIT
    ensures PageAligned(base) && AtOffset(base, w) == w
  {
    PageMultiple(base);
    SameQuotient(w, base);
    Small48(base);
    hide Value, PageAligned, AtOffset;
    AddressFieldOf48Bits(base);
    BasePlusOffset(w, base);
  }

  lemma SameQuotient(v: Word, w: Word)
    requires Value(v) / PAGE_SIZE == Value(w) / PAGE_SIZE
    ensures v >> 12 == w >> 12
  {
    PageValue(v);
    PageValue(w);
    ValueInjective(v >> 12, w >> 12);
  }

  // ---- ranges of pages -------------------------------------------------------------------------------

  /** The address i pages after a. */
  function Nth(a: nat, i: nat): nat {
    a + i * PAGE_SIZE
  }

  /** Addresses on the `count` pages starting at address v. */
  predicate InPages(w: Word, v: nat, count: nat) {
    v / PAGE_SIZE <= Value(PageOf(w)) < v / PAGE_SIZE + count
  }

  /** Where a linear mapping of v to p sends the page of address w. */
  function Target(w: Word, v: nat, p: nat): nat
    requires v / PAGE_SIZE <= Value(PageOf(w))
  {
    Nth(p, Value(PageOf(w)) - v / PAGE_SIZE)
  }

  /** The first `count` pages from v go linearly to the frames from p. */
  ghost predicate LinearOn(n: Memory, root: nat, v: nat, p: nat, count: nat) {
    forall w: Word :: InPages(w, v, count) ==>
      Target(w, v, p) < 0x1_0000_0000_0000_0000 && Physical(n, root, w) == AtOffset(ToWord(Target(w, v, p)), w)
  }

  /** Addresses on other pages go where they went, in every address space. */
  ghost predicate SameOutside(m: Memory, n: Memory, roles: Roles, v: nat, count: nat) {
    forall r, w: Word :: r in roles && roles[r].Pml4? && !InPages(w, v, count) ==>
      Physical(n, r, w) == Physical(m, r, w)
  }

  /** Flags without bits in the address field. */
  predicate FlagsOnly(flags: Word) {
    flags & PAGE_MASK == 0
  }

  lemma FlagsKeepAddress(t: Translation, pa: Word, flags: Word)
    requires FlagsOnly(flags)
    ensures MappedFrame(t, pa, flags) == pa & PAGE_MASK
  {
    assert (pa | flags) & PAGE_MASK == (pa & PAGE_MASK) | (flags & PAGE_MASK);
  }

  ghost predicate OtherPagesStay(m: Memory, n: Memory, roles: Roles, va: Word) {
    forall r, w: Word :: r in roles && roles[r].Pml4? && PageOf(w) != PageOf(va) ==>
      Physical(n, r, w) == Physical(m, r, w)
  }

  /** One more page of a mapping loop. */
  lemma OutsideStep(m: Memory, n: Memory, o: Memory, r0: Roles, r1: Roles, r2: Roles, f1: set<nat>, f2: set<nat>,
                    root: nat, v: nat, count: nat, pa: Word, flags: Word, freeCount: nat)
    requires v % PAGE_SIZE == 0 && Nth(v, count) < ADDRESS_LIMIT
    requires root in r1 && r1[root].Pml4? && forall f :: f in r0 ==> f in r1 && r1[f] == r0[f]
    requires SameOutside(m, n, r0, v, count)
    requires MapResult(n, root, ToWord(Nth(v, count)), pa, freeCount) == 0
    requires MapEffect(n, o, r1, r2, f1, f2, root, ToWord(Nth(v, count)), pa, flags, 0)
    ensures SameOutside(m, o, r0, v, count + 1)
  {
    var va := ToWord(Nth(v, count));
    hide Physical, MapEffect, MapResult, PageOf, PathOf, ToWord, Value, InPages, SameOutside, OtherPagesStay, Nth;
    OnePageMapped(n, o, r1, r2, f1, f2, root, va, pa, flags, freeCount);
    NthPage(v, count);
    PageOfNumber(Nth(v, count));
    OutsideShrinks(m, n, o, r0, r1, v, count, va);
  }

  lemma OutsideShrinks(m: Memory, n: Memory, o: Memory, r0: Roles, r1: Roles, v: nat, count: nat, va: Word)
    requires Value(PageOf(va)) == v / PAGE_SIZE + count
    requires forall f :: f in r0 ==> f in r1 && r1[f] == r0[f]
    requires OtherPagesStay(n, o, r1, va)
    requires SameOutside(m, n, r0, v, count)
    ensures SameOutside(m, o, r0, v, count + 1)
  {
    hide Physical, PageOf, Value, InPages;
    forall r, w: Word | r in r0 && r0[r].Pml4? && !InPages(w, v, count + 1)
      ensures Physical(o, r, w) == Physical(m, r, w)
    {
      NewestPage(w, va, v, count);
    }
  }

  lemma NthPage(v: nat, count: nat)
    requires v % PAGE_SIZE == 0
    ensures Nth(v, count) / PAGE_SIZE == v / PAGE_SIZE + count && Nth(v, count) % PAGE_SIZE == 0
  {
  }

  lemma NewestPage(w: Word, va: Word, v: nat, count: nat)
    requires Value(PageOf(va)) == v / PAGE_SIZE + count
    ensures PageOf(w) == PageOf(va) <==> InPages(w, v, count + 1) && !InPages(w, v, count)
    ensures InPages(w, v, count) ==> InPages(w, v, count + 1)
  {
    SamePageNumber(w, va);
    hide PageOf, Value;
  }

  /** A successful call moves no page but its own. */
  lemma OnePageMapped(m: Memory, n: Memory, roles: Roles, roles': Roles, free: set<nat>, free': set<nat>,
                      root: nat, va: Word, pa: Word, flags: Word, freeCount: nat)
    requires root in roles && roles[root].Pml4? && MapResult(m, root, va, pa, freeCount) == 0
    requires MapEffect(m, n, roles, roles', free, free', root, va, pa, flags, 0)
    ensures OtherPagesStay(m, n, roles, va)
  {
    hide Physical, MapEffect, MapResult, PageOf, MappedFrame, Lookup, PathOf;
    MapUpdatesTranslation(m, n, roles, roles', free, free', root, va, pa, flags, freeCount);
  }

  lemma SamePagesOnFailure(m: Memory, n: Memory, o: Memory, r0: Roles, r1: Roles, r2: Roles, f1: set<nat>, f2: set<nat>,
                           root: nat, v: nat, count: nat, va: Word, pa: Word, flags: Word, result: int)
    requires root in r1 && forall f :: f in r0 ==> f in r1 && r1[f] == r0[f]
    requires SameOutside(m, n, r0, v, count) && result != 0
    requires MapEffect(n, o, r1, r2, f1, f2, root, va, pa, flags, result)
    ensures SameOutside(m, o, r0, v, count)
  {
    hide Physical, MapEffect, InPages;
    FailedMapKeepsTranslations(n, o, r1, r2, f1, f2, root, va, pa, flags, result);
  }

  /** A linear mapping of [v, v + count pages) onto itself sends every address to itself. */
  lemma LinearIsIdentity(n: Memory, root: nat, v: nat, count: nat, a: nat)
    requires LinearOn(n, root, v, v, count) && v % PAGE_SIZE == 0 && v <= a < Nth(v, count) <= ADDRESS_LIMIT
    ensures Physical(n, root, ToWord(a)) == ToWord(a)
  {
    hide Physical, PageOf, ToWord, Value, AtOffset;
    PageOfNumber(a);
    var base := a / PAGE_SIZE * PAGE_SIZE;
    assert InPages(ToWord(a), v, count);
    assert Target(ToWord(a), v, v) == base;
    AddressOnPage(a, base);
  }

  /** A range of aligned pages below the 48-bit limit, with flags that leave the address field alone. */
  predicate Plain(v: nat, p: nat, pages: nat, flags: Word) {
    v % PAGE_SIZE == 0 && Nth(v, pages) <= ADDRESS_LIMIT && FlagsOnly(flags)
  }

  lemma NthBelow(a: nat, i: nat, n: nat)
    requires i < n
    ensures Nth(a, i) < Nth(a, n)
  {
  }

  lemma PlainAt(v: nat, p: nat, pages: nat, flags: Word, i: nat)
    requires Plain(v, p, pages, flags) && i < pages
    ensures v % PAGE_SIZE == 0 && Nth(v, i) < ADDRESS_LIMIT && FlagsOnly(flags)
  {
    NthBelow(v, i, pages);
    hide Nth, FlagsOnly;
  }

  lemma NothingInRange(m: Memory, roles: Roles, root: nat, v: nat, p: nat)
    ensures SameOutside(m, m, roles, v, 0) && LinearOn(m, root, v, p, 0)
  {
    hide Physical, PageOf, Value;
  }

  /** The frames met on a walk lie in memory. */
  lemma WalkInMemory(m: Memory, roles: Roles, root: nat, p: Path)
    requires WellFormed(m, roles) && root in roles && roles[root].Pml4? && InRange(p)
    ensures root < MAX_PAGES
    ensures Present(E4(m, root, p)) ==> FrameOf(E4(m, root, p)) < MAX_PAGES
    ensures Present(E4(m, root, p)) && Present(E3(m, root, p)) ==> FrameOf(E3(m, root, p)) < MAX_PAGES
    ensures PtOf(m, root, p).Some? ==> FrameOf(E2(m, root, p)) < MAX_PAGES
  {
    hide Entry, FrameOf, Present, Huge, UserClosed;
    WalkRoles(m, roles, root, p);
  }

  // ---- unmapping -------------------------------------------------------------------------------------

  /** No PML4 entry differs. */
  ghost predicate RootsSame(m: Memory, n: Memory, roles: Roles) {
    forall r, i: nat :: r in roles && roles[r].Pml4? && i < ENTRIES ==> Entry(n, r, i) == Entry(m, r, i)
  }

  /** Clearing the page-table entry for p: the page disappears from every address space whose walk for it
      ends in the same page table; nothing else changes. */
  ghost predicate UnmapEffect(m: Memory, n: Memory, roles: Roles, root: nat, p: Path) {
    && WellFormed(n, roles) && LinksKept(m, n, roles) && OthersUntouched(m, n, roles) && RootsSame(m, n, roles)
    && forall r, q :: r in roles && roles[r].Pml4? && InRange(q) ==>
         Lookup(n, r, q) == if q == p && PtOf(m, root, p).Some? && PtOf(m, r, q) == PtOf(m, root, p) then Unmapped
                            else Lookup(m, r, q)
  }

  lemma UnmapKeeps(m: Memory, n: Memory, roles: Roles, root: nat, p: Path)
    requires UnmapEffect(m, n, roles, root, p)
    ensures WellFormed(n, roles)
  {
  }

  lemma NothingToUnmap(m: Memory, roles: Roles, root: nat, p: Path)
    requires WellFormed(m, roles) && PtOf(m, root, p).None?
    ensures UnmapEffect(m, m, roles, root, p)
  {
    hide Entry, Present, Huge, FrameOf, WellFormed, Lookup, PtOf;
  }

  lemma LeafCleared(m: Memory, roles: Roles, root: nat, p: Path)
    requires WellFormed(m, roles) && root in roles && roles[root].Pml4? && InRange(p) && PtOf(m, root, p).Some?
    ensures PtOf(m, root, p).value < MAX_PAGES
    ensures UnmapEffect(m, Store(m, PtOf(m, root, p).value, p.d, 0), roles, root, p)
  {
    var pt := PtOf(m, root, p).value;
    WalkRoles(m, roles, root, p);
    ZeroIsAbsent();
    hide Entry, FrameOf, Present, Huge, Writable, User, Store, UserClosed, Hangs, UserAbove, Lookup, PtOf, LinksKept;
    RewriteKeepsTree(m, roles, pt, p.d, 0);
    RewriteKeepsClosure(m, roles, pt, p.d, 0);
    EntryOfStore(m, pt, p.d, 0);
    LookupsCleared(m, roles, root, p, pt);
  }

  lemma LookupsCleared(m: Memory, roles: Roles, root: nat, p: Path, pt: nat)
    requires Rewritable(m, roles, pt, p.d, 0) && PtOf(m, root, p) == Some(pt)
    requires root in roles && roles[root].Pml4? && InRange(p) && pt in roles && roles[pt].Pt?
    ensures forall r, q :: r in roles && roles[r].Pml4? && InRange(q) ==>
              Lookup(Store(m, pt, p.d, 0), r, q) ==
                if q == p && PtOf(m, r, q) == PtOf(m, root, p) then Unmapped else Lookup(m, r, q)
  {
    RewriteLookups(m, roles, pt, p.d, 0);
    WalkRoles(m, roles, root, p);
    ZeroIsAbsent();
    hide Entry, FrameOf, Present, Huge, Store, Tree, UserClosed, UserAbove, Lookup, PtOf, Rewritable;
    forall r, q | r in roles && roles[r].Pml4? && InRange(q)
      ensures Lookup(Store(m, pt, p.d, 0), r, q) ==
                if q == p && PtOf(m, r, q) == PtOf(m, root, p) then Unmapped else Lookup(m, r, q)
    {
      SameTableSamePath(m, roles, root, p, r, q, pt);
    }
  }

  /** Two walks that end in the same page table have the same upper indices. */
  lemma SameTableSamePath(m: Memory, roles: Roles, root: nat, p: Path, r: nat, q: Path, pt: nat)
    requires Rewritable(m, roles, pt, p.d, 0)
    requires root in roles && roles[root].Pml4? && InRange(p) && PtOf(m, root, p) == Some(pt)
    requires r in roles && roles[r].Pml4? && InRange(q)
    ensures PtOf(m, r, q) == Some(pt) && p.d == q.d ==> p == q
  {
    WalkRoles(m, roles, root, p);
    WalkRoles(m, roles, r, q);
    hide Entry, FrameOf, Present, Huge, Store, Tree, UserClosed, UserAbove, Lookup, PtOf, Rewritable;
  }

  // ---- a new address space ---------------------------------------------------------------------------

  /** Which PML4 slots vmm_create_user_space copies from the kernel. */
  predicate CopiedSlot(i: nat) {
    i == 0 || i >= 256
  }

  ghost predicate CopiedRoot(m: Memory, n: Memory, roles: Roles, kernel: nat, g: nat) {
    && AgreeOn(m, n, roles) && |n| == WORDS && g !in roles && 0 < g < MAX_PAGES
    && forall i: nat :: i < ENTRIES ==> Entry(n, g, i) == if CopiedSlot(i) then Entry(m, kernel, i) else 0
  }

  /** A new PML4 all of whose links fit keeps the tree and changes no translation. */
  lemma RootFits(m: Memory, n: Memory, roles: Roles, g: nat)
    requires WellFormed(m, roles) && AgreeOn(m, n, roles) && |n| == WORDS && g !in roles && 0 < g < MAX_PAGES
    requires forall i: nat :: i < ENTRIES ==> LinkFits(roles[g := Pml4], g, i, Entry(n, g, i))
    ensures WellFormed(n, roles[g := Pml4]) && SameLookups(m, n, roles) && LinksKept(m, n, roles)
  {
    hide Entry, FrameOf, Present, Huge, Writable, User, Hangs, Lookup;
    StoreElsewhere(m, n, roles);
    var roles' := roles[g := Pml4];
    forall h: nat, k: nat | h in roles' && k < ENTRIES
      ensures LinkFits(roles', h, k, Entry(n, h, k))
    {
      if h != g {
        assert LinkFits(roles, h, k, Entry(n, h, k));
      }
    }
    forall h | h in roles'
      ensures Hangs(n, roles', h)
    {
      if h == g {
        RootHangs(n, roles', g);
      } else {
        HangsKept(m, n, roles, roles', h);
      }
    }
    forall h: nat, k: nat, j: nat | h in roles' && !roles'[h].Pml4? && k < ENTRIES && j < ENTRIES
      ensures UserCovers(n, roles'[h], h, k, j)
    {
      assert UserCovers(n, roles[h], h, k, j);
    }
  }

  lemma RootHangs(n: Memory, roles: Roles, g: nat)
    requires g in roles && roles[g].Pml4?
    ensures Hangs(n, roles, g)
  {
  }

  /** Adding a PML4 whose slots are empty or copied keeps the tree, changes no translation, and keeps slot 0
      shared. */
  lemma RootAdded(m: Memory, n: Memory, roles: Roles, kernel: nat, g: nat)
    requires WellFormed(m, roles) && kernel in roles && roles[kernel].Pml4? && CopiedRoot(m, n, roles, kernel, g)
    ensures WellFormed(n, roles[g := Pml4])
    ensures SameLookups(m, n, roles) && LinksKept(m, n, roles)
    ensures LowShared(m, roles, kernel) ==> LowShared(n, roles[g := Pml4], kernel)
  {
    hide Entry, FrameOf, Present, Huge, Writable, UserClosed, Hangs, Lookup;
    ZeroIsAbsent();
    forall i: nat | i < ENTRIES
      ensures LinkFits(roles[g := Pml4], g, i, Entry(n, g, i))
    {
      assert LinkFits(roles, kernel, i, Entry(m, kernel, i));
    }
    RootFits(m, n, roles, g);
  }

  /** An empty PML4, the start of the kernel's address space. */
  lemma EmptyRootAdded(m: Memory, n: Memory, roles: Roles, g: nat)
    requires WellFormed(m, roles) && AgreeOn(m, n, roles) && |n| == WORDS && g !in roles && 0 < g < MAX_PAGES
    requires forall i: nat :: i < ENTRIES ==> Entry(n, g, i) == 0
    ensures WellFormed(n, roles[g := Pml4]) && LinksKept(m, n, roles)
  {
    hide Entry, FrameOf, Present, Huge, Writable, UserClosed, Hangs, Lookup;
    ZeroIsAbsent();
    RootFits(m, n, roles, g);
  }

  // ---- byte ranges -----------------------------------------------------------------------------------

  /** How many pages [va, va+size) touches. */
  function PagesTouched(va: nat, size: nat): nat {
    if size == 0 then 0 else (size + va % PAGE_SIZE + PAGE_SIZE - 1) / PAGE_SIZE
  }

  /** The pages mapped for a range are exactly those that share a byte with it. */
  lemma RangePages(va: nat, size: nat, p: nat)
    requires size > 0
    ensures PageTouches(p, va, size) <==>
            RoundDown(va) / PAGE_SIZE <= p < RoundDown(va) / PAGE_SIZE + PagesTouched(va, size)
  {
    TouchesByRounding(p, va, size);
  }

  lemma RangeFits(va: nat, size: nat)
    ensures Nth(RoundDown(va), (size + va % PAGE_SIZE + PAGE_SIZE - 1) / PAGE_SIZE) <= va + size + 2 * PAGE_SIZE
    ensures RoundDown(va) % PAGE_SIZE == 0
  {
  }

  lemma FourGigabytes()
    ensures Nth(0, MAX_PAGES) == MAX_PHYSICAL_MEMORY && Plain(0, 0, MAX_PAGES, PAGE_WRITABLE)
  {
  }

  lemma PartOfFourGigabytes(done: nat)
    requires done <= MAX_PAGES
    ensures Nth(0, done) <= MAX_PHYSICAL_MEMORY <= ADDRESS_LIMIT
  {
  }

  // ---- the shared low slot over whole operations -----------------------------------------------------

  lemma TrackedKeepsLow(m: Memory, n: Memory, roles: Roles, roles': Roles, free: set<nat>, free': set<nat>, kernel: nat)
    requires Tracked(m, n, roles, roles', free, free') && LowShared(m, roles, kernel)
    ensures LowShared(n, roles', kernel)
  {
    hide LinksKept, OthersUntouched, LowShared;
    LowStaysShared(m, n, roles, roles', kernel);
  }

  lemma UnmapKeepsLow(m: Memory, n: Memory, roles: Roles, root: nat, p: Path, kernel: nat)
    requires UnmapEffect(m, n, roles, root, p) && LowShared(m, roles, kernel)
    ensures LowShared(n, roles, kernel)
  {
    hide LinksKept, OthersUntouched, LowShared, WellFormed, Lookup;
    LowStaysShared(m, n, roles, roles, kernel);
  }

  /** A kernel that translates some low address is the first to hold slot 0. */
  lemma FirstRootSharesLow(m: Memory, roles: Roles, kernel: nat)
    requires kernel in roles && roles[kernel].Pml4? && forall f :: f in roles && roles[f].Pml4? ==> f == kernel
    requires Physical(m, kernel, 0x1000) != 0
    ensures LowShared(m, roles, kernel)
  {
    LowAddressesUseSlotZero(0x1000);
    hide Entry, Present, Huge, FrameOf, PathOf, HugeAddress, PageAddress;
  }

  lemma SecondPage()
    ensures ToWord(0x1000) == 0x1000
  {
    ToWordValue(0x1000);
    hide ToWord;
    ValueInjective(ToWord(0x1000), 0x1000);
  }

  // ---- creating an address space as a whole ----------------------------------------------------------

  /** What is true after a PML4 g was added and then only mapped into. */
  ghost predicate SpaceAdded(m: Memory, n: Memory, roles: Roles, roles': Roles, free: set<nat>, free': set<nat>,
                             g: nat) {
    && (forall f :: f in roles ==> f in roles' && roles'[f] == roles[f])
    && g in roles' && roles'[g].Pml4? && g !in roles
    && free' + roles'.Keys == free + roles.Keys
    && LinksKept(m, n, roles) && OthersUntouched(m, n, roles')
  }

  lemma SpaceDone(m: Memory, m1: Memory, n: Memory, roles: Roles, roles': Roles, free: set<nat>, free': set<nat>,
                  g: nat)
    requires g in free && g !in roles && roles.Keys !! free
    requires LinksKept(m, m1, roles) && Tracked(m1, n, roles[g := Pml4], roles', free - {g}, free')
    requires forall f: nat, i: nat :: f != g && i < ENTRIES ==> Entry(m1, f, i) == Entry(m, f, i)
    ensures SpaceAdded(m, n, roles, roles', free, free', g)
  {
    LinksKeptTrans(m, m1, n, roles, roles[g := Pml4]);
    hide Entry, LinksKept;
    assert roles[g := Pml4].Keys == roles.Keys + {g};
    assert roles[g := Pml4].Keys !! free - {g};
    FramesConserved(roles[g := Pml4], roles', free - {g}, free');
    assert (free - {g}) + (roles.Keys + {g}) == free + roles.Keys;
  }

  lemma VgaFits()
    ensures Nth(0xB8000, 1) <= 0x1_0000_0000_0000_0000
  {
  }

}
