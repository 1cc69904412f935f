/** Setting up whole address spaces: the pages every one of them maps to itself, and the slots a user space copies. */
module SpaceSetup {
  import opened Words
  import opened FrameSets
  import opened PageTables
  import opened Translations
  import opened MapSteps
  import opened TableCounts
  import opened MapLaws
  import opened MapClosure
  import opened RangeLaws
  import opened RangeOutcomes

  // ---- the screen ------------------------------------------------------------------------------------

  /** The legacy text buffer. */
  const VGA: nat := 0xB8000

  /** How many pages the framebuffer touches; none when there is no framebuffer. */
  function FbPages(fbAddr: nat, fbSize: nat): nat {
    if fbAddr == 0 || fbSize == 0 then 0 else PagesBetween(fbAddr, fbAddr + fbSize)
  }

  /** Whole pages from the one that holds `start` to the end. */
  function PagesBetween(start: nat, end: nat): nat {
    if RoundUp(end) < RoundDown(start) then 0 else (RoundUp(end) - RoundDown(start)) / PAGE_SIZE
  }

  /** Exactly the pages that share a byte with the range. */
  lemma PagesBetweenAre(start: nat, end: nat, p: nat)
    requires start < end
    ensures PageTouches(p, start, end - start) <==>
            RoundDown(start) / PAGE_SIZE <= p < RoundDown(start) / PAGE_SIZE + PagesBetween(start, end)
  {
    TouchesByRounding(p, start, end - start);
  }

  lemma PagesBetweenFit(start: nat, end: nat)
    requires start <= end
    ensures RoundDown(start) % PAGE_SIZE == 0 && RoundDown(start) <= RoundUp(end)
    ensures Nth(RoundDown(start), PagesBetween(start, end)) <= end + PAGE_SIZE
    ensures PagesBetween(start, end) == (RoundUp(end) - RoundDown(start)) / PAGE_SIZE
  {
  }

  /** The text buffer and the framebuffer are mapped to themselves. */
  ghost predicate ScreenMapped(n: Memory, root: nat, fbAddr: nat, fbSize: nat) {
    && PagesMapped(n, root, 0xB8000, 0xB8000, 1)
    && PagesMapped(n, root, RoundDown(fbAddr), RoundDown(fbAddr), FbPages(fbAddr, fbSize))
  }

  /** The i-th page from v is mapped, but not to itself. */
  predicate Conflict(n: Memory, root: nat, v: nat, i: nat) {
    !Mappable(Lookup(n, root, PageAt(v, i)), WordAt(v, i))
  }

  /** What keeps the screen from being mapped: no frame left, or a page of it mapped elsewhere. */
  ghost predicate ScreenBlocked(n: Memory, root: nat, fbAddr: nat, fbSize: nat, free: nat) {
    || free == 0
    || Conflict(n, root, VGA, 0)
    || exists i: nat :: i < FbPages(fbAddr, fbSize) && Conflict(n, root, RoundDown(fbAddr), i)
  }

  /** A loop that maps pages to themselves stops for want of frames or at a conflict. */
  lemma StoppedAtConflict(n: Memory, root: nat, v: nat, i: nat, free: nat, code: int)
    requires v % PAGE_SIZE == 0 && Nth(v, i) < 0x1_0000_0000_0000_0000
    requires Stopped(n, root, WordAt(v, i), WordAt(v, i), free, code)
    ensures free == 0 || Conflict(n, root, v, i)
    ensures !MappedTo(Lookup(n, root, PageAt(v, i)), WordAt(v, i))
  {
    AlignedWord(v, i);
    hide Lookup, PathOf, WordAt, SameFrame;
  }

  /** Pages mapped already need no frame and stop no loop. */
  lemma {:induction false} MappedNeedNothing(m: Memory, root: nat, v: nat, count: nat, free: nat)
    requires PagesMapped(m, root, v, v, count) && v % PAGE_SIZE == 0
    ensures Enough(m, root, v, v, count, free) && |Missing(m, root, v, count)| == 0
    decreases count
  {
    hide Lookup, PageAt, WordAt, Lacked, Depth;
    if count > 0 {
      assert MappedTo(Lookup(m, root, PageAt(v, count - 1)), WordAt(v, count - 1));
      MappedNeedNothing(m, root, v, count - 1, free);
      PageHasTables(m, root, PageAt(v, count - 1));
    }
  }

  lemma PageHasTables(m: Memory, root: nat, q: Path)
    requires Lookup(m, root, q).Page?
    ensures Depth(m, root, q) == 3
  {
  }

  /** The screen may be written to. */
  ghost predicate ScreenWritable(n: Memory, root: nat, fbAddr: nat, fbSize: nat) {
    PagesWritable(n, root, 0xB8000, 1) && PagesWritable(n, root, RoundDown(fbAddr), FbPages(fbAddr, fbSize))
  }

  ghost predicate PagesWritable(n: Memory, root: nat, v: nat, count: nat) {
    forall i: nat :: i < count ==> LeafWritable(Lookup(n, root, PageAt(v, i)))
  }

  lemma LeavesAreWritable(m: Memory, n: Memory, root: nat, v: nat, p: nat, count: nat)
    requires LeavesWritten(m, n, root, v, p, count, PAGE_WRITABLE)
    ensures PagesWritable(n, root, v, count)
  {
    hide Lookup, PageAt, WordAt;
    forall i: nat | i < count
      ensures LeafWritable(Lookup(n, root, PageAt(v, i)))
    {
      NewLeafWritable(Lookup(m, root, PageAt(v, i)), WordAt(p, i), PAGE_WRITABLE);
    }
  }

  lemma NothingWritable(n: Memory, root: nat, v: nat)
    ensures PagesWritable(n, root, v, 0)
  {
  }

  lemma StillWritable(m: Memory, n: Memory, roles: Roles, roles': Roles, free: set<nat>, free': set<nat>, root: nat,
                      v: nat, count: nat)
    requires MapsKeep(m, n, roles, roles', free, free', root, PAGE_WRITABLE) && root in roles && roles[root].Pml4?
    ensures PagesWritable(m, root, v, count) ==> PagesWritable(n, root, v, count)
  {
    hide Tracked, Lookup, PageAt, SlotsClosed, SupervisorKept, SameFrame, Writable, User;
    forall i: nat | i < count && LeafWritable(Lookup(m, root, PageAt(v, i)))
      ensures LeafWritable(Lookup(n, root, PageAt(v, i)))
    {
      assert PageKept(Lookup(m, root, PageAt(v, i)), Lookup(n, root, PageAt(v, i)));
    }
  }

  lemma KeepsScreen(n: Memory, o: Memory, roles: Roles, root: nat, fbAddr: nat, fbSize: nat)
    requires PagesKept(n, o, roles) && root in roles && roles[root].Pml4? && ScreenMapped(n, root, fbAddr, fbSize)
    ensures ScreenMapped(o, root, fbAddr, fbSize)
  {
    hide PagesKept, PagesMapped, FbPages, RoundDown;
    KeepsMapped(n, o, roles, root, VGA, VGA, 1);
    KeepsMapped(n, o, roles, root, RoundDown(fbAddr), RoundDown(fbAddr), FbPages(fbAddr, fbSize));
  }

  // ---- an address space in which every page maps to itself -------------------------------------------

  /** The address of a page, from its number. */
  function PageBase(w: Word): Word {
    PageOf(w) << 12
  }

  predicate SelfOrNone(t: Translation, w: Word) {
    t.Unmapped? || (t.Page? && t.entry == PageBase(w) | 3)
  }

  /** Pages are mapped to themselves, present and writable and nothing else, or not at all. */
  ghost predicate SelfOnly(m: Memory, root: nat) {
    forall w: Word :: SelfOrNone(Lookup(m, root, PathOf(w)), w)
  }

  lemma BaseOfPage(va: Word)
    requires va <= 0xFFFF_FFFF_FFFF
    ensures va & PAGE_MASK == PageBase(va)
  {
  }

  lemma WordBelowLimit(v: nat, i: nat)
    requires Nth(v, i) < ADDRESS_LIMIT
    ensures WordAt(v, i) <= 0xFFFF_FFFF_FFFF
  {
    ToWordValue(Nth(v, i));
    Small48(ToWord(Nth(v, i)));
    hide ToWord, Nth, Value;
  }

  lemma EmptyIsSelfOnly(m: Memory, root: nat)
    requires forall i: nat :: i < ENTRIES ==> Entry(m, root, i) == 0
    ensures SelfOnly(m, root)
  {
    ZeroIsAbsent();
    hide Entry, Present, Huge, FrameOf, PageBase;
    forall w: Word
      ensures Lookup(m, root, PathOf(w)).Unmapped?
    {
      PathInRange(w);
      assert E4(m, root, PathOf(w)) == 0;
      hide PathOf;
    }
  }

  /** Mapping more pages to themselves keeps it so. */
  lemma SelfOnlyKept(m: Memory, n: Memory, root: nat, v: nat, count: nat)
    requires Plain(v, v, count, PAGE_WRITABLE) && SelfOnly(m, root)
    requires Elsewhere(m, n, root, v, count) && LeavesWritten(m, n, root, v, v, count, PAGE_WRITABLE)
    ensures SelfOnly(n, root)
  {
    hide Lookup, PageAt, WordAt, SelfOrNone, NewLeaf, Plain;
    forall w: Word
      ensures SelfOrNone(Lookup(n, root, PathOf(w)), w)
    {
      PathInRange(w);
      assert SelfOrNone(Lookup(m, root, PathOf(w)), w);
      if !NotAmong(PathOf(w), v, count) {
        var i: nat :| i < count && PathOf(w) == PageAt(v, i);
        PlainAt(v, v, count, PAGE_WRITABLE, i);
        MappedToItself(Lookup(m, root, PathOf(w)), v, i, w);
      }
      hide PathOf;
    }
  }

  lemma MappedToItself(t: Translation, v: nat, i: nat, w: Word)
    requires Nth(v, i) < ADDRESS_LIMIT && PathOf(w) == PageAt(v, i) && SelfOrNone(t, w)
    ensures SelfOrNone(Page(NewLeaf(t, WordAt(v, i), PAGE_WRITABLE)), w)
  {
    hide PathOf, WordAt, PageOf, SelfOrNone, NewLeaf;
    WordBelowLimit(v, i);
    SamePath(w, WordAt(v, i));
    BaseOfPage(WordAt(v, i));
    SelfLeaf(t, WordAt(v, i), w);
  }

  lemma SelfLeaf(t: Translation, pa: Word, w: Word)
    requires pa & PAGE_MASK == PageBase(w) && SelfOrNone(t, w)
    ensures SelfOrNone(Page(NewLeaf(t, pa, PAGE_WRITABLE)), w)
  {
    hide PageBase;
  }

  lemma BaseOfSelf(w: Word)
    ensures (PageBase(w) | 3) & PAGE_MASK == PageBase(w)
  {
  }

  /** The tables that mapping the kernel image, the framebuffer, the text buffer and 4 GB to themselves takes, each
      once. */
  function KernelTables(m: Memory, root: nat, kernelStart: nat, kernelEnd: nat, fbAddr: nat, fbSize: nat): set<Place> {
    Missing(m, root, RoundDown(kernelStart), PagesBetween(kernelStart, kernelEnd))
    + Missing(m, root, RoundDown(fbAddr), FbPages(fbAddr, fbSize))
    + Missing(m, root, VGA, 1) + Missing(m, root, 0, MAX_PAGES)
  }

  lemma RangeByRange(m: Memory, root: nat, kernelStart: nat, kernelEnd: nat, fbAddr: nat, fbSize: nat)
    ensures var all := KernelTables(m, root, kernelStart, kernelEnd, fbAddr, fbSize);
            var s3 := Missing(m, root, RoundDown(kernelStart), PagesBetween(kernelStart, kernelEnd))
                      + Missing(m, root, RoundDown(fbAddr), FbPages(fbAddr, fbSize));
            var s4 := s3 + Missing(m, root, VGA, 1);
            s3 <= all && s4 <= all && s4 + Missing(m, root, 0, MAX_PAGES) == all
  {
    hide Missing, RoundDown, FbPages, PagesBetween;
  }

  /** While nothing is in the way: the tables hung so far, and the frames they took. */
  ghost predicate HungSoFar(plain: bool, m: Memory, n: Memory, root: nat, s: set<Place>, atStart: nat, now: nat) {
    plain ==> SelfOnly(n, root) && Hung(m, n, root, s) && atStart == now + |s|
  }

  /** The next range. */
  lemma HungFurther(plain: bool, m: Memory, n: Memory, o: Memory, root: nat, s: set<Place>, v: nat, pages: nat,
                    atStart: nat, before: nat, now: nat, result: int)
    requires HungSoFar(plain, m, n, root, s, atStart, before)
    requires plain ==>
               && Nth(v, pages) <= ADDRESS_LIMIT && (SelfOnly(n, root) ==> SelfOnly(o, root))
               && (result == 0 <==> Enough(n, root, v, v, pages, before))
               && (result == 0 ==>
                     now + |Missing(n, root, v, pages)| == before && Hung(n, o, root, Missing(n, root, v, pages)))
    ensures var t := s + Missing(m, root, v, pages);
            && (plain ==> (result == 0 <==> |t| <= atStart))
            && (result == 0 ==> HungSoFar(plain, m, o, root, t, atStart, now))
  {
    hide Hung, Missing, Enough, SelfOnly, AllMappable, Nth;
    if plain {
      SelfOnlyMappable(n, root, v, pages);
      RangeConsumes(m, n, o, root, s, v, pages, atStart, before, now, result);
    }
  }

  lemma NoRange(m: Memory, root: nat, v: nat, s: set<Place>)
    ensures s + Missing(m, root, v, 0) == s
  {
  }

  lemma HungAtFirst(plain: bool, m: Memory, root: nat, atStart: nat)
    requires plain ==> SelfOnly(m, root)
    ensures HungSoFar(plain, m, m, root, {}, atStart, atStart)
  {
    hide SelfOnly, Hung;
    NothingHung(m, root);
  }

  /** Too few frames for some of the ranges are too few for all. */
  lemma TooFewFor(s: set<Place>, all: set<Place>, free: nat)
    requires s <= all && |s| > free
    ensures |all| > free
  {
    SubsetCount(s, all);
  }

  lemma SelfOnlyMappable(m: Memory, root: nat, v: nat, pages: nat)
    requires SelfOnly(m, root) && Nth(v, pages) <= ADDRESS_LIMIT
    ensures AllMappable(m, root, v, v, pages)
  {
    hide SelfOnly, Lookup, Mappable, WordAt, PageAt;
    forall i: nat | i < pages
      ensures Mappable(Lookup(m, root, PageAt(v, i)), WordAt(v, i))
    {
      NthBelow(v, i, pages);
      SelfOnlyNoConflict(m, root, v, i);
    }
  }

  /** In such a space no page stands in the way of mapping it to itself. */
  lemma SelfOnlyNoConflict(m: Memory, root: nat, v: nat, i: nat)
    requires SelfOnly(m, root) && Nth(v, i) < ADDRESS_LIMIT
    ensures !Conflict(m, root, v, i)
  {
    WordBelowLimit(v, i);
    BaseOfPage(WordAt(v, i));
    BaseOfSelf(WordAt(v, i));
    assert SelfOrNone(Lookup(m, root, PathOf(WordAt(v, i))), WordAt(v, i));
    hide Lookup, PathOf, WordAt, PageBase, SelfOnly;
  }

  // ---- a user space's slots --------------------------------------------------------------------------

  /** Slot 0 and slots 256 to 511, where the kernel uses them, lead to the kernel's tables, in the state now. */
  ghost predicate SharesSlots(m: Memory, n: Memory, kernel: nat, g: nat) {
    forall i: nat :: i < 512 && (i == 0 || 256 <= i) && Present(Entry(m, kernel, i)) ==>
      Present(Entry(n, g, i)) && FrameOf(Entry(n, g, i)) == FrameOf(Entry(m, kernel, i))
  }

  /** The walks of a copied root are the kernel's in the copied slots; there are none in the others. */
  lemma CopiedLookup(m: Memory, n: Memory, roles: Roles, kernel: nat, g: nat, q: Path)
    requires WellFormed(m, roles) && kernel in roles && roles[kernel].Pml4? && CopiedRoot(m, n, roles, kernel, g)
             && InRange(q)
    ensures Lookup(n, g, q) == if CopiedSlot(q.a) then Lookup(m, kernel, q) else Unmapped
    ensures CopiedSlot(q.a) ==> E4(n, g, q) == E4(m, kernel, q)
  {
    ZeroIsAbsent();
    hide Entry, Present, Huge, FrameOf;
    WalkRoles(m, roles, kernel, q);
  }

  /** Zeroing the new frame first changes nothing about what it copies. */
  lemma CopiedFrom(m: Memory, zeroed: Memory, n: Memory, roles: Roles, kernel: nat, g: nat)
    requires forall f: nat, i: nat :: f != g && i < ENTRIES ==> Entry(zeroed, f, i) == Entry(m, f, i)
    requires kernel in roles && CopiedRoot(zeroed, n, roles, kernel, g)
    ensures CopiedRoot(m, n, roles, kernel, g)
  {
    hide Entry;
  }

  lemma CopiedIsClosed(m: Memory, n: Memory, roles: Roles, kernel: nat, g: nat)
    requires WellFormed(m, roles) && kernel in roles && roles[kernel].Pml4? && CopiedRoot(m, n, roles, kernel, g)
    ensures SlotsClosed(m, kernel) ==> SlotsClosed(n, g)
  {
    hide Entry, Present, Huge, FrameOf, User, Lookup, WellFormed, CopiedRoot;
    if SlotsClosed(m, kernel) {
      forall q | InRange(q) && LeafUser(Lookup(n, g, q))
        ensures User(E4(n, g, q))
      {
        CopiedLookup(m, n, roles, kernel, g, q);
      }
    }
  }

  /** Addresses of the low window use slot 0. */
  lemma LowPageSlot(v: nat, i: nat)
    requires Nth(v, i) < 0x80_0000_0000
    ensures PageAt(v, i).a == 0
  {
    LowWordSlot(Nth(v, i));
  }

  lemma LowWordSlot(a: nat)
    requires a < 0x80_0000_0000
    ensures PathOf(ToWord(a)).a == 0
  {
    ToWordValue(a);
    LowValueSmall(ToWord(a));
    LowAddressesUseSlotZero(ToWord(a));
    hide ToWord, Value;
  }

  lemma LowValueSmall(b: Word)
    requires Value(b) < 0x80_0000_0000
    ensures b < 0x80_0000_0000
  {
  }

  /** What the kernel maps in the low window the copied root maps too. */
  lemma CopiedPages(m: Memory, n: Memory, roles: Roles, kernel: nat, g: nat, v: nat, p: nat, count: nat)
    requires WellFormed(m, roles) && kernel in roles && roles[kernel].Pml4? && CopiedRoot(m, n, roles, kernel, g)
    requires Nth(v, count) <= 0x80_0000_0000 && PagesMapped(m, kernel, v, p, count)
    ensures PagesMapped(n, g, v, p, count)
  {
    hide Lookup, WordAt, PageAt, CopiedRoot, WellFormed, MappedTo;
    forall i: nat | i < count
      ensures MappedTo(Lookup(n, g, PageAt(v, i)), WordAt(p, i))
    {
      NthBelow(v, i, count);
      LowPageSlot(v, i);
      CopiedLookup(m, n, roles, kernel, g, PageAt(v, i));
    }
  }

  /** No slot is open to ring 3. */
  ghost predicate NoUserSlots(m: Memory, root: nat) {
    forall i: nat :: i < ENTRIES ==> !UserSlot(m, root, i)
  }

  lemma EmptyHasNoUserSlots(m: Memory, root: nat)
    requires forall i: nat :: i < ENTRIES ==> Entry(m, root, i) == 0
    ensures NoUserSlots(m, root)
  {
    ZeroIsAbsent();
    hide Entry, Present, User;
  }

  lemma CopiedHasNoUserSlots(m: Memory, n: Memory, roles: Roles, kernel: nat, g: nat)
    requires CopiedRoot(m, n, roles, kernel, g) && NoUserSlots(m, kernel)
    ensures NoUserSlots(n, g)
  {
    ZeroIsAbsent();
    hide Entry, Present, User;
    forall i: nat | i < ENTRIES
      ensures !UserSlot(n, g, i)
    {
      assert !UserSlot(m, kernel, i);
    }
  }

  lemma StillNoUserSlots(m: Memory, n: Memory, roles: Roles, root: nat)
    requires SlotsSame(m, n, roles) && root in roles && roles[root].Pml4? && NoUserSlots(m, root)
    ensures NoUserSlots(n, root)
  {
    hide UserSlot;
  }

  // ---- creating a user space, step by step -----------------------------------------------------------

  lemma PlainFlags(v: nat, pages: nat)
    requires v % PAGE_SIZE == 0
    ensures Plain(v, v, pages, PAGE_WRITABLE) <==> Nth(v, pages) <= ADDRESS_LIMIT
  {
    assert FlagsOnly(PAGE_WRITABLE);
    hide Nth;
  }

  lemma PlainPartOrAll(v: nat, p: nat, i: nat, pages: nat, flags: Word)
    requires Plain(v, p, pages, flags) && i <= pages
    ensures Plain(v, p, i, flags) && (i < pages ==> Nth(v, i) < ADDRESS_LIMIT)
  {
    if i < pages {
      PlainPart(v, p, i, pages, flags);
      PlainAt(v, p, pages, flags, i);
    }
    hide Plain, Nth;
  }

  lemma FbFits(fbAddr: nat, fbSize: nat)
    ensures RoundDown(fbAddr) % PAGE_SIZE == 0
    ensures Nth(RoundDown(fbAddr), FbPages(fbAddr, fbSize)) <= fbAddr + fbSize + PAGE_SIZE
    ensures FbPages(fbAddr, fbSize) > 0 ==> fbAddr != 0 && fbSize != 0
  {
    if fbAddr != 0 && fbSize != 0 {
      PagesBetweenFit(fbAddr, fbAddr + fbSize);
    } else {
      NoPages(fbAddr);
    }
    hide RoundUp, Nth;
  }

  lemma NoPages(a: nat)
    ensures RoundDown(a) % PAGE_SIZE == 0 && Nth(RoundDown(a), 0) <= a
  {
  }

  /** In the low window the new root maps the screen exactly as the kernel does. */
  lemma CopiedScreen(m: Memory, n: Memory, roles: Roles, kernel: nat, g: nat, fbAddr: nat, fbSize: nat)
    requires WellFormed(m, roles) && kernel in roles && roles[kernel].Pml4? && CopiedRoot(m, n, roles, kernel, g)
    ensures fbAddr + fbSize + 2 * PAGE_SIZE <= 0x80_0000_0000 && ScreenMapped(m, kernel, fbAddr, fbSize) ==>
              ScreenMapped(n, g, fbAddr, fbSize)
  {
    if fbAddr + fbSize + 2 * PAGE_SIZE <= 0x80_0000_0000 && ScreenMapped(m, kernel, fbAddr, fbSize) {
      FbFits(fbAddr, fbSize);
      VgaIsLow();
      hide WellFormed, CopiedRoot, PagesMapped, Nth, RoundDown, FbPages;
      CopiedPages(m, n, roles, kernel, g, VGA, VGA, 1);
      CopiedPages(m, n, roles, kernel, g, RoundDown(fbAddr), RoundDown(fbAddr), FbPages(fbAddr, fbSize));
    }
  }

  lemma VgaIsLow()
    ensures Nth(VGA, 1) <= 0x80_0000_0000 <= ADDRESS_LIMIT && VGA % PAGE_SIZE == 0
  {
  }

  lemma KeepsRange(m: Memory, n: Memory, roles: Roles, roles': Roles, free: set<nat>, free': set<nat>, root: nat,
                   v: nat, count: nat)
    requires MapsKeep(m, n, roles, roles', free, free', root, PAGE_WRITABLE) && root in roles && roles[root].Pml4?
    ensures PagesMapped(m, root, v, v, count) ==> PagesMapped(n, root, v, v, count)
  {
    hide Tracked, PagesKept, SlotsClosed, SupervisorKept, PagesMapped;
    if PagesMapped(m, root, v, v, count) {
      KeepsMapped(m, n, roles, root, v, v, count);
    }
  }

  lemma WritableIsSupervisor()
    ensures !User(PAGE_WRITABLE)
  {
  }

  /** From the old tables, through the copied root, to the mapped screen. */
  lemma SpaceFinished(m: Memory, m1: Memory, n: Memory, roles: Roles, roles': Roles, free: set<nat>, free': set<nat>,
                      kernel: nat, g: nat)
    requires WellFormed(m, roles) && kernel in roles && roles[kernel].Pml4? && CopiedRoot(m, m1, roles, kernel, g)
    requires g in free && g !in roles && roles.Keys !! free && SameLookups(m, m1, roles) && LinksKept(m, m1, roles)
    requires forall f: nat, i: nat :: f != g && i < ENTRIES ==> Entry(m1, f, i) == Entry(m, f, i)
    requires MapsKeep(m1, n, roles[g := Pml4], roles', free - {g}, free', g, PAGE_WRITABLE)
    ensures SpaceAdded(m, n, roles, roles', free, free', g)
    ensures PagesKept(m, n, roles) && SupervisorKept(m, n, roles) && SharesSlots(m, n, kernel, g)
    ensures SlotsClosed(m, kernel) ==> SlotsClosed(n, g)
    ensures NoUserSlots(m, kernel) ==> NoUserSlots(n, g)
  {
    var r1 := roles[g := Pml4];
    KeptRoles(m1, n, r1, roles', free - {g}, free', g, PAGE_WRITABLE);
    WritableIsSupervisor();
    hide WellFormed, Entry, Present, Huge, FrameOf, User, Lookup, CopiedRoot, SpaceAdded, SharesSlots, PagesKept;
    hide SupervisorKept;
    hide LinksKept, OthersUntouched, SlotsClosed, NoUserSlots;
    SpaceDone(m, m1, n, roles, roles', free, free', g);
    OldPagesKept(m, m1, n, roles, g);
    OldRightsKept(m, m1, n, roles, g);
    CopiedSlotsLead(m, m1, n, roles, kernel, g);
    CopiedIsClosed(m, m1, roles, kernel, g);
    if NoUserSlots(m, kernel) {
      CopiedHasNoUserSlots(m, m1, roles, kernel, g);
      SlotsSameOf(m1, n, r1);
      StillNoUserSlots(m1, n, r1, g);
    }
  }

  lemma SlotsSameOf(m: Memory, n: Memory, roles: Roles)
    requires SupervisorKept(m, n, roles)
    ensures SlotsSame(m, n, roles)
  {
  }

  lemma OldPagesKept(m: Memory, m1: Memory, n: Memory, roles: Roles, g: nat)
    requires SameLookups(m, m1, roles) && PagesKept(m1, n, roles[g := Pml4]) && g !in roles
    ensures PagesKept(m, n, roles)
  {
    hide Lookup, PageKept;
    forall r, q | r in roles && roles[r].Pml4? && InRange(q)
      ensures PageKept(Lookup(m, r, q), Lookup(n, r, q))
    {
      assert r in roles[g := Pml4] && PageKept(Lookup(m1, r, q), Lookup(n, r, q));
    }
  }

  lemma OldRightsKept(m: Memory, m1: Memory, n: Memory, roles: Roles, g: nat)
    requires SameLookups(m, m1, roles) && SupervisorKept(m1, n, roles[g := Pml4]) && g !in roles
    requires forall f: nat, i: nat :: f != g && i < ENTRIES ==> Entry(m1, f, i) == Entry(m, f, i)
    ensures SupervisorKept(m, n, roles)
  {
    hide Lookup, LeafUser, Entry, Present, User;
    forall r, i: nat | r in roles && roles[r].Pml4? && i < ENTRIES
      ensures UserSlot(n, r, i) <==> UserSlot(m, r, i)
    {
      assert r in roles[g := Pml4] && (UserSlot(n, r, i) <==> UserSlot(m1, r, i));
    }
    forall r, q | r in roles && roles[r].Pml4? && InRange(q) && LeafUser(Lookup(n, r, q))
      ensures LeafUser(Lookup(m, r, q))
    {
      assert r in roles[g := Pml4] && LeafUser(Lookup(m1, r, q));
    }
  }

  lemma CopiedSlotsLead(m: Memory, m1: Memory, n: Memory, roles: Roles, kernel: nat, g: nat)
    requires CopiedRoot(m, m1, roles, kernel, g) && LinksKept(m1, n, roles[g := Pml4])
    ensures SharesSlots(m, n, kernel, g)
  {
    hide Entry, Present, Huge, FrameOf;
    forall i: nat | i < ENTRIES && CopiedSlot(i) && Present(Entry(m, kernel, i))
      ensures Present(Entry(n, g, i)) && FrameOf(Entry(n, g, i)) == FrameOf(Entry(m, kernel, i))
    {
      assert Links(roles[g := Pml4][g], Entry(m1, g, i));
    }
  }

  lemma NotAllMapped(n: Memory, root: nat, v: nat, i: nat, pages: nat)
    requires i < pages && !MappedTo(Lookup(n, root, PageAt(v, i)), WordAt(v, i))
    ensures !PagesMapped(n, root, v, v, pages)
  {
    hide MappedTo, Lookup;
  }

  /** Success means the screen is mapped; failure means it is not, and why. */
  lemma ScreenOutcome(n: Memory, g: nat, fbAddr: nat, fbSize: nat, result: int, vgaDone: nat, fbDone: nat, free: nat)
    requires vgaDone <= 1 && fbDone <= FbPages(fbAddr, fbSize)
    requires result != 0 && vgaDone == 0 ==> StoppedHere(n, g, VGA, 0, free, result)
    requires result != 0 && vgaDone == 1 ==>
             fbDone < FbPages(fbAddr, fbSize) && StoppedHere(n, g, RoundDown(fbAddr), fbDone, free, result)
    ensures result != 0 ==> ScreenBlocked(n, g, fbAddr, fbSize, free)
  {
    hide Conflict, Stopped;
  }

  ghost predicate StoppedHere(n: Memory, root: nat, v: nat, i: nat, free: nat, code: int) {
    free == 0 || Conflict(n, root, v, i)
  }

  // ---- creating the kernel space ---------------------------------------------------------------------

  lemma NothingYet(m: Memory, roles: Roles, free: set<nat>, root: nat, v: nat)
    ensures MapsKeep(m, m, roles, roles, free, free, root, PAGE_WRITABLE) && PagesMapped(m, root, v, v, 0)
  {
    MapsKeepStart(m, roles, free, root, PAGE_WRITABLE);
    hide MapsKeep;
  }

  lemma KernelFinished(m: Memory, m1: Memory, n: Memory, roles: Roles, roles': Roles, free: set<nat>, free': set<nat>,
                       g: nat)
    requires g in free && g !in roles && roles.Keys !! free && LinksKept(m, m1, roles)
    requires forall f: nat, i: nat :: f != g && i < ENTRIES ==> Entry(m1, f, i) == Entry(m, f, i)
    requires MapsKeep(m1, n, roles[g := Pml4], roles', free - {g}, free', g, PAGE_WRITABLE)
    requires SlotsClosed(m1, g) && NoUserSlots(m1, g)
    ensures SpaceAdded(m, n, roles, roles', free, free', g) && SlotsClosed(n, g) && NoUserSlots(n, g)
  {
    var r1 := roles[g := Pml4];
    KeptRoles(m1, n, r1, roles', free - {g}, free', g, PAGE_WRITABLE);
    WritableIsSupervisor();
    hide Entry, SpaceAdded, PagesKept, SupervisorKept, LinksKept, OthersUntouched, SlotsClosed, NoUserSlots, Tracked;
    SpaceDone(m, m1, n, roles, roles', free, free', g);
    SlotsSameOf(m1, n, r1);
    StillNoUserSlots(m1, n, r1, g);
  }

  lemma OnlyOneRoot(m: Memory, n: Memory, roles: Roles, roles': Roles, free: set<nat>, free': set<nat>, g: nat)
    requires MapsKeep(m, n, roles, roles', free, free', g, PAGE_WRITABLE) && roles == map[g := Pml4]
    ensures g in roles' && roles'[g].Pml4? && forall f :: f in roles' && roles'[f].Pml4? ==> f == g
  {
    KeptRoles(m, n, roles, roles', free, free', g, PAGE_WRITABLE);
    hide MapsKeep;
  }
}
