/** How a user mapping in one address space opens another space's pages: two user spaces, one page each. */
module VmmExamples {
  import opened Words
  import opened FrameSets
  import opened FrameAllocators
  import opened PageTables
  import opened Translations
  import opened MapSteps
  import opened MapLaws
  import opened MapClosure
  import opened MapHistory
  import opened RangeLaws
  import opened RangeOutcomes
  import opened SpaceSetup
  import opened Vmm
  import opened ProgramSpaces

  lemma UserFlag()
    ensures 0 | PAGE_USER == PAGE_USER && User(PAGE_USER)
  {
  }

  /** The page is a user page in every sharing space, but the slot of the second is not a user slot. */
  lemma OnlyTheSlotMissing(m: Memory, n: Memory, roles: Roles, roles': Roles, free: set<nat>, free': set<nat>,
                           kernel: nat, first: nat, second: nat, a: Word, flags: Word, count: nat)
    requires WellFormed(m, roles) && LowShared(n, roles', kernel) && a < 0x80_0000_0000 && User(flags)
             && first != second
    requires first in roles && roles[first].Pml4? && second in roles && roles[second].Pml4? && NoUserSlots(m, second)
    requires MapResult(m, first, a, a, count) == 0
    requires MapEffect(m, n, roles, roles', free, free', first, a, a, flags, 0)
    ensures WellFormed(n, roles') && forall f :: f in roles ==> f in roles' && roles'[f] == roles[f]
    ensures !SlotsClosed(n, second)
    ensures LeafUser(Lookup(n, second, PathOf(a))) && !UserAccess(n, second, PathOf(a))
  {
    PathInRange(a);
    EffectKeepsTree(m, n, roles, roles', free, free', first, a, a, flags, 0);
    MapIsTracked(m, n, roles, roles', free, free', first, a, a, flags, 0);
    TrackedRootsKept(m, n, roles, roles', free, free');
    MappedLeaf(m, n, roles, roles', free, free', first, a, a, flags, count);
    NewLeafUser(Lookup(m, first, PathOf(a)), a, flags);
    LowWindowCoherent(n, roles', kernel, first, a);
    LowWindowCoherent(n, roles', kernel, second, a);
    OtherSlotsSame(m, n, roles, roles', free, free', first, a, flags, second, PathOf(a).a);
    assert !UserSlot(m, second, PathOf(a).a);
    hide Entry, Present, Huge, FrameOf, User, Lookup, NewLeaf, PathOf, MapResult, MapEffect, WellFormed, LowShared;
    hide UserAccess;
    UserAccessIsLeafAndSlot(n, roles', second, PathOf(a));
    UnmappedWithoutSlot(n, second, PathOf(a));
  }

  lemma TrackedRootsKept(m: Memory, n: Memory, roles: Roles, roles': Roles, free: set<nat>, free': set<nat>)
    requires Tracked(m, n, roles, roles', free, free')
    ensures forall f :: f in roles ==> f in roles' && roles'[f] == roles[f]
  {
  }

  lemma OtherSlotsSame(m: Memory, n: Memory, roles: Roles, roles': Roles, free: set<nat>, free': set<nat>,
                       root: nat, a: Word, flags: Word, r: nat, i: nat)
    requires root in roles && r in roles && roles[r].Pml4? && r != root && i < ENTRIES
    requires MapEffect(m, n, roles, roles', free, free', root, a, a, flags, 0)
    ensures UserSlot(n, r, i) <==> UserSlot(m, r, i)
  {
    hide Entry, Present, Huge, FrameOf, User, Lookup, PtOf, NewLeaf, WellFormed, LinksKept, OthersUntouched, Grown;
    hide PathOf;
  }

  /** The second call opens the first page. */
  lemma OtherPageOpens(m: Memory, n: Memory, roles: Roles, roles': Roles, free: set<nat>, free': set<nat>,
                       second: nat, a: Word, b: Word, flags: Word)
    requires WellFormed(m, roles) && second in roles && roles[second].Pml4? && User(flags)
    requires a < 0x80_0000_0000 && b < 0x80_0000_0000 && PathOf(a) != PathOf(b)
    requires LeafUser(Lookup(m, second, PathOf(a)))
    requires MapEffect(m, n, roles, roles', free, free', second, b, b, flags, 0)
    ensures UserAccess(n, second, PathOf(a))
  {
    PathInRange(a);
    LowAddressesUseSlotZero(a);
    LowAddressesUseSlotZero(b);
    hide Entry, Lookup, PathOf, MapEffect, WellFormed, UserAccess, User;
    OtherPagesAccess(m, n, roles, roles', free, free', second, b, b, flags, 0, second, PathOf(a));
  }

  /** The kernel as vmm_prepare_kernel_space leaves it, and two low pages. */
  ghost predicate Prepared(m: Memory, roles: Roles, kernel: nat, a: Word, b: Word) {
    && WellFormed(m, roles) && kernel in roles && roles[kernel].Pml4? && LowShared(m, roles, kernel)
    && ScreenMapped(m, kernel, 0, 0) && NoUserSlots(m, kernel)
    && LowPage(m, kernel, a) && LowPage(m, kernel, b)
  }

  /** What vmm_prepare_kernel_space ensures on success is enough, for any two pages below 4 GB. */
  lemma BootPrepares(m: Memory, roles: Roles, kernel: nat, fbAddr: nat, fbSize: nat, a: nat, b: nat)
    requires WellFormed(m, roles) && kernel in roles && roles[kernel].Pml4? && LowShared(m, roles, kernel)
    requires ScreenMapped(m, kernel, fbAddr, fbSize) && NoUserSlots(m, kernel)
             && PagesMapped(m, kernel, 0, 0, MAX_PAGES)
    requires a < MAX_PAGES && b < MAX_PAGES
    ensures Prepared(m, roles, kernel, WordAt(0, a), WordAt(0, b))
  {
    hide WellFormed, LowShared, NoUserSlots, Lookup, RoundDown;
    LowPageAt(m, kernel, a);
    LowPageAt(m, kernel, b);
    hide LowPage;
    assert FbPages(0, 0) == 0;
  }

  lemma StillPrepared(m: Memory, n: Memory, roles: Roles, roles': Roles, kernel: nat, a: Word, b: Word)
    requires Prepared(m, roles, kernel, a, b) && PagesKept(m, n, roles) && SupervisorKept(m, n, roles)
    requires WellFormed(n, roles') && LowShared(n, roles', kernel) && kernel in roles' && roles'[kernel].Pml4?
    ensures Prepared(n, roles', kernel, a, b)
  {
    hide WellFormed, LowShared, ScreenMapped, NoUserSlots, LowPage, PagesKept, SupervisorKept;
    KeepsScreen(m, n, roles, kernel, 0, 0);
    SlotsSameOf(m, n, roles);
    StillNoUserSlots(m, n, roles, kernel);
    LowPageKept(m, n, roles, kernel, a);
    LowPageKept(m, n, roles, kernel, b);
  }

  /** A space made from a prepared kernel keeps its empty slots when another is made. */
  lemma StillNoSlots(m: Memory, n: Memory, roles: Roles, r: nat)
    requires SupervisorKept(m, n, roles) && r in roles && roles[r].Pml4? && NoUserSlots(m, r)
    ensures NoUserSlots(n, r)
  {
    hide SupervisorKept, NoUserSlots;
    SlotsSameOf(m, n, roles);
    StillNoUserSlots(m, n, roles, r);
  }

  lemma AddedRoots(m: Memory, n: Memory, roles: Roles, roles': Roles, free: set<nat>, free': set<nat>, g: nat)
    requires SpaceAdded(m, n, roles, roles', free, free', g)
    ensures g in roles' && roles'[g].Pml4? && g !in roles && forall f :: f in roles ==>
            f in roles' && roles'[f] == roles[f]
  {
  }

  lemma BelowUserLimit(a: Word)
    requires a < 0x80_0000_0000
    ensures a < 0x0000_8000_0000_0000
  {
  }

  /** A user space from a prepared kernel. */
  method NewUserSpace(spaces: AddressSpaces, ghost a: Word, ghost b: Word) returns (user: nat)
    requires spaces.Valid() && spaces.pmm.freePages > 0
    requires Prepared(spaces.mem[..], spaces.roles, spaces.kernelPml4, a, b)
    modifies spaces`roles, spaces.pmm`freePages, spaces.pmm.bitmap, spaces.mem
    ensures spaces.Valid() && Prepared(spaces.mem[..], spaces.roles, spaces.kernelPml4, a, b)
    ensures spaces.pmm.freePages >= old(spaces.pmm.freePages) - 1
    ensures user in spaces.roles && spaces.roles[user].Pml4? && user !in old(spaces.roles)
            && NoUserSlots(spaces.mem[..], user)
    ensures forall f :: f in old(spaces.roles) ==> f in spaces.roles && spaces.roles[f] == old(spaces.roles[f])
    ensures SupervisorKept(old(spaces.mem[..]), spaces.mem[..], old(spaces.roles))
  {
    hide WellFormed, FrameAllocator.Free, FrameAllocator.Counted, LowShared, LowPage, ScreenMapped, NoUserSlots;
    hide PagesKept, SupervisorKept, SharesSlots, SlotsClosed, SpaceAdded, ScreenBlocked, FbPages;
    ghost var kernel, m, r, f := spaces.kernelPml4, spaces.mem[..], spaces.roles, spaces.pmm.Free();
    ghost var g;
    user, g := spaces.CreateUserSpace(0, 0);
    AddedRoots(m, spaces.mem[..], r, spaces.roles, f, spaces.pmm.Free(), g);
    StillPrepared(m, spaces.mem[..], r, spaces.roles, kernel, a, b);
  }

  /** Two user mappings, page a for the first space and then page b for the second, between these states. */
  ghost predicate TwoMappings(start: TableState, middle: TableState, end: TableState, first: nat, second: nat,
                              a: Word, b: Word) {
    && OneCall(start, middle, Mapping(first, a, a, PAGE_USER)) && CodeOf(start, Mapping(first, a, a, PAGE_USER)) == 0
    && OneCall(middle, end, Mapping(second, b, b, PAGE_USER)) && CodeOf(middle, Mapping(second, b, b, PAGE_USER)) == 0
  }

  /** Ring 3 gets to page a through the second space only with the second call, which asks for page b: in between,
      the space has a user page without a user slot. */
  ghost predicate OpensAnother(middle: TableState, end: TableState, first: nat, second: nat, a: Word, b: Word) {
    && first != second && PathOf(a) != PathOf(b)
    && !UserAccess(middle.m, second, PathOf(a)) && !SlotsClosed(middle.m, second)
    && UserAccess(end.m, second, PathOf(a)) && UserAccess(end.m, second, PathOf(b))
  }

  /** From a prepared kernel with two frames left: create two user spaces, map page a for the first, then page
      b for the second. */
  method SharedSlotSpreads(spaces: AddressSpaces, a: Word, b: Word)
    returns (first: nat, second: nat, ghost start: TableState, ghost middle: TableState)
    requires spaces.Valid() && spaces.pmm.freePages >= 2
    requires Prepared(spaces.mem[..], spaces.roles, spaces.kernelPml4, a, b) && PathOf(a) != PathOf(b)
    modifies spaces`roles, spaces.pmm`freePages, spaces.pmm.bitmap, spaces.mem
    ensures spaces.Valid() && first !in old(spaces.roles) && second !in old(spaces.roles)
    ensures NoUserSlots(start.m, first) && NoUserSlots(start.m, second)
    ensures var end := TableState(spaces.mem[..], spaces.roles, spaces.pmm.Free());
            TwoMappings(start, middle, end, first, second, a, b) && OpensAnother(middle, end, first, second, a, b)
  {
    hide FrameAllocator.Free, FrameAllocator.Counted, Prepared, NoUserSlots, SupervisorKept, PathOf, Lookup;
    hide TwoMappings, OpensAnother;
    ghost var kernel := spaces.kernelPml4;
    first := NewUserSpace(spaces, a, b);
    ghost var m1, r1 := spaces.mem[..], spaces.roles;
    second := NewUserSpace(spaces, a, b);
    StillNoSlots(m1, spaces.mem[..], r1, first);
    start := TableState(spaces.mem[..], spaces.roles, spaces.pmm.Free());
    middle := TwoPages(spaces, first, second, a, b);
  }

  /** The two mapping calls. */
  method TwoPages(spaces: AddressSpaces, first: nat, second: nat, a: Word, b: Word) returns (ghost middle: TableState)
    requires spaces.Valid() && first != second && PathOf(a) != PathOf(b)
    requires Prepared(spaces.mem[..], spaces.roles, spaces.kernelPml4, a, b)
    requires first in spaces.roles && spaces.roles[first].Pml4? && second in spaces.roles && spaces.roles[second].Pml4?
    requires NoUserSlots(spaces.mem[..], second)
    modifies spaces`roles, spaces.pmm`freePages, spaces.pmm.bitmap, spaces.mem
    ensures spaces.Valid()
    ensures var start := old(TableState(spaces.mem[..], spaces.roles, spaces.pmm.Free()));
            var end := TableState(spaces.mem[..], spaces.roles, spaces.pmm.Free());
            TwoMappings(start, middle, end, first, second, a, b) && OpensAnother(middle, end, first, second, a, b)
  {
    hide FrameAllocator.Free, FrameAllocator.Counted, WellFormed, LowShared, LowPage, ScreenMapped, NoUserSlots;
    hide PathOf, Lookup;
    hide MapEffect, MapResult, UserAccess, User, LeafUser, PagesKept, SlotsClosed;
    ghost var kernel, m, r, f, count := spaces.kernelPml4, spaces.mem[..], spaces.roles, spaces.pmm.Free(),
      spaces.pmm.freePages;
    spaces.pmm.CountIs();
    LowPageBounds(m, kernel, a);
    LowPageBounds(m, kernel, b);
    BelowUserLimit(a);
    BelowUserLimit(b);
    UserFlag();
    TableInRange(m, r, first);
    TableInRange(m, r, second);
    LowPageMaps(m, r, kernel, first, a, count);
    var result := spaces.MapUserPage(first, a, a, 0);
    middle := TableState(spaces.mem[..], spaces.roles, spaces.pmm.Free());
    spaces.pmm.CountIs();
    ghost var n, r', f', count' := spaces.mem[..], spaces.roles, spaces.pmm.Free(), spaces.pmm.freePages;
    OnlyTheSlotMissing(m, n, r, r', f, f', kernel, first, second, a, PAGE_USER, count);
    MapKeepsPages(m, n, r, r', f, f', first, a, a, PAGE_USER, 0);
    LowPageKept(m, n, r, kernel, b);
    LowPageMaps(n, r', kernel, second, b, count');
    result := spaces.MapUserPage(second, b, b, 0);
    ghost var o, r'', f'' := spaces.mem[..], spaces.roles, spaces.pmm.Free();
    OtherPageOpens(n, o, r', r'', f', f'', second, a, b, PAGE_USER);
    MappedPageUser(n, o, r', r'', f', f'', second, b, b, PAGE_USER, count');
    CallMade(TableState(m, r, f), middle, first, a);
    CallMade(middle, TableState(o, r'', f''), second, b);
    hide OneCall;
  }

  /** A successful user mapping as one call of a history. */
  lemma CallMade(s: TableState, t: TableState, root: nat, a: Word)
    requires root in s.roles && s.roles[root].Pml4? && MapResult(s.m, root, a, a, |s.free|) == 0
    requires MapEffect(s.m, t.m, s.roles, t.roles, s.free, t.free, root, a, a, PAGE_USER, 0)
    ensures OneCall(s, t, Mapping(root, a, a, PAGE_USER)) && CodeOf(s, Mapping(root, a, a, PAGE_USER)) == 0
  {
    hide MapResult, MapEffect, WellFormed, Tracked;
    MapIsTracked(s.m, t.m, s.roles, t.roles, s.free, t.free, root, a, a, PAGE_USER, 0);
    TrackedRootsKept(s.m, t.m, s.roles, t.roles, s.free, t.free);
  }
}
