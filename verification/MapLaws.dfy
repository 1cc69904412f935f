/** What the effect of map_page_in means for callers: translations, access rights, frames, sharing. */
module MapLaws {
  import opened Words
  import opened PageTables
  import opened TableStores
  import opened Translations
  import opened MapSteps

  /** get_physical_from as a function of memory. */
  function Physical(m: Memory, root: nat, va: Word): Word {
    Address(Lookup(m, root, PathOf(va)), va)
  }

  // ---- translations ----------------------------------------------------------------------------------

  /** The address field a successful map_page_in leaves in the page's entry. */
  function MappedFrame(t: Translation, pa: Word, flags: Word): Word {
    if t.Page? then pa & PAGE_MASK else (pa | flags) & PAGE_MASK
  }

  lemma NewLeafAddress(t: Translation, pa: Word, flags: Word)
    requires t.Page? ==> SameFrame(t.entry, pa)
    ensures Present(NewLeaf(t, pa, flags)) || t.Page?
    ensures NewLeaf(t, pa, flags) & PAGE_MASK == MappedFrame(t, pa, flags)
  {
    LeafEntryPresent(pa, flags);
    LeafEntryAddress(pa, flags);
    if t.Page? {
      MergeLeafAddress(t.entry, flags);
    }
    hide MergeLeaf, LeafEntry, Present;
  }

  lemma NewLeafPresent(m: Memory, root: nat, p: Path, pa: Word, flags: Word)
    ensures Present(NewLeaf(Lookup(m, root, p), pa, flags))
  {
    LeafEntryPresent(pa, flags);
    if Lookup(m, root, p).Page? {
      MergeLeafPresent(Lookup(m, root, p).entry, flags);
    }
    hide MergeLeaf, LeafEntry, Present;
  }

  /** A successful call refines the update of a map from pages to frames: every address of the page, in any
      address space whose walk ends in the same table, now goes to the frame asked for; every other address
      of every address space goes where it went. */
  lemma MapUpdatesTranslation(m: Memory, n: Memory, roles: Roles, roles': Roles, free: set<nat>, free': set<nat>,
                              root: nat, va: Word, pa: Word, flags: Word, freeCount: nat)
    requires root in roles && roles[root].Pml4?
    requires MapResult(m, root, va, pa, freeCount) == 0
    requires MapEffect(m, n, roles, roles', free, free', root, va, pa, flags, 0)
    ensures forall w: Word :: Physical(n, root, w) ==
              if PageOf(w) == PageOf(va) then MappedFrame(Lookup(m, root, PathOf(va)), pa, flags) + (w & 0xFFF)
              else Physical(m, root, w)
    ensures forall r, w: Word :: r in roles && roles[r].Pml4? && PageOf(w) != PageOf(va) ==>
              Physical(n, r, w) == Physical(m, r, w)
  {
    hide Entry, Present, Huge, FrameOf, Lookup, PtOf, NewLeaf, SameFrame, MappedFrame, PathOf, PageOf, LeafChanged;
    hide Physical, MapEffect, MapResult;
    var p := PathOf(va);
    var pt, v := PtOf(n, root, p), NewLeaf(Lookup(m, root, p), pa, flags);
    SuccessfulLeaf(m, n, roles, roles', free, free', root, va, pa, flags, freeCount);
    forall r, w: Word | r in roles && roles[r].Pml4?
      ensures Physical(n, r, w) == if PageOf(w) == PageOf(va) && PtOf(n, r, p) == pt then (v & PAGE_MASK) + (w & 0xFFF)
                                   else Physical(m, r, w)
    {
      OneAddress(m, n, roles, va, pt, v, r, w);
    }
  }

  lemma SuccessfulLeaf(m: Memory, n: Memory, roles: Roles, roles': Roles, free: set<nat>, free': set<nat>,
                       root: nat, va: Word, pa: Word, flags: Word, freeCount: nat)
    requires root in roles && MapResult(m, root, va, pa, freeCount) == 0
    requires MapEffect(m, n, roles, roles', free, free', root, va, pa, flags, 0)
    ensures var p := PathOf(va);
            var v := NewLeaf(Lookup(m, root, p), pa, flags);
            LeafChanged(m, n, roles, p, PtOf(n, root, p), v) && Present(v)
            && v & PAGE_MASK == MappedFrame(Lookup(m, root, p), pa, flags)
  {
    SuccessfulResult(m, root, va, pa, freeCount);
    NewLeafAddress(Lookup(m, root, PathOf(va)), pa, flags);
    NewLeafPresent(m, root, PathOf(va), pa, flags);
    hide Entry, Present, Huge, FrameOf, Lookup, PtOf, NewLeaf, SameFrame, MappedFrame, PathOf, LeafChanged, MapResult;
  }

  /** What a changed leaf means for one address in one address space. */
  lemma OneAddress(m: Memory, n: Memory, roles: Roles, va: Word, pt: Option<nat>, v: Word, r: nat, w: Word)
    requires LeafChanged(m, n, roles, PathOf(va), pt, v) && Present(v) && r in roles && roles[r].Pml4?
    ensures Physical(n, r, w) == if PageOf(w) == PageOf(va) && PtOf(n, r, PathOf(va)) == pt
                                 then (v & PAGE_MASK) + (w & 0xFFF)
                                 else Physical(m, r, w)
  {
    hide Entry, Present, Huge, FrameOf, Lookup, PtOf;
    SamePath(w, va);
    PathInRange(w);
    hide PathOf, PageOf;
  }

  lemma SuccessfulResult(m: Memory, root: nat, va: Word, pa: Word, freeCount: nat)
    requires MapResult(m, root, va, pa, freeCount) == 0
    ensures Lookup(m, root, PathOf(va)).Page? ==> SameFrame(Lookup(m, root, PathOf(va)).entry, pa)
    ensures va & 0xFFF == 0 && pa & 0xFFF == 0
  {
    hide Entry, Huge, FrameOf, WalkResult, SameFrame;
  }

  /** A failed call changes no translation, whatever it hung in the tree before giving up. */
  lemma FailedMapKeepsTranslations(m: Memory, n: Memory, roles: Roles, roles': Roles, free: set<nat>, free': set<nat>,
                                   root: nat, va: Word, pa: Word, flags: Word, result: int)
    requires root in roles && result != 0
    requires MapEffect(m, n, roles, roles', free, free', root, va, pa, flags, result)
    ensures forall r, w: Word :: r in roles && roles[r].Pml4? ==> Physical(n, r, w) == Physical(m, r, w)
  {
    hide Entry, Present, Huge, FrameOf, WellFormed, LinksKept, Grown, OthersUntouched, RootSlots, Lookup;
    forall r, w: Word | r in roles && roles[r].Pml4?
      ensures Physical(n, r, w) == Physical(m, r, w)
    {
      PathInRange(w);
      hide PathOf;
    }
  }

  /** The new translation is the requested address exactly when the address fits the field and no flag bit
      falls inside it (for a page not mapped before). */
  lemma MappedFrameIsRequested(pa: Word, flags: Word)
    ensures MappedFrame(Unmapped, pa, flags) == pa <==> (pa & PAGE_MASK == pa && (flags & PAGE_MASK) & !pa == 0)
  {
  }

  // ---- access rights ---------------------------------------------------------------------------------

  /** The call got past level 4, where it merges the user bit. */
  predicate PassedLevel4(result: int) {
    result != -1 && result != -2
  }

  /** Ring-3 access after a call, for any page of any address space: the page's own entry must be a user
      entry, and the PML4 slot must have had the user bit or have just been given it. */
  lemma UserAccessAfterMap(m: Memory, n: Memory, roles: Roles, roles': Roles, free: set<nat>, free': set<nat>,
                           root: nat, va: Word, pa: Word, flags: Word, result: int, r: nat, q: Path)
    requires root in roles && roles[root].Pml4? && r in roles && roles[r].Pml4? && InRange(q)
    requires MapEffect(m, n, roles, roles', free, free', root, va, pa, flags, result)
    ensures UserAccess(n, r, q) <==>
              LeafUser(Lookup(n, r, q))
              && ((Present(E4(m, r, q)) && User(E4(m, r, q)))
                  || (r == root && q.a == PathOf(va).a && User(flags) && PassedLevel4(result)))
  {
    UserAccessIsLeafAndSlot(n, roles', r, q);
    hide Entry, Huge, FrameOf, User, Present, PtOf, UserAccess, WellFormed, LinksKept, OthersUntouched, PathOf;
    hide LeafChanged, SameLookups;
    UnmappedWithoutSlot(n, r, q);
  }

  lemma UnmappedWithoutSlot(n: Memory, r: nat, q: Path)
    ensures !Present(E4(n, r, q)) ==> Lookup(n, r, q).Unmapped?
  {
  }

  /** Exactly when a call gives ring 3 access to another page: it asks for a user page, the other page lies
      in the same PML4 slot of the same address space, its own entry is already a user entry, and the slot
      was not a user slot.  Access to another page is never taken away. */
  lemma OtherPagesAccess(m: Memory, n: Memory, roles: Roles, roles': Roles, free: set<nat>, free': set<nat>,
                         root: nat, va: Word, pa: Word, flags: Word, result: int, r: nat, q: Path)
    requires WellFormed(m, roles)
    requires root in roles && roles[root].Pml4? && r in roles && roles[r].Pml4? && InRange(q) && q != PathOf(va)
    requires MapEffect(m, n, roles, roles', free, free', root, va, pa, flags, result)
    ensures UserAccess(n, r, q) <==>
              UserAccess(m, r, q)
              || (r == root && q.a == PathOf(va).a && User(flags) && PassedLevel4(result) && LeafUser(Lookup(m, r, q)))
    ensures WriteAccess(n, r, q) <==> WriteAccess(m, r, q)
  {
    UserAccessAfterMap(m, n, roles, roles', free, free', root, va, pa, flags, result, r, q);
    UserAccessIsLeafAndSlot(m, roles, r, q);
    WriteAccessIsLeaf(m, roles, r, q);
    WriteAccessIsLeaf(n, roles', r, q);
    OtherPageLookup(m, n, roles, roles', free, free', root, va, pa, flags, result, r, q);
    UnmappedWithoutSlot(m, r, q);
    hide Entry, Huge, FrameOf, User, Writable, Present, UserAccess, WriteAccess, PathOf, MapEffect, Lookup;
  }

  lemma OtherPageLookup(m: Memory, n: Memory, roles: Roles, roles': Roles, free: set<nat>, free': set<nat>,
                        root: nat, va: Word, pa: Word, flags: Word, result: int, r: nat, q: Path)
    requires root in roles && r in roles && roles[r].Pml4? && InRange(q) && q != PathOf(va)
    requires MapEffect(m, n, roles, roles', free, free', root, va, pa, flags, result)
    ensures Lookup(n, r, q) == Lookup(m, r, q)
  {
    hide Entry, Huge, FrameOf, Present, Lookup, PtOf, WellFormed, LinksKept, OthersUntouched, RootSlots, Grown, PathOf;
  }

  /** Every PML4 slot of this address space is a user slot if any page under it is a user page. */
  ghost predicate SlotsClosed(m: Memory, root: nat) {
    forall q :: InRange(q) && LeafUser(Lookup(m, root, q)) ==> User(E4(m, root, q))
  }

  predicate UserSlot(m: Memory, r: nat, i: nat) {
    Present(Entry(m, r, i)) && User(Entry(m, r, i))
  }

  /** Slot a of both address spaces leads to the same table. */
  predicate SharesSlot(m: Memory, r: nat, root: nat, a: nat) {
    && Present(Entry(m, r, a)) && Present(Entry(m, root, a))
    && FrameOf(Entry(m, r, a)) == FrameOf(Entry(m, root, a))
  }

  /** After a successful call for one address space, another sees the page's new entry exactly if the two shared
      the page's slot before. */
  lemma SharersExactly(m: Memory, n: Memory, roles: Roles, roles': Roles, free: set<nat>, free': set<nat>,
                       root: nat, va: Word, pa: Word, flags: Word, r: nat)
    requires WellFormed(m, roles) && root in roles && roles[root].Pml4? && r in roles && roles[r].Pml4? && r != root
    requires MapEffect(m, n, roles, roles', free, free', root, va, pa, flags, 0)
    ensures PtOf(n, r, PathOf(va)) == PtOf(n, root, PathOf(va)) <==> SharesSlot(m, r, root, PathOf(va).a)
  {
    var p := PathOf(va);
    PathInRange(va);
    hide Entry, Huge, FrameOf, Present, User, Lookup, NewLeaf, LinksKept, OthersUntouched, LeafChanged, PathOf;
    hide SharersAgree, UserClosed;
    WalkRoles(n, roles', r, p);
    WalkRoles(n, roles', root, p);
    assert Entry(n, r, p.a) == Entry(m, r, p.a);
    SlotInTree(m, roles, r, p.a);
  }

  /** A slot leads to a table of the tree. */
  lemma SlotInTree(m: Memory, roles: Roles, r: nat, a: nat)
    requires WellFormed(m, roles) && r in roles && roles[r].Pml4? && a < ENTRIES
    ensures Present(Entry(m, r, a)) ==> FrameOf(Entry(m, r, a)) in roles
  {
    hide Entry, Huge, FrameOf, Present, Writable, Hangs, UserClosed;
    assert LinkFits(roles, r, a, Entry(m, r, a));
  }

  /** The one call that can leave address space r with a user page but no user slot: a successful user mapping for
      another address space, in a slot the two share that is no user slot of r.  All of it can be seen before. */
  predicate Spreads(m: Memory, root: nat, va: Word, flags: Word, result: int, r: nat) {
    result == 0 && User(flags) && r != root && SharesSlot(m, r, root, PathOf(va).a) && !UserSlot(m, r, PathOf(va).a)
  }

  /** A closed address space stays closed under exactly the other calls. */
  lemma SlotsStayClosed(m: Memory, n: Memory, roles: Roles, roles': Roles, free: set<nat>, free': set<nat>,
                        root: nat, va: Word, pa: Word, flags: Word, result: int, r: nat)
    requires WellFormed(m, roles) && SlotsClosed(m, r)
    requires root in roles && roles[root].Pml4? && r in roles && roles[r].Pml4?
    requires MapEffect(m, n, roles, roles', free, free', root, va, pa, flags, result)
    ensures SlotsClosed(n, r) <==> !Spreads(m, root, va, flags, result, r)
  {
    PathInRange(va);
    if Spreads(m, root, va, flags, result, r) {
      SpreadOpens(m, n, roles, roles', free, free', root, va, pa, flags, r);
    } else {
      forall q | InRange(q) && LeafUser(Lookup(n, r, q))
        ensures User(E4(n, r, q))
      {
        SlotOfUserPage(m, n, roles, roles', free, free', root, va, pa, flags, result, r, q);
      }
    }
  }

  lemma SpreadOpens(m: Memory, n: Memory, roles: Roles, roles': Roles, free: set<nat>, free': set<nat>,
                    root: nat, va: Word, pa: Word, flags: Word, r: nat)
    requires WellFormed(m, roles) && Spreads(m, root, va, flags, 0, r)
    requires root in roles && roles[root].Pml4? && r in roles && roles[r].Pml4?
    requires MapEffect(m, n, roles, roles', free, free', root, va, pa, flags, 0)
    ensures !SlotsClosed(n, r)
  {
    var p := PathOf(va);
    PathInRange(va);
    SharersExactly(m, n, roles, roles', free, free', root, va, pa, flags, r);
    NewLeafUser(Lookup(m, root, p), pa, flags);
    LeafIsPresent(m, root, p, pa, flags);
    hide Entry, Huge, FrameOf, Present, User, Lookup, PtOf, NewLeaf, WellFormed, LinksKept, OthersUntouched, Grown;
    hide PathOf, SharersAgree;
    assert Lookup(n, r, p) == LeafTranslation(NewLeaf(Lookup(m, root, p), pa, flags));
    assert LeafUser(Lookup(n, r, p)) && !User(E4(n, r, p));
  }

  lemma LeafIsPresent(m: Memory, root: nat, p: Path, pa: Word, flags: Word)
    ensures Present(NewLeaf(Lookup(m, root, p), pa, flags))
  {
    LeafEntryPresent(pa, flags);
    if Lookup(m, root, p).Page? {
      MergeLeafPresent(E1(m, root, p), flags);
    }
    hide MergeLeaf, LeafEntry, Entry, Huge, FrameOf;
  }

  /** Slots other than a that lead to user pages are user slots. */
  ghost predicate ClosedBeside(m: Memory, r: nat, a: nat) {
    forall q :: InRange(q) && q.a != a && LeafUser(Lookup(m, r, q)) ==> User(E4(m, r, q))
  }

  /** An address space that is not closed becomes so with a user mapping of its own exactly if its other slots are:
      as when a process maps its first page into a slot 0 under which others have mapped theirs. */
  lemma OwnMappingCloses(m: Memory, n: Memory, roles: Roles, roles': Roles, free: set<nat>, free': set<nat>,
                         root: nat, va: Word, pa: Word, flags: Word, result: int)
    requires WellFormed(m, roles) && root in roles && roles[root].Pml4? && User(flags) && PassedLevel4(result)
    requires MapEffect(m, n, roles, roles', free, free', root, va, pa, flags, result)
    ensures SlotsClosed(n, root) <==> ClosedBeside(m, root, PathOf(va).a)
  {
    PathInRange(va);
    hide Entry, Huge, FrameOf, Present, User, Lookup, PtOf, NewLeaf, WellFormed, LinksKept, OthersUntouched, Grown;
    hide PathOf, SharersAgree;
    forall q | InRange(q) && q.a != PathOf(va).a
      ensures Lookup(n, root, q) == Lookup(m, root, q) && E4(n, root, q) == E4(m, root, q)
    {
    }
    assert forall q :: InRange(q) && q.a == PathOf(va).a ==> User(E4(n, root, q));
  }

  lemma SlotOfUserPage(m: Memory, n: Memory, roles: Roles, roles': Roles, free: set<nat>, free': set<nat>,
                       root: nat, va: Word, pa: Word, flags: Word, result: int, r: nat, q: Path)
    requires WellFormed(m, roles) && SlotsClosed(m, r) && InRange(q) && LeafUser(Lookup(n, r, q))
    requires root in roles && roles[root].Pml4? && r in roles && roles[r].Pml4?
    requires !Spreads(m, root, va, flags, result, r)
    requires MapEffect(m, n, roles, roles', free, free', root, va, pa, flags, result)
    ensures User(E4(n, r, q))
  {
    NewLeafUser(Lookup(m, root, PathOf(va)), pa, flags);
    UnmappedWithoutSlot(m, r, q);
    if result == 0 && r != root {
      SharersExactly(m, n, roles, roles', free, free', root, va, pa, flags, r);
    }
    hide Entry, Huge, FrameOf, Present, User, Lookup, PtOf, NewLeaf, WellFormed, LinksKept, OthersUntouched, Grown;
    hide PathOf;
    if Lookup(n, r, q) == Lookup(m, r, q) {
      assert User(E4(m, r, q));
    } else {
      assert result == 0 && q == PathOf(va);
    }
  }

  /** The rights of a page are those asked for and those it had. */
  lemma NewLeafUser(t: Translation, pa: Word, flags: Word)
    ensures User(NewLeaf(t, pa, flags)) <==> User(flags) || (t.Page? && User(t.entry))
  {
    LeafEntryUser(pa, flags);
    if t.Page? {
      MergeLeafUser(t.entry, flags);
    }
    hide MergeLeaf, LeafEntry, User;
  }

  lemma NewLeafWritable(t: Translation, pa: Word, flags: Word)
    ensures Writable(NewLeaf(t, pa, flags)) <==> Writable(flags) || (t.Page? && Writable(t.entry))
  {
    LeafEntryWritable(pa, flags);
    if t.Page? {
      MergeLeafWritable(t.entry, flags);
    }
    hide MergeLeaf, LeafEntry, Writable;
  }

  /** After a successful call the page is writable exactly if that was asked for or it was before ... */
  lemma MappedPageWritable(m: Memory, n: Memory, roles: Roles, roles': Roles, free: set<nat>, free': set<nat>,
                     root: nat, va: Word, pa: Word, flags: Word, freeCount: nat)
    requires WellFormed(m, roles) && root in roles && roles[root].Pml4?
    requires MapResult(m, root, va, pa, freeCount) == 0
    requires MapEffect(m, n, roles, roles', free, free', root, va, pa, flags, 0)
    ensures WriteAccess(n, root, PathOf(va)) <==> Writable(flags) || WriteAccess(m, root, PathOf(va))
  {
    var p := PathOf(va);
    PathInRange(va);
    MappedLeaf(m, n, roles, roles', free, free', root, va, pa, flags, freeCount);
    EffectKeepsTree(m, n, roles, roles', free, free', root, va, pa, flags, 0);
    hide Entry, Huge, FrameOf, Present, Writable, Lookup, NewLeaf, WellFormed, MapEffect, MapResult, PathOf;
    hide WriteAccess;
    NewLeafWritable(Lookup(m, root, p), pa, flags);
    WriteAccessIsLeaf(m, roles, root, p);
    WriteAccessIsLeaf(n, roles', root, p);
  }

  lemma EffectKeepsTree(m: Memory, n: Memory, roles: Roles, roles': Roles, free: set<nat>, free': set<nat>,
                        root: nat, va: Word, pa: Word, flags: Word, result: int)
    requires root in roles && MapEffect(m, n, roles, roles', free, free', root, va, pa, flags, result)
    ensures WellFormed(n, roles') && root in roles' && roles'[root] == roles[root]
  {
    hide WellFormed, LinksKept, OthersUntouched, RootSlots, SameLookups, LeafChanged, Entry, Lookup, PtOf;
  }

  /** ... and open to ring 3 exactly if that was asked for or it was before. */
  lemma MappedPageUser(m: Memory, n: Memory, roles: Roles, roles': Roles, free: set<nat>, free': set<nat>,
                     root: nat, va: Word, pa: Word, flags: Word, freeCount: nat)
    requires WellFormed(m, roles) && root in roles && roles[root].Pml4?
    requires MapResult(m, root, va, pa, freeCount) == 0
    requires MapEffect(m, n, roles, roles', free, free', root, va, pa, flags, 0)
    ensures UserAccess(n, root, PathOf(va)) <==> User(flags) || UserAccess(m, root, PathOf(va))
  {
    var p := PathOf(va);
    PathInRange(va);
    MappedLeaf(m, n, roles, roles', free, free', root, va, pa, flags, freeCount);
    UserAccessAfterMap(m, n, roles, roles', free, free', root, va, pa, flags, 0, root, p);
    UnmappedWithoutSlot(m, root, p);
    hide Entry, Huge, FrameOf, Present, User, Lookup, NewLeaf, WellFormed, MapEffect, MapResult, PathOf, UserAccess;
    NewLeafUser(Lookup(m, root, p), pa, flags);
    UserAccessIsLeafAndSlot(m, roles, root, p);
  }

  /** The translation a successful call leaves for its own page. */
  lemma MappedLeaf(m: Memory, n: Memory, roles: Roles, roles': Roles, free: set<nat>, free': set<nat>,
                   root: nat, va: Word, pa: Word, flags: Word, freeCount: nat)
    requires root in roles && roles[root].Pml4? && MapResult(m, root, va, pa, freeCount) == 0
    requires MapEffect(m, n, roles, roles', free, free', root, va, pa, flags, 0)
    ensures !Lookup(m, root, PathOf(va)).HugePage?
    ensures Lookup(n, root, PathOf(va)) == Page(NewLeaf(Lookup(m, root, PathOf(va)), pa, flags))
  {
    PathInRange(va);
    NotHuge(m, root, va, pa, freeCount);
    SuccessfulLeaf(m, n, roles, roles', free, free', root, va, pa, flags, freeCount);
    hide Entry, Present, Huge, FrameOf, Lookup, PtOf, NewLeaf, PathOf, MapResult, MapEffect;
  }

  lemma NotHuge(m: Memory, root: nat, va: Word, pa: Word, freeCount: nat)
    requires MapResult(m, root, va, pa, freeCount) == 0
    ensures !Lookup(m, root, PathOf(va)).HugePage?
  {
    hide Entry, Present, Huge, FrameOf, PathOf;
  }

  /** A root that has just been allocated is closed ... */
  lemma EmptyRootClosed(m: Memory, root: nat)
    requires forall i: nat :: i < ENTRIES ==> Entry(m, root, i) == 0
    ensures SlotsClosed(m, root)
  {
    ZeroIsAbsent();
    hide Entry, Present, Huge, FrameOf;
    forall q | InRange(q)
      ensures Lookup(m, root, q).Unmapped?
    {
      assert E4(m, root, q) == 0;
    }
  }

  /** ... so in an address space grown from empty, access from ring 3 is what the page's own entry says. */
  lemma ClosedAccessIsLeaf(m: Memory, roles: Roles, root: nat, q: Path)
    requires WellFormed(m, roles) && SlotsClosed(m, root) && root in roles && roles[root].Pml4? && InRange(q)
    ensures UserAccess(m, root, q) <==> LeafUser(Lookup(m, root, q))
    ensures WriteAccess(m, root, q) <==> LeafWritable(Lookup(m, root, q))
  {
    UserAccessIsLeafAndSlot(m, roles, root, q);
    WriteAccessIsLeaf(m, roles, root, q);
    hide Entry, Huge, FrameOf, Present, User, Lookup, WellFormed, UserAccess, WriteAccess;
  }

  /** ... and in no others. */
  lemma AccessIsLeafExactly(m: Memory, roles: Roles, root: nat)
    requires WellFormed(m, roles) && root in roles && roles[root].Pml4?
    ensures SlotsClosed(m, root) <==>
            forall q :: InRange(q) ==> (UserAccess(m, root, q) <==> LeafUser(Lookup(m, root, q)))
  {
    hide Entry, Huge, FrameOf, Present, User, Lookup, WellFormed, UserAccess;
    forall q | InRange(q)
      ensures UserAccess(m, root, q) <==> LeafUser(Lookup(m, root, q)) && User(E4(m, root, q))
    {
      UserAccessIsLeafAndSlot(m, roles, root, q);
      UnmappedWithoutSlot(m, root, q);
    }
  }

  /** ... and in a closed address space, mapping a page changes nobody's access to any other page. */
  lemma ClosedSpacesIsolateAccess(m: Memory, n: Memory, roles: Roles, roles': Roles, free: set<nat>, free': set<nat>,
                                  root: nat, va: Word, pa: Word, flags: Word, result: int, r: nat, q: Path)
    requires WellFormed(m, roles) && SlotsClosed(m, root)
    requires root in roles && roles[root].Pml4? && r in roles && roles[r].Pml4? && InRange(q) && q != PathOf(va)
    requires MapEffect(m, n, roles, roles', free, free', root, va, pa, flags, result)
    ensures UserAccess(n, r, q) <==> UserAccess(m, r, q)
  {
    OtherPagesAccess(m, n, roles, roles', free, free', root, va, pa, flags, result, r, q);
    UserAccessIsLeafAndSlot(m, roles, r, q);
    hide Entry, Huge, FrameOf, Present, User, Lookup, WellFormed, MapEffect, PathOf, UserAccess;
  }

  // ---- frames ----------------------------------------------------------------------------------------

  /** No frame is lost or created: free frames and table frames together are the same frames as before. */
  lemma FramesConserved(roles: Roles, roles': Roles, free: set<nat>, free': set<nat>)
    requires Grown(roles, roles', free, free') && roles.Keys !! free
    ensures free' + roles'.Keys == free + roles.Keys && free' !! roles'.Keys
  {
    assert roles.Keys <= roles'.Keys;
  }

  /** In numbers: free_pages plus the number of tables is unchanged. */
  lemma FrameCountConserved(roles: Roles, roles': Roles, free: set<nat>, free': set<nat>)
    requires Grown(roles, roles', free, free') && roles.Keys !! free
    ensures |free'| + |roles'| == |free| + |roles|
  {
    FramesConserved(roles, roles', free, free');
    hide Grown;
    SameTotal(free, roles.Keys, free', roles'.Keys);
  }

  lemma SameTotal(a: set<nat>, b: set<nat>, c: set<nat>, d: set<nat>)
    requires a !! b && c !! d && a + b == c + d
    ensures |a| + |b| == |c| + |d|
  {
    assert |a + b| == |a| + |b|;
    assert |c + d| == |c| + |d|;
  }

  // ---- the shared low slot ---------------------------------------------------------------------------

  /** Every address space uses the kernel's table for PML4 slot 0. */
  ghost predicate LowShared(m: Memory, roles: Roles, kernel: nat) {
    && kernel in roles && roles[kernel].Pml4?
    && forall r :: r in roles && roles[r].Pml4? ==>
         Present(Entry(m, r, 0)) && FrameOf(Entry(m, r, 0)) == FrameOf(Entry(m, kernel, 0))
  }

  /** Links are only ever added, so the sharing survives every operation that adds no PML4. */
  lemma LowStaysShared(m: Memory, n: Memory, roles: Roles, roles': Roles, kernel: nat)
    requires LowShared(m, roles, kernel) && LinksKept(m, n, roles)
    requires forall f :: f in roles ==> f in roles' && roles'[f] == roles[f]
    requires forall f :: f in roles' && f !in roles ==> !roles'[f].Pml4?
    ensures LowShared(n, roles', kernel)
  {
    hide Entry, Present, Huge, FrameOf;
    forall r | r in roles' && roles'[r].Pml4?
      ensures Present(Entry(n, r, 0)) && FrameOf(Entry(n, r, 0)) == FrameOf(Entry(n, kernel, 0))
    {
      assert Links(roles[r], Entry(m, r, 0)) && Links(roles[kernel], Entry(m, kernel, 0));
    }
  }

  lemma LowAddressesUseSlotZero(va: Word)
    requires va < 0x80_0000_0000
    ensures PathOf(va).a == 0
  {
    LowIndex(va);
  }

  lemma LowIndex(va: Word)
    requires va < 0x80_0000_0000
    ensures (va >> 39) & 0x1FF == 0
  {
  }

  /** While slot 0 is shared, every address below 512 GB translates the same in every address space. */
  lemma LowWindowCoherent(m: Memory, roles: Roles, kernel: nat, r: nat, va: Word)
    requires LowShared(m, roles, kernel) && r in roles && roles[r].Pml4? && va < 0x80_0000_0000
    ensures Physical(m, r, va) == Physical(m, kernel, va)
    ensures Lookup(m, r, PathOf(va)) == Lookup(m, kernel, PathOf(va))
  {
    LowAddressesUseSlotZero(va);
    SameSlotSameWalk(m, r, kernel, PathOf(va));
    hide Entry, Present, Huge, FrameOf, PathOf, Lookup;
  }

  lemma SameSlotSameWalk(m: Memory, r: nat, s: nat, p: Path)
    requires Present(E4(m, r, p)) && Present(E4(m, s, p)) && FrameOf(E4(m, r, p)) == FrameOf(E4(m, s, p))
    ensures Lookup(m, r, p) == Lookup(m, s, p)
  {
    hide Entry, Present, Huge, FrameOf;
  }
}
