/** What calls of map_page_in keep, one after another: links, mapped pages, and who may use them. */
module MapClosure {
  import opened Words
  import opened PageTables
  import opened TableStores
  import opened Translations
  import opened MapSteps
  import opened MapLaws

  // ---- many calls together ---------------------------------------------------------------------------

  /** What every sequence of table operations keeps. */
  ghost predicate Tracked(m: Memory, n: Memory, roles: Roles, roles': Roles, free: set<nat>, free': set<nat>) {
    Grown(roles, roles', free, free') && LinksKept(m, n, roles) && OthersUntouched(m, n, roles')
  }

  lemma TrackedStep(m: Memory, n: Memory, o: Memory, r0: Roles, r1: Roles, r2: Roles,
                    f0: set<nat>, f1: set<nat>, f2: set<nat>)
    requires Tracked(m, n, r0, r1, f0, f1) && Tracked(n, o, r1, r2, f1, f2)
    ensures Tracked(m, o, r0, r2, f0, f2)
  {
    GrownTrans(r0, r1, r2, f0, f1, f2);
    LinksKeptTrans(m, n, o, r0, r1);
    hide Entry, LinksKept;
  }

  lemma MapIsTracked(m: Memory, n: Memory, roles: Roles, roles': Roles, free: set<nat>, free': set<nat>,
                     root: nat, va: Word, pa: Word, flags: Word, result: int)
    requires root in roles && MapEffect(m, n, roles, roles', free, free', root, va, pa, flags, result)
    ensures Tracked(m, n, roles, roles', free, free') && WellFormed(n, roles')
  {
    hide Entry, LinksKept, Grown, OthersUntouched, WellFormed, RootSlots, LeafChanged;
  }

  // ---- mapped pages ----------------------------------------------------------------------------------

  /** A mapped page stays mapped to its frame and loses no right. */
  predicate PageKept(was: Translation, now: Translation) {
    && (was.HugePage? ==> now == was) && (was.Page? ==> now.Page? && SameFrame(now.entry, was.entry))
    && (LeafUser(was) ==> LeafUser(now)) && (LeafWritable(was) ==> LeafWritable(now))
  }

  ghost predicate PagesKept(m: Memory, n: Memory, roles: Roles) {
    forall r, q :: r in roles && roles[r].Pml4? && InRange(q) ==> PageKept(Lookup(m, r, q), Lookup(n, r, q))
  }

  /** No call redirects a page that is mapped, in any address space. */
  lemma MapKeepsPages(m: Memory, n: Memory, roles: Roles, roles': Roles, free: set<nat>, free': set<nat>,
                      root: nat, va: Word, pa: Word, flags: Word, result: int)
    requires root in roles && roles[root].Pml4?
    requires MapEffect(m, n, roles, roles', free, free', root, va, pa, flags, result)
    ensures PagesKept(m, n, roles)
  {
    hide Entry, Present, Huge, FrameOf, Lookup, PtOf, NewLeaf, WellFormed, LinksKept, OthersUntouched, RootSlots;
    hide Grown, LeafTranslation;
    var p := PathOf(va);
    LeafKept(m, root, p, pa, flags);
    hide SameFrame;
    forall r, q | r in roles && roles[r].Pml4? && InRange(q)
      ensures PageKept(Lookup(m, r, q), Lookup(n, r, q))
    {
      PageKeptItself(Lookup(m, r, q));
      hide PathOf;
    }
  }

  lemma PageKeptItself(t: Translation)
    ensures PageKept(t, t)
  {
  }

  /** The entry left for a mapped page is present and names the same frame. */
  lemma LeafKept(m: Memory, root: nat, p: Path, pa: Word, flags: Word)
    ensures var t := Lookup(m, root, p);
            t.Page? ==> PageKept(t, LeafTranslation(NewLeaf(t, pa, flags)))
  {
    hide Entry, Huge, FrameOf, Present, PageKept;
    var t := Lookup(m, root, p);
    if t.Page? {
      MergedKept(t, flags);
    }
  }

  lemma MergedKept(t: Translation, flags: Word)
    requires t.Page? && Present(t.entry)
    ensures PageKept(t, LeafTranslation(MergeLeaf(t.entry, flags)))
  {
    hide MergeLeaf, Present, User, Writable;
    MergeLeafAddress(t.entry, flags);
    MergeLeafPresent(t.entry, flags);
    MergeLeafUser(t.entry, flags);
    MergeLeafWritable(t.entry, flags);
  }

  // ---- rights ----------------------------------------------------------------------------------------

  ghost predicate SlotsSame(m: Memory, n: Memory, roles: Roles) {
    forall r, i: nat :: r in roles && roles[r].Pml4? && i < ENTRIES ==> (UserSlot(n, r, i) <==> UserSlot(m, r, i))
  }

  ghost predicate NoNewUser(m: Memory, n: Memory, roles: Roles) {
    forall r, q :: r in roles && roles[r].Pml4? && InRange(q) && LeafUser(Lookup(n, r, q)) ==> LeafUser(Lookup(m, r, q))
  }

  /** No address space has a new user slot or a new user page. */
  ghost predicate SupervisorKept(m: Memory, n: Memory, roles: Roles) {
    SlotsSame(m, n, roles) && NoNewUser(m, n, roles)
  }

  /** A call without the user bit gives ring 3 nothing, in any address space. */
  lemma SupervisorMap(m: Memory, n: Memory, roles: Roles, roles': Roles, free: set<nat>, free': set<nat>,
                      root: nat, va: Word, pa: Word, flags: Word, result: int)
    requires root in roles && roles[root].Pml4? && !User(flags)
    requires MapEffect(m, n, roles, roles', free, free', root, va, pa, flags, result)
    ensures SupervisorKept(m, n, roles)
  {
    NewLeafUser(Lookup(m, root, PathOf(va)), pa, flags);
    hide Entry, Present, Huge, FrameOf, User, Lookup, PtOf, NewLeaf, WellFormed, LinksKept, OthersUntouched, Grown;
    PathInRange(va);
    hide PathOf;
  }

  /** Supervisor calls leave every closed root closed. */
  lemma StillClosed(m: Memory, n: Memory, roles: Roles, r: nat)
    requires SupervisorKept(m, n, roles) && SlotsClosed(m, r) && r in roles && roles[r].Pml4?
    ensures SlotsClosed(n, r)
  {
    hide Entry, Present, Huge, FrameOf, User, Lookup;
    forall q | InRange(q) && LeafUser(Lookup(n, r, q))
      ensures User(E4(n, r, q))
    {
      UnmappedWithoutSlot(m, r, q);
      assert UserSlot(m, r, q.a) && UserSlot(n, r, q.a);
    }
  }

  /** What mapping calls for one root with these flags keep. */
  ghost predicate MapsKeep(m: Memory, n: Memory, roles: Roles, roles': Roles, free: set<nat>, free': set<nat>,
                           root: nat, flags: Word) {
    && Tracked(m, n, roles, roles', free, free') && PagesKept(m, n, roles)
    && (SlotsClosed(m, root) ==> SlotsClosed(n, root))
    && (!User(flags) ==> SupervisorKept(m, n, roles))
  }

  lemma MapsKeepStart(m: Memory, roles: Roles, free: set<nat>, root: nat, flags: Word)
    ensures MapsKeep(m, m, roles, roles, free, free, root, flags)
  {
    hide Entry, Present, Huge, FrameOf, User, Lookup, SlotsClosed;
  }

  lemma MapsKeepStep(m: Memory, n: Memory, o: Memory, r0: Roles, r1: Roles, r2: Roles,
                     f0: set<nat>, f1: set<nat>, f2: set<nat>, root: nat, flags: Word)
    requires MapsKeep(m, n, r0, r1, f0, f1, root, flags) && MapsKeep(n, o, r1, r2, f1, f2, root, flags)
    ensures MapsKeep(m, o, r0, r2, f0, f2, root, flags)
  {
    hide Entry, Present, Huge, FrameOf, User, Lookup, SlotsClosed, LinksKept, OthersUntouched, UserSlot, LeafUser;
    TrackedStep(m, n, o, r0, r1, r2, f0, f1, f2);
    PagesKeptTrans(m, n, o, r0, r1);
    if !User(flags) {
      SupervisorTrans(m, n, o, r0, r1);
    }
  }

  lemma PagesKeptTrans(m: Memory, n: Memory, o: Memory, roles: Roles, roles': Roles)
    requires PagesKept(m, n, roles) && PagesKept(n, o, roles')
    requires forall f :: f in roles ==> f in roles' && roles'[f] == roles[f]
    ensures PagesKept(m, o, roles)
  {
    hide Lookup;
    forall r, q | r in roles && roles[r].Pml4? && InRange(q)
      ensures PageKept(Lookup(m, r, q), Lookup(o, r, q))
    {
      assert PageKept(Lookup(m, r, q), Lookup(n, r, q)) && PageKept(Lookup(n, r, q), Lookup(o, r, q));
    }
  }

  lemma SupervisorTrans(m: Memory, n: Memory, o: Memory, roles: Roles, roles': Roles)
    requires SupervisorKept(m, n, roles) && SupervisorKept(n, o, roles')
    requires forall f :: f in roles ==> f in roles' && roles'[f] == roles[f]
    ensures SupervisorKept(m, o, roles)
  {
    hide Lookup, LeafUser, UserSlot;
  }

  /** One call. */
  lemma MapCallKeeps(m: Memory, n: Memory, roles: Roles, roles': Roles, free: set<nat>, free': set<nat>,
                     root: nat, va: Word, pa: Word, flags: Word, result: int)
    requires WellFormed(m, roles) && root in roles && roles[root].Pml4?
    requires MapEffect(m, n, roles, roles', free, free', root, va, pa, flags, result)
    ensures MapsKeep(m, n, roles, roles', free, free', root, flags) && WellFormed(n, roles')
  {
    hide MapEffect, WellFormed, SlotsClosed, User, Tracked, PagesKept, SupervisorKept;
    hide PtOf, PathOf, Lookup, Entry, Present, Huge, FrameOf;
    MapIsTracked(m, n, roles, roles', free, free', root, va, pa, flags, result);
    MapKeepsPages(m, n, roles, roles', free, free', root, va, pa, flags, result);
    if SlotsClosed(m, root) {
      SlotsStayClosed(m, n, roles, roles', free, free', root, va, pa, flags, result, root);
    }
    if !User(flags) {
      SupervisorMap(m, n, roles, roles', free, free', root, va, pa, flags, result);
    }
  }
}
