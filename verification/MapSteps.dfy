/** The levels of map_page_in as changes of memory, and how they compose. */
module MapSteps {
  import opened Words
  import opened FrameSets
  import opened PageTables
  import opened TableStores

  /** The result code of the three directory levels of map_page_in (0: the page table was reached), as a
      function of the tables and the number of free frames before the call. */
  function WalkResult(m: Memory, root: nat, p: Path, free: nat): (r: int)
    ensures r == 0 || -5 <= r <= -2
  {
    if !Present(E4(m, root, p)) then (if free == 0 then -2 else if free == 1 then -3 else if free == 2 then -5 else 0)
    else if !Present(E3(m, root, p)) then (if free == 0 then -3 else if free == 1 then -5 else 0)
    else if Huge(E2(m, root, p)) then -4
    else if !Present(E2(m, root, p)) && free == 0 then -5
    else 0
  }

  /** The result code of map_page_in. */
  function MapResult(m: Memory, root: nat, va: Word, pa: Word, free: nat): int {
    if va & 0xFFF != 0 || pa & 0xFFF != 0 then -1
    else if WalkResult(m, root, PathOf(va), free) != 0 then WalkResult(m, root, PathOf(va), free)
    else LeafResult(if Lookup(m, root, PathOf(va)).Page? then E1(m, root, PathOf(va)) else 0, pa)
  }

  /** The verdict on the page-table entry found: -6 if it maps another frame. */
  function LeafResult(e: Word, pa: Word): (r: int)
    ensures r == 0 || r == -6
  {
    if Present(e) && !SameFrame(e, pa) then -6 else 0
  }

  predicate SameFrame(e: Word, pa: Word) {
    e & PAGE_MASK == pa & PAGE_MASK
  }

  /** What the entry found is replaced by. */
  function LeafFor(e: Word, pa: Word, flags: Word): Word {
    if Present(e) then MergeLeaf(e, flags) else LeafEntry(pa, flags)
  }

  /** The leaf entry a successful map_page_in leaves behind. */
  function NewLeaf(t: Translation, pa: Word, flags: Word): Word {
    if t.Page? then MergeLeaf(t.entry, flags) else LeafEntry(pa, flags)
  }

  /** The tables only grow, by frames that were free, and no frame is lost or shared. */
  ghost predicate Grown(roles: Roles, roles': Roles, free: set<nat>, free': set<nat>) {
    && (forall f :: f in roles ==> f in roles' && roles'[f] == roles[f])
    && (forall f :: f in roles' && f !in roles ==> !roles'[f].Pml4? && f in free)
    && free' == free - (roles'.Keys - roles.Keys)
  }

  /** Frames that are no table are left alone. */
  ghost predicate OthersUntouched(m: Memory, n: Memory, roles: Roles) {
    forall f: nat, i: nat :: f !in roles && i < ENTRIES ==> Entry(n, f, i) == Entry(m, f, i)
  }

  /** Among the old tables only entry (table, index) may differ. */
  ghost predicate OnlyEntry(m: Memory, n: Memory, roles: Roles, table: nat, index: nat) {
    forall f: nat, i: nat :: f in roles && i < ENTRIES && (f != table || i != index) ==>
      Entry(n, f, i) == Entry(m, f, i)
  }

  /** A directory level has been passed at entry (table, index): it links to `next`, carries the requested
      user bit, and nothing else about any translation or any other entry of the old tables changed. */
  ghost predicate Entered(m: Memory, n: Memory, roles: Roles, roles': Roles, free: set<nat>, free': set<nat>,
                          table: nat, index: nat, flags: Word, next: nat) {
    var was := Entry(m, table, index);
    var now := Entry(n, table, index);
    && table in roles && index < ENTRIES && next != 0
    && Grown(roles, roles', free, free')
    && WellFormed(n, roles') && SameLookups(m, n, roles) && LinksKept(m, n, roles)
    && OnlyEntry(m, n, roles, table, index) && OthersUntouched(m, n, roles')
    && Links(roles[table], now) && FrameOf(now) == next
    && next in roles' && !roles[table].Pt? && roles'[next] == Child(roles[table], table, index)
    && (User(now) <==> User(flags) || (Present(was) && User(was)))
    && DirWord(was, now, flags)
    && (if Present(was) then next == FrameOf(was) && roles' == roles
        else roles'.Keys == roles.Keys + {next} && next !in roles && forall j: nat :: j < ENTRIES ==>
          Entry(n, next, j) == 0)
  }

  /** What map_page_in relies on before passing a level. */
  ghost predicate Enterable(m: Memory, roles: Roles, table: nat, index: nat, flags: Word) {
    && WellFormed(m, roles) && table in roles && !roles[table].Pt? && index < ENTRIES
    && (roles[table].Pd? ==> !Huge(Entry(m, table, index)))
    && (User(flags) ==> UserAbove(m, roles[table]))
  }

  lemma EnterByMerging(m: Memory, roles: Roles, free: set<nat>, table: nat, index: nat, flags: Word)
    requires Enterable(m, roles, table, index, flags) && Present(Entry(m, table, index))
    ensures table < MAX_PAGES
    ensures Entered(m, Store(m, table, index, MergeUser(Entry(m, table, index), flags)), roles, roles, free, free,
                    table, index, flags, FrameOf(Entry(m, table, index)))
  {
    hide Entry, Store, FrameOf, Present, Huge, User, Writable, MergeUser, UserAbove, Hangs, UserClosed, Child;
    hide LinksKept, SameLookups, DirWord;
    var e := Entry(m, table, index);
    MergedDirWord(e, flags);
    assert LinkFits(roles, table, index, e);
    MergeUserMeaning(e, flags);
    RewriteLink(m, roles, table, index, MergeUser(e, flags));
    EntryOfStore(m, table, index, MergeUser(e, flags));
  }

  lemma EnterByHanging(m: Memory, zeroed: Memory, roles: Roles, free: set<nat>, table: nat, index: nat, flags: Word,
                       g: nat)
    requires Enterable(m, roles, table, index, flags) && !Present(Entry(m, table, index))
    requires g in free && 0 < g < MAX_PAGES && g !in roles && |zeroed| == WORDS
    requires forall i: nat :: i < ENTRIES ==> Entry(zeroed, g, i) == 0
    requires forall f: nat, i: nat :: f != g && i < ENTRIES ==> Entry(zeroed, f, i) == Entry(m, f, i)
    ensures table < MAX_PAGES
    ensures Entered(m, Store(zeroed, table, index, TableEntry(g, flags)), roles,
                    roles[g := Child(roles[table], table, index)],
                    free, free - {g}, table, index, flags, g)
  {
    hide Entry, Store, FrameOf, Present, Huge, User, Writable, TableEntry, UserClosed, LinksKept, SameLookups, DirWord;
    NewDirWord(Entry(m, table, index), g, flags);
    assert Hangs(m, roles, table) && !Child(roles[table], table, index).Pml4?;
    hide Child;
    assert AgreeOn(m, zeroed, roles);
    assert UserAbove(m, roles[table]) <==> UserAbove(zeroed, roles[table]);
    hide UserAbove, Hangs;
    StoreElsewhere(m, zeroed, roles);
    ZeroIsAbsent();
    TableEntryMeaning(g, flags);
    HangTable(zeroed, roles, table, index, g, TableEntry(g, flags));
    EntryOfStore(zeroed, table, index, TableEntry(g, flags));
    var n := Store(zeroed, table, index, TableEntry(g, flags));
    SameLookupsTrans(m, zeroed, n, roles, roles);
    LinksKeptTrans(m, zeroed, n, roles, roles);
    var roles' := roles[g := Child(roles[table], table, index)];
    assert roles'.Keys == roles.Keys + {g} && roles'.Keys - roles.Keys == {g};
  }

  lemma TableInMemory(m: Memory, roles: Roles, table: nat, index: nat, flags: Word)
    requires Enterable(m, roles, table, index, flags)
    ensures table in roles && 0 < table < MAX_PAGES && index < ENTRIES && !roles[table].Pt?
  {
  }

  // ---- composing the levels --------------------------------------------------------------------------

  /** PML4 entries other than (root, a) are untouched; once level 4 is passed, (root, a) carries the user
      bit exactly if it did or the flags ask for it, and leads where it did or to a new table. */
  ghost predicate RootSlots(m: Memory, n: Memory, roles: Roles, root: nat, a: nat, flags: Word, passed: bool) {
    && (forall r, i: nat :: r in roles && roles[r].Pml4? && i < ENTRIES && (r != root || i != a || !passed) ==>
          Entry(n, r, i) == Entry(m, r, i))
    && (passed ==>
          && Present(Entry(n, root, a)) && DirWord(Entry(m, root, a), Entry(n, root, a), flags)
          && (User(Entry(n, root, a)) <==> User(flags) || (Present(Entry(m, root, a)) && User(Entry(m, root, a))))
          && (if Present(Entry(m, root, a)) then FrameOf(Entry(n, root, a)) == FrameOf(Entry(m, root, a))
              else FrameOf(Entry(n, root, a)) !in roles))
  }

  /** Everything that holds from the start of map_page_in up to any level. */
  ghost predicate Progress(m: Memory, n: Memory, roles: Roles, roles': Roles, free: set<nat>, free': set<nat>,
                           root: nat, a: nat, flags: Word, passed: bool) {
    && Grown(roles, roles', free, free') && roles.Keys !! free
    && WellFormed(n, roles') && SameLookups(m, n, roles) && LinksKept(m, n, roles)
    && OthersUntouched(m, n, roles') && RootSlots(m, n, roles, root, a, flags, passed)
    && root in roles && roles[root].Pml4? && a < ENTRIES
  }

  lemma GrownTrans(r0: Roles, r1: Roles, r2: Roles, f0: set<nat>, f1: set<nat>, f2: set<nat>)
    requires Grown(r0, r1, f0, f1) && Grown(r1, r2, f1, f2)
    ensures Grown(r0, r2, f0, f2)
  {
    assert r2.Keys - r0.Keys == (r2.Keys - r1.Keys) + (r1.Keys - r0.Keys);
  }

  /** Passing level 4 starts the walk. */
  lemma ProgressStart(m: Memory, n: Memory, roles: Roles, roles': Roles, free: set<nat>, free': set<nat>,
                      root: nat, a: nat, flags: Word, pdpt: nat)
    requires Entered(m, n, roles, roles', free, free', root, a, flags, pdpt) && roles[root].Pml4? && roles.Keys !! free
    ensures Progress(m, n, roles, roles', free, free', root, a, flags, true)
  {
    hide Entry, Present, Huge, User, Writable, FrameOf, WellFormed, SameLookups, LinksKept, OthersUntouched, DirWord;
  }

  /** Passing a lower level keeps all of it. */
  lemma ProgressStep(m: Memory, n: Memory, o: Memory, roles: Roles, r1: Roles, r2: Roles, f0: set<nat>, f1: set<nat>,
                     f2: set<nat>,
                     root: nat, a: nat, flags: Word, table: nat, index: nat, next: nat)
    requires Progress(m, n, roles, r1, f0, f1, root, a, flags, true)
    requires Entered(n, o, r1, r2, f1, f2, table, index, flags, next) && !r1[table].Pml4?
    ensures Progress(m, o, roles, r2, f0, f2, root, a, flags, true)
  {
    hide Entry, Present, Huge, User, Writable, FrameOf, WellFormed, SameLookups, LinksKept, DirWord;
    GrownTrans(roles, r1, r2, f0, f1, f2);
    SameLookupsTrans(m, n, o, roles, r1);
    LinksKeptTrans(m, n, o, roles, r1);
  }

  // ---- where the levels lead -------------------------------------------------------------------------

  /** The entries of the next table are those of the old one, or zero if it is new. */
  lemma NextEntry(m: Memory, n: Memory, roles: Roles, roles': Roles, free: set<nat>, free': set<nat>,
                  table: nat, index: nat, flags: Word, next: nat, j: nat)
    requires WellFormed(m, roles)
    requires Entered(m, n, roles, roles', free, free', table, index, flags, next) && j < ENTRIES
    ensures Entry(n, next, j) == if Present(Entry(m, table, index)) then Entry(m, next, j) else 0
    ensures Enterable(n, roles', next, j, flags) || roles'[next].Pt? || (roles'[next].Pd? && Huge(Entry(n, next, j)))
  {
    hide Entry, Present, Huge, User, Writable, FrameOf, SameLookups, LinksKept, UserClosed, Hangs, Grown;
    hide OthersUntouched, DirWord;
    assert LinkFits(roles, table, index, Entry(m, table, index));
    assert next != table;
    if Present(Entry(m, table, index)) {
      assert next in roles;
    }
  }

  /** The state after the three directory levels, and what it says about the state before. */
  ghost predicate Walked(m: Memory, n: Memory, roles: Roles, roles': Roles, root: nat, p: Path, flags: Word, pt: nat) {
    && WellFormed(n, roles') && root in roles && root in roles' && roles'[root].Pml4? && InRange(p)
    && PtOf(n, root, p) == Some(pt) && pt in roles' && roles'[pt].Pt?
    && (User(flags) ==> UserAbove(n, roles'[pt]))
    && Entry(n, pt, p.d) == (if PtOf(m, root, p).Some? then E1(m, root, p) else 0)
  }

  lemma SecondEntry(m: Memory, m1: Memory, r0: Roles, r1: Roles, f0: set<nat>, f1: set<nat>,
                    root: nat, p: Path, flags: Word, pdpt: nat)
    requires WellFormed(m, r0) && root in r0 && r0[root].Pml4? && InRange(p)
    requires Entered(m, m1, r0, r1, f0, f1, root, p.a, flags, pdpt)
    ensures Entry(m1, pdpt, p.b) == if Present(E4(m, root, p)) then E3(m, root, p) else 0
    ensures Enterable(m1, r1, pdpt, p.b, flags) && r1[pdpt] == Pdpt(p.a)
  {
    NextEntry(m, m1, r0, r1, f0, f1, root, p.a, flags, pdpt, p.b);
  }

  lemma ThirdEntry(m: Memory, m1: Memory, m2: Memory, r0: Roles, r1: Roles, r2: Roles, f0: set<nat>, f1: set<nat>,
                   f2: set<nat>,
                   root: nat, p: Path, flags: Word, pdpt: nat, pd: nat)
    requires WellFormed(m, r0) && root in r0 && r0[root].Pml4? && InRange(p)
    requires Entered(m, m1, r0, r1, f0, f1, root, p.a, flags, pdpt)
    requires Entered(m1, m2, r1, r2, f1, f2, pdpt, p.b, flags, pd)
    ensures Entry(m2, pd, p.c) == if Present(E4(m, root, p)) && Present(E3(m, root, p)) then E2(m, root, p) else 0
    ensures !Huge(Entry(m2, pd, p.c)) ==> Enterable(m2, r2, pd, p.c, flags)
    ensures r2[pd] == Pd(p.a, p.b, pdpt)
  {
    hide Entry, Present, Huge, User, Writable, FrameOf, SameLookups, LinksKept, UserClosed, Hangs, OthersUntouched;
    hide DirWord;
    SecondEntry(m, m1, r0, r1, f0, f1, root, p, flags, pdpt);
    NextEntry(m1, m2, r1, r2, f1, f2, pdpt, p.b, flags, pd, p.c);
    WalkRoles(m, r0, root, p);
    ZeroIsAbsent();
  }

  lemma WalkReaches(m: Memory, m1: Memory, m2: Memory, m3: Memory, r0: Roles, r1: Roles, r2: Roles, r3: Roles,
                    f0: set<nat>, f1: set<nat>, f2: set<nat>, f3: set<nat>,
                    root: nat, p: Path, flags: Word, pdpt: nat, pd: nat, pt: nat)
    requires WellFormed(m, r0) && root in r0 && r0[root].Pml4? && InRange(p)
    requires Entered(m, m1, r0, r1, f0, f1, root, p.a, flags, pdpt)
    requires Entered(m1, m2, r1, r2, f1, f2, pdpt, p.b, flags, pd)
    requires Entered(m2, m3, r2, r3, f2, f3, pd, p.c, flags, pt)
    ensures root in r3 && r3[root].Pml4? && pt in r3 && r3[pt] == Pt(p.a, p.b, p.c, pd)
    ensures PtOf(m3, root, p) == Some(pt)
    ensures User(flags) ==> UserAbove(m3, r3[pt])
  {
    SecondEntry(m, m1, r0, r1, f0, f1, root, p, flags, pdpt);
    ThirdEntry(m, m1, m2, r0, r1, r2, f0, f1, f2, root, p, flags, pdpt, pd);
    hide Entry, Present, Huge, User, Writable, FrameOf, SameLookups, WellFormed, OthersUntouched, Grown, Enterable;
    hide DirWord;
    assert Links(r1[root], Entry(m1, root, p.a));
    assert Links(r2[root], Entry(m2, root, p.a)) && Links(r2[pdpt], Entry(m2, pdpt, p.b));
    assert Links(r2[root], Entry(m3, root, p.a)) && Links(r2[pdpt], Entry(m3, pdpt, p.b));
  }

  lemma FourthEntry(m: Memory, m1: Memory, m2: Memory, m3: Memory, r0: Roles, r1: Roles, r2: Roles, r3: Roles,
                    f0: set<nat>, f1: set<nat>, f2: set<nat>, f3: set<nat>,
                    root: nat, p: Path, flags: Word, pdpt: nat, pd: nat, pt: nat)
    requires WellFormed(m, r0) && root in r0 && r0[root].Pml4? && InRange(p)
    requires Entered(m, m1, r0, r1, f0, f1, root, p.a, flags, pdpt)
    requires Entered(m1, m2, r1, r2, f1, f2, pdpt, p.b, flags, pd)
    requires Entered(m2, m3, r2, r3, f2, f3, pd, p.c, flags, pt)
    requires !Huge(Entry(m2, pd, p.c))
    ensures Entry(m3, pt, p.d) == if PtOf(m, root, p).Some? then E1(m, root, p) else 0
  {
    hide Entry, Present, Huge, User, Writable, FrameOf, SameLookups, LinksKept, UserClosed, Hangs, OthersUntouched;
    hide UserAbove, Grown, Enterable, DirWord;
    ThirdEntry(m, m1, m2, r0, r1, r2, f0, f1, f2, root, p, flags, pdpt, pd);
    SecondEntry(m, m1, r0, r1, f0, f1, root, p, flags, pdpt);
    NextEntry(m2, m3, r2, r3, f2, f3, pd, p.c, flags, pt, p.d);
    WalkRoles(m, r0, root, p);
    ZeroIsAbsent();
    hide WellFormed;
    if PtOf(m, root, p).Some? {
      assert pt == FrameOf(E2(m, root, p)) && pt in r0 && pt in r1;
      assert Entry(m1, pt, p.d) == Entry(m, pt, p.d);
      assert Entry(m2, pt, p.d) == Entry(m1, pt, p.d);
    }
  }

  lemma WalkDone(m: Memory, m1: Memory, m2: Memory, m3: Memory, r0: Roles, r1: Roles, r2: Roles, r3: Roles,
                 f0: set<nat>, f1: set<nat>, f2: set<nat>, f3: set<nat>,
                 root: nat, p: Path, flags: Word, pdpt: nat, pd: nat, pt: nat)
    requires WellFormed(m, r0) && root in r0 && r0[root].Pml4? && InRange(p)
    requires Entered(m, m1, r0, r1, f0, f1, root, p.a, flags, pdpt)
    requires Entered(m1, m2, r1, r2, f1, f2, pdpt, p.b, flags, pd)
    requires Entered(m2, m3, r2, r3, f2, f3, pd, p.c, flags, pt)
    requires !Huge(Entry(m2, pd, p.c))
    ensures Walked(m, m3, r0, r3, root, p, flags, pt)
  {
    WalkReaches(m, m1, m2, m3, r0, r1, r2, r3, f0, f1, f2, f3, root, p, flags, pdpt, pd, pt);
    FourthEntry(m, m1, m2, m3, r0, r1, r2, r3, f0, f1, f2, f3, root, p, flags, pdpt, pd, pt);
  }

  // ---- the whole call --------------------------------------------------------------------------------

  /** What a call map_page_in(root, va, pa, flags) with this result does.

      On success the page's own entry is the new leaf, seen by every address space whose walk ends in the
      same page table; every other translation of every address space is as before.  On failure no
      translation changed at all, whatever tables were hung on the way. */
  ghost predicate MapEffect(m: Memory, n: Memory, roles: Roles, roles': Roles, free: set<nat>, free': set<nat>,
                            root: nat, va: Word, pa: Word, flags: Word, result: int)
    requires root in roles
  {
    var p := PathOf(va);
    && Grown(roles, roles', free, free')
    && WellFormed(n, roles') && LinksKept(m, n, roles) && OthersUntouched(m, n, roles')
    && RootSlots(m, n, roles, root, p.a, flags, result != -1 && result != -2)
    && (result != 0 ==> SameLookups(m, n, roles))
    && (result == 0 ==>
          && PtOf(n, root, p).Some?
          && LeafChanged(m, n, roles, p, PtOf(n, root, p), NewLeaf(Lookup(m, root, p), pa, flags))
          && SharersAgree(m, n, roles, root, p)
          && !Lookup(m, root, p).HugePage?)
  }

  /** The address spaces that see the new leaf all saw the same entry before. */
  ghost predicate SharersAgree(m: Memory, n: Memory, roles: Roles, root: nat, p: Path) {
    forall r :: r in roles && roles[r].Pml4? && PtOf(n, r, p) == PtOf(n, root, p) ==>
      Lookup(m, r, p) == Lookup(m, root, p)
  }

  /** In the address spaces whose walk for p ends in table pt, p now has entry v; nothing else moved. */
  ghost predicate LeafChanged(m: Memory, n: Memory, roles: Roles, p: Path, pt: Option<nat>, v: Word) {
    forall r, q :: r in roles && roles[r].Pml4? && InRange(q) ==>
      Lookup(n, r, q) == if q == p && PtOf(n, r, q) == pt then LeafTranslation(v) else Lookup(m, r, q)
  }

  /** Storing the leaf after the walk. */
  lemma LeafStored(m: Memory, n: Memory, roles: Roles, roles': Roles, free: set<nat>, free': set<nat>,
                   root: nat, p: Path, flags: Word, pt: nat, v: Word)
    requires WellFormed(m, roles) && Progress(m, n, roles, roles', free, free', root, p.a, flags, true)
    requires Walked(m, n, roles, roles', root, p, flags, pt)
    requires Present(v) && (User(v) ==> User(flags) || (Present(Entry(n, pt, p.d)) && User(Entry(n, pt, p.d))))
    ensures pt < MAX_PAGES
    ensures var o := Store(n, pt, p.d, v);
            && WellFormed(o, roles') && LinksKept(m, o, roles) && OthersUntouched(m, o, roles')
            && RootSlots(m, o, roles, root, p.a, flags, true)
            && PtOf(o, root, p) == Some(pt) && LeafChanged(m, o, roles, p, Some(pt), v)
            && SharersAgree(m, o, roles, root, p)
  {
    hide Entry, Present, Huge, User, Writable, FrameOf, Store, UserClosed, Hangs, UserAbove, Child, Lookup, PtOf;
    hide LinksKept, DirWord;
    var o := Store(n, pt, p.d, v);
    EntryOfStore(n, pt, p.d, v);
    RewriteKeepsTree(n, roles', pt, p.d, v);
    RewriteKeepsClosure(n, roles', pt, p.d, v);
    RewriteLookups(n, roles', pt, p.d, v);
    LinksKeptTrans(m, n, o, roles, roles');
    WalkRoles(n, roles', root, p);
    forall r, q | r in roles && roles[r].Pml4? && InRange(q)
      ensures Lookup(o, r, q) == if q == p && PtOf(o, r, q) == Some(pt) then LeafTranslation(v) else Lookup(m, r, q)
    {
      WalkRoles(n, roles', r, q);
    }
    forall r | r in roles && roles[r].Pml4? && PtOf(o, r, p) == PtOf(o, root, p)
      ensures Lookup(m, r, p) == Lookup(m, root, p)
    {
      SameTableSameEntry(n, r, root, p, pt);
    }
  }

  lemma SameTableSameEntry(n: Memory, r: nat, root: nat, p: Path, pt: nat)
    requires PtOf(n, r, p) == PtOf(n, root, p) == Some(pt)
    ensures Lookup(n, r, p) == Lookup(n, root, p)
  {
    hide Entry, Present, Huge, FrameOf;
  }

  lemma EnterRoot(m: Memory, roles: Roles, root: nat, a: nat, flags: Word)
    requires WellFormed(m, roles) && root in roles && roles[root].Pml4? && a < ENTRIES
    ensures Enterable(m, roles, root, a, flags)
  {
  }

  lemma TableInRange(m: Memory, roles: Roles, f: nat)
    requires WellFormed(m, roles) && f in roles
    ensures 0 < f < MAX_PAGES
  {
  }

  lemma EnteredTable(m: Memory, n: Memory, roles: Roles, roles': Roles, free: set<nat>, free': set<nat>,
                     table: nat, index: nat, flags: Word, next: nat)
    requires Entered(m, n, roles, roles', free, free', table, index, flags, next)
    ensures next in roles' && 0 < next < MAX_PAGES
  {
  }

  /** The entry found at the end of the walk tells what was mapped before the call. */
  lemma EntrySeen(m: Memory, n: Memory, roles: Roles, roles': Roles, root: nat, p: Path, pa: Word, flags: Word, pt: nat)
    requires Walked(m, n, roles, roles', root, p, flags, pt)
    ensures InRange(p) && pt in roles' && roles'[pt].Pt? && 0 < pt < MAX_PAGES && root in roles' && roles'[root].Pml4?
    ensures Present(Entry(n, pt, p.d)) <==> Lookup(m, root, p).Page?
    ensures LeafResult(Entry(n, pt, p.d), pa) == LeafResult(if Lookup(m, root, p).Page? then E1(m, root, p) else 0, pa)
  {
    ZeroIsAbsent();
    hide Entry, Present, Huge, FrameOf, UserClosed, Hangs, UserAbove, SameFrame;
    if Lookup(m, root, p).Page? {
      assert Entry(n, pt, p.d) == E1(m, root, p);
    }
  }

  /** A call that changed nothing. */
  lemma NothingMapped(m: Memory, roles: Roles, free: set<nat>, root: nat, va: Word, pa: Word, flags: Word, result: int)
    requires WellFormed(m, roles) && root in roles && (result == -1 || result == -2)
    ensures MapEffect(m, m, roles, roles, free, free, root, va, pa, flags, result)
  {
    hide Entry, Present, Huge, FrameOf, UserClosed, Tree;
  }

  /** A call that gave up below level 4. */
  lemma MapStopped(m: Memory, n: Memory, roles: Roles, roles': Roles, free: set<nat>, free': set<nat>,
                   root: nat, va: Word, pa: Word, flags: Word, result: int)
    requires Progress(m, n, roles, roles', free, free', root, PathOf(va).a, flags, true) && result < -2
    ensures MapEffect(m, n, roles, roles', free, free', root, va, pa, flags, result)
  {
    hide Entry, Present, Huge, User, Writable, FrameOf, WellFormed, SameLookups, LinksKept, OthersUntouched, Grown;
    hide RootSlots;
  }

  /** A call that stored its leaf. */
  lemma MapFinished(m: Memory, n: Memory, roles: Roles, roles': Roles, free: set<nat>, free': set<nat>,
                    root: nat, va: Word, pa: Word, flags: Word, pt: nat, v: Word)
    requires WellFormed(m, roles) && Progress(m, n, roles, roles', free, free', root, PathOf(va).a, flags, true)
    requires Walked(m, n, roles, roles', root, PathOf(va), flags, pt)
    requires v == LeafFor(Entry(n, pt, PathOf(va).d), pa, flags)
    ensures pt < MAX_PAGES
    ensures WellFormed(Store(n, pt, PathOf(va).d, v), roles')
    ensures MapEffect(m, Store(n, pt, PathOf(va).d, v), roles, roles', free, free', root, va, pa, flags, 0)
  {
    var p := PathOf(va);
    var e := Entry(n, pt, p.d);
    hide Entry, Huge, User, Writable, FrameOf, LinksKept, OthersUntouched, Grown, RootSlots, MergeLeaf, LeafEntry;
    hide Store, UserClosed, Hangs, PathOf;
    MergeLeafPresent(e, flags);
    MergeLeafUser(e, flags);
    LeafEntryPresent(pa, flags);
    LeafEntryUser(pa, flags);
    ZeroIsAbsent();
    hide Present;
    WalkRoles(m, roles, root, p);
    LeafStored(m, n, roles, roles', free, free', root, p, flags, pt, v);
    assert Lookup(n, root, p) == Lookup(m, root, p);
    NotHugeWithTable(n, root, p);
  }

  lemma NotHugeWithTable(n: Memory, root: nat, p: Path)
    requires PtOf(n, root, p).Some?
    ensures !Lookup(n, root, p).HugePage?
  {
    hide Entry, Present, Huge, FrameOf;
  }
}
