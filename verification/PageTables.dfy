/** Four-level page tables (4-level paging, section 4.5 of the Intel SDM, Volume 3A) as data in physical
    memory, and what single stores into them do to every translation. */
module PageTables {
  import opened Words
  import opened FrameSets

  const ENTRIES: nat := 512
  const PAGE_PRESENT: Word := 0x1
  const PAGE_WRITABLE: Word := 0x2
  const PAGE_USER: Word := 0x4
  const HUGE_PAGE: Word := 0x80
  const PAGE_MASK: Word := 0x000F_FFFF_FFFF_F000

  function Present(e: Word): bool { e & PAGE_PRESENT != 0 }

  function Writable(e: Word): bool { e & PAGE_WRITABLE != 0 }

  function User(e: Word): bool { e & PAGE_USER != 0 }

  function Huge(e: Word): bool { e & HUGE_PAGE != 0 }

  /** The frame an entry points at. */
  function FrameOf(e: Word): nat {
    FrameBits(e) as nat
  }

  /** A new directory entry: table address, present, writable, and the user bit if asked for. */
  function TableEntry(frame: nat, flags: Word): Word
    requires frame < MAX_PAGES
  {
    TableWord(frame as Word, flags)
  }

  function MergeUser(e: Word, flags: Word): Word {
    e | (flags & PAGE_USER)
  }

  function LeafEntry(pa: Word, flags: Word): Word {
    (pa & PAGE_MASK) | flags | PAGE_PRESENT
  }

  function MergeLeaf(e: Word, flags: Word): Word {
    e | (flags & (PAGE_USER | PAGE_WRITABLE))
  }

  /** How a directory entry looks once a level has been passed: an old one with the user bit merged in, a new one
      made of the table's address, the bits for present and writable, and the user bit if asked for. */
  predicate DirWord(was: Word, now: Word, flags: Word) {
    now == if was & 1 != 0 then was | (flags & 4) else (now & 0x000F_FFFF_FFFF_F000) | 3 | (flags & 4)
  }

  // ---- bit facts -------------------------------------------------------------------------------------

  function FrameBits(e: Word): Word { (e & PAGE_MASK) >> 12 }

  function TableWord(b: Word, flags: Word): Word {
    (b << 12) | PAGE_PRESENT | PAGE_WRITABLE | (flags & PAGE_USER)
  }

  lemma TablePresent(b: Word, flags: Word)
    ensures Present(TableWord(b, flags))
  {
  }

  lemma TableWritable(b: Word, flags: Word)
    ensures Writable(TableWord(b, flags))
  {
  }

  lemma TableNotHuge(b: Word, flags: Word)
    ensures !Huge(TableWord(b, flags))
  {
  }

  lemma TableUser(b: Word, flags: Word)
    ensures User(TableWord(b, flags)) == User(flags)
  {
  }

  lemma TableFrame(b: Word, flags: Word)
    requires b < 0x10_0000
    ensures FrameBits(TableWord(b, flags)) == b
  {
  }

  lemma TableWordForm(was: Word, b: Word, flags: Word)
    requires b < 0x10_0000 && !Present(was)
    ensures DirWord(was, TableWord(b, flags), flags)
  {
  }

  lemma NewDirWord(was: Word, frame: nat, flags: Word)
    requires frame < MAX_PAGES && !Present(was)
    ensures DirWord(was, TableEntry(frame, flags), flags)
  {
    SmallFrame(frame);
    TableWordForm(was, frame as Word, flags);
    hide DirWord, TableWord, Present;
  }

  lemma MergedDirWord(was: Word, flags: Word)
    requires Present(was)
    ensures DirWord(was, MergeUser(was, flags), flags)
  {
  }

  lemma TableEntryMeaning(frame: nat, flags: Word)
    requires frame < MAX_PAGES
    ensures var e := TableEntry(frame, flags);
            Present(e) && Writable(e) && !Huge(e) && User(e) == User(flags) && FrameOf(e) == frame
  {
    var b := frame as Word;
    SmallFrame(frame);
    TablePresent(b, flags);
    TableWritable(b, flags);
    TableNotHuge(b, flags);
    TableUser(b, flags);
    TableFrame(b, flags);
    WordThenValue(frame);
    hide Present, Writable, Huge, User, FrameBits, TableWord;
  }

  lemma MergeUserPresent(e: Word, flags: Word)
    ensures Present(MergeUser(e, flags)) == Present(e)
  {
  }

  lemma MergeUserWritable(e: Word, flags: Word)
    ensures Writable(MergeUser(e, flags)) == Writable(e)
  {
  }

  lemma MergeUserHuge(e: Word, flags: Word)
    ensures Huge(MergeUser(e, flags)) == Huge(e)
  {
  }

  lemma MergeUserUser(e: Word, flags: Word)
    ensures User(MergeUser(e, flags)) <==> User(e) || User(flags)
  {
    assert MergeUser(e, flags) & PAGE_USER == (e & PAGE_USER) | (flags & PAGE_USER);
  }

  lemma MergeUserFrame(e: Word, flags: Word)
    ensures FrameBits(MergeUser(e, flags)) == FrameBits(e)
  {
  }

  lemma MergeUserMeaning(e: Word, flags: Word)
    ensures var n := MergeUser(e, flags);
            Present(n) == Present(e) && Writable(n) == Writable(e) && Huge(n) == Huge(e) && FrameOf(n) == FrameOf(e)
            && User(n) == (User(e) || User(flags))
  {
    MergeUserPresent(e, flags);
    MergeUserWritable(e, flags);
    MergeUserHuge(e, flags);
    MergeUserUser(e, flags);
    MergeUserFrame(e, flags);
    hide Present, Writable, Huge, User, MergeUser, FrameBits;
  }

  lemma LeafEntryPresent(pa: Word, flags: Word)
    ensures Present(LeafEntry(pa, flags))
  {
  }

  lemma LeafEntryUser(pa: Word, flags: Word)
    ensures User(LeafEntry(pa, flags)) == User(flags)
  {
  }

  lemma LeafEntryWritable(pa: Word, flags: Word)
    ensures Writable(LeafEntry(pa, flags)) == Writable(flags)
  {
  }

  /** Flag bits inside the address field end up in the stored address. */
  lemma LeafEntryAddress(pa: Word, flags: Word)
    ensures LeafEntry(pa, flags) & PAGE_MASK == (pa | flags) & PAGE_MASK
  {
  }

  lemma MergeLeafPresent(e: Word, flags: Word)
    ensures Present(MergeLeaf(e, flags)) == Present(e)
  {
  }

  lemma MergeLeafUser(e: Word, flags: Word)
    ensures User(MergeLeaf(e, flags)) <==> User(e) || User(flags)
  {
    assert MergeLeaf(e, flags) & PAGE_USER == (e & PAGE_USER) | (flags & PAGE_USER);
  }

  lemma MergeLeafWritable(e: Word, flags: Word)
    ensures Writable(MergeLeaf(e, flags)) <==> Writable(e) || Writable(flags)
  {
    assert MergeLeaf(e, flags) & PAGE_WRITABLE == (e & PAGE_WRITABLE) | (flags & PAGE_WRITABLE);
  }

  lemma MergeLeafAddress(e: Word, flags: Word)
    ensures MergeLeaf(e, flags) & PAGE_MASK == e & PAGE_MASK
  {
  }

  lemma ZeroIsAbsent()
    ensures !Present(0) && !Huge(0)
  {
  }

  // ---- virtual addresses -----------------------------------------------------------------------------

  /** The four table indices of a virtual address. */
  datatype Path = Path(a: nat, b: nat, c: nat, d: nat)

  function PathOf(va: Word): Path {
    Path(((va >> 39) & 0x1FF) as nat, ((va >> 30) & 0x1FF) as nat, ((va >> 21) & 0x1FF) as nat,
         ((va >> 12) & 0x1FF) as nat)
  }

  predicate InRange(p: Path) {
    p.a < ENTRIES && p.b < ENTRIES && p.c < ENTRIES && p.d < ENTRIES
  }

  lemma IndexBits(va: Word)
    ensures (va >> 39) & 0x1FF <= 0x1FF && (va >> 30) & 0x1FF <= 0x1FF
    ensures (va >> 21) & 0x1FF <= 0x1FF && (va >> 12) & 0x1FF <= 0x1FF
  {
  }

  lemma PathInRange(va: Word)
    ensures InRange(PathOf(va))
  {
    IndexBits(va);
    SmallIndex((va >> 39) & 0x1FF);
    SmallIndex((va >> 30) & 0x1FF);
    SmallIndex((va >> 21) & 0x1FF);
    SmallIndex((va >> 12) & 0x1FF);
  }

  /** Bits 12 to 47: the page of a virtual address.  Bits 48 and up take no part in the walk. */
  function PageOf(va: Word): Word {
    (va >> 12) & 0xF_FFFF_FFFF
  }

  /** A page number is its four indices side by side. */
  lemma PageFromIndices(v: Word)
    ensures PageOf(v) == (((v >> 39) & 0x1FF) << 27) | (((v >> 30) & 0x1FF) << 18)
                         | (((v >> 21) & 0x1FF) << 9) | ((v >> 12) & 0x1FF)
  {
  }

  lemma IndicesFromPage(v: Word)
    ensures (v >> 39) & 0x1FF == (PageOf(v) >> 27) & 0x1FF && (v >> 30) & 0x1FF == (PageOf(v) >> 18) & 0x1FF
    ensures (v >> 21) & 0x1FF == (PageOf(v) >> 9) & 0x1FF && (v >> 12) & 0x1FF == PageOf(v) & 0x1FF
  {
  }

  /** Two addresses take the same path through the tables exactly when bits 12 to 47 agree. */
  lemma SamePath(v: Word, w: Word)
    ensures PathOf(v) == PathOf(w) <==> PageOf(v) == PageOf(w)
  {
    IndicesFromPage(v);
    IndicesFromPage(w);
    PageFromIndices(v);
    PageFromIndices(w);
    if PathOf(v) == PathOf(w) {
      ValueInjective((v >> 39) & 0x1FF, (w >> 39) & 0x1FF);
      ValueInjective((v >> 30) & 0x1FF, (w >> 30) & 0x1FF);
      ValueInjective((v >> 21) & 0x1FF, (w >> 21) & 0x1FF);
      ValueInjective((v >> 12) & 0x1FF, (w >> 12) & 0x1FF);
    }
    hide PageOf;
  }

  // ---- memory ----------------------------------------------------------------------------------------

  /** Physical memory, 512 words to a frame. */
  type Memory = seq<Word>

  const WORDS: nat := MAX_PAGES * ENTRIES

  function Entry(m: Memory, frame: nat, i: nat): Word {
    if frame * ENTRIES + i < |m| then m[frame * ENTRIES + i] else 0
  }

  function Store(m: Memory, frame: nat, i: nat, v: Word): (n: Memory)
    requires |m| == WORDS && frame < MAX_PAGES && i < ENTRIES
    ensures |n| == WORDS
  {
    m[frame * ENTRIES + i := v]
  }

  lemma EntryOfStore(m: Memory, frame: nat, i: nat, v: Word)
    requires |m| == WORDS && frame < MAX_PAGES && i < ENTRIES
    ensures Entry(Store(m, frame, i, v), frame, i) == v
    ensures forall g: nat, j: nat :: j < ENTRIES && (g != frame || j != i) ==>
            Entry(Store(m, frame, i, v), g, j) == Entry(m, g, j)
  {
  }

  lemma StoreIs(m: Memory, frame: nat, i: nat, v: Word)
    requires |m| == WORDS && frame < MAX_PAGES && i < ENTRIES
    ensures frame * 512 + i < |m| && Store(m, frame, i, v) == m[frame * 512 + i := v]
  {
  }

  // ---- the tree --------------------------------------------------------------------------------------

  /** What a table frame is for: its level, the indices that lead to it and, below the level that address
      spaces share, the one table that points at it. */
  datatype Role = Pml4 | Pdpt(a: nat) | Pd(a: nat, b: nat, up: nat) | Pt(a: nat, b: nat, c: nat, up: nat)

  type Roles = map<nat, Role>

  function Child(r: Role, frame: nat, i: nat): Role
    requires !r.Pt?
  {
    match r
    case Pml4 => Pdpt(i)
    case Pdpt(a) => Pd(a, i, frame)
    case Pd(a, b, _) => Pt(a, b, i, frame)
  }

  /** Entry e of a table with role r points at a lower table. */
  predicate Links(r: Role, e: Word) {
    !r.Pt? && Present(e) && !(r.Pd? && Huge(e))
  }

  ghost predicate LinkFits(roles: Roles, f: nat, i: nat, e: Word)
    requires f in roles
  {
    && (Links(roles[f], e) ==> FrameOf(e) in roles && roles[FrameOf(e)] == Child(roles[f], f, i) && Writable(e))
    && (roles[f].Pd? && Huge(e) ==> Present(e))
  }

  /** Entry i of table `up` points at table f. */
  ghost predicate HangsAt(m: Memory, roles: Roles, f: nat, up: nat, i: nat) {
    up in roles && i < ENTRIES && Links(roles[up], Entry(m, up, i)) && FrameOf(Entry(m, up, i)) == f
  }

  /** Every table but a PML4 is pointed at by its parent, so it can be reached from a PML4. */
  ghost predicate Hangs(m: Memory, roles: Roles, f: nat)
    requires f in roles
  {
    match roles[f]
    case Pml4 => true
    case Pdpt(a) => exists root :: HangsAt(m, roles, f, root, a) && roles[root].Pml4?
    case Pd(_, b, up) => HangsAt(m, roles, f, up, b)
    case Pt(_, _, c, up) => HangsAt(m, roles, f, up, c)
  }

  /** Every link of every table leads to a table of the next level whose role names exactly those indices
      and, below the PDPTs, exactly that parent; every link is writable, and no absent page-directory entry
      has the huge bit.  So no two places share a table, except that several PML4s may share a PDPT in the
      same slot. */
  ghost predicate Tree(m: Memory, roles: Roles) {
    && |m| == WORDS
    && (forall f :: f in roles ==> 0 < f < MAX_PAGES)
    && (forall f: nat, i: nat :: f in roles && i < ENTRIES ==> LinkFits(roles, f, i, Entry(m, f, i)))
    && (forall f :: f in roles ==> Hangs(m, roles, f))
  }

  /** Below the PML4, a directory entry carries the user bit whenever anything under it does. */
  ghost predicate UserClosed(m: Memory, roles: Roles) {
    forall f: nat, i: nat, j: nat :: f in roles && !roles[f].Pml4? && i < ENTRIES && j < ENTRIES ==>
      UserCovers(m, roles[f], f, i, j)
  }

  ghost predicate UserCovers(m: Memory, r: Role, f: nat, i: nat, j: nat) {
    var e := Entry(m, f, i);
    var below := Entry(m, FrameOf(e), j);
    Links(r, e) && Present(below) && User(below) ==> User(e)
  }

  ghost predicate WellFormed(m: Memory, roles: Roles) {
    Tree(m, roles) && UserClosed(m, roles)
  }

  // ---- walks -----------------------------------------------------------------------------------------

  function E4(m: Memory, root: nat, p: Path): Word { Entry(m, root, p.a) }

  function E3(m: Memory, root: nat, p: Path): Word { Entry(m, FrameOf(E4(m, root, p)), p.b) }

  function E2(m: Memory, root: nat, p: Path): Word { Entry(m, FrameOf(E3(m, root, p)), p.c) }

  function E1(m: Memory, root: nat, p: Path): Word { Entry(m, FrameOf(E2(m, root, p)), p.d) }

  datatype Translation = Unmapped | HugePage(entry: Word) | Page(entry: Word)

  /** The entry that ends the walk for path p. */
  function Lookup(m: Memory, root: nat, p: Path): Translation {
    if !Present(E4(m, root, p)) then Unmapped
    else if !Present(E3(m, root, p)) then Unmapped
    else if !Present(E2(m, root, p)) then Unmapped
    else if Huge(E2(m, root, p)) then HugePage(E2(m, root, p))
    else if !Present(E1(m, root, p)) then Unmapped
    else Page(E1(m, root, p))
  }

  /** The page table that holds path p's entry, if the walk gets that far. */
  function PtOf(m: Memory, root: nat, p: Path): Option<nat> {
    if Present(E4(m, root, p)) && Present(E3(m, root, p)) && Present(E2(m, root, p)) && !Huge(E2(m, root, p))
    then Some(FrameOf(E2(m, root, p))) else None
  }

  datatype Option<T> = None | Some(value: T)

  ghost predicate SameLookups(m: Memory, n: Memory, roles: Roles) {
    forall r, p :: r in roles && roles[r].Pml4? && InRange(p) ==> Lookup(n, r, p) == Lookup(m, r, p)
  }

  /** Links only ever appear: none is removed or redirected. */
  ghost predicate LinksKept(m: Memory, n: Memory, roles: Roles) {
    forall f: nat, i: nat :: f in roles && i < ENTRIES && Links(roles[f], Entry(m, f, i)) ==>
      Links(roles[f], Entry(n, f, i)) && FrameOf(Entry(n, f, i)) == FrameOf(Entry(m, f, i))
  }

  /** The frames met on a walk have the roles the indices say. */
  lemma WalkRoles(m: Memory, roles: Roles, root: nat, p: Path)
    requires Tree(m, roles) && root in roles && roles[root].Pml4? && InRange(p)
    ensures Present(E4(m, root, p)) ==>
              FrameOf(E4(m, root, p)) in roles && roles[FrameOf(E4(m, root, p))] == Pdpt(p.a)
    ensures Present(E4(m, root, p)) && Present(E3(m, root, p)) ==>
              FrameOf(E3(m, root, p)) in roles && roles[FrameOf(E3(m, root, p))] ==
                Pd(p.a, p.b, FrameOf(E4(m, root, p)))
    ensures PtOf(m, root, p).Some? ==>
              PtOf(m, root, p).value in roles
              && roles[PtOf(m, root, p).value] == Pt(p.a, p.b, p.c, FrameOf(E3(m, root, p)))
  {
    hide Entry, FrameOf, Present, Huge, Writable;
    assert LinkFits(roles, root, p.a, E4(m, root, p));
    if Present(E4(m, root, p)) {
      assert LinkFits(roles, FrameOf(E4(m, root, p)), p.b, E3(m, root, p));
      if Present(E3(m, root, p)) {
        assert LinkFits(roles, FrameOf(E3(m, root, p)), p.c, E2(m, root, p));
      }
    }
  }

  /** The directory entry above a table at level 2 or 1 carries the user bit. */
  ghost predicate UserAbove(m: Memory, r: Role) {
    match r
    case Pml4 => true
    case Pdpt(_) => true
    case Pd(_, b, up) => User(Entry(m, up, b))
    case Pt(_, _, c, up) => User(Entry(m, up, c))
  }

  lemma SameLookupsTrans(m: Memory, n: Memory, o: Memory, roles: Roles, roles': Roles)
    requires SameLookups(m, n, roles) && SameLookups(n, o, roles')
    requires forall f :: f in roles ==> f in roles' && roles'[f] == roles[f]
    ensures SameLookups(m, o, roles)
  {
    hide Lookup;
  }

  lemma LinksKeptTrans(m: Memory, n: Memory, o: Memory, roles: Roles, roles': Roles)
    requires LinksKept(m, n, roles) && LinksKept(n, o, roles')
    requires forall f :: f in roles ==> f in roles' && roles'[f] == roles[f]
    ensures LinksKept(m, o, roles)
  {
    hide Entry, Present, Huge, FrameOf;
  }

  /** A table stays hung while links are kept. */
  lemma HangsKept(m: Memory, n: Memory, roles: Roles, roles': Roles, f: nat)
    requires LinksKept(m, n, roles) && f in roles && Hangs(m, roles, f)
    requires forall f :: f in roles ==> f in roles' && roles'[f] == roles[f]
    ensures Hangs(n, roles', f)
  {
    hide Entry, Present, Huge, FrameOf;
    if roles[f].Pdpt? {
      var root :| HangsAt(m, roles, f, root, roles[f].a) && roles[root].Pml4?;
      assert HangsAt(n, roles', f, root, roles[f].a) && roles'[root].Pml4?;
    }
  }
}
