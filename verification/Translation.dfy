/** Address translation and access rights over the table tree. */
module Translations {
  import opened Words
  import opened PageTables

  const LARGE_MASK: Word := 0x000F_FFFF_FFE0_0000

  /** The physical address a translation gives for va; 0 stands for "not mapped". */
  function Address(t: Translation, va: Word): Word {
    match t
    case Unmapped => 0
    case HugePage(e) => HugeAddress(e, va)
    case Page(e) => PageAddress(e, va)
  }

  function HugeAddress(e: Word, va: Word): Word {
    (e & LARGE_MASK) + (va & 0x1F_FFFF)
  }

  function PageAddress(e: Word, va: Word): Word {
    (e & PAGE_MASK) + (va & 0xFFF)
  }

  /** Ring-3 access needs the user bit at every level (section 4.6 of the Intel SDM, Volume 3A). */
  ghost predicate UserAccess(m: Memory, root: nat, p: Path) {
    match Lookup(m, root, p)
    case Unmapped => false
    case HugePage(e) => User(E4(m, root, p)) && User(E3(m, root, p)) && User(e)
    case Page(e) => User(E4(m, root, p)) && User(E3(m, root, p)) && User(E2(m, root, p)) && User(e)
  }

  /** Write access needs the writable bit at every level. */
  ghost predicate WriteAccess(m: Memory, root: nat, p: Path) {
    match Lookup(m, root, p)
    case Unmapped => false
    case HugePage(e) => Writable(E4(m, root, p)) && Writable(E3(m, root, p)) && Writable(e)
    case Page(e) => Writable(E4(m, root, p)) && Writable(E3(m, root, p)) && Writable(E2(m, root, p)) && Writable(e)
  }

  /** The user bit of the entry that ends the walk. */
  predicate LeafUser(t: Translation) {
    !t.Unmapped? && User(t.entry)
  }

  predicate LeafWritable(t: Translation) {
    !t.Unmapped? && Writable(t.entry)
  }

  /** Write access is decided by the last entry alone. */
  lemma WriteAccessIsLeaf(m: Memory, roles: Roles, root: nat, p: Path)
    requires WellFormed(m, roles) && root in roles && roles[root].Pml4? && InRange(p)
    ensures WriteAccess(m, root, p) <==> LeafWritable(Lookup(m, root, p))
  {
    hide Entry, FrameOf, Present, Huge, Writable, User;
    WalkRoles(m, roles, root, p);
    assert LinkFits(roles, root, p.a, E4(m, root, p));
    if Present(E4(m, root, p)) {
      assert LinkFits(roles, FrameOf(E4(m, root, p)), p.b, E3(m, root, p));
      if Present(E3(m, root, p)) {
        assert LinkFits(roles, FrameOf(E3(m, root, p)), p.c, E2(m, root, p));
      }
    }
  }

  /** User access is decided by the last entry and the PML4 entry. */
  lemma UserAccessIsLeafAndSlot(m: Memory, roles: Roles, root: nat, p: Path)
    requires WellFormed(m, roles) && root in roles && roles[root].Pml4? && InRange(p)
    ensures UserAccess(m, root, p) <==> LeafUser(Lookup(m, root, p)) && User(E4(m, root, p))
  {
    hide Entry, FrameOf, Present, Huge, Writable, User;
    WalkRoles(m, roles, root, p);
    if Present(E4(m, root, p)) && Present(E3(m, root, p)) {
      assert UserCovers(m, roles[FrameOf(E4(m, root, p))], FrameOf(E4(m, root, p)), p.b, p.c);
      if PtOf(m, root, p).Some? {
        assert UserCovers(m, roles[FrameOf(E3(m, root, p))], FrameOf(E3(m, root, p)), p.c, p.d);
      }
    }
  }
}
