/** The words map_page_in leaves in the tables, bit by bit. */
module EntryWords {
  import opened Words
  import opened FrameSets
  import opened PageTables
  import opened Translations
  import opened MapSteps
  import opened MapLaws

  // ---- directory entries -----------------------------------------------------------------------------

  /** The directory entries on the way to a page, after a call; an entry of a table that was not there counts as
      zero. */
  ghost predicate DirWords(m: Memory, n: Memory, root: nat, p: Path, flags: Word) {
    && DirWord(E4(m, root, p), E4(n, root, p), flags)
    && DirWord(if Present(E4(m, root, p)) then E3(m, root, p) else 0, E3(n, root, p), flags)
    && DirWord(if Present(E4(m, root, p)) && Present(E3(m, root, p)) then E2(m, root, p) else 0, E2(n, root, p), flags)
  }

  /** Entry i of table f is one of the three on the way to p. */
  predicate OnTheWay(n: Memory, root: nat, p: Path, f: nat, i: nat) {
    || (f == root && i == p.a)
    || (f == FrameOf(E4(n, root, p)) && i == p.b)
    || (f == FrameOf(E3(n, root, p)) && i == p.c)
  }

  ghost predicate OthersKept(m: Memory, n: Memory, roles: Roles, root: nat, p: Path) {
    forall f: nat, i: nat :: f in roles && i < ENTRIES && !OnTheWay(n, root, p, f, i) ==>
      Entry(n, f, i) == Entry(m, f, i)
  }

  lemma EnteredWord(m: Memory, n: Memory, roles: Roles, roles': Roles, free: set<nat>, free': set<nat>,
                    table: nat, index: nat, flags: Word, next: nat)
    requires Entered(m, n, roles, roles', free, free', table, index, flags, next)
    ensures DirWord(Entry(m, table, index), Entry(n, table, index), flags) && FrameOf(Entry(n, table, index)) == next
    ensures forall f :: f in roles ==> f in roles' && roles'[f] == roles[f]
    ensures OnlyEntry(m, n, roles, table, index)
    ensures table in roles && !roles[table].Pt? && next in roles' && roles'[next] == Child(roles[table], table, index)
  {
    hide Entry, FrameOf, Present, Huge, User, DirWord, WellFormed, SameLookups, LinksKept, OthersUntouched;
  }

  lemma WalkWrites(m: Memory, m1: Memory, m2: Memory, m3: Memory, r0: Roles, r1: Roles, r2: Roles, r3: Roles,
                   f0: set<nat>, f1: set<nat>, f2: set<nat>, f3: set<nat>,
                   root: nat, p: Path, flags: Word, pdpt: nat, pd: nat, pt: nat)
    requires WellFormed(m, r0) && root in r0 && r0[root].Pml4? && InRange(p)
    requires Entered(m, m1, r0, r1, f0, f1, root, p.a, flags, pdpt)
    requires Entered(m1, m2, r1, r2, f1, f2, pdpt, p.b, flags, pd)
    requires Entered(m2, m3, r2, r3, f2, f3, pd, p.c, flags, pt)
    ensures DirWords(m, m3, root, p, flags) && OthersKept(m, m3, r0, root, p)
  {
    hide Entered, Entry, FrameOf, Present, Huge, Writable, DirWord, WellFormed, Enterable;
    SecondEntry(m, m1, r0, r1, f0, f1, root, p, flags, pdpt);
    ThirdEntry(m, m1, m2, r0, r1, r2, f0, f1, f2, root, p, flags, pdpt, pd);
    EnteredWord(m, m1, r0, r1, f0, f1, root, p.a, flags, pdpt);
    EnteredWord(m1, m2, r1, r2, f1, f2, pdpt, p.b, flags, pd);
    EnteredWord(m2, m3, r2, r3, f2, f3, pd, p.c, flags, pt);
    assert Entry(m3, root, p.a) == Entry(m2, root, p.a) == Entry(m1, root, p.a);
    assert Entry(m3, pdpt, p.b) == Entry(m2, pdpt, p.b);
    forall f: nat, i: nat | f in r0 && i < ENTRIES && !OnTheWay(m3, root, p, f, i)
      ensures Entry(m3, f, i) == Entry(m, f, i)
    {
      assert Entry(m1, f, i) == Entry(m, f, i) && Entry(m2, f, i) == Entry(m1, f, i);
    }
  }

  /** Where a call gave up for want of a table or at a huge page: the levels it had passed, and nothing else. */
  ghost predicate WordsBelow(m: Memory, n: Memory, roles: Roles, root: nat, p: Path, flags: Word, code: int) {
    && (code == -3 ==>
          forall f: nat, i: nat :: f in roles && i < ENTRIES && (f != root || i != p.a) ==>
            Entry(n, f, i) == Entry(m, f, i))
    && (code == -4 || code == -5 ==>
          && DirWord(if Present(E4(m, root, p)) then E3(m, root, p) else 0, E3(n, root, p), flags)
          && forall f: nat, i: nat :: f in roles && i < ENTRIES && (f != root || i != p.a)
                                      && !(f == FrameOf(E4(n, root, p)) && i == p.b) ==>
               Entry(n, f, i) == Entry(m, f, i))
    && (code == -6 ==> DirWords(m, n, root, p, flags) && OthersKept(m, n, roles, root, p))
  }

  lemma NoLevel(m: Memory, roles: Roles, root: nat, p: Path, flags: Word)
    ensures WordsBelow(m, m, roles, root, p, flags, -1) && WordsBelow(m, m, roles, root, p, flags, -2)
  {
  }

  lemma AllLevels(m: Memory, n: Memory, roles: Roles, root: nat, p: Path, flags: Word)
    requires DirWords(m, n, root, p, flags) && OthersKept(m, n, roles, root, p)
    ensures WordsBelow(m, n, roles, root, p, flags, -6)
  {
  }

  lemma OneLevel(m: Memory, m1: Memory, r0: Roles, r1: Roles, f0: set<nat>, f1: set<nat>,
                 root: nat, p: Path, flags: Word, pdpt: nat)
    requires Entered(m, m1, r0, r1, f0, f1, root, p.a, flags, pdpt)
    ensures WordsBelow(m, m1, r0, root, p, flags, -3)
  {
    hide Entered, Entry, FrameOf, Present, DirWord, DirWords, OthersKept;
    EnteredWord(m, m1, r0, r1, f0, f1, root, p.a, flags, pdpt);
  }

  lemma TwoLevels(m: Memory, m1: Memory, m2: Memory, r0: Roles, r1: Roles, r2: Roles,
                  f0: set<nat>, f1: set<nat>, f2: set<nat>,
                  root: nat, p: Path, flags: Word, pdpt: nat, pd: nat, code: int)
    requires WellFormed(m, r0) && root in r0 && r0[root].Pml4? && InRange(p) && (code == -4 || code == -5)
    requires Entered(m, m1, r0, r1, f0, f1, root, p.a, flags, pdpt)
    requires Entered(m1, m2, r1, r2, f1, f2, pdpt, p.b, flags, pd)
    ensures WordsBelow(m, m2, r0, root, p, flags, code)
  {
    hide Entered, Entry, FrameOf, Present, Huge, Writable, DirWord, WellFormed, Enterable, DirWords, OthersKept;
    SecondEntry(m, m1, r0, r1, f0, f1, root, p, flags, pdpt);
    EnteredWord(m, m1, r0, r1, f0, f1, root, p.a, flags, pdpt);
    EnteredWord(m1, m2, r1, r2, f1, f2, pdpt, p.b, flags, pd);
    assert Entry(m2, root, p.a) == Entry(m1, root, p.a);
    forall f: nat, i: nat | f in r0 && i < ENTRIES && (f != root || i != p.a)
      && !(f == FrameOf(E4(m2, root, p)) && i == p.b)
      ensures Entry(m2, f, i) == Entry(m, f, i)
    {
      assert Entry(m1, f, i) == Entry(m, f, i);
    }
  }

  // ---- the page's own entry --------------------------------------------------------------------------

  /** The page-table entry once the page is mapped: the address, all flags and the present bit, or, when the page was
      there already, nothing but the user and writable bits merged in. */
  predicate PageWord(was: Word, now: Word, pa: Word, flags: Word) {
    now == if was & 1 != 0 then was | (flags & 6) else (pa & 0x000F_FFFF_FFFF_F000) | flags | 1
  }

  lemma LeafForWord(e: Word, pa: Word, flags: Word)
    ensures PageWord(e, LeafFor(e, pa, flags), pa, flags)
  {
  }

  /** Everything a successful call does to the tables there were: three directory entries, the page's entry, and no
      other word. */
  ghost predicate WordsWritten(m: Memory, n: Memory, roles: Roles, root: nat, p: Path, pa: Word, flags: Word) {
    && DirWords(m, n, root, p, flags)
    && PageWord(if Lookup(m, root, p).Page? then E1(m, root, p) else 0, E1(n, root, p), pa, flags)
    && forall f: nat, i: nat :: f in roles && i < ENTRIES && !OnTheWay(n, root, p, f, i)
                                && !(f == FrameOf(E2(n, root, p)) && i == p.d) ==>
         Entry(n, f, i) == Entry(m, f, i)
  }

  lemma AbsentWord(e: Word, now: Word, pa: Word, flags: Word)
    requires PageWord(e, now, pa, flags) && e & 1 == 0
    ensures PageWord(0, now, pa, flags)
  {
  }

  /** Storing in a page table leaves the directory entries of every walk. */
  lemma DirsKept(n: Memory, roles: Roles, root: nat, p: Path, pt: nat, v: Word)
    requires WellFormed(n, roles) && root in roles && roles[root].Pml4? && InRange(p)
    requires PtOf(n, root, p) == Some(pt) && pt in roles && roles[pt].Pt? && pt < MAX_PAGES
    ensures var o := Store(n, pt, p.d, v);
            && E4(o, root, p) == E4(n, root, p) && E3(o, root, p) == E3(n, root, p) && E2(o, root, p) == E2(n, root, p)
            && FrameOf(E2(n, root, p)) == pt && E1(o, root, p) == v
            && forall f: nat, i: nat :: i < ENTRIES && (f != pt || i != p.d) ==> Entry(o, f, i) == Entry(n, f, i)
  {
    hide Entry, FrameOf, Present, Huge, Writable, User, Store, UserClosed, Hangs;
    EntryOfStore(n, pt, p.d, v);
    WalkRoles(n, roles, root, p);
  }

  lemma LeafWrites(m: Memory, n: Memory, roles: Roles, roles': Roles, root: nat, p: Path, pa: Word, flags: Word,
                   pt: nat)
    requires DirWords(m, n, root, p, flags) && OthersKept(m, n, roles, root, p) && pt < MAX_PAGES
    requires Walked(m, n, roles, roles', root, p, flags, pt)
    ensures WordsWritten(m, Store(n, pt, p.d, LeafFor(Entry(n, pt, p.d), pa, flags)), roles, root, p, pa, flags)
  {
    hide PageWord, LeafFor, Entry, FrameOf, Present, Huge, DirWord, WellFormed, UserAbove, Store, Lookup, PtOf, Walked;
    WalkedTo(m, n, roles, roles', root, p, flags, pt);
    LeafSeen(m, n, roles, roles', root, p, pa, flags, pt);
    DirsKept(n, roles', root, p, pt, LeafFor(Entry(n, pt, p.d), pa, flags));
  }

  lemma WalkedTo(m: Memory, n: Memory, roles: Roles, roles': Roles, root: nat, p: Path, flags: Word, pt: nat)
    requires Walked(m, n, roles, roles', root, p, flags, pt)
    ensures WellFormed(n, roles') && root in roles' && roles'[root].Pml4? && InRange(p)
    ensures PtOf(n, root, p) == Some(pt) && pt in roles' && roles'[pt].Pt?
  {
    hide Entry, FrameOf, Present, Huge, WellFormed;
  }

  lemma LeafSeen(m: Memory, n: Memory, roles: Roles, roles': Roles, root: nat, p: Path, pa: Word, flags: Word, pt: nat)
    requires Walked(m, n, roles, roles', root, p, flags, pt)
    ensures var was := if Lookup(m, root, p).Page? then E1(m, root, p) else 0;
            PageWord(was, LeafFor(Entry(n, pt, p.d), pa, flags), pa, flags)
  {
    var e := Entry(n, pt, p.d);
    LeafForWord(e, pa, flags);
    SeenEntry(m, n, roles, roles', root, p, flags, pt);
    hide PageWord, LeafFor, Entry, FrameOf, Present, Huge, Walked, Lookup;
    if e & 1 == 0 {
      AbsentWord(e, LeafFor(e, pa, flags), pa, flags);
    }
  }

  /** The entry found at the end of the walk is the page's, or absent. */
  lemma SeenEntry(m: Memory, n: Memory, roles: Roles, roles': Roles, root: nat, p: Path, flags: Word, pt: nat)
    requires Walked(m, n, roles, roles', root, p, flags, pt)
    ensures Lookup(m, root, p).Page? ==> Entry(n, pt, p.d) == E1(m, root, p)
    ensures !Lookup(m, root, p).Page? ==> Entry(n, pt, p.d) & 1 == 0
  {
    ZeroIsAbsent();
    hide Entry, Huge, FrameOf, UserClosed, Hangs, UserAbove, WellFormed;
  }

  // ---- bit by bit ------------------------------------------------------------------------------------

  predicate OneBit(b: Word) {
    b != 0 && b & (b - 1) == 0
  }

  predicate Has(w: Word, b: Word) {
    w & b != 0
  }

  /** A page mapped for the first time: exactly the present bit, the flags, and bits 12 to 51 of the address. */
  lemma NewPageBits(now: Word, pa: Word, flags: Word, b: Word)
    requires PageWord(0, now, pa, flags) && OneBit(b)
    ensures Has(now, b) <==> b == 1 || Has(flags, b) || (0x1000 <= b <= 0x8_0000_0000_0000 && Has(pa, b))
  {
    hide *;
    NewPageIs(now, pa, flags);
    OrBit(Or(AddressField(pa), flags), 1, b);
    OrBit(AddressField(pa), flags, b);
    FieldBit(pa, b);
    LowestBit(b);
  }

  lemma NewPageIs(now: Word, pa: Word, flags: Word)
    requires PageWord(0, now, pa, flags)
    ensures now == Or(Or(AddressField(pa), flags), 1)
  {
  }

  lemma LowestBit(b: Word)
    requires OneBit(b)
    ensures Has(1, b) <==> b == 1
  {
  }

  function Or(x: Word, y: Word): Word { x | y }

  /** Bits 12 to 51. */
  function AddressField(x: Word): Word { x & 0x000F_FFFF_FFFF_F000 }

  function UserAndWritable(x: Word): Word { x & 6 }

  function UserOnly(x: Word): Word { x & 4 }

  lemma OrBit(x: Word, y: Word, b: Word)
    ensures Has(Or(x, y), b) <==> Has(x, b) || Has(y, b)
  {
    OrMeet(x, y, b);
    NoneOfEither(x & b, y & b);
  }

  lemma OrMeet(x: Word, y: Word, b: Word)
    ensures Or(x, y) & b == (x & b) | (y & b)
  {
  }

  lemma NoneOfEither(x: Word, y: Word)
    ensures x | y == 0 <==> x == 0 && y == 0
  {
  }

  lemma SixBit(x: Word, b: Word)
    requires OneBit(b)
    ensures Has(UserAndWritable(x), b) <==> (b == 2 || b == 4) && Has(x, b)
  {
  }

  lemma FourBit(x: Word, b: Word)
    requires OneBit(b)
    ensures Has(UserOnly(x), b) <==> b == 4 && Has(x, b)
  {
  }

  lemma OldPageIs(was: Word, now: Word, pa: Word, flags: Word)
    requires PageWord(was, now, pa, flags) && Has(was, 1)
    ensures now == Or(was, UserAndWritable(flags))
  {
  }

  lemma OldDirIs(was: Word, now: Word, flags: Word)
    requires DirWord(was, now, flags) && Has(was, 1)
    ensures now == Or(was, UserOnly(flags))
  {
  }

  /** A page that was mapped: no bit but user and writable changes, and these are only added. */
  lemma OldPageBits(was: Word, now: Word, pa: Word, flags: Word, b: Word)
    requires PageWord(was, now, pa, flags) && Has(was, 1) && OneBit(b)
    ensures Has(now, b) <==> Has(was, b) || ((b == 2 || b == 4) && Has(flags, b))
  {
    hide *;
    OldPageIs(was, now, pa, flags);
    OrBit(was, UserAndWritable(flags), b);
    SixBit(flags, b);
  }

  lemma OldDirBits(was: Word, now: Word, flags: Word, b: Word)
    requires DirWord(was, now, flags) && Has(was, 1) && OneBit(b)
    ensures Has(now, b) <==> Has(was, b) || (b == 4 && Has(flags, b))
  {
    hide *;
    OldDirIs(was, now, flags);
    OrBit(was, UserOnly(flags), b);
    FourBit(flags, b);
  }

  /** The number in a new directory entry. */
  lemma NewDirValue(was: Word, now: Word, flags: Word)
    requires DirWord(was, now, flags) && !Has(was, 1)
    ensures Value(now) == 4096 * FrameOf(now) + 3 + (if Has(flags, 4) then 4 else 0)
  {
    DirParts(was, now, flags);
    SmallValues();
    LowTwelveValue(now);
    hide *;
  }

  lemma DirParts(was: Word, now: Word, flags: Word)
    requires DirWord(was, now, flags) && !Has(was, 1)
    ensures FrameOf(now) == Value(Twelfth(now)) && Masked(now, 0xFFF) == if Has(flags, 4) then 7 else 3
  {
    FrameBitsAre(was, now, flags);
  }

  lemma FrameBitsAre(was: Word, now: Word, flags: Word)
    requires DirWord(was, now, flags) && !Has(was, 1)
    ensures FrameBits(now) == Twelfth(now) && Masked(now, 0xFFF) == if Has(flags, 4) then 7 else 3
  {
  }

  lemma SmallValues()
    ensures Value(3) == 3 && Value(7) == 7
  {
  }

  /** All of it, for a call that succeeded. */
  lemma MappedBits(m: Memory, n: Memory, roles: Roles, root: nat, p: Path, pa: Word, flags: Word, b: Word)
    requires WordsWritten(m, n, roles, root, p, pa, flags) && OneBit(b)
    ensures !Lookup(m, root, p).Page? ==>
              (Has(E1(n, root, p), b) <==>
                 b == 1 || Has(flags, b) || (0x1000 <= b <= 0x8_0000_0000_0000 && Has(pa, b)))
    ensures Lookup(m, root, p).Page? ==>
              (Has(E1(n, root, p), b) <==> Has(E1(m, root, p), b) || ((b == 2 || b == 4) && Has(flags, b)))
    ensures !Has(E4(m, root, p), 1) ==>
              Value(E4(n, root, p)) == 4096 * FrameOf(E4(n, root, p)) + 3 + (if Has(flags, 4) then 4 else 0)
    ensures !Has(E4(m, root, p), 1) || !Has(E3(m, root, p), 1) ==>
              Value(E3(n, root, p)) == 4096 * FrameOf(E3(n, root, p)) + 3 + (if Has(flags, 4) then 4 else 0)
    ensures !Has(E4(m, root, p), 1) || !Has(E3(m, root, p), 1) || !Has(E2(m, root, p), 1) ==>
              Value(E2(n, root, p)) == 4096 * FrameOf(E2(n, root, p)) + 3 + (if Has(flags, 4) then 4 else 0)
    ensures Has(E4(m, root, p), 1) ==> (Has(E4(n, root, p), b) <==> Has(E4(m, root, p), b) || (b == 4 && Has(flags, b)))
    ensures Has(E4(m, root, p), 1) && Has(E3(m, root, p), 1) ==>
              (Has(E3(n, root, p), b) <==> Has(E3(m, root, p), b) || (b == 4 && Has(flags, b)))
    ensures Has(E4(m, root, p), 1) && Has(E3(m, root, p), 1) && Has(E2(m, root, p), 1) ==>
              (Has(E2(n, root, p), b) <==> Has(E2(m, root, p), b) || (b == 4 && Has(flags, b)))
  {
    PresentBit(E4(m, root, p));
    PresentBit(E3(m, root, p));
    PresentBit(E2(m, root, p));
    PresentBit(E1(m, root, p));
    NoBit();
    PageIsPresent(m, root, p);
    hide Has, OneBit, DirWord, PageWord, Entry, FrameOf, Present, Huge, Value, Lookup;
    DirBits(E4(m, root, p), E4(n, root, p), flags, b);
    DirBits(if Present(E4(m, root, p)) then E3(m, root, p) else 0, E3(n, root, p), flags, b);
    DirBits(if Present(E4(m, root, p)) && Present(E3(m, root, p)) then E2(m, root, p) else 0, E2(n, root, p), flags, b);
    if Lookup(m, root, p).Page? {
      OldPageBits(E1(m, root, p), E1(n, root, p), pa, flags, b);
    } else {
      NewPageBits(E1(n, root, p), pa, flags, b);
    }
  }

  lemma DirBits(was: Word, now: Word, flags: Word, b: Word)
    requires DirWord(was, now, flags) && OneBit(b)
    ensures Has(was, 1) ==> (Has(now, b) <==> Has(was, b) || (b == 4 && Has(flags, b)))
    ensures !Has(was, 1) ==> Value(now) == 4096 * FrameOf(now) + 3 + (if Has(flags, 4) then 4 else 0)
  {
    hide *;
    if Has(was, 1) {
      OldDirBits(was, now, flags, b);
    } else {
      NewDirValue(was, now, flags);
    }
  }

  lemma PresentBit(e: Word)
    ensures Present(e) <==> Has(e, 1)
  {
  }

  lemma NoBit()
    ensures !Has(0, 1)
  {
  }

  lemma PageIsPresent(m: Memory, root: nat, p: Path)
    ensures Lookup(m, root, p).Page? ==> Present(E1(m, root, p))
  {
    hide Entry, Present, Huge, FrameOf;
  }

  // ---- what the processor reads ----------------------------------------------------------------------

  /** The bits that decide a walk. */
  lemma BitsOfEntry(e: Word)
    ensures (Present(e) <==> Has(e, 0x1)) && (Writable(e) <==> Has(e, 0x2)) && (User(e) <==> Has(e, 0x4))
    ensures Huge(e) <==> Has(e, 0x80)
  {
    PresentBit(e);
    WritableBit(e);
    UserBit(e);
    HugeBit(e);
    hide *;
  }

  lemma WritableBit(e: Word)
    ensures Writable(e) <==> Has(e, 0x2)
  {
  }

  lemma UserBit(e: Word)
    ensures User(e) <==> Has(e, 0x4)
  {
  }

  lemma HugeBit(e: Word)
    ensures Huge(e) <==> Has(e, 0x80)
  {
  }

  lemma PageAddressBits(e: Word, va: Word, b: Word)
    requires OneBit(b)
    ensures Has(PageAddress(e, va), b) <==> if b < 0x1000 then Has(va, b) else b <= 0x8_0000_0000_0000 && Has(e, b)
  {
    hide *;
    PageAddressParts(e, va);
    OrBit(AddressField(e), PageOffset(va), b);
    FieldBit(e, b);
    OffsetBit(va, b);
  }

  lemma PageAddressIs(e: Word, va: Word)
    ensures PageAddress(e, va) == Or(e & 0x000F_FFFF_FFFF_F000, va & 0xFFF)
  {
  }

  lemma FieldsAre(e: Word, va: Word)
    ensures AddressField(e) == e & 0x000F_FFFF_FFFF_F000 && PageOffset(va) == va & 0xFFF
  {
  }

  lemma PageAddressParts(e: Word, va: Word)
    ensures PageAddress(e, va) == Or(AddressField(e), PageOffset(va))
  {
    hide *;
    PageAddressIs(e, va);
    FieldsAre(e, va);
  }

  /** Bits 0 to 11. */
  function PageOffset(x: Word): Word { x & 0xFFF }

  lemma AndMeet(x: Word, y: Word, b: Word)
    ensures (x & y) & b == x & (y & b)
  {
  }

  lemma NothingMet(x: Word)
    ensures x & 0 == 0
  {
  }

  lemma FieldMask(b: Word)
    requires OneBit(b)
    ensures 0x000F_FFFF_FFFF_F000 & b == if 0x1000 <= b <= 0x8_0000_0000_0000 then b else 0
  {
  }

  lemma HugeFieldMask(b: Word)
    requires OneBit(b)
    ensures 0x000F_FFFF_FFE0_0000 & b == if 0x20_0000 <= b <= 0x8_0000_0000_0000 then b else 0
  {
  }

  lemma FieldBit(e: Word, b: Word)
    requires OneBit(b)
    ensures Has(AddressField(e), b) <==> 0x1000 <= b <= 0x8_0000_0000_0000 && Has(e, b)
  {
    AndMeet(e, 0x000F_FFFF_FFFF_F000, b);
    FieldMask(b);
    NothingMet(e);
  }

  lemma OffsetBit(va: Word, b: Word)
    requires OneBit(b)
    ensures Has(PageOffset(va), b) <==> b < 0x1000 && Has(va, b)
  {
    AndMeet(va, 0xFFF, b);
    OffsetMask(b);
    NothingMet(va);
  }

  lemma OffsetMask(b: Word)
    requires OneBit(b)
    ensures 0xFFF & b == if b < 0x1000 then b else 0
  {
  }

  lemma HugeAddressBits(e: Word, va: Word, b: Word)
    requires OneBit(b)
    ensures Has(HugeAddress(e, va), b) <==> if b < 0x20_0000 then Has(va, b) else b <= 0x8_0000_0000_0000 && Has(e, b)
  {
    HugeAddressIs(e, va);
    OrBit(e & 0x000F_FFFF_FFE0_0000, va & 0x1F_FFFF, b);
    HugeFieldBit(e, b);
    HugeOffsetBit(va, b);
    hide HugeAddress, Has, Or;
  }

  lemma HugeAddressIs(e: Word, va: Word)
    ensures HugeAddress(e, va) == Or(e & 0x000F_FFFF_FFE0_0000, va & 0x1F_FFFF)
  {
  }

  lemma HugeFieldBit(e: Word, b: Word)
    requires OneBit(b)
    ensures Has(e & 0x000F_FFFF_FFE0_0000, b) <==> 0x20_0000 <= b <= 0x8_0000_0000_0000 && Has(e, b)
  {
    AndMeet(e, 0x000F_FFFF_FFE0_0000, b);
    HugeFieldMask(b);
    NothingMet(e);
  }

  lemma HugeOffsetBit(va: Word, b: Word)
    requires OneBit(b)
    ensures Has(va & 0x1F_FFFF, b) <==> b < 0x20_0000 && Has(va, b)
  {
    AndMeet(va, 0x1F_FFFF, b);
    HugeOffsetMask(b);
    NothingMet(va);
  }

  lemma HugeOffsetMask(b: Word)
    requires OneBit(b)
    ensures 0x1F_FFFF & b == if b < 0x20_0000 then b else 0
  {
  }

  lemma PhysicalCases(m: Memory, root: nat, va: Word, p: Path)
    requires p == PathOf(va)
    ensures Physical(m, root, va) ==
              if !Has(E4(m, root, p), 0x1) || !Has(E3(m, root, p), 0x1) || !Has(E2(m, root, p), 0x1) then 0
              else if Has(E2(m, root, p), 0x80) then HugeAddress(E2(m, root, p), va)
              else if Has(E1(m, root, p), 0x1) then PageAddress(E1(m, root, p), va) else 0
  {
    hide PathOf, Present, Writable, User, Huge, Has, Entry, FrameOf, HugeAddress, PageAddress, E4, E3, E2, E1;
    BitsOfEntry(E4(m, root, p));
    BitsOfEntry(E3(m, root, p));
    BitsOfEntry(E2(m, root, p));
    BitsOfEntry(E1(m, root, p));
  }

  /** The physical address, bit by bit: the walk ends at the first entry without bit 0; bit 7 of the third entry makes
      a page of 2 MB; the offset comes from the virtual address and the rest, up to bit 51, from the last entry. */
  lemma PhysicalBits(m: Memory, root: nat, va: Word, b: Word)
    requires OneBit(b)
    ensures var p := PathOf(va);
            Has(Physical(m, root, va), b) <==>
              && Has(E4(m, root, p), 0x1) && Has(E3(m, root, p), 0x1) && Has(E2(m, root, p), 0x1)
              && if Has(E2(m, root, p), 0x80) then
                   if b < 0x20_0000 then Has(va, b) else b <= 0x8_0000_0000_0000 && Has(E2(m, root, p), b)
                 else
                   && Has(E1(m, root, p), 0x1)
                   && if b < 0x1000 then Has(va, b) else b <= 0x8_0000_0000_0000 && Has(E1(m, root, p), b)
  {
    hide *;
    var p := PathOf(va);
    PhysicalCases(m, root, va, p);
    HugeAddressBits(E2(m, root, p), va, b);
    PageAddressBits(E1(m, root, p), va, b);
    NoBits(b);
  }

  lemma NoBits(b: Word)
    ensures !Has(0, b)
  {
  }
}
