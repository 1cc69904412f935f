/** When the mapping loops succeed, where they stop and why, and which pages they have mapped by then. */
module RangeOutcomes {
  import opened Words
  import opened FrameSets
  import opened PageTables
  import opened Translations
  import opened MapSteps
  import opened TableCounts
  import opened MapLaws
  import opened MapClosure
  import opened RangeLaws

  // ---- one page --------------------------------------------------------------------------------------

  /** The page goes to the frame at pa. */
  predicate MappedTo(t: Translation, pa: Word) {
    t.Page? && SameFrame(t.entry, pa)
  }

  /** Nothing but a lack of frames can stop the page from being mapped to pa. */
  predicate Mappable(t: Translation, pa: Word) {
    t.Unmapped? || MappedTo(t, pa)
  }

  /** Why a call for va and pa ended with this code, as seen afterwards. */
  predicate Stopped(m: Memory, root: nat, va: Word, pa: Word, free: nat, code: int) {
    var t := Lookup(m, root, PathOf(va));
    || (code == -1 && (va & 0xFFF != 0 || pa & 0xFFF != 0))
    || ((code == -2 || code == -3 || code == -5) && free == 0 && t.Unmapped?)
    || (code == -4 && t.HugePage?)
    || (code == -6 && t.Page? && !SameFrame(t.entry, pa))
  }

  /** A code other than zero has one of four reasons: addresses off a page boundary, no frame left, a huge page
      in the way, or the page mapped elsewhere. */
  lemma FailureReason(m: Memory, n: Memory, roles: Roles, roles': Roles, f: set<nat>, f': set<nat>,
                      root: nat, va: Word, pa: Word, flags: Word, freeCount: nat, left: nat, code: int)
    requires WellFormed(m, roles) && root in roles && roles[root].Pml4? && code != 0
    requires MapResult(m, root, va, pa, freeCount) == code
    requires MapEffect(m, n, roles, roles', f, f', root, va, pa, flags, code)
    requires code == -2 || code == -3 || code == -5 ==> left == 0
    ensures Stopped(n, root, va, pa, left, code)
  {
    PathInRange(va);
    ReasonBefore(m, roles, root, va, pa, freeCount);
    hide Entry, Present, Huge, FrameOf, PathOf, Lookup, SameFrame, WellFormed, LinksKept, OthersUntouched, RootSlots;
    hide Grown, MapResult;
    assert Lookup(n, root, PathOf(va)) == Lookup(m, root, PathOf(va));
  }

  lemma ReasonBefore(m: Memory, roles: Roles, root: nat, va: Word, pa: Word, freeCount: nat)
    requires WellFormed(m, roles) && root in roles && roles[root].Pml4?
    ensures var code, t := MapResult(m, root, va, pa, freeCount), Lookup(m, root, PathOf(va));
            && (code == -1 ==> va & 0xFFF != 0 || pa & 0xFFF != 0)
            && (code == -2 || code == -3 || code == -5 ==> t.Unmapped?)
            && (code == -4 ==> t.HugePage?)
            && (code == -6 ==> t.Page? && !SameFrame(t.entry, pa))
            && -6 <= code <= 0
  {
    PathInRange(va);
    HugeIsPresent(m, roles, root, PathOf(va));
    ZeroIsAbsent();
    hide Entry, Present, Huge, FrameOf, PathOf, SameFrame, WellFormed;
  }

  /** A page-directory entry with the huge bit is present. */
  lemma HugeIsPresent(m: Memory, roles: Roles, root: nat, p: Path)
    requires WellFormed(m, roles) && root in roles && roles[root].Pml4? && InRange(p)
    ensures Present(E4(m, root, p)) && Present(E3(m, root, p)) && Huge(E2(m, root, p)) ==> Present(E2(m, root, p))
  {
    hide Entry, Present, Huge, FrameOf, Writable, UserClosed, Hangs;
    WalkRoles(m, roles, root, p);
    if Present(E4(m, root, p)) && Present(E3(m, root, p)) {
      assert LinkFits(roles, FrameOf(E3(m, root, p)), p.c, E2(m, root, p));
    }
  }

  /** Running out of frames ends the call at the first level that has neither a table nor a frame for one. */
  lemma CodeTellsLevel(m: Memory, root: nat, p: Path, freeCount: nat)
    ensures var code, level := WalkResult(m, root, p, freeCount), Depth(m, root, p) + freeCount;
            code != -4 ==> (code == -2 <==> level == 0) && (code == -3 <==> level == 1) && (code == -5 <==> level == 2)
  {
    hide Entry, Present, Huge, FrameOf;
  }

  /** The directory levels are passed exactly if no huge page is met and each missing table gets a frame. */
  lemma WalkExactly(m: Memory, roles: Roles, root: nat, p: Path, freeCount: nat)
    requires WellFormed(m, roles) && root in roles && roles[root].Pml4? && InRange(p)
    ensures WalkResult(m, root, p, freeCount) == 0 <==>
            !Lookup(m, root, p).HugePage? && 3 <= freeCount + Depth(m, root, p)
  {
    hide Entry, Present, Huge, FrameOf, WellFormed;
    HugeIsPresent(m, roles, root, p);
  }

  /** Page-aligned addresses, a page that is not mapped elsewhere, and a frame for each missing table: exactly then
      the call succeeds. */
  lemma SucceedsExactly(m: Memory, roles: Roles, root: nat, va: Word, pa: Word, freeCount: nat)
    requires WellFormed(m, roles) && root in roles && roles[root].Pml4? && va & 0xFFF == 0 && pa & 0xFFF == 0
    ensures MapResult(m, root, va, pa, freeCount) == 0 <==>
            Mappable(Lookup(m, root, PathOf(va)), pa) && |Lacked(m, root, PathOf(va))| <= freeCount
  {
    PathInRange(va);
    ZeroIsAbsent();
    PresentPage(m, root, PathOf(va));
    hide Entry, Present, Huge, FrameOf, PathOf, SameFrame, WellFormed, WalkResult, Depth, Lookup, Lacked;
    WalkExactly(m, roles, root, PathOf(va), freeCount);
  }

  lemma PresentPage(m: Memory, root: nat, p: Path)
    ensures var t := Lookup(m, root, p); t.Page? ==> Present(t.entry) && t.entry == E1(m, root, p)
  {
    hide Entry, Present, Huge, FrameOf;
  }

  /** A successful call with plain flags leaves its page mapped where it was asked to. */
  lemma PageNowMapped(m: Memory, n: Memory, roles: Roles, roles': Roles, f: set<nat>, f': set<nat>,
                      root: nat, va: Word, pa: Word, flags: Word, freeCount: nat)
    requires FlagsOnly(flags) && root in roles && roles[root].Pml4? && MapResult(m, root, va, pa, freeCount) == 0
    requires MapEffect(m, n, roles, roles', f, f', root, va, pa, flags, 0)
    ensures MappedTo(Lookup(n, root, PathOf(va)), pa)
  {
    MappedLeaf(m, n, roles, roles', f, f', root, va, pa, flags, freeCount);
    SuccessfulResult(m, root, va, pa, freeCount);
    NewLeafAddress(Lookup(m, root, PathOf(va)), pa, flags);
    FlagsKeepAddress(Lookup(m, root, PathOf(va)), pa, flags);
    hide Lookup, NewLeaf, PathOf, MapResult, MapEffect, MappedFrame, FlagsOnly;
  }

  /** What is mapped stays mapped. */
  lemma StillMapped(m: Memory, n: Memory, roles: Roles, root: nat, q: Path, pa: Word)
    requires PagesKept(m, n, roles) && root in roles && roles[root].Pml4? && InRange(q)
    requires MappedTo(Lookup(m, root, q), pa)
    ensures MappedTo(Lookup(n, root, q), pa)
  {
    hide Lookup;
    assert PageKept(Lookup(m, root, q), Lookup(n, root, q));
  }

  // ---- ranges ----------------------------------------------------------------------------------------

  /** The address i pages from v, as a word. */
  function WordAt(v: nat, i: nat): Word {
    if Nth(v, i) < 0x1_0000_0000_0000_0000 then ToWord(Nth(v, i)) else 0
  }

  /** The walk for the i-th page from v. */
  function PageAt(v: nat, i: nat): (p: Path)
    ensures InRange(p)
  {
    PathInRange(WordAt(v, i));
    PathOf(WordAt(v, i))
  }

  /** The first `count` pages from v are mapped to the frames from p. */
  ghost predicate PagesMapped(n: Memory, root: nat, v: nat, p: nat, count: nat) {
    forall i: nat :: i < count ==> MappedTo(Lookup(n, root, PageAt(v, i)), WordAt(p, i))
  }

  ghost predicate AllMappable(m: Memory, root: nat, v: nat, p: nat, pages: nat) {
    forall i: nat :: i < pages ==> Mappable(Lookup(m, root, PageAt(v, i)), WordAt(p, i))
  }

  /** The tables that the walks for the first `count` pages lack: each one once. */
  function Missing(m: Memory, root: nat, v: nat, count: nat): set<Place> {
    if count == 0 then {} else Missing(m, root, v, count - 1) + Lacked(m, root, PageAt(v, count - 1))
  }

  /** That is what it is. */
  lemma {:induction false} MissingMeans(m: Memory, root: nat, v: nat, count: nat, x: Place)
    ensures x in Missing(m, root, v, count) <==> exists i: nat :: i < count && x in Lacked(m, root, PageAt(v, i))
    decreases count
  {
    hide Lacked, PageAt;
    if count > 0 {
      MissingMeans(m, root, v, count - 1, x);
    }
  }

  lemma {:induction false} MissingMonotone(m: Memory, root: nat, v: nat, i: nat, n: nat)
    requires i <= n
    ensures Missing(m, root, v, i) <= Missing(m, root, v, n) && |Missing(m, root, v, i)| <= |Missing(m, root, v, n)|
    decreases n
  {
    hide Lacked, PageAt;
    if i < n {
      MissingMonotone(m, root, v, i, n - 1);
      SubsetCount(Missing(m, root, v, n - 1), Missing(m, root, v, n));
    }
  }

  lemma SubsetCount<T>(a: set<T>, b: set<T>)
    requires a <= b
    ensures |a| <= |b|
  {
    assert b == a + (b - a);
  }

  /** Every page but the first `count` from v translates as it did, in this address space. */
  ghost predicate Elsewhere(m: Memory, n: Memory, root: nat, v: nat, count: nat) {
    forall q :: InRange(q) && NotAmong(q, v, count) ==> Lookup(n, root, q) == Lookup(m, root, q)
  }

  predicate NotAmong(q: Path, v: nat, count: nat) {
    forall i: nat :: i < count ==> q != PageAt(v, i)
  }

  /** Different pages below the 48-bit limit have different walks. */
  lemma DistinctPages(v: nat, i: nat, k: nat)
    requires v % PAGE_SIZE == 0 && i != k && Nth(v, i) < ADDRESS_LIMIT && Nth(v, k) < ADDRESS_LIMIT
    ensures PageAt(v, i) != PageAt(v, k)
  {
    PageOfNumber(Nth(v, i));
    PageOfNumber(Nth(v, k));
    NthPage(v, i);
    NthPage(v, k);
    SamePath(WordAt(v, i), WordAt(v, k));
    hide PathOf, PageOf, ToWord, Value, Nth;
  }

  lemma LaterPage(v: nat, p: nat, i: nat, pages: nat, flags: Word)
    requires Plain(v, p, pages, flags) && i < pages
    ensures NotAmong(PageAt(v, i), v, i)
  {
    hide PageAt, Plain;
    PlainAt(v, p, pages, flags, i);
    forall k: nat | k < i
      ensures PageAt(v, i) != PageAt(v, k)
    {
      PlainAt(v, p, pages, flags, k);
      DistinctPages(v, i, k);
    }
  }

  /** One more page: the earlier ones stay mapped, this one is, and no other page has moved. */
  lemma RangeStep(m: Memory, n: Memory, o: Memory, r1: Roles, r2: Roles, f1: set<nat>, f2: set<nat>,
                  root: nat, v: nat, p: nat, i: nat, pages: nat, flags: Word, freeCount: nat)
    requires Plain(v, p, pages, flags) && i < pages && root in r1 && r1[root].Pml4? && WellFormed(n, r1)
    requires PagesMapped(n, root, v, p, i) && Elsewhere(m, n, root, v, i)
    requires MapResult(n, root, WordAt(v, i), WordAt(p, i), freeCount) == 0
    requires MapEffect(n, o, r1, r2, f1, f2, root, WordAt(v, i), WordAt(p, i), flags, 0)
    ensures PagesMapped(o, root, v, p, i + 1) && Elsewhere(m, o, root, v, i + 1)
  {
    hide Lookup, MapResult, MapEffect, PathOf, WordAt, MappedTo, WellFormed, FlagsOnly;
    var va, pa := WordAt(v, i), WordAt(p, i);
    PageNowMapped(n, o, r1, r2, f1, f2, root, va, pa, flags, freeCount);
    MapKeepsPages(n, o, r1, r2, f1, f2, root, va, pa, flags, 0);
    forall k: nat | k < i
      ensures MappedTo(Lookup(o, root, PageAt(v, k)), WordAt(p, k))
    {
      StillMapped(n, o, r1, root, PageAt(v, k), WordAt(p, k));
    }
    forall q | InRange(q) && NotAmong(q, v, i + 1)
      ensures Lookup(o, root, q) == Lookup(m, root, q)
    {
      assert q != PageAt(v, i) && NotAmong(q, v, i);
      OtherPageLookup(n, o, r1, r2, f1, f2, root, va, pa, flags, 0, root, q);
    }
  }

  /** A failed call leaves the mapped pages mapped and the later ones alone. */
  lemma RangeFailed(m: Memory, n: Memory, o: Memory, r1: Roles, r2: Roles, f1: set<nat>, f2: set<nat>,
                    root: nat, v: nat, p: nat, i: nat, va: Word, pa: Word, flags: Word, code: int)
    requires root in r1 && r1[root].Pml4? && PagesMapped(n, root, v, p, i) && Elsewhere(m, n, root, v, i) && code != 0
    requires MapEffect(n, o, r1, r2, f1, f2, root, va, pa, flags, code)
    ensures PagesMapped(o, root, v, p, i) && Elsewhere(m, o, root, v, i)
  {
    FailedElsewhere(n, o, r1, r2, f1, f2, root, va, pa, flags, code);
    hide Lookup, MapEffect, PathOf, WordAt, MappedTo, PagesKept;
    MapKeepsPages(n, o, r1, r2, f1, f2, root, va, pa, flags, code);
    KeepsMapped(n, o, r1, root, v, p, i);
  }

  lemma FailedElsewhere(n: Memory, o: Memory, r1: Roles, r2: Roles, f1: set<nat>, f2: set<nat>,
                        root: nat, va: Word, pa: Word, flags: Word, code: int)
    requires root in r1 && r1[root].Pml4? && code != 0
    requires MapEffect(n, o, r1, r2, f1, f2, root, va, pa, flags, code)
    ensures forall q :: InRange(q) ==> Lookup(o, root, q) == Lookup(n, root, q)
  {
    hide Lookup, WellFormed, LinksKept, OthersUntouched, RootSlots, Grown, PathOf;
  }

  lemma KeepsMapped(n: Memory, o: Memory, roles: Roles, root: nat, v: nat, p: nat, count: nat)
    requires PagesKept(n, o, roles) && root in roles && roles[root].Pml4? && PagesMapped(n, root, v, p, count)
    ensures PagesMapped(o, root, v, p, count)
  {
    hide Lookup, WordAt, MappedTo, PagesKept, PathOf;
    forall i: nat | i < count
      ensures MappedTo(Lookup(o, root, PageAt(v, i)), WordAt(p, i))
    {
      StillMapped(n, o, roles, root, PageAt(v, i), WordAt(p, i));
    }
  }

  /** The next page is mapped exactly if nothing is in its way and the frames at the start were enough for all the
      missing tables up to it. */
  lemma PageOutcome(m: Memory, n: Memory, roles: Roles, root: nat, v: nat, p: nat, i: nat, pages: nat, flags: Word,
                    atStart: nat, now: nat)
    requires Plain(v, p, pages, flags) && p % PAGE_SIZE == 0 && i < pages && Nth(p, i) < 0x1_0000_0000_0000_0000
    requires WellFormed(n, roles) && root in roles && roles[root].Pml4? && Elsewhere(m, n, root, v, i)
    requires Hung(m, n, root, Missing(m, root, v, i)) && atStart == now + |Missing(m, root, v, i)|
    ensures MapResult(n, root, WordAt(v, i), WordAt(p, i), now) == 0 <==>
            Mappable(Lookup(m, root, PageAt(v, i)), WordAt(p, i)) && |Missing(m, root, v, i + 1)| <= atStart
  {
    hide Lookup, MapResult, PathOf, WordAt, Mappable, WellFormed, Plain, Elsewhere, Nth, Hung, Missing, Lacked, Depth;
    PlainAt(v, p, pages, flags, i);
    AlignedWord(v, i);
    AlignedWord(p, i);
    PageAsBefore(m, n, root, v, p, i, pages, flags);
    MissingNext(m, root, v, i);
    HungCount(m, n, root, Missing(m, root, v, i), PageAt(v, i));
    SucceedsExactly(n, roles, root, WordAt(v, i), WordAt(p, i), now);
  }

  lemma MissingNext(m: Memory, root: nat, v: nat, i: nat)
    ensures Missing(m, root, v, i + 1) == Missing(m, root, v, i) + Lacked(m, root, PageAt(v, i))
  {
  }

  lemma PageAsBefore(m: Memory, n: Memory, root: nat, v: nat, p: nat, i: nat, pages: nat, flags: Word)
    requires Plain(v, p, pages, flags) && i < pages && Elsewhere(m, n, root, v, i)
    ensures Lookup(n, root, PageAt(v, i)) == Lookup(m, root, PageAt(v, i))
  {
    hide Lookup, PageAt, WordAt, Plain, NotAmong;
    LaterPage(v, p, i, pages, flags);
  }

  lemma AlignedWord(v: nat, i: nat)
    requires v % PAGE_SIZE == 0 && Nth(v, i) < 0x1_0000_0000_0000_0000
    ensures WordAt(v, i) & 0xFFF == 0
  {
    ToWordValue(Nth(v, i));
    NthPage(v, i);
    PageMultiple(WordAt(v, i));
    hide ToWord, Nth, Value;
  }

  /** Mapped pages translate linearly, address by address. */
  lemma MappedIsLinear(n: Memory, root: nat, v: nat, p: nat, count: nat, flags: Word)
    requires Plain(v, p, count, flags) && Nth(p, count) <= 0x1_0000_0000_0000_0000 && PagesMapped(n, root, v, p, count)
    ensures LinearOn(n, root, v, p, count)
  {
    hide Lookup, PathOf, ToWord, AtOffset, PageOf, Value, FlagsOnly, MappedTo;
    forall w: Word | InPages(w, v, count)
      ensures Target(w, v, p) < 0x1_0000_0000_0000_0000 && Physical(n, root, w) == AtOffset(ToWord(Target(w, v, p)), w)
    {
      var i := Value(PageOf(w)) - v / PAGE_SIZE;
      NthBelow(p, i, count);
      NthBelow(v, i, count);
      SameWalk(w, v, i);
      MappedAddress(Lookup(n, root, PageAt(v, i)), WordAt(p, i), w);
    }
  }

  /** An address on the i-th page from v takes that page's walk. */
  lemma SameWalk(w: Word, v: nat, i: nat)
    requires v % PAGE_SIZE == 0 && Nth(v, i) < ADDRESS_LIMIT && Value(PageOf(w)) == v / PAGE_SIZE + i
    ensures PathOf(w) == PageAt(v, i)
  {
    hide PathOf, PageOf, ToWord, Value, Nth;
    PageOfNumber(Nth(v, i));
    NthPage(v, i);
    SamePageNumber(w, WordAt(v, i));
    SamePath(w, WordAt(v, i));
  }

  lemma MappedAddress(t: Translation, pa: Word, w: Word)
    requires MappedTo(t, pa)
    ensures Address(t, w) == AtOffset(pa, w)
  {
  }

  /** The entries of the first `count` pages are the ones map_page_in leaves for these addresses and flags. */
  ghost predicate LeavesWritten(m: Memory, n: Memory, root: nat, v: nat, p: nat, count: nat, flags: Word) {
    forall i: nat :: i < count ==>
      Lookup(n, root, PageAt(v, i)) == Page(NewLeaf(Lookup(m, root, PageAt(v, i)), WordAt(p, i), flags))
  }

  lemma LeavesStep(m: Memory, n: Memory, o: Memory, r1: Roles, r2: Roles, f1: set<nat>, f2: set<nat>,
                   root: nat, v: nat, p: nat, i: nat, pages: nat, flags: Word, freeCount: nat)
    requires Plain(v, p, pages, flags) && i < pages && root in r1 && r1[root].Pml4?
    requires LeavesWritten(m, n, root, v, p, i, flags) && Elsewhere(m, n, root, v, i)
    requires MapResult(n, root, WordAt(v, i), WordAt(p, i), freeCount) == 0
    requires MapEffect(n, o, r1, r2, f1, f2, root, WordAt(v, i), WordAt(p, i), flags, 0)
    ensures LeavesWritten(m, o, root, v, p, i + 1, flags)
  {
    hide Lookup, MapResult, MapEffect, PathOf, WordAt, NewLeaf, Plain, Elsewhere;
    var va, pa := WordAt(v, i), WordAt(p, i);
    MappedLeaf(n, o, r1, r2, f1, f2, root, va, pa, flags, freeCount);
    PageAsBefore(m, n, root, v, p, i, pages, flags);
    LaterPage(v, p, i, pages, flags);
    forall k: nat | k < i
      ensures Lookup(o, root, PageAt(v, k)) == Page(NewLeaf(Lookup(m, root, PageAt(v, k)), WordAt(p, k), flags))
    {
      OtherPageLookup(n, o, r1, r2, f1, f2, root, va, pa, flags, 0, root, PageAt(v, k));
    }
  }

  lemma LeavesStay(m: Memory, n: Memory, o: Memory, r1: Roles, r2: Roles, f1: set<nat>, f2: set<nat>,
                   root: nat, v: nat, p: nat, i: nat, va: Word, pa: Word, flags: Word, code: int)
    requires root in r1 && r1[root].Pml4? && LeavesWritten(m, n, root, v, p, i, flags) && code != 0
    requires MapEffect(n, o, r1, r2, f1, f2, root, va, pa, flags, code)
    ensures LeavesWritten(m, o, root, v, p, i, flags)
  {
    FailedElsewhere(n, o, r1, r2, f1, f2, root, va, pa, flags, code);
    hide Lookup, MapEffect, PathOf, WordAt, NewLeaf;
  }

  // ---- the loop --------------------------------------------------------------------------------------

  /** Nothing is in the way, and there is a frame for each missing table. */
  ghost predicate Enough(m: Memory, root: nat, v: nat, p: nat, pages: nat, free: nat) {
    AllMappable(m, root, v, p, pages) && |Missing(m, root, v, pages)| <= free
  }

  /** After i pages of a plain range. */
  ghost predicate RangeSoFar(m: Memory, n: Memory, roles: Roles, root: nat, v: nat, p: nat, i: nat,
                             flags: Word, atStart: nat, now: nat) {
    && SameOutside(m, n, roles, v, i) && PagesMapped(n, root, v, p, i) && Elsewhere(m, n, root, v, i)
    && LeavesWritten(m, n, root, v, p, i, flags)
    && Hung(m, n, root, Missing(m, root, v, i)) && atStart == now + |Missing(m, root, v, i)|
    && (p % PAGE_SIZE == 0 ==> AllMappable(m, root, v, p, i))
  }

  lemma RangeStart(m: Memory, roles: Roles, root: nat, v: nat, p: nat, flags: Word, atStart: nat)
    ensures RangeSoFar(m, m, roles, root, v, p, 0, flags, atStart, atStart)
  {
    hide Physical, PageOf, Value, Lookup, PageAt, Hung;
    NothingHung(m, root);
  }

  lemma RangeGoesOn(m: Memory, n: Memory, o: Memory, r0: Roles, r1: Roles, r2: Roles, f1: set<nat>, f2: set<nat>,
                    root: nat, v: nat, p: nat, i: nat, pages: nat, flags: Word, atStart: nat, before: nat, now: nat)
    requires Plain(v, p, pages, flags) && i < pages && Nth(p, i) < 0x1_0000_0000_0000_0000
    requires root in r1 && r1[root].Pml4? && WellFormed(n, r1) && forall f :: f in r0 ==> f in r1 && r1[f] == r0[f]
    requires RangeSoFar(m, n, r0, root, v, p, i, flags, atStart, before)
    requires MapResult(n, root, WordAt(v, i), WordAt(p, i), before) == 0
    requires MapEffect(n, o, r1, r2, f1, f2, root, WordAt(v, i), WordAt(p, i), flags, 0)
    requires Deepened(n, o, root, PageAt(v, i), 3) && now + 3 == before + Depth(n, root, PageAt(v, i))
    ensures RangeSoFar(m, o, r0, root, v, p, i + 1, flags, atStart, now)
  {
    hide Lookup, MapResult, MapEffect, PageAt, WordAt, WellFormed, Plain, SameOutside, PagesMapped, Missing, NotAmong;
    hide Hung, Deepened, Depth, Lacked, Elsewhere, AllMappable, Nth, LeavesWritten;
    PlainAt(v, p, pages, flags, i);
    PageAtIs(v, i);
    LeavesStep(m, n, o, r1, r2, f1, f2, root, v, p, i, pages, flags, before);
    RangeStep(m, n, o, r1, r2, f1, f2, root, v, p, i, pages, flags, before);
    OutsideStep(m, n, o, r0, r1, r2, f1, f2, root, v, i, WordAt(p, i), flags, before);
    MissingNext(m, root, v, i);
    HungNext(m, n, o, root, Missing(m, root, v, i), PageAt(v, i));
    HungCount(m, n, root, Missing(m, root, v, i), PageAt(v, i));
    if p % PAGE_SIZE == 0 {
      PageOutcome(m, n, r1, root, v, p, i, pages, flags, atStart, before);
      MappableNext(m, root, v, p, i);
    }
  }

  lemma MappableNext(m: Memory, root: nat, v: nat, p: nat, i: nat)
    requires AllMappable(m, root, v, p, i) && Mappable(Lookup(m, root, PageAt(v, i)), WordAt(p, i))
    ensures AllMappable(m, root, v, p, i + 1)
  {
    hide Lookup, PageAt, WordAt, Mappable;
  }

  /** The loop stops at page i. */
  lemma RangeEnds(m: Memory, n: Memory, o: Memory, r0: Roles, r1: Roles, r2: Roles, f1: set<nat>, f2: set<nat>,
                  root: nat, v: nat, p: nat, i: nat, pages: nat, flags: Word,
                  atStart: nat, before: nat, left: nat, code: int)
    requires i < pages && root in r1 && r1[root].Pml4? && WellFormed(n, r1) && code != 0
    requires forall f :: f in r0 ==> f in r1 && r1[f] == r0[f]
    requires Nth(p, pages) <= 0x1_0000_0000_0000_0000
    requires Plain(v, p, pages, flags) ==> RangeSoFar(m, n, r0, root, v, p, i, flags, atStart, before)
    requires MapResult(n, root, WordAt(v, i), WordAt(p, i), before) == code
    requires MapEffect(n, o, r1, r2, f1, f2, root, WordAt(v, i), WordAt(p, i), flags, code)
    requires code == -2 || code == -3 || code == -5 ==> left == 0
    ensures Stopped(o, root, WordAt(v, i), WordAt(p, i), left, code)
    ensures Plain(v, p, pages, flags) ==>
              && SameOutside(m, o, r0, v, i) && Elsewhere(m, o, root, v, i)
              && PagesMapped(o, root, v, p, i) && LinearOn(o, root, v, p, i)
              && LeavesWritten(m, o, root, v, p, i, flags)
    ensures Plain(v, p, pages, flags) && p % PAGE_SIZE == 0 ==> !Enough(m, root, v, p, pages, atStart)
  {
    hide Lookup, MapResult, MapEffect, PageAt, WordAt, WellFormed, Plain, SameOutside, PagesMapped, Elsewhere;
    hide LinearOn, Stopped, AllMappable, Missing, Hung, Enough, LeavesWritten;
    FailureReason(n, o, r1, r2, f1, f2, root, WordAt(v, i), WordAt(p, i), flags, before, left, code);
    if Plain(v, p, pages, flags) {
      SamePagesOnFailure(m, n, o, r0, r1, r2, f1, f2, root, v, i, WordAt(v, i), WordAt(p, i), flags, code);
      RangeFailed(m, n, o, r1, r2, f1, f2, root, v, p, i, WordAt(v, i), WordAt(p, i), flags, code);
      LeavesStay(m, n, o, r1, r2, f1, f2, root, v, p, i, WordAt(v, i), WordAt(p, i), flags, code);
      PlainPart(v, p, i, pages, flags);
      NthBelow(p, i, pages);
      MappedIsLinear(o, root, v, p, i, flags);
      if p % PAGE_SIZE == 0 {
        PageOutcome(m, n, r1, root, v, p, i, pages, flags, atStart, before);
        NotEnough(m, root, v, p, i, pages, atStart);
      }
    }
  }

  lemma NotEnough(m: Memory, root: nat, v: nat, p: nat, i: nat, pages: nat, free: nat)
    requires i < pages
    requires !Mappable(Lookup(m, root, PageAt(v, i)), WordAt(p, i)) || |Missing(m, root, v, i + 1)| > free
    ensures !Enough(m, root, v, p, pages, free)
  {
    hide Lookup, PageAt, WordAt, Mappable, Missing;
    MissingMonotone(m, root, v, i + 1, pages);
  }

  // ---- several ranges --------------------------------------------------------------------------------

  /** What is missing later is what was missing and has not been hung since. */
  lemma {:induction false} MissingLater(m: Memory, n: Memory, root: nat, s: set<Place>, v: nat, count: nat)
    requires Hung(m, n, root, s)
    ensures Missing(n, root, v, count) == Missing(m, root, v, count) - s
    decreases count
  {
    hide Lacked, PageAt, Hung;
    if count > 0 {
      MissingLater(m, n, root, s, v, count - 1);
      LackedLater(m, n, root, s, PageAt(v, count - 1));
    }
  }

  /** A range mapped after others, with nothing in the way: the frames at the start must be enough for all of them
      together. */
  lemma RangeConsumes(m: Memory, n: Memory, o: Memory, root: nat, s: set<Place>, v: nat, pages: nat,
                      atStart: nat, before: nat, now: nat, result: int)
    requires Hung(m, n, root, s) && atStart == before + |s|
    requires AllMappable(n, root, v, v, pages) && (result == 0 <==> Enough(n, root, v, v, pages, before))
    requires result == 0 ==>
               now + |Missing(n, root, v, pages)| == before && Hung(n, o, root, Missing(n, root, v, pages))
    ensures var t := s + Missing(m, root, v, pages);
            && (result == 0 <==> |t| <= atStart)
            && (result == 0 ==> Hung(m, o, root, t) && atStart == now + |t|)
  {
    hide Hung, Missing, AllMappable;
    var later, t := Missing(n, root, v, pages), s + Missing(m, root, v, pages);
    MissingLater(m, n, root, s, v, pages);
    assert t == s + later && s !! later;
    if result == 0 {
      HungTrans(m, n, o, root, s, later);
    }
  }

  lemma PlainPart(v: nat, p: nat, i: nat, pages: nat, flags: Word)
    requires Plain(v, p, pages, flags) && i < pages
    ensures Plain(v, p, i, flags)
  {
    NthBelow(v, i, pages);
    hide Nth, FlagsOnly;
  }

  /** All pages are mapped. */
  lemma RangeDone(m: Memory, n: Memory, roles: Roles, root: nat, v: nat, p: nat, pages: nat, flags: Word,
                  atStart: nat, now: nat)
    requires Plain(v, p, pages, flags) && Nth(p, pages) <= 0x1_0000_0000_0000_0000
    requires RangeSoFar(m, n, roles, root, v, p, pages, flags, atStart, now)
    ensures SameOutside(m, n, roles, v, pages) && Elsewhere(m, n, root, v, pages)
    ensures PagesMapped(n, root, v, p, pages) && LinearOn(n, root, v, p, pages)
    ensures LeavesWritten(m, n, root, v, p, pages, flags)
    ensures atStart == now + |Missing(m, root, v, pages)| && Hung(m, n, root, Missing(m, root, v, pages))
    ensures p % PAGE_SIZE == 0 ==> Enough(m, root, v, p, pages, atStart)
  {
    hide Lookup, PageAt, WordAt, Plain, SameOutside, PagesMapped, LinearOn, Elsewhere, Missing, Hung, AllMappable;
    hide LeavesWritten;
    MappedIsLinear(n, root, v, p, pages, flags);
  }

  lemma PageAtIs(v: nat, i: nat)
    requires Nth(v, i) < 0x1_0000_0000_0000_0000
    ensures WordAt(v, i) == ToWord(Nth(v, i)) && PageAt(v, i) == PathOf(ToWord(Nth(v, i)))
  {
  }

  lemma NoPagesMapped(n: Memory, root: nat, v: nat, p: nat, flags: Word, free: nat)
    ensures PagesMapped(n, root, v, p, 0) && Enough(n, root, v, p, 0, free) && LeavesWritten(n, n, root, v, p, 0, flags)
  {
  }

  lemma KeptRoles(m: Memory, n: Memory, roles: Roles, roles': Roles, free: set<nat>, free': set<nat>, root: nat,
                  flags: Word)
    requires MapsKeep(m, n, roles, roles', free, free', root, flags)
    ensures Tracked(m, n, roles, roles', free, free')
    ensures forall f :: f in roles ==> f in roles' && roles'[f] == roles[f]
    ensures forall f :: f in roles' && f !in roles ==> !roles'[f].Pml4?
  {
    hide LinksKept, OthersUntouched, PagesKept, SlotsClosed, SupervisorKept;
  }
}
