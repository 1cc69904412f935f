/** How many tables the kernel's own mappings take, from an empty PML4. */
module SpaceCosts {
  import opened Words
  import opened FrameSets
  import opened PageTables
  import opened TableCounts
  import opened RangeLaws
  import opened RangeOutcomes
  import opened SpaceSetup

  // ---- indices of page numbers -----------------------------------------------------------------------

  lemma PathByParts(va: Word)
    ensures PathOf(va) == Path(Value(LowNine(Ninth(Ninth(Ninth(Twelfth(va)))))),
                               Value(LowNine(Ninth(Ninth(Twelfth(va))))),
                               Value(LowNine(Ninth(Twelfth(va)))), Value(LowNine(Twelfth(va))))
  {
    NineByNine(va);
  }

  lemma PathOfNumber(n: nat)
    requires n < 0x1_0000_0000_0000_0000
    ensures PathOf(ToWord(n)) ==
              Path(n / 4096 / 512 / 512 / 512 % 512, n / 4096 / 512 / 512 % 512, n / 4096 / 512 % 512, n / 4096 % 512)
  {
    hide PathOf, ToWord, Value, LowNine, Ninth, Twelfth;
    ToWordValue(n);
    IndexValues(ToWord(n));
    PathByParts(ToWord(n));
  }

  /** The walk of page i of the first 4 GB. */
  lemma LowPath(i: nat)
    requires i < MAX_PAGES
    ensures PageAt(0, i) == Path(0, i / 512 / 512, i / 512 % 512, i % 512)
  {
    LowNumber(i);
    hide PathOf, ToWord, Nth, PageAt, WordAt;
    PageAtIs(0, i);
    PathOfNumber(Nth(0, i));
  }

  lemma LowNumber(i: nat)
    requires i < MAX_PAGES
    ensures Nth(0, i) < 0x1_0000_0000 && Nth(0, i) / 4096 == i
    ensures i / 512 / 512 / 512 % 512 == 0 && i / 512 / 512 % 512 == i / 512 / 512
  {
  }

  // ---- the tables of a range -------------------------------------------------------------------------

  function PlacesOf(p: Path): set<Place> {
    {PlaceOf(p, 1), PlaceOf(p, 2), PlaceOf(p, 3)}
  }

  /** All tables on the walks for the first `count` pages from v. */
  function Places(v: nat, count: nat): set<Place> {
    if count == 0 then {} else Places(v, count - 1) + PlacesOf(PageAt(v, count - 1))
  }

  /** From an empty PML4 all of them are missing. */
  lemma {:induction false} AllMissing(m: Memory, root: nat, v: nat, count: nat)
    requires forall i: nat :: i < ENTRIES ==> Entry(m, root, i) == 0
    ensures Missing(m, root, v, count) == Places(v, count)
    decreases count
  {
    if count > 0 {
      AllMissing(m, root, v, count - 1);
      LacksAll(m, root, PageAt(v, count - 1));
      hide Lacked, PageAt;
    }
  }

  lemma LacksAll(m: Memory, root: nat, p: Path)
    requires InRange(p) && forall i: nat :: i < ENTRIES ==> Entry(m, root, i) == 0
    ensures Lacked(m, root, p) == PlacesOf(p)
  {
    ZeroIsAbsent();
    hide Entry, Present, Huge, FrameOf;
    assert E4(m, root, p) == 0;
  }

  // ---- the first 4 GB --------------------------------------------------------------------------------

  function CeilDiv(a: nat, b: nat): nat
    requires b > 0
  {
    (a + b - 1) / b
  }

  /** Which tables the first `count` pages need. */
  predicate LowPlace(x: Place, count: nat) {
    match x
    case PdptAt(a) => a == 0 && count > 0
    case PdAt(a, b) => a == 0 && b * 0x4_0000 < count
    case PtAt(a, b, c) => a == 0 && c < 512 && (b * 512 + c) * 512 < count
  }

  lemma {:induction false} LowPlaces(v: nat, count: nat)
    requires v == 0 && count <= MAX_PAGES
    ensures forall x :: x in Places(v, count) <==> LowPlace(x, count)
    ensures |Places(v, count)| == Min(count, 1) + CeilDiv(count, 0x4_0000) + CeilDiv(count, 512)
    decreases count
  {
    hide PageAt, LowPlace, PlacesOf, CeilDiv;
    if count == 0 {
      NoPlaces(v, count);
    } else {
      LowPlaces(v, count - 1);
      LowPath(count - 1);
      OneMoreLow(Places(v, count - 1), count - 1);
    }
  }

  lemma NoPlaces(v: nat, count: nat)
    requires count == 0
    ensures Places(v, count) == {} && CeilDiv(count, 512) == 0 && CeilDiv(count, 0x4_0000) == 0
    ensures forall x :: !LowPlace(x, count)
  {
    hide PageAt, PlacesOf;
  }

  /** Page i adds the page table of its 512 pages if it is the first of them, and so on upwards. */
  lemma OneMoreLow(s: set<Place>, i: nat)
    requires i < MAX_PAGES && forall x :: x in s <==> LowPlace(x, i)
    requires |s| == Min(i, 1) + CeilDiv(i, 0x4_0000) + CeilDiv(i, 512)
    ensures var t := s + PlacesOf(Path(0, i / 512 / 512, i / 512 % 512, i % 512));
            && (forall x :: x in t <==> LowPlace(x, i + 1))
            && |t| == Min(i + 1, 1) + CeilDiv(i + 1, 0x4_0000) + CeilDiv(i + 1, 512)
  {
    var p := Path(0, i / 512 / 512, i / 512 % 512, i % 512);
    NextPd(i);
    NextPt(i);
    forall x
      ensures LowPlace(x, i + 1) <==> LowPlace(x, i) || x in PlacesOf(p)
    {
      NextPlace(x, i);
    }
    NextCeil(i, 0x4_0000);
    NextCeil(i, 512);
    assert LowPlace(PdptAt(0), i) <==> i > 0;
    hide LowPlace, CeilDiv;
    AddThree(s, PdptAt(0), PdAt(0, p.b), PtAt(0, p.b, p.c));
  }

  lemma NextPlace(x: Place, i: nat)
    ensures LowPlace(x, i + 1) <==>
            LowPlace(x, i) || x in PlacesOf(Path(0, i / 512 / 512, i / 512 % 512, i % 512))
  {
    match x
    case PdptAt(_) =>
    case PdAt(a, b) =>
      NextMultiple(b, 0x4_0000, i);
      Quotients(i, 0, 0);
    case PtAt(a, b, c) =>
      NextMultiple(b * 512 + c, 512, i);
      Quotients(i, b, c);
  }

  lemma Quotients(i: nat, b: nat, c: nat)
    ensures i / 512 / 512 == i / 0x4_0000
    ensures c < 512 ==> (b * 512 + c == i / 512 <==> b == i / 512 / 512 && c == i / 512 % 512)
  {
  }

  /** A multiple of d is reached at i exactly if it is i's own. */
  lemma NextMultiple(b: nat, d: nat, i: nat)
    requires d == 512 || d == 0x4_0000
    ensures b * d < i + 1 <==> b * d < i || (b == i / d && i % d == 0)
    ensures b == i / d ==> b * d < i + 1
  {
  }

  lemma NextPd(i: nat)
    ensures LowPlace(PdAt(0, i / 512 / 512), i) <==> i % 0x4_0000 != 0
  {
  }

  lemma NextPt(i: nat)
    ensures LowPlace(PtAt(0, i / 512 / 512, i / 512 % 512), i) <==> i % 512 != 0
  {
  }

  lemma NextCeil(i: nat, d: nat)
    requires d == 512 || d == 0x4_0000
    ensures CeilDiv(i + 1, d) == CeilDiv(i, d) + (if i % d == 0 then 1 else 0)
  {
  }

  lemma AddOne(s: set<Place>, x: Place)
    ensures |s + {x}| == |s| + (if x in s then 0 else 1)
  {
    if x in s {
      assert s + {x} == s;
    }
  }

  lemma AddThree(s: set<Place>, x: Place, y: Place, z: Place)
    requires x != y && y != z && x != z
    ensures |s + {x, y, z}| ==
            |s| + (if x in s then 0 else 1) + (if y in s then 0 else 1) + (if z in s then 0 else 1)
  {
    AddOne(s, x);
    AddOne(s + {x}, y);
    AddOne(s + {x} + {y}, z);
    assert s + {x, y, z} == s + {x} + {y} + {z};
  }

  // ---- the kernel's address space --------------------------------------------------------------------

  /** The tables of the kernel image, the framebuffer, the text buffer and the first 4 GB. */
  function KernelPlaces(kernelStart: nat, kernelEnd: nat, fbAddr: nat, fbSize: nat): set<Place> {
    Places(RoundDown(kernelStart), PagesBetween(kernelStart, kernelEnd))
    + Places(RoundDown(fbAddr), FbPages(fbAddr, fbSize))
    + Places(VGA, 1) + Places(0, MAX_PAGES)
  }

  lemma AllTablesMissing(m: Memory, root: nat, kernelStart: nat, kernelEnd: nat, fbAddr: nat, fbSize: nat)
    requires forall i: nat :: i < ENTRIES ==> Entry(m, root, i) == 0
    ensures KernelTables(m, root, kernelStart, kernelEnd, fbAddr, fbSize)
            == KernelPlaces(kernelStart, kernelEnd, fbAddr, fbSize)
  {
    hide Missing, Places, RoundDown, FbPages, PagesBetween, Entry;
    AllMissing(m, root, RoundDown(kernelStart), PagesBetween(kernelStart, kernelEnd));
    AllMissing(m, root, RoundDown(fbAddr), FbPages(fbAddr, fbSize));
    AllMissing(m, root, VGA, 1);
    AllMissing(m, root, 0, MAX_PAGES);
  }

  lemma {:induction false} InPlaces(v: nat, j: nat, count: nat)
    requires j < count
    ensures PlacesOf(PageAt(v, j)) <= Places(v, count)
    decreases count
  {
    hide PlacesOf, PageAt;
    if j < count - 1 {
      InPlaces(v, j, count - 1);
    }
  }

  /** Ranges below 4 GB need no further tables. */
  lemma {:induction false} LowRange(low: nat, v: nat, count: nat, pages: nat)
    requires low == 0 && v % PAGE_SIZE == 0 && v / PAGE_SIZE + count <= pages
    ensures Places(v, count) <= Places(low, pages)
    decreases count
  {
    hide PlacesOf, PageAt;
    if count > 0 {
      LowRange(low, v, count - 1, pages);
      SamePage(low, v, count - 1);
      InPlaces(low, v / PAGE_SIZE + (count - 1), pages);
    }
  }

  lemma SamePage(low: nat, v: nat, i: nat)
    requires low == 0 && v % PAGE_SIZE == 0
    ensures PageAt(low, v / PAGE_SIZE + i) == PageAt(v, i)
  {
    assert Nth(low, v / PAGE_SIZE + i) == Nth(v, i);
    hide Nth, PathOf;
  }

  lemma PagesBelow(start: nat, end: nat, limit: nat)
    requires end <= limit && limit % PAGE_SIZE == 0 && start <= end
    ensures RoundDown(start) % PAGE_SIZE == 0
    ensures RoundDown(start) / PAGE_SIZE + PagesBetween(start, end) <= limit / PAGE_SIZE
  {
  }

  /** With kernel and framebuffer below 4 GB that makes one table below the PML4, four page directories and 2048 page
      tables. */
  lemma LowKernel(kernelStart: nat, kernelEnd: nat, fbAddr: nat, fbSize: nat)
    requires kernelStart <= kernelEnd <= MAX_PHYSICAL_MEMORY && fbAddr + fbSize <= MAX_PHYSICAL_MEMORY
    ensures |KernelPlaces(kernelStart, kernelEnd, fbAddr, fbSize)| == 2053
  {
    hide Places, RoundDown, PagesBetween, CeilDiv, FbPages;
    var low, pages: nat := 0, MAX_PAGES;
    PagesBelow(kernelStart, kernelEnd, MAX_PHYSICAL_MEMORY);
    FbBelow(fbAddr, fbSize, MAX_PHYSICAL_MEMORY);
    LowCounts();
    LowPlaces(low, pages);
    LowRange(low, RoundDown(kernelStart), PagesBetween(kernelStart, kernelEnd), pages);
    LowRange(low, RoundDown(fbAddr), FbPages(fbAddr, fbSize), pages);
    LowRange(low, VGA, 1, pages);
    Absorbed(Places(RoundDown(kernelStart), PagesBetween(kernelStart, kernelEnd)),
             Places(RoundDown(fbAddr), FbPages(fbAddr, fbSize)), Places(VGA, 1), Places(low, pages));
  }

  lemma FbBelow(fbAddr: nat, fbSize: nat, limit: nat)
    requires fbAddr + fbSize <= limit && limit % PAGE_SIZE == 0
    ensures RoundDown(fbAddr) % PAGE_SIZE == 0
    ensures RoundDown(fbAddr) / PAGE_SIZE + FbPages(fbAddr, fbSize) <= limit / PAGE_SIZE
  {
    PagesBelow(fbAddr, fbAddr + fbSize, limit);
  }

  lemma Absorbed<T>(a: set<T>, b: set<T>, c: set<T>, d: set<T>)
    requires a <= d && b <= d && c <= d
    ensures a + b + c + d == d
  {
  }

  lemma LowCounts()
    ensures CeilDiv(MAX_PAGES, 0x4_0000) == 4 && CeilDiv(MAX_PAGES, 512) == 2048
  {
  }
}
