/** Sets of page frames: blocks of consecutive frames, first fit, and the boot memory map. */
module FrameSets {

  const PAGE_SIZE: nat := 4096
  const MAX_PHYSICAL_MEMORY: nat := 0x1_0000_0000
  const MAX_PAGES: nat := 0x10_0000

  /** All of the frames s, s+1, ..., s+count-1 are free. */
  ghost predicate RunFree(free: set<nat>, s: nat, count: nat) {
    forall p: nat :: s <= p < s + count ==> p in free
  }

  /** The frames of `free` outside s, s+1, ..., s+count-1. */
  ghost function Without(free: set<nat>, s: nat, count: nat): set<nat> {
    set p | p in free && !(s <= p < s + count)
  }

  /** The frames of `pages` below `bound`. */
  ghost function Below(pages: set<nat>, bound: nat): set<nat> {
    set p | p in pages && p < bound
  }

  lemma {:induction false} WithoutSize(free: set<nat>, s: nat, count: nat)
    requires RunFree(free, s, count)
    ensures count <= |free| && |Without(free, s, count)| == |free| - count
  {
    if count == 0 {
      assert Without(free, s, count) == free;
    } else {
      WithoutSize(free, s, count - 1);
      assert Without(free, s, count) == Without(free, s, count - 1) - {s + count - 1};
    }
  }

  /** s starts a run of count free frames and no smaller frame does. */
  ghost predicate IsFirstFit(free: set<nat>, s: nat, count: nat) {
    RunFree(free, s, count) && forall t: nat :: t < s ==> !RunFree(free, t, count)
  }

  ghost predicate HasRun(free: set<nat>, count: nat) {
    exists s: nat :: RunFree(free, s, count)
  }

  lemma RunNeedsThatMany(free: set<nat>, count: nat)
    requires HasRun(free, count)
    ensures count <= |free|
  {
    var s: nat :| RunFree(free, s, count);
    WithoutSize(free, s, count);
  }

  /** Frames lying wholly inside [base, base+length). */
  ghost function WholePages(base: nat, length: nat): set<nat> {
    set p: nat | p < MAX_PAGES && PageInside(p, base, length)
  }

  predicate PageInside(p: nat, base: nat, length: nat) {
    base <= p * PAGE_SIZE && (p + 1) * PAGE_SIZE <= base + length
  }

  /** Frames sharing a byte with [base, base+length); a zero-length range strictly inside a frame touches
      that frame, because the code rounds both ends outwards. */
  ghost function TouchedPages(base: nat, length: nat): set<nat> {
    set p: nat | p < MAX_PAGES && PageTouches(p, base, length)
  }

  predicate PageTouches(p: nat, base: nat, length: nat) {
    p * PAGE_SIZE < base + length && base < (p + 1) * PAGE_SIZE
  }

  function RoundDown(a: nat): nat {
    a / PAGE_SIZE * PAGE_SIZE
  }

  function RoundUp(a: nat): nat {
    (a + PAGE_SIZE - 1) / PAGE_SIZE * PAGE_SIZE
  }

  /** Rounding the start up and the end down leaves exactly the frames wholly inside. */
  lemma InsideByRounding(p: nat, base: nat, length: nat)
    ensures PageInside(p, base, length) <==> RoundUp(base) / PAGE_SIZE <= p < RoundDown(base + length) / PAGE_SIZE
  {
  }

  /** Rounding outwards leaves exactly the frames touched. */
  lemma TouchesByRounding(p: nat, base: nat, length: nat)
    ensures PageTouches(p, base, length) <==> RoundDown(base) / PAGE_SIZE <= p < RoundUp(base + length) / PAGE_SIZE
  {
  }

  lemma WholePagesByRounding(base: nat, length: nat)
    ensures RoundUp(base) % PAGE_SIZE == 0 && RoundDown(base + length) % PAGE_SIZE == 0
    ensures forall p :: p in WholePages(base, length)
                        <==> RoundUp(base) / PAGE_SIZE <= p < RoundDown(base + length) / PAGE_SIZE && p < MAX_PAGES
  {
    forall p: nat {
      InsideByRounding(p, base, length);
    }
  }

  lemma TouchedPagesByRounding(base: nat, length: nat)
    ensures RoundDown(base) % PAGE_SIZE == 0 && RoundUp(base + length) % PAGE_SIZE == 0
    ensures RoundDown(base) <= RoundUp(base + length)
    ensures forall p :: p in TouchedPages(base, length)
                        <==> RoundDown(base) / PAGE_SIZE <= p < RoundUp(base + length) / PAGE_SIZE && p < MAX_PAGES
  {
    forall p: nat {
      TouchesByRounding(p, base, length);
    }
  }

  const MEMORY_AVAILABLE: nat := 1

  datatype Region = Region(base: nat, length: nat, kind: nat)

  /** Frames wholly inside some single region of type 1, memory for general use. */
  ghost function AvailablePages(regions: seq<Region>): set<nat> {
    set p: nat | p < MAX_PAGES && InsideSomeRegion(regions, p)
  }

  ghost predicate InsideSomeRegion(regions: seq<Region>, p: nat) {
    exists i :: 0 <= i < |regions| && regions[i].kind == 1
      && p in WholePages(regions[i].base, regions[i].length)
  }

  lemma NoRegions()
    ensures AvailablePages([]) == {}
  {
  }

  lemma FrameZeroReserved()
    ensures 0 in TouchedPages(0, 0x10_0000)
  {
  }

  lemma AvailableOfConcat(a: seq<Region>, b: seq<Region>)
    ensures AvailablePages(a + b) == AvailablePages(a) + AvailablePages(b)
  {
    forall p: nat | p < MAX_PAGES
      ensures InsideSomeRegion(a + b, p) <==> InsideSomeRegion(a, p) || InsideSomeRegion(b, p)
    {
      if InsideSomeRegion(b, p) {
        var i :| 0 <= i < |b| && b[i].kind == MEMORY_AVAILABLE && p in WholePages(b[i].base, b[i].length);
        assert (a + b)[|a| + i] == b[i];
      }
      if InsideSomeRegion(a, p) {
        var i :| 0 <= i < |a| && a[i].kind == MEMORY_AVAILABLE && p in WholePages(a[i].base, a[i].length);
        assert (a + b)[i] == a[i];
      }
    }
  }

  lemma AvailableOfOne(r: Region)
    ensures AvailablePages([r]) == if r.kind == MEMORY_AVAILABLE then WholePages(r.base, r.length) else {}
  {
    forall p: nat | p < MAX_PAGES
      ensures InsideSomeRegion([r], p) <==> r.kind == MEMORY_AVAILABLE && p in WholePages(r.base, r.length)
    {
      assert [r][0] == r;
    }
  }
}
