/** src/memory/kmalloc.c: page-granular kernel heap over the frame allocator. */
module Heap {
  import opened LittleEndian
  import opened FrameSets
  import opened FrameAllocators

  const HEADER_SIZE: nat := 24
  const WORD_RANGE: nat := 0x1_0000_0000_0000_0000
  const KMALLOC_MAGIC: u64 := 0x4B4D414C4C4F43

  const FRAME_WORDS: nat := 512

  /** Frame p belongs to the allocation that starts at frame s. */
  ghost predicate Covers(allocs: map<nat, nat>, s: nat, p: nat) {
    s in allocs && s <= p < s + allocs[s]
  }

  ghost predicate IsOwned(allocs: map<nat, nat>, p: nat) {
    exists s :: Covers(allocs, s, p)
  }

  /** The frames of all live allocations. */
  ghost function Owned(allocs: map<nat, nat>): set<nat> {
    set p: nat | p < MAX_PAGES && IsOwned(allocs, p)
  }

  /** Allocations are non-empty, hold used frames only, and no two of them meet. */
  ghost predicate Disjoint(allocs: map<nat, nat>, free: set<nat>) {
    && (forall s :: s in allocs ==> 0 < s && 0 < allocs[s] && s + allocs[s] <= MAX_PAGES)
    && (forall s, p: nat :: Covers(allocs, s, p) ==> p !in free)
    && (forall s, t, p: nat :: Covers(allocs, s, p) && Covers(allocs, t, p) ==> s == t)
  }

  /** The frames of `free` and the block s..s+count-1. */
  ghost function With(free: set<nat>, s: nat, count: nat): set<nat>
    decreases count
  {
    if count == 0 then free else With(free, s, count - 1) + {s + count - 1}
  }

  lemma {:induction false} WithMeaning(free: set<nat>, s: nat, count: nat, p: nat)
    ensures p in With(free, s, count) <==> p in free || s <= p < s + count
  {
    if count > 0 {
      WithMeaning(free, s, count - 1, p);
    }
  }

  /** Freeing a block that first fit took gives back exactly the free set before. */
  lemma AllocThenFree(free: set<nat>, s: nat, count: nat)
    requires RunFree(free, s, count)
    ensures With(Without(free, s, count), s, count) == free
  {
    forall p: nat
      ensures p in With(Without(free, s, count), s, count) <==> p in free
    {
      WithMeaning(Without(free, s, count), s, count, p);
    }
  }

  /** A block of free frames joins the live allocations: it meets none of them ... */
  lemma BlockJoins(allocs: map<nat, nat>, free: set<nat>, s: nat, count: nat)
    requires Disjoint(allocs, free) && RunFree(free, s, count) && 0 < s && 0 < count && s + count <= MAX_PAGES
    ensures Disjoint(allocs[s := count], Without(free, s, count)) && s !in allocs
  {
    NewBlock(allocs, free, s, count);
    var joined := allocs[s := count];
    forall t, p: nat | Covers(joined, t, p)
      ensures p !in Without(free, s, count)
    {
      if t != s {
        assert Covers(allocs, t, p);
      }
    }
    forall t, u, p: nat | Covers(joined, t, p) && Covers(joined, u, p)
      ensures t == u
    {
      if t != s {
        assert Covers(allocs, t, p);
      }
      if u != s {
        assert Covers(allocs, u, p);
      }
    }
  }

  lemma NewBlock(allocs: map<nat, nat>, free: set<nat>, s: nat, count: nat)
    requires Disjoint(allocs, free) && RunFree(free, s, count) && 0 < count
    ensures s !in allocs
  {
    if s in allocs {
      assert Covers(allocs, s, s);
    }
  }

  /** ... and the owned frames grow by exactly its size. */
  lemma JoinedOwned(allocs: map<nat, nat>, free: set<nat>, s: nat, count: nat)
    requires Disjoint(allocs, free) && RunFree(free, s, count) && 0 < s && 0 < count && s + count <= MAX_PAGES
    ensures Owned(allocs[s := count]) == With(Owned(allocs), s, count)
    ensures forall p: nat :: s <= p < s + count ==> p !in Owned(allocs)
  {
    NewBlock(allocs, free, s, count);
    forall p: nat
      ensures p in Owned(allocs[s := count]) <==> p in With(Owned(allocs), s, count)
    {
      WithMeaning(Owned(allocs), s, count, p);
      OwnedAfterJoin(allocs, s, count, p);
    }
  }

  lemma OwnedAfterJoin(allocs: map<nat, nat>, s: nat, count: nat, p: nat)
    requires s !in allocs
    ensures IsOwned(allocs[s := count], p) <==> IsOwned(allocs, p) || s <= p < s + count
  {
    if IsOwned(allocs, p) {
      var t :| Covers(allocs, t, p);
      assert Covers(allocs[s := count], t, p);
    }
    if s <= p < s + count {
      assert Covers(allocs[s := count], s, p);
    }
    if IsOwned(allocs[s := count], p) {
      var t :| Covers(allocs[s := count], t, p);
      if t != s {
        assert Covers(allocs, t, p);
      }
    }
  }

  lemma {:induction false} WithSize(owned: set<nat>, s: nat, count: nat)
    requires forall p: nat :: s <= p < s + count ==> p !in owned
    ensures |With(owned, s, count)| == |owned| + count
  {
    if count > 0 {
      WithSize(owned, s, count - 1);
      WithMeaning(owned, s, count - 1, s + count - 1);
    }
  }

  /** A live allocation leaves: the others are still disjoint and still used ... */
  lemma BlockLeaves(allocs: map<nat, nat>, free: set<nat>, s: nat)
    requires Disjoint(allocs, free) && s in allocs
    ensures Disjoint(allocs - {s}, With(free, s, allocs[s]))
  {
    var left := allocs - {s};
    forall t, p: nat | Covers(left, t, p)
      ensures p !in With(free, s, allocs[s])
    {
      WithMeaning(free, s, allocs[s], p);
      assert Covers(allocs, t, p);
      if s <= p < s + allocs[s] {
        assert Covers(allocs, s, p);
      }
    }
    forall t, u, p: nat | Covers(left, t, p) && Covers(left, u, p)
      ensures t == u
    {
      assert Covers(allocs, t, p) && Covers(allocs, u, p);
    }
  }

  /** ... and the owned frames shrink by exactly its size. */
  lemma LeftOwned(allocs: map<nat, nat>, free: set<nat>, s: nat)
    requires Disjoint(allocs, free) && s in allocs
    ensures Owned(allocs) == With(Owned(allocs - {s}), s, allocs[s])
    ensures forall p: nat :: s <= p < s + allocs[s] ==> p !in Owned(allocs - {s})
  {
    forall p: nat
      ensures p in Owned(allocs) <==> p in With(Owned(allocs - {s}), s, allocs[s])
      ensures s <= p < s + allocs[s] ==> p !in Owned(allocs - {s})
    {
      WithMeaning(Owned(allocs - {s}), s, allocs[s], p);
      OwnedAfterJoin(allocs - {s}, s, allocs[s], p);
      assert (allocs - {s})[s := allocs[s]] == allocs;
      if s <= p < s + allocs[s] && IsOwned(allocs - {s}, p) {
        var t :| Covers(allocs - {s}, t, p);
        assert Covers(allocs, t, p) && Covers(allocs, s, p);
      }
    }
  }

  ghost function OwnedCount(allocs: map<nat, nat>): nat {
    |Owned(allocs)|
  }

  /** The size of so many pages. */
  function Bytes(pages: nat): nat {
    pages * PAGE_SIZE
  }

  function SaturatingMinus(a: nat, b: nat): nat {
    if a >= b then a - b else 0
  }

  lemma BytesAdd(a: nat, b: nat)
    ensures Bytes(a + b) == Bytes(a) + Bytes(b)
  {
  }

  lemma JoinedCount(allocs: map<nat, nat>, free: set<nat>, s: nat, count: nat)
    requires Disjoint(allocs, free) && RunFree(free, s, count) && 0 < s && 0 < count && s + count <= MAX_PAGES
    ensures OwnedCount(allocs[s := count]) == OwnedCount(allocs) + count
  {
    JoinedOwned(allocs, free, s, count);
    hide Owned;
    WithSize(Owned(allocs), s, count);
  }

  lemma LeftCount(allocs: map<nat, nat>, free: set<nat>, s: nat)
    requires Disjoint(allocs, free) && s in allocs
    ensures OwnedCount(allocs) == OwnedCount(allocs - {s}) + allocs[s]
  {
    LeftOwned(allocs, free, s);
    hide Owned;
    WithSize(Owned(allocs - {s}), s, allocs[s]);
  }

  /** Header and payload in whole pages, as 64-bit arithmetic computes them. */
  function PagesFor(size: u64): nat {
    ((HEADER_SIZE + size) % WORD_RANGE + PAGE_SIZE - 1) % WORD_RANGE / PAGE_SIZE
  }

  /** A block kmalloc can find has room for header and payload exactly when their sum does not wrap round; the
      other sizes near 2^64 get nothing, or a single page. */
  lemma RoomExactly(size: u64)
    ensures PagesFor(size) > 0 ==> (24 + size <= Bytes(PagesFor(size)) <==> 24 + size < WORD_RANGE)
    ensures PagesFor(size) > 0 && 24 + size < WORD_RANGE ==>
            Bytes(PagesFor(size)) < 24 + size + PAGE_SIZE
    ensures PagesFor(size) == 0 <==> WORD_RANGE - PAGE_SIZE < 24 + size <= WORD_RANGE
    ensures 24 + size > WORD_RANGE ==> PagesFor(size) == 1
  {
  }

  lemma PagesAreWords(size: u64)
    ensures PagesFor(size) < WORD_RANGE
  {
  }

  /** The frame a heap pointer's header lies at the start of. */
  function BlockOf(ptr: nat): nat {
    if ptr < HEADER_SIZE then 0 else (ptr - HEADER_SIZE) / PAGE_SIZE
  }

  lemma PointerOf(address: nat)
    requires address % PAGE_SIZE == 0
    ensures BlockOf(address + HEADER_SIZE) == address / PAGE_SIZE
    ensures address == address / PAGE_SIZE * PAGE_SIZE
  {
  }

  /** The header at frame s is the one kmalloc wrote. */
  predicate HeaderIntact(m: seq<u64>, s: nat, pages: nat) {
    s * FRAME_WORDS + 1 < |m| && m[s * FRAME_WORDS] == 0x4B4D414C4C4F43 && m[s * FRAME_WORDS + 1] == pages
  }

  /** Memory outside the three header words of frame s is untouched; no other block's header is among them. */
  ghost predicate OnlyHeaderChanged(m: seq<u64>, n: seq<u64>, s: nat) {
    |n| == |m| && forall w :: 0 <= w < |m| && !(s * FRAME_WORDS <= w < s * FRAME_WORDS + 3) ==> n[w] == m[w]
  }

  lemma NoFitAtZero(free: set<nat>, count: nat)
    requires 0 !in free
    ensures 0 < count ==> !IsFirstFit(free, 0, count)
  {
    assert 0 < count && RunFree(free, 0, count) ==> 0 in free;
  }

  lemma RunInMemory(free: set<nat>, s: nat, count: nat)
    requires RunFree(free, s, count) && 0 < count && 0 !in free && forall p :: p in free ==> p < MAX_PAGES
    ensures 0 < s && s + count <= MAX_PAGES
  {
    assert s in free && s + count - 1 in free;
  }

  lemma BlockInMemory(allocs: map<nat, nat>, free: set<nat>, s: nat)
    requires Disjoint(allocs, free) && s in allocs
    ensures 0 < s && 0 < allocs[s] && s + allocs[s] <= MAX_PAGES
  {
  }

  /** A first-fit block joins the heap. */
  lemma FitJoins(allocs: map<nat, nat>, free: set<nat>, s: nat, count: nat)
    requires Disjoint(allocs, free) && IsFirstFit(free, s, count) && 0 < count
    requires 0 !in free && forall p :: p in free ==> p < MAX_PAGES
    ensures 0 < s && s + count <= MAX_PAGES && s !in allocs
    ensures Disjoint(allocs[s := count], Without(free, s, count))
    ensures Bytes(OwnedCount(allocs[s := count])) == Bytes(OwnedCount(allocs)) + Bytes(count)
  {
    hide Disjoint, OwnedCount, Bytes, Without, RunFree;
    RunInMemory(free, s, count);
    BlockJoins(allocs, free, s, count);
    JoinedCount(allocs, free, s, count);
    BytesAdd(OwnedCount(allocs), count);
  }

  /** A live block leaves the heap. */
  lemma FreedLeaves(allocs: map<nat, nat>, free: set<nat>, s: nat)
    requires Disjoint(allocs, free) && s in allocs && 0 !in free
    ensures 0 < s && s + allocs[s] <= MAX_PAGES && 0 !in With(free, s, allocs[s])
    ensures Disjoint(allocs - {s}, With(free, s, allocs[s]))
    ensures Bytes(OwnedCount(allocs)) == Bytes(OwnedCount(allocs - {s})) + Bytes(allocs[s])
  {
    BlockInMemory(allocs, free, s);
    WithMeaning(free, s, allocs[s], 0);
    hide Disjoint, OwnedCount, Bytes, With;
    BlockLeaves(allocs, free, s);
    LeftCount(allocs, free, s);
    BytesAdd(OwnedCount(allocs - {s}), allocs[s]);
  }

  /** A new header never overwrites that of another live block. */
  lemma OtherHeadersStay(m: seq<u64>, n: seq<u64>, s: nat, t: nat, pages: nat)
    requires OnlyHeaderChanged(m, n, s) && t != s && HeaderIntact(m, t, pages)
    ensures HeaderIntact(n, t, pages)
  {
  }

  class KernelHeap {
    const pmm: FrameAllocator
    const mem: array<u64>
    var heapUsed: nat
    var heapTotal: nat
    ghost var allocs: map<nat, nat>

    ghost predicate Shaped()
      reads this
    {
      pmm.bitmap as object != mem && mem.Length == MAX_PAGES * FRAME_WORDS
    }

    /** heap_used is the page size times the number of frames in live allocations. */
    ghost predicate Accounted()
      reads this
    {
      heapUsed == Bytes(OwnedCount(allocs))
    }

    ghost predicate Valid()
      reads this, pmm, pmm.bitmap
    {
      && Shaped() && pmm.Valid() && pmm.totalPages == MAX_PAGES && 0 !in pmm.Free()
      && Disjoint(allocs, pmm.Free()) && Accounted()
    }

    constructor (pmm: FrameAllocator)
      requires pmm.Valid() && pmm.totalPages == MAX_PAGES && 0 !in pmm.Free()
      ensures Valid() && this.pmm == pmm && fresh(mem) && allocs == map[] && heapUsed == 0 && heapTotal == 0
    {
      this.pmm := pmm;
      mem := new u64[MAX_PAGES * FRAME_WORDS];
      heapUsed, heapTotal := 0, 0;
      allocs := map[];
    }

    /** kmalloc: a block of whole frames, found by first fit, large enough for the header and the payload
        exactly when their sum does not wrap round; 0 when size is 0 or no run of frames is long enough. */
    method Kmalloc(size: u64) returns (ptr: nat)
      requires Valid()
      modifies this`heapUsed, this`heapTotal, this`allocs, pmm`freePages, pmm.bitmap, mem
      ensures Valid()
      ensures var pages := PagesFor(size);
              if size == 0 || pages == 0 || !HasRun(old(pmm.Free()), pages) then
                ptr == 0 && allocs == old(allocs) && pmm.Free() == old(pmm.Free()) && heapTotal == old(heapTotal)
                && mem[..] == old(mem[..])
              else
                && ptr == BlockOf(ptr) * PAGE_SIZE + 24
                && IsFirstFit(old(pmm.Free()), BlockOf(ptr), pages)
                && (24 + size <= Bytes(pages) <==> 24 + size < WORD_RANGE)
                && (24 + size < WORD_RANGE ==> Bytes(pages) < 24 + size + PAGE_SIZE)
                && BlockOf(ptr) !in old(allocs) && allocs == old(allocs)[BlockOf(ptr) := pages]
                && pmm.Free() == Without(old(pmm.Free()), BlockOf(ptr), pages)
                && HeaderIntact(mem[..], BlockOf(ptr), pages) && mem[BlockOf(ptr) * FRAME_WORDS + 2] == size
                && OnlyHeaderChanged(old(mem[..]), mem[..], BlockOf(ptr))
                && heapTotal == old(heapTotal) + Bytes(pages)
    {
      hide FrameAllocator.Free, FrameAllocator.Counted, Disjoint, OwnedCount, Bytes, HeaderIntact, OnlyHeaderChanged;
      hide Without, BlockOf, IsFirstFit, HasRun, PagesFor;
      if size == 0 {
        return 0;
      }
      RoomExactly(size);
      PagesAreWords(size);
      NoFitAtZero(pmm.Free(), PagesFor(size));
      var pages := PagesFor(size);
      var address := pmm.AllocPages(pages);
      if address == 0 {
        return 0;
      }
      var s := address / PAGE_SIZE;
      PointerOf(address);
      ClaimBlock(s, pages, size, old(pmm.Free()));
      ptr := address + HEADER_SIZE;
    }

    /** kmalloc once the frames are taken from the allocator, which had `free` before. */
    method ClaimBlock(s: nat, pages: u64, size: u64, ghost free: set<nat>)
      requires Shaped() && pmm.Valid() && pmm.totalPages == MAX_PAGES && Accounted() && Disjoint(allocs, free)
      requires 0 < pages && IsFirstFit(free, s, pages) && pmm.Free() == Without(free, s, pages)
      requires 0 !in free && forall p :: p in free ==> p < MAX_PAGES
      modifies this`heapUsed, this`heapTotal, this`allocs, mem
      ensures Valid() && s < MAX_PAGES
      ensures s !in old(allocs) && allocs == old(allocs)[s := pages]
      ensures heapTotal == old(heapTotal) + Bytes(pages)
      ensures HeaderIntact(mem[..], s, pages) && mem[s * FRAME_WORDS + 2] == size
      ensures OnlyHeaderChanged(old(mem[..]), mem[..], s)
    {
      hide FrameAllocator.Free, FrameAllocator.Counted, Disjoint, OwnedCount, Bytes, HeaderIntact, OnlyHeaderChanged;
      hide IsFirstFit;
      FitJoins(allocs, free, s, pages);
      WriteHeader(s, pages, size);
      heapUsed := heapUsed + Bytes(pages);
      heapTotal := heapTotal + Bytes(pages);
      allocs := allocs[s := pages];
    }

    /** kfree: gives back exactly the frames of the block; null pointers and pointers without the magic
        number are ignored.  The pointer must be one kmalloc could have returned, and a header with the magic
        number must be the intact header of a live block. */
    method Kfree(ptr: nat)
      requires Valid()
      requires ptr != 0 ==> ptr == BlockOf(ptr) * PAGE_SIZE + HEADER_SIZE && BlockOf(ptr) < MAX_PAGES
      requires ptr != 0 && mem[BlockOf(ptr) * FRAME_WORDS] == KMALLOC_MAGIC ==>
                 BlockOf(ptr) in allocs && HeaderIntact(mem[..], BlockOf(ptr), allocs[BlockOf(ptr)])
      modifies this`heapUsed, this`allocs, pmm`freePages, pmm.bitmap, mem
      ensures Valid()
      ensures ptr == 0 || old(mem[BlockOf(ptr) * FRAME_WORDS]) != KMALLOC_MAGIC ==>
                allocs == old(allocs) && pmm.Free() == old(pmm.Free()) && heapUsed == old(heapUsed)
      ensures ptr != 0 && old(mem[BlockOf(ptr) * FRAME_WORDS]) == KMALLOC_MAGIC ==>
                && allocs == old(allocs) - {BlockOf(ptr)}
                && pmm.Free() == With(old(pmm.Free()), BlockOf(ptr), old(allocs)[BlockOf(ptr)])
                && mem[BlockOf(ptr) * FRAME_WORDS] == 0
      ensures forall w :: 0 <= w < mem.Length && (ptr == 0 || w != BlockOf(ptr) * FRAME_WORDS) ==> mem[w] == old(mem[w])
    {
      if ptr == 0 {
        return;
      }
      hide FrameAllocator.Free, FrameAllocator.Counted, Disjoint, OwnedCount, Bytes, With;
      var s := BlockOf(ptr);
      if mem[s * FRAME_WORDS] != KMALLOC_MAGIC {
        return;
      }
      PointerOf(ptr - HEADER_SIZE);
      ReleaseBlock(s, ptr - HEADER_SIZE);
    }

    /** kfree once the header is known to be intact. */
    method ReleaseBlock(s: nat, address: nat)
      requires Valid() && s in allocs && s < MAX_PAGES && HeaderIntact(mem[..], s, allocs[s])
      requires address == s * PAGE_SIZE
      modifies this`heapUsed, this`allocs, pmm`freePages, pmm.bitmap, mem
      ensures Valid() && allocs == old(allocs) - {s}
      ensures pmm.Free() == With(old(pmm.Free()), s, old(allocs)[s])
      ensures mem[..] == old(mem[..])[s * FRAME_WORDS := 0]
    {
      hide FrameAllocator.Free, FrameAllocator.Counted, Disjoint, OwnedCount, Bytes, With;
      var pages := mem[s * FRAME_WORDS + 1];
      assert address % PAGE_SIZE == 0 && address / PAGE_SIZE == s;
      FreedLeaves(allocs, pmm.Free(), s);
      FreeBlock(address, pages);
      heapUsed := SaturatingMinus(heapUsed, Bytes(pages));
      allocs := allocs - {s};
      mem[s * FRAME_WORDS] := 0;
    }

    method WriteHeader(s: nat, pages: u64, size: u64)
      requires mem.Length == MAX_PAGES * FRAME_WORDS && s < MAX_PAGES
      modifies mem
      ensures HeaderIntact(mem[..], s, pages) && mem[s * FRAME_WORDS + 2] == size
      ensures OnlyHeaderChanged(old(mem[..]), mem[..], s)
    {
      mem[s * FRAME_WORDS] := KMALLOC_MAGIC;
      mem[s * FRAME_WORDS + 1] := pages;
      mem[s * FRAME_WORDS + 2] := size;
    }

    /** The loop of kfree. */
    method FreeBlock(address: nat, pages: nat)
      requires pmm.Valid() && pmm.totalPages == MAX_PAGES && 0 !in pmm.Free()
      requires address % PAGE_SIZE == 0 && 0 < address && address / PAGE_SIZE + pages <= MAX_PAGES
      modifies pmm`freePages, pmm.bitmap
      ensures pmm.Valid() && pmm.Free() == With(old(pmm.Free()), address / PAGE_SIZE, pages) && 0 !in pmm.Free()
    {
      hide FrameAllocator.Free, FrameAllocator.Counted;
      ghost var was, s := pmm.Free(), address / PAGE_SIZE;
      var i := 0;
      while i < pages
        invariant 0 <= i <= pages && pmm.Valid() && pmm.totalPages == MAX_PAGES
        invariant pmm.Free() == With(was, s, i)
      {
        pmm.FreePage(address + i * PAGE_SIZE);
        assert (address + i * PAGE_SIZE) / PAGE_SIZE == s + i;
        i := i + 1;
      }
      WithMeaning(was, s, pages, 0);
    }
  }
}
