/** src/memory/pmm.c: the physical frame allocator, one bit per 4 KiB frame, 1 = used. */
module FrameAllocators {
  import opened LittleEndian
  import opened FrameSets
  import opened BootInfo

  const BITMAP_SIZE: nat := MAX_PAGES / 8

  function BitMask(k: nat): bv8
    requires k < 8
  {
    (1 as bv8) << k
  }

  /** Bit k counted from the lowest. */
  lemma MaskIsBit(x: bv8, k: nat)
    requires k < 8
    ensures x & BitMask(k) != 0 <==> (x >> k) & 1 == 1
  {
  }

  predicate UsedBit(b: seq<bv8>, page: nat)
    requires page < 8 * |b|
  {
    b[page / 8] & BitMask(page % 8) != 0
  }

  /** The clear bits below frame n. */
  ghost function ClearBits(b: seq<bv8>, n: nat): set<nat>
    requires n <= 8 * |b|
  {
    set p: nat | p < n && !UsedBit(b, p)
  }

  lemma SetBit(x: bv8, k: nat, j: nat)
    requires k < 8 && j < 8
    ensures (x | BitMask(k)) & BitMask(j) != 0 <==> j == k || x & BitMask(j) != 0
  {
  }

  lemma ClearBit(x: bv8, k: nat, j: nat)
    requires k < 8 && j < 8
    ensures (x & !BitMask(k)) & BitMask(j) != 0 <==> j != k && x & BitMask(j) != 0
  {
  }

  lemma FullByte(k: nat)
    requires k < 8
    ensures 0xFF & BitMask(k) != 0
  {
  }

  lemma NoClearBits(b: seq<bv8>, n: nat)
    requires n <= 8 * |b|
    requires forall k :: 0 <= k < |b| ==> b[k] == 0xFF
    ensures ClearBits(b, n) == {}
  {
    forall p: nat | p < n
      ensures UsedBit(b, p)
    {
      FullByte(p % 8);
    }
  }

  function WithBitSet(b: seq<bv8>, page: nat): (c: seq<bv8>)
    requires page < 8 * |b|
    ensures |c| == |b|
  {
    b[page / 8 := b[page / 8] | BitMask(page % 8)]
  }

  function WithBitClear(b: seq<bv8>, page: nat): (c: seq<bv8>)
    requires page < 8 * |b|
    ensures |c| == |b|
  {
    b[page / 8 := b[page / 8] & !BitMask(page % 8)]
  }

  lemma UsedAfterSet(b: seq<bv8>, page: nat, q: nat)
    requires page < 8 * |b| && q < 8 * |b|
    ensures UsedBit(WithBitSet(b, page), q) <==> q == page || UsedBit(b, q)
  {
    SetBit(b[page / 8], page % 8, q % 8);
    hide BitMask;
  }

  lemma UsedAfterClear(b: seq<bv8>, page: nat, q: nat)
    requires page < 8 * |b| && q < 8 * |b|
    ensures UsedBit(WithBitClear(b, page), q) <==> q != page && UsedBit(b, q)
  {
    ClearBit(b[page / 8], page % 8, q % 8);
    hide BitMask;
  }

  /** Setting one bit takes exactly one frame out of the clear set. */
  lemma SetBitClears(b: seq<bv8>, n: nat, page: nat)
    requires page < n <= 8 * |b|
    ensures ClearBits(WithBitSet(b, page), n) == ClearBits(b, n) - {page}
  {
    hide UsedBit, WithBitSet;
    forall q: nat | q < n
      ensures UsedBit(WithBitSet(b, page), q) <==> q == page || UsedBit(b, q)
    {
      UsedAfterSet(b, page, q);
    }
  }

  /** Clearing one bit adds exactly one frame to the clear set. */
  lemma ClearBitFrees(b: seq<bv8>, n: nat, page: nat)
    requires page < n <= 8 * |b|
    ensures ClearBits(WithBitClear(b, page), n) == ClearBits(b, n) + {page}
  {
    hide UsedBit, WithBitClear;
    forall q: nat | q < n
      ensures UsedBit(WithBitClear(b, page), q) <==> q != page && UsedBit(b, q)
    {
      UsedAfterClear(b, page, q);
    }
  }

  class FrameAllocator {
    const bitmap: array<bv8>
    var totalPages: nat
    var freePages: nat

    ghost predicate Shaped()
      reads this
    {
      bitmap.Length == BITMAP_SIZE && totalPages <= MAX_PAGES
    }

    ghost function Free(): (free: set<nat>)
      reads this, bitmap
      requires Shaped()
      ensures forall p :: p in free ==> p < totalPages
    {
      ClearBits(bitmap[..], totalPages)
    }

    /** free_pages is the number of clear bits. */
    ghost predicate Counted()
      reads this, bitmap
      requires Shaped()
    {
      freePages == |Free()|
    }

    ghost predicate Valid()
      reads this, bitmap
    {
      Shaped() && Counted()
    }

    lemma CountIs()
      requires Valid()
      ensures freePages == |Free()|
    {
    }

    constructor ()
      ensures Shaped() && totalPages == 0 && fresh(bitmap)
    {
      bitmap := new bv8[BITMAP_SIZE];
      totalPages, freePages := 0, 0;
    }

    method PageIsUsed(page: nat) returns (used: bool)
      requires Shaped() && page < totalPages
      ensures used <==> page !in Free()
    {
      used := bitmap[page / 8] & BitMask(page % 8) != 0;
    }

    method PageMarkUsed(page: nat)
      requires Shaped() && page < totalPages
      modifies bitmap
      ensures Free() == old(Free()) - {page}
    {
      SetBitClears(bitmap[..], totalPages, page);
      ghost var was := bitmap[..];
      bitmap[page / 8] := bitmap[page / 8] | BitMask(page % 8);
      assert bitmap[..] == WithBitSet(was, page);
    }

    method PageMarkFree(page: nat)
      requires Shaped() && page < totalPages
      modifies bitmap
      ensures Free() == old(Free()) + {page}
    {
      ClearBitFrees(bitmap[..], totalPages, page);
      ghost var was := bitmap[..];
      bitmap[page / 8] := bitmap[page / 8] & !BitMask(page % 8);
      assert bitmap[..] == WithBitClear(was, page);
    }

    /** If the frame is used, mark it free and count it. */
    method Release(page: nat)
      requires Valid() && page < totalPages
      modifies this`freePages, bitmap
      ensures Valid() && Free() == old(Free()) + {page}
    {
      hide ClearBits, UsedBit;
      var used := PageIsUsed(page);
      if used {
        PageMarkFree(page);
        freePages := freePages + 1;
      }
    }

    /** If the frame is free, mark it used and uncount it. */
    method Take(page: nat)
      requires Valid() && page < totalPages
      modifies this`freePages, bitmap
      ensures Valid() && Free() == old(Free()) - {page}
    {
      hide ClearBits, UsedBit;
      var used := PageIsUsed(page);
      if !used {
        PageMarkUsed(page);
        freePages := freePages - 1;
      }
    }

    method MarkRangeFree(base: nat, length: nat)
      requires Valid() && totalPages == MAX_PAGES
      modifies this`freePages, bitmap
      ensures Valid()
      ensures Free() == old(Free()) + WholePages(base, length)
    {
      hide ClearBits, UsedBit, Counted, WholePages, RoundUp, RoundDown;
      var start := RoundUp(base);
      var end := RoundDown(base + length);
      WholePagesByRounding(base, length);
      if start >= MAX_PHYSICAL_MEMORY {
        assert WholePages(base, length) == {};
        return;
      }
      if end > MAX_PHYSICAL_MEMORY {
        end := MAX_PHYSICAL_MEMORY;
      }
      ghost var pages := WholePages(base, length);
      var address := start;
      ghost var n := start / PAGE_SIZE;
      while address < end
        invariant Valid() && address == n * PAGE_SIZE && start <= address && (address <= end || address == start)
        invariant Free() == old(Free()) + Below(pages, n)
        decreases end - address
      {
        var page := address / PAGE_SIZE;
        Release(page);
        assert page == n && Below(pages, n + 1) == Below(pages, n) + {n};
        address, n := address + PAGE_SIZE, n + 1;
      }
      assert Below(pages, n) == pages;
    }

    method MarkRangeUsed(base: nat, length: nat)
      requires Valid() && totalPages == MAX_PAGES
      modifies this`freePages, bitmap
      ensures Valid()
      ensures Free() == old(Free()) - TouchedPages(base, length)
    {
      hide ClearBits, UsedBit, Counted, TouchedPages, RoundUp, RoundDown;
      var start := RoundDown(base);
      var end := RoundUp(base + length);
      TouchedPagesByRounding(base, length);
      if start >= MAX_PHYSICAL_MEMORY {
        assert TouchedPages(base, length) == {};
        return;
      }
      if end > MAX_PHYSICAL_MEMORY {
        end := MAX_PHYSICAL_MEMORY;
      }
      ghost var pages := TouchedPages(base, length);
      var address := start;
      ghost var n := start / PAGE_SIZE;
      while address < end
        invariant Valid() && address == n * PAGE_SIZE && start <= address <= end
        invariant Free() == old(Free()) - Below(pages, n)
      {
        var page := address / PAGE_SIZE;
        Take(page);
        assert page == n && Below(pages, n + 1) == Below(pages, n) + {n};
        address, n := address + PAGE_SIZE, n + 1;
      }
      assert Below(pages, n) == pages;
    }

    /** One memory-map tag of pmm_init: free every whole frame of every available entry. */
    method FreeEntries(info: seq<byte>, start: nat, end: nat, step: nat)
      requires Valid() && totalPages == MAX_PAGES && EntriesReadable(info, start, end, step)
      modifies this`freePages, bitmap
      ensures Valid()
      ensures Free() == old(Free()) + AvailablePages(Entries(info, start, end, step))
    {
      hide ClearBits, UsedBit, Counted, AvailablePages, Number;
      NoRegions();
      ghost var all := AvailablePages(Entries(info, start, end, step));
      var at := start;
      while at < end
        invariant Valid() && EntriesReadable(info, at, end, step)
        invariant old(Free()) + all == Free() + AvailablePages(Entries(info, at, end, step))
        decreases end - at
      {
        AvailableOfConcat([RegionAt(info, at)], Entries(info, at + step, end, step));
        AvailableOfOne(RegionAt(info, at));
        if Number(info, at + 16, 4) == MEMORY_AVAILABLE {
          MarkRangeFree(Number(info, at, 8), Number(info, at + 8, 8));
        }
        at := at + step;
      }
    }

    /** pmm_init: whatever the order or overlap of the regions, a frame ends up free if and only if it lies
        wholly inside one available region and touches nothing that is reserved. */
    method Init(info: seq<byte>, infoBase: nat, kernelStart: nat, kernelEnd: nat, fbBase: nat, fbSize: nat)
      requires bitmap.Length == BITMAP_SIZE
      requires kernelStart <= kernelEnd && 8 <= |info| && Readable(info, 8, Number(info, 0, 4))
      modifies this, bitmap
      ensures Valid() && totalPages == MAX_PAGES
      ensures Free() == AvailablePages(BootRegions(info)) - TouchedPages(0, 0x10_0000)
                        - TouchedPages(kernelStart, kernelEnd - kernelStart)
                        - TouchedPages(infoBase, Number(info, 0, 4)) - TouchedPages(fbBase, fbSize)
      ensures 0 !in Free()
    {
      hide ClearBits, UsedBit, Counted, AvailablePages, TouchedPages, Number, Entries, Step8;
      FillUsed();
      NoRegions();
      var ptr := 8;
      var end := Number(info, 0, 4);
      while ptr < end && Number(info, ptr, 4) != TAG_END
        invariant Valid() && totalPages == MAX_PAGES && Readable(info, ptr, end)
        invariant AvailablePages(BootRegions(info)) == Free() + AvailablePages(Regions(info, ptr, end))
        decreases end - ptr
      {
        var size := Number(info, ptr + 4, 4);
        AvailableOfConcat(TagRegions(info, ptr), Regions(info, ptr + Step8(size), end));
        if Number(info, ptr, 4) == TAG_MMAP {
          FreeEntries(info, ptr + 16, ptr + size, Number(info, ptr + 8, 4));
        }
        ptr := ptr + Step8(size);
      }
      MarkRangeUsed(0, 0x10_0000);
      FrameZeroReserved();
      MarkRangeUsed(kernelStart, kernelEnd - kernelStart);
      MarkRangeUsed(infoBase, end);
      MarkRangeUsed(fbBase, fbSize);
    }

    /** The first loop of pmm_init: every frame starts used. */
    method FillUsed()
      requires bitmap.Length == BITMAP_SIZE
      modifies this, bitmap
      ensures Valid() && totalPages == MAX_PAGES && Free() == {}
    {
      var i := 0;
      while i < BITMAP_SIZE
        invariant 0 <= i <= BITMAP_SIZE
        invariant forall k :: 0 <= k < i ==> bitmap[k] == 0xFF
      {
        bitmap[i] := 0xFF;
        i := i + 1;
      }
      totalPages := MAX_PAGES;
      freePages := 0;
      NoClearBits(bitmap[..], totalPages);
    }

    /** The lowest free frame, or 0 when there is none. */
    method AllocPage() returns (address: nat)
      requires Valid()
      modifies this`freePages, bitmap
      ensures Valid()
      ensures old(Free()) == {} <==> old(freePages) == 0
      ensures old(Free()) == {} ==> address == 0 && Free() == {} && freePages == 0
      ensures old(Free()) != {} ==>
                && address % PAGE_SIZE == 0
                && address / PAGE_SIZE in old(Free())
                && (forall q: nat :: q < address / PAGE_SIZE ==> q !in old(Free()))
                && Free() == old(Free()) - {address / PAGE_SIZE}
                && freePages == old(freePages) - 1
    {
      hide ClearBits, UsedBit;
      var page := 0;
      while page < totalPages
        invariant 0 <= page <= totalPages && Valid() && Free() == old(Free())
        invariant forall q: nat :: q < page ==> q !in Free()
      {
        var used := PageIsUsed(page);
        if !used {
          PageMarkUsed(page);
          freePages := freePages - 1;
          return page * PAGE_SIZE;
        }
        page := page + 1;
      }
      return 0;
    }

    /** Frees a used frame; zero, unaligned and out-of-range addresses are ignored. */
    method FreePage(address: nat)
      requires Valid() && totalPages == MAX_PAGES
      modifies this`freePages, bitmap
      ensures Valid()
      ensures Free() == if 0 < address < MAX_PHYSICAL_MEMORY && address % PAGE_SIZE == 0
                        then old(Free()) + {address / PAGE_SIZE} else old(Free())
    {
      hide ClearBits, UsedBit;
      if address == 0 || address >= MAX_PHYSICAL_MEMORY || address % PAGE_SIZE != 0 {
        return;
      }
      var page := address / PAGE_SIZE;
      Release(page);
    }

    /** First fit over runs of free frames. */
    method AllocPages(count: nat) returns (address: nat)
      requires Valid()
      modifies this`freePages, bitmap
      ensures Valid()
      ensures count == 0 || !HasRun(old(Free()), count) ==> address == 0 && Free() == old(Free())
      ensures count > 0 && HasRun(old(Free()), count) ==>
                && address % PAGE_SIZE == 0
                && IsFirstFit(old(Free()), address / PAGE_SIZE, count)
                && Free() == Without(old(Free()), address / PAGE_SIZE, count)
    {
      hide ClearBits, UsedBit;
      if count == 0 {
        return 0;
      }
      if count > freePages {
        if HasRun(Free(), count) {
          RunNeedsThatMany(Free(), count);
        }
        return 0;
      }
      var consecutive := 0;
      var startPage := 0;
      var page := 0;
      while page < totalPages
        invariant 0 <= page <= totalPages && 0 <= consecutive <= page && consecutive < count
        invariant Valid() && Free() == old(Free())
        invariant consecutive > 0 ==> startPage == page - consecutive
        invariant RunFree(Free(), page - consecutive, consecutive)
        invariant page - consecutive > 0 ==> page - consecutive - 1 !in Free()
        invariant forall s: nat :: s < page - consecutive ==> !RunFree(Free(), s, count)
      {
        var used := PageIsUsed(page);
        if !used {
          if consecutive == 0 {
            startPage := page;
          }
          consecutive := consecutive + 1;
          if consecutive == count {
            TakeRun(startPage, count);
            return startPage * PAGE_SIZE;
          }
        } else {
          forall s: nat | page - consecutive <= s < page + 1
            ensures !RunFree(Free(), s, count)
          {
            assert s <= page < s + count;
          }
          consecutive := 0;
        }
        page := page + 1;
      }
      forall s: nat
        ensures !RunFree(Free(), s, count)
      {
        if s >= page - consecutive {
          assert s + count - 1 !in Free();
        }
      }
      return 0;
    }

    /** The marking loop of pmm_alloc_pages. */
    method TakeRun(startPage: nat, count: nat)
      requires Valid() && RunFree(Free(), startPage, count)
      modifies this`freePages, bitmap
      ensures Valid() && Free() == Without(old(Free()), startPage, count)
    {
      hide ClearBits, UsedBit;
      WithoutSize(Free(), startPage, count);
      assert count > 0 ==> startPage + (count - 1) in Free();
      var i := 0;
      while i < count
        invariant 0 <= i <= count && freePages == old(freePages) && (i < count ==> startPage + i < totalPages)
        invariant Free() == Without(old(Free()), startPage, i)
      {
        assert Without(old(Free()), startPage, i + 1) == Without(old(Free()), startPage, i) - {startPage + i};
        PageMarkUsed(startPage + i);
        i := i + 1;
        assert i < count ==> startPage + i in old(Free());
      }
      freePages := freePages - count;
    }
  }
}
