/** The heap and the page tables over one frame allocator: neither ever touches the other's frames. */
module KernelMemory {
  import opened LittleEndian
  import opened Words
  import opened FrameSets
  import opened FrameAllocators
  import opened Heap
  import opened PageTables
  import opened MapSteps
  import opened MapLaws
  import opened Vmm

  /** No table lies in a live heap block. */
  ghost predicate Apart(allocs: map<nat, nat>, tables: set<nat>) {
    forall s, p: nat :: Covers(allocs, s, p) ==> p !in tables
  }

  ghost predicate AllIntact(m: seq<u64>, allocs: map<nat, nat>) {
    forall s :: s in allocs ==> HeaderIntact(m, s, allocs[s])
  }

  /** A new heap block holds no table: its frames were free. */
  lemma BlockApart(allocs: map<nat, nat>, tables: set<nat>, free: set<nat>, s: nat, count: nat)
    requires Apart(allocs, tables) && tables !! free && RunFree(free, s, count)
    ensures Apart(allocs[s := count], tables) && tables !! Without(free, s, count)
  {
    var after := allocs[s := count];
    forall t, p: nat | Covers(after, t, p)
      ensures p !in tables
    {
      if t != s {
        assert Covers(allocs, t, p);
      }
    }
  }

  /** The frames of a freed block are no tables. */
  lemma FreedApart(allocs: map<nat, nat>, tables: set<nat>, free: set<nat>, s: nat)
    requires Apart(allocs, tables) && tables !! free && s in allocs
    ensures Apart(allocs - {s}, tables) && tables !! With(free, s, allocs[s])
  {
    var after := allocs - {s};
    forall t, p: nat | Covers(after, t, p)
      ensures p !in tables
    {
      assert Covers(allocs, t, p);
    }
    forall p | p in tables
      ensures p !in With(free, s, allocs[s])
    {
      WithMeaning(free, s, allocs[s], p);
      if s <= p < s + allocs[s] {
        assert Covers(allocs, s, p);
      }
    }
  }

  /** New tables lie in no heap block, and blocks hold no free frame still. */
  lemma TablesApart(allocs: map<nat, nat>, tables: set<nat>, tables': set<nat>, free: set<nat>, free': set<nat>)
    requires Apart(allocs, tables) && Disjoint(allocs, free) && free' + tables' == free + tables && tables' !! free'
    ensures Apart(allocs, tables') && Disjoint(allocs, free')
  {
    forall s, p: nat | Covers(allocs, s, p)
      ensures p !in tables' && p !in free'
    {
      assert p !in free && p !in tables;
      assert p !in free' + tables';
    }
  }

  lemma HeadersStay(m: seq<u64>, n: seq<u64>, allocs: map<nat, nat>, s: nat, pages: nat)
    requires AllIntact(m, allocs) && s !in allocs && OnlyHeaderChanged(m, n, s) && HeaderIntact(n, s, pages)
    ensures AllIntact(n, allocs[s := pages])
  {
    forall t | t in allocs
      ensures HeaderIntact(n, t, allocs[t])
    {
      OtherHeadersStay(m, n, s, t, allocs[t]);
    }
  }

  class Kernel {
    const heap: KernelHeap
    const spaces: AddressSpaces

    ghost predicate Valid()
      reads this, heap, heap.mem, heap.pmm, heap.pmm.bitmap, spaces, spaces.mem, spaces.pmm, spaces.pmm.bitmap
    {
      && heap.pmm == spaces.pmm && heap.mem as object != spaces.mem
      && heap.Valid() && spaces.Valid()
      && Apart(heap.allocs, spaces.roles.Keys) && AllIntact(heap.mem[..], heap.allocs)
    }

    /** Neither has anything yet. */
    constructor (heap: KernelHeap, spaces: AddressSpaces)
      requires heap.Valid() && spaces.Valid() && heap.pmm == spaces.pmm && heap.mem as object != spaces.mem
      requires heap.allocs == map[]
      ensures Valid() && this.heap == heap && this.spaces == spaces
    {
      this.heap := heap;
      this.spaces := spaces;
    }

    /** kmalloc leaves every table, and so every translation, as it is. */
    method Kmalloc(size: u64) returns (ptr: nat)
      requires Valid()
      modifies heap`heapUsed, heap`heapTotal, heap`allocs, heap.pmm`freePages, heap.pmm.bitmap, heap.mem
      ensures Valid() && spaces.mem[..] == old(spaces.mem[..])
      ensures ptr == 0 ==> heap.allocs == old(heap.allocs)
      ensures ptr != 0 ==>
                && BlockOf(ptr) !in old(heap.allocs)
                && heap.allocs == old(heap.allocs)[BlockOf(ptr) := PagesFor(size)]
    {
      hide FrameAllocator.Free, FrameAllocator.Counted, WellFormed, Disjoint, Apart, AllIntact, Without, HeaderIntact;
      hide OnlyHeaderChanged, PagesFor, OwnedCount, Bytes, BlockOf, HasRun;
      ghost var allocs, free, m := heap.allocs, heap.pmm.Free(), heap.mem[..];
      ptr := heap.Kmalloc(size);
      if ptr != 0 {
        BlockApart(allocs, spaces.roles.Keys, free, BlockOf(ptr), PagesFor(size));
        HeadersStay(m, heap.mem[..], allocs, BlockOf(ptr), PagesFor(size));
      }
    }

    /** kfree of a live block, or of the null pointer: the headers of live blocks are all intact. */
    method Kfree(ptr: nat)
      requires Valid()
      requires ptr != 0 ==> BlockOf(ptr) in heap.allocs && ptr == BlockOf(ptr) * PAGE_SIZE + HEADER_SIZE
      modifies heap`heapUsed, heap`allocs, heap.pmm`freePages, heap.pmm.bitmap, heap.mem
      ensures Valid() && spaces.mem[..] == old(spaces.mem[..])
      ensures heap.allocs == if ptr == 0 then old(heap.allocs) else old(heap.allocs) - {BlockOf(ptr)}
    {
      hide FrameAllocator.Free, FrameAllocator.Counted, WellFormed, Apart, With, OwnedCount, Bytes, BlockOf;
      ghost var allocs, free, m := heap.allocs, heap.pmm.Free(), heap.mem[..];
      if ptr != 0 {
        BlockInMemory(allocs, free, BlockOf(ptr));
      }
      hide Disjoint;
      heap.Kfree(ptr);
      if ptr != 0 {
        FreedApart(allocs, spaces.roles.Keys, free, BlockOf(ptr));
      }
      assert forall t :: t in heap.allocs ==> HeaderIntact(m, t, allocs[t]);
    }

    /** map_page_in leaves every heap block and every header as they are. */
    method MapPageIn(pml4: nat, va: Word, pa: Word, flags: Word) returns (result: int)
      requires Valid() && pml4 in spaces.roles && spaces.roles[pml4].Pml4?
      modifies spaces`roles, spaces.pmm`freePages, spaces.pmm.bitmap, spaces.mem
      ensures Valid() && heap.mem[..] == old(heap.mem[..])
      ensures result == old(MapResult(spaces.mem[..], pml4, va, pa, spaces.pmm.freePages))
      ensures MapEffect(old(spaces.mem[..]), spaces.mem[..], old(spaces.roles), spaces.roles,
                        old(spaces.pmm.Free()), spaces.pmm.Free(), pml4, va, pa, flags, result)
    {
      hide FrameAllocator.Free, FrameAllocator.Counted, WellFormed, Disjoint, Apart, AllIntact, MapResult, OwnedCount;
      ghost var roles, free := spaces.roles, spaces.pmm.Free();
      result := spaces.MapPageIn(pml4, va, pa, flags);
      FramesConserved(roles, spaces.roles, free, spaces.pmm.Free());
      TablesApart(heap.allocs, roles.Keys, spaces.roles.Keys, free, spaces.pmm.Free());
    }

    /** vmm_create_user_space does too. */
    method CreateUserSpace(fbAddr: nat, fbSize: nat) returns (user: nat, ghost root: nat)
      requires Valid() && spaces.kernelPml4 in spaces.roles && spaces.roles[spaces.kernelPml4].Pml4?
      requires fbAddr + fbSize + 2 * PAGE_SIZE <= 0x1_0000_0000_0000_0000
      modifies spaces`roles, spaces.pmm`freePages, spaces.pmm.bitmap, spaces.mem
      ensures Valid() && heap.mem[..] == old(heap.mem[..]) && (user == root || user == 0)
    {
      hide FrameAllocator.Free, FrameAllocator.Counted, WellFormed, Disjoint, Apart, AllIntact, OwnedCount;
      ghost var roles, free := spaces.roles, spaces.pmm.Free();
      user, root := spaces.CreateUserSpace(fbAddr, fbSize);
      if root != 0 {
        TablesApart(heap.allocs, roles.Keys, spaces.roles.Keys, free, spaces.pmm.Free());
      }
    }
  }
}
