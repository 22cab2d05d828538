/** The heap and the page tables on one page allocator: who owns which page. */
module Memory {
  import opened Common
  import opened PageTables
  import Heap
  import Pmm
  import Vmm

  /** The free pages of an address space may change behind its back, as long as no table is among them. */
  lemma OtherFreePages(s: Vmm.Space, free: set<nat>)
    requires s.Inv() && s.tbl.Values !! free && forall p <- free :: p < |s.mem|
    ensures s.(free := free).Inv() && s.(free := free).Translation() == s.Translation()
  {
    hide Tree, Placed, NonEmpty, Flat;
  }

  lemma TablesNotFree(s: Vmm.Space)
    requires s.Inv()
    ensures s.tbl.Values !! s.free
  {
  }

  class Memory {
    const pmm: Pmm.PageAllocator
    const heap: Heap.Allocator
    const vm: Vmm.AddressSpace

    /** Free pages, tables and heap blocks have no page in common. */
    ghost predicate Apart()
      reads this, heap, vm, pmm, pmm.bitmap
    {
      && vm.space.tbl.Values !! Heap.Held(heap.live)
      && vm.space.tbl.Values !! pmm.Free()
      && Heap.Held(heap.live) !! pmm.Free()
    }

    ghost predicate Valid()
      reads this, heap, heap.mem, vm, vm.frames, pmm, pmm.bitmap
    {
      && heap.pmm == pmm && vm.pmm == pmm && heap.Valid() && vm.Valid()
      && Apart()
    }

    /** All pages that have an owner or are free. */
    ghost function Total(): set<nat>
      reads this, heap, vm, pmm, pmm.bitmap
    {
      pmm.Free() + vm.space.tbl.Values + Heap.Held(heap.live)
    }

    constructor (heap: Heap.Allocator, vm: Vmm.AddressSpace)
      requires heap.Valid() && vm.Valid() && heap.pmm == vm.pmm
      requires vm.space.tbl.Values !! Heap.Held(heap.live)
      ensures Valid() && this.heap == heap && this.vm == vm
    {
      this.heap, this.vm, this.pmm := heap, vm, vm.pmm;
      new;
      Pmm.FreeBelow(pmm.bitmap[..]);
      hide Pmm.FreeSet, Heap.Held, Heap.Apart, Tree, Placed, NonEmpty, Flat;
    }

    /** kmalloc leaves the translation and the tables alone. */
    method Allocate(size: nat) returns (r: Option<nat>)
      requires Valid() && Pmm.SearchInside(pmm.Free(), pmm.Limit(), NumPages(size) + 1)
      modifies heap, vm, pmm`freeMem, pmm.bitmap
      ensures Valid() && Total() == old(Total())
      ensures vm.space.tbl == old(vm.space.tbl) && vm.space.Translation() == old(vm.space.Translation())
      ensures r.None? ==> heap.live == old(heap.live)
      ensures r.Some? ==> Heap.Allocated(old(heap.live), heap.live, r.value, size)
    {
      hide Pmm.FreeSet, Pmm.SearchInside, Heap.Held, Heap.Apart, Heap.Recorded,
           Vmm.Space.Building, Vmm.Space.Translation;
      ghost var s := vm.space;
      r := heap.Alloc(size);
      HeapMoved(s);
    }

    /** kmfree does so, too. */
    method Release(addr: nat, ghost p: nat)
      requires Valid() && p in heap.live && addr == Heap.Address(p)
      modifies heap, vm, pmm`freeMem, pmm.bitmap
      ensures Valid() && Total() == old(Total())
      ensures vm.space.tbl == old(vm.space.tbl) && vm.space.Translation() == old(vm.space.Translation())
      ensures heap.live == old(heap.live) - {p}
    {
      hide Pmm.FreeSet, Heap.Held, Heap.Apart, Heap.Recorded, Heap.Address, Vmm.Space.Building, Vmm.Space.Translation;
      ghost var s := vm.space;
      heap.Free(addr, p);
      HeapMoved(s);
    }

    /** And so does kmrealloc, wherever the block goes. */
    method Reallocate(addr: nat, size: nat, ghost p: nat) returns (r: Option<nat>)
      requires Valid() && p in heap.live && addr == Heap.Address(p)
      requires NumPages(heap.live[p]) != NumPages(size) ==>
                 Pmm.SearchInside(pmm.Free(), pmm.Limit(), NumPages(size) + 1)
      modifies heap, heap.mem, vm, pmm`freeMem, pmm.bitmap
      ensures Valid() && Total() == old(Total())
      ensures vm.space.tbl == old(vm.space.tbl) && vm.space.Translation() == old(vm.space.Translation())
      ensures r.None? ==> heap.live == old(heap.live)
      ensures r.Some? ==> Heap.Reallocated(old(heap.live), heap.live, old(heap.mem[..]), heap.mem[..], p, r.value, size)
    {
      hide Pmm.FreeSet, Pmm.SearchInside, Heap.Held, Heap.Apart, Heap.Recorded, Heap.Address, Heap.Reallocated,
           Vmm.Space.Building, Vmm.Space.Translation;
      ghost var s := vm.space;
      r := heap.Realloc(addr, size, p);
      HeapMoved(s);
    }

    /** After a heap call the address space takes note of the free pages. */
    ghost method HeapMoved(s: Vmm.Space)
      requires heap.pmm == pmm && vm.pmm == pmm && heap.Valid() && s == vm.space && s.Inv()
      requires vm.frames.Length == pmm.Limit() && vm.frames[..] == s.mem && Root in s.tbl && s.tbl[Root] == vm.pml4
      requires s.tbl.Values !! heap.stock
      modifies vm`space
      ensures Valid() && vm.space == s.(free := pmm.Free()) && vm.space.Translation() == s.Translation()
    {
      hide Pmm.FreeSet, Heap.Held, Heap.Apart, Heap.Recorded,
           Vmm.Space.Building, Vmm.Space.Translation;
      OtherFreePages(s, pmm.Free());
      vm.Adopt();
    }

    /** vmm_map leaves every heap block where it is, with its bytes. */
    method Map(vaddr: nat, paddr: nat, np: nat, flags: nat) returns (ok: bool)
      requires Valid() && Vmm.LeafFlags(flags)
      requires paddr + np * PAGE_SIZE <= WORDS && Vmm.VPage(vaddr) + np <= VPAGES
      modifies heap, vm, vm.frames, pmm`freeMem, pmm.bitmap
      ensures !ok ==> pmm.Free() == {}
      ensures ok ==>
                && Valid() && Total() == old(Total()) && heap.live == old(heap.live)
                && Vmm.Mapping(old(vm.space), vm.space, Vmm.VPage(vaddr), paddr / PAGE_SIZE, np, flags)
      ensures ok ==> forall q <- Heap.Held(heap.live) :: q < |vm.space.mem| && vm.space.mem[q] == old(vm.space.mem)[q]
    {
      hide Pmm.FreeSet, Heap.Held, Heap.Apart, Heap.Recorded,
           Vmm.Space.Building, Vmm.Space.Translation;
      hide Vmm.VPage, Vmm.MapRange;
      ghost var s := vm.space;
      ok := vm.MapPages(vaddr, paddr, np, flags);
      if ok {
        PagingMoved(s, vm.space);
      }
    }

    /** So does vmm_unmap. */
    method Unmap(vaddr: nat, np: nat)
      requires Valid() && Vmm.VPage(vaddr) + np <= VPAGES
      modifies heap, vm, vm.frames, pmm`freeMem, pmm.bitmap
      ensures Valid() && Total() == old(Total()) && heap.live == old(heap.live)
      ensures Vmm.Unmapping(old(vm.space), vm.space, Vmm.VPage(vaddr), np)
      ensures forall q <- Heap.Held(heap.live) :: q < |vm.space.mem| && vm.space.mem[q] == old(vm.space.mem)[q]
    {
      hide Pmm.FreeSet, Heap.Held, Heap.Apart, Heap.Recorded,
           Vmm.Space.Building, Vmm.Space.Translation;
      hide Vmm.VPage, Vmm.UnmapRange;
      ghost var s := vm.space;
      vm.UnmapPages(vaddr, np);
      PagingMoved(s, vm.space);
    }

    /** After a paging call the heap takes note of the free pages. */
    ghost method PagingMoved(s: Vmm.Space, t: Vmm.Space)
      requires heap.pmm == pmm && vm.pmm == pmm && vm.Valid() && t == vm.space && t.Stock() == s.Stock()
      requires heap.mem.Length == pmm.Limit() * PAGE_SIZE && Heap.Recorded(heap.headers, heap.live)
      requires Heap.Apart(heap.live) && Heap.Held(heap.live) !! s.Stock()
      requires forall q <- Heap.Held(heap.live) :: q < pmm.Limit()
      modifies heap`stock
      ensures Valid() && heap.live == old(heap.live)
    {
      hide Pmm.FreeSet, Heap.Held, Heap.Apart, Heap.Recorded,
           Vmm.Space.Building, Vmm.Space.Translation;
      assert vm.space.tbl.Values <= t.Stock() && vm.space.free == pmm.Free();
      heap.Adopt();
      assert vm.space.tbl.Values !! pmm.Free() by {
        TablesNotFree(t);
      }
    }
  }
}
