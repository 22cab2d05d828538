/** kmalloc, kmfree and kmrealloc: page-aligned blocks, each behind a page that holds its header. */
module Heap {
  import opened Common
  import Pmm

  type Byte = bv8

  /** struct metadata, in the page before the block. */
  datatype Header = Header(numPages: nat, size: nat)

  /** The live blocks: the page of the header and the size asked for. */
  type Blocks = map<nat, nat>

  /** The headers in memory describe the live blocks. */
  ghost predicate Recorded(headers: map<nat, Header>, live: Blocks) {
    forall p <- live :: p in headers && headers[p] == Header(NumPages(live[p]), live[p])
  }

  lemma RecordBlock(headers: map<nat, Header>, live: Blocks, p: nat, size: nat)
    requires Recorded(headers, live)
    ensures Recorded(headers[p := Header(NumPages(size), size)], live[p := size])
    ensures Recorded(headers, live - {p})
  {
    hide NumPages;
  }

  lemma Lookup(headers: map<nat, Header>, live: Blocks, p: nat)
    requires Recorded(headers, live) && p in live
    ensures p in headers && headers[p] == Header(NumPages(live[p]), live[p])
  {
  }

  /** The pages of a block and its header. */
  ghost function Extent(p: nat, size: nat): set<nat> { Range(p, NumPages(size) + 1) }

  /** All pages held by live blocks. */
  ghost function Held(live: Blocks): set<nat> {
    set p, q | p in live && q in Extent(p, live[p]) :: q
  }

  ghost predicate Apart(live: Blocks) {
    forall p <- live, q <- live :: p != q ==> Extent(p, live[p]) !! Extent(q, live[q])
  }

  /** Blocks apart from each other and from the free pages; together they are the stock. */
  ghost predicate Owned(live: Blocks, free: set<nat>, stock: set<nat>) {
    Apart(live) && Held(live) !! free && Held(live) + free == stock
  }

  lemma ExtentIs(p: nat, size: nat)
    ensures Extent(p, size) == Range(p, NumPages(size) + 1)
  {
  }

  lemma ExtentHasHeader(p: nat, size: nat)
    ensures p in Extent(p, size)
  {
  }

  lemma HeaderHeld(live: Blocks, p: nat)
    ensures p in live ==> p in Held(live)
  {
    if p in live {
      ExtentHasHeader(p, live[p]);
    }
  }

  /** A block carved out of free pages lies apart from all others. */
  lemma AddBlock(live: Blocks, free: set<nat>, p: nat, size: nat)
    requires Apart(live) && Held(live) !! free && Extent(p, size) <= free
    ensures p !in live && Apart(live[p := size])
    ensures Held(live[p := size]) == Held(live) + Extent(p, size)
    ensures Held(live[p := size]) !! free - Extent(p, size)
    ensures Held(live[p := size]) + (free - Extent(p, size)) == Held(live) + free
  {
    ExtentHasHeader(p, size);
    assert p !in Held(live);
    HeaderHeld(live, p);
    var more := live[p := size];
    forall q <- live
      ensures Extent(q, live[q]) !! Extent(p, size)
    {
      assert Extent(q, live[q]) <= Held(live);
    }
    forall x
      ensures x in Held(more) <==> x in Held(live) + Extent(p, size)
    {
      if x in Held(live) {
        var q :| q in live && x in Extent(q, live[q]);
        assert q in more && x in Extent(q, more[q]);
      }
      if x in Extent(p, size) {
        assert p in more && x in Extent(p, more[p]);
      }
    }
  }

  /** A block taken away gives back exactly its own pages. */
  lemma DropBlock(live: Blocks, free: set<nat>, p: nat)
    requires Apart(live) && Held(live) !! free && p in live
    ensures Apart(live - {p}) && Held(live - {p}) == Held(live) - Extent(p, live[p])
    ensures Held(live - {p}) !! free + Extent(p, live[p])
    ensures Held(live - {p}) + (free + Extent(p, live[p])) == Held(live) + free
  {
    var less := live - {p};
    forall x
      ensures x in Held(less) <==> x in Held(live) && x !in Extent(p, live[p])
    {
      if x in Held(live) && x !in Extent(p, live[p]) {
        var q :| q in live && x in Extent(q, live[q]);
        assert q in less && x in Extent(q, less[q]);
      }
      if x in Held(less) {
        var q :| q in less && x in Extent(q, less[q]);
        assert q in live && x in Extent(q, live[q]);
      }
    }
    assert Extent(p, live[p]) <= Held(live);
  }

  lemma AddOwned(live: Blocks, free: set<nat>, stock: set<nat>, p: nat, size: nat)
    requires Owned(live, free, stock) && Pmm.Fits(free, p, NumPages(size) + 1)
    ensures p !in live && Owned(live[p := size], free - Extent(p, size), stock)
  {
    hide Apart, Held, Range, NumPages;
    AddBlock(live, free, p, size);
  }

  lemma DropOwned(live: Blocks, free: set<nat>, stock: set<nat>, p: nat)
    requires Owned(live, free, stock) && p in live
    ensures Owned(live - {p}, free + Extent(p, live[p]), stock)
  {
    hide Apart, Held, Range, NumPages;
    DropBlock(live, free, p);
  }

  /** A block that keeps its number of pages may change its size in place. */
  lemma ResizeBlock(live: Blocks, p: nat, size: nat)
    requires p in live && NumPages(live[p]) == NumPages(size)
    ensures Apart(live) ==> Apart(live[p := size])
    ensures Held(live[p := size]) == Held(live)
  {
    var next := live[p := size];
    assert forall q <- live :: Extent(q, next[q]) == Extent(q, live[q]);
  }

  /** The bytes of a block: it starts one page after its header. */
  function Address(p: nat): nat { (p + 1) * PAGE_SIZE }

  /** The page of the header of the block at addr. */
  function HeaderPage(addr: nat): nat {
    if addr < PAGE_SIZE then 0 else (addr - PAGE_SIZE) / PAGE_SIZE
  }

  lemma PageBlock(start: nat)
    requires start % PAGE_SIZE == 0
    ensures start + PAGE_SIZE == Address(start / PAGE_SIZE)
    ensures HeaderPage(start + PAGE_SIZE) == start / PAGE_SIZE
  {
  }

  lemma HeaderOf(p: nat)
    ensures Address(p) >= PAGE_SIZE && HeaderPage(Address(p)) == (Address(p) - PAGE_SIZE) / PAGE_SIZE == p
  {
  }

  lemma BytesInside(p: nat, size: nat, limit: nat)
    requires forall q <- Extent(p, size) :: q < limit
    ensures Address(p) + size <= limit * PAGE_SIZE
  {
    assert p + NumPages(size) in Extent(p, size);
  }

  /** The bytes of a block begin at a page, lie in its pages, and none of them is in the page of its header. */
  lemma BytesBehindHeader(p: nat, size: nat, a: nat)
    requires Address(p) <= a < Address(p) + size
    ensures Address(p) % PAGE_SIZE == 0 && p in Extent(p, size) && a / PAGE_SIZE in Extent(p, size) - {p}
  {
    assert a / PAGE_SIZE <= p + NumPages(size);
    assert AtLeast(a / PAGE_SIZE, p) && AtLeast(p, p);
  }

  /** Blocks on disjoint pages share no byte. */
  lemma BytesApart(p: nat, n: nat, q: nat, m: nat)
    requires Extent(p, n) !! Extent(q, m)
    ensures Address(p) + n <= Address(q) || Address(q) + m <= Address(p)
  {
    assert p in Extent(p, n) && q in Extent(q, m);
    if p < q {
      assert q !in Extent(p, n);
    } else {
      assert p !in Extent(q, m);
    }
  }

  /** The size bytes from addr on begin at a page and lie in the pages taken, outside of the header's. */
  ghost predicate InTaken(addr: nat, size: nat, taken: set<nat>, header: nat) {
    && addr % PAGE_SIZE == 0 && header in taken
    && forall a: nat {:trigger a / PAGE_SIZE} | addr <= a < addr + size ::
         a / PAGE_SIZE in taken && a / PAGE_SIZE != header
  }

  lemma TakenFor(p: nat, size: nat, free: set<nat>)
    requires Pmm.Fits(free, p, NumPages(size) + 1)
    ensures InTaken(Address(p), size, free - (free - Extent(p, size)), p)
  {
    ExtentHasHeader(p, size);
    forall a: nat {:trigger a / PAGE_SIZE} | Address(p) <= a < Address(p) + size
      ensures a / PAGE_SIZE in Extent(p, size) && a / PAGE_SIZE != p
    {
      BytesBehindHeader(p, size, a);
    }
    hide Range;
  }

  class Allocator {
    const pmm: Pmm.PageAllocator
    const mem: array<Byte>
    var headers: map<nat, Header>
    ghost var live: Blocks
    /** Every page that is free or held by a block. */
    ghost var stock: set<nat>

    ghost predicate Valid()
      reads this, mem, pmm, pmm.bitmap
    {
      && pmm.Valid()
      && mem.Length == pmm.Limit() * PAGE_SIZE
      && Owned(live, pmm.Free(), stock)
      && (forall q <- stock :: q < pmm.Limit())
      && Recorded(headers, live)
    }

    /** The contents of the block at p. */
    ghost function Block(p: nat, size: nat): seq<Byte>
      reads this, mem
      requires Address(p) + size <= mem.Length
    {
      mem[Address(p)..Address(p) + size]
    }

    lemma BlockInside(p: nat)
      requires Valid() && p in live
      ensures Address(p) + live[p] <= mem.Length
    {
      assert Extent(p, live[p]) <= Held(live) <= stock;
      BytesInside(p, live[p], pmm.Limit());
    }

    constructor (pmm: Pmm.PageAllocator, mem: array<Byte>)
      requires pmm.Valid() && mem.Length == pmm.Limit() * PAGE_SIZE
      ensures Valid() && live == map[] && stock == pmm.Free() && this.pmm == pmm && this.mem == mem
    {
      this.pmm, this.mem := pmm, mem;
      headers, live := map[], map[];
      stock := pmm.Free();
      new;
      Pmm.FreeBelow(pmm.bitmap[..]);
    }

    /** Someone else has taken free pages or given pages back: the stock is what is left. */
    ghost method Adopt()
      requires pmm.Valid() && mem.Length == pmm.Limit() * PAGE_SIZE && Recorded(headers, live)
      requires Apart(live) && Held(live) !! pmm.Free() && forall q <- Held(live) :: q < pmm.Limit()
      modifies this`stock
      ensures Valid() && stock == Held(live) + pmm.Free()
    {
      hide Pmm.FreeSet, Held, Apart, Recorded;
      Pmm.FreeBelow(pmm.bitmap[..]);
      stock := Held(live) + pmm.Free();
    }

    /** kmalloc: the address of the block, or None where the page allocator panics. */
    method Alloc(size: nat) returns (r: Option<nat>)
      requires Valid() && Pmm.SearchInside(pmm.Free(), pmm.Limit(), NumPages(size) + 1)
      modifies this, pmm`freeMem, pmm.bitmap
      ensures stock == old(stock)
      ensures Valid()
      ensures r.None? ==> live == old(live) && !Pmm.HasRun(old(pmm.Free()), pmm.Limit(), NumPages(size) + 1)
      ensures r.Some? ==> Allocated(old(live), live, r.value, size)
      ensures r.Some? ==> pmm.Free() == old(pmm.Free()) - Extent(HeaderPage(r.value), size)
      ensures r.Some? ==> Pmm.IsFirstFit(old(pmm.Free()), pmm.Limit(), NumPages(size) + 1, HeaderPage(r.value))
      ensures r.Some? ==> InTaken(r.value, size, old(pmm.Free()) - pmm.Free(), HeaderPage(r.value))
    {
      hide Pmm.FreeSet, Owned, Range, Pmm.HasRun, Pmm.SearchInside, Pmm.Fits, NumPages, Address, HeaderPage, Recorded;
      ghost var free := pmm.Free();
      var got := pmm.Get(NumPages(size) + 1);
      if got.None? {
        return None;
      }
      var p := got.value / PAGE_SIZE;
      PageBlock(got.value);
      AddOwned(live, free, stock, p, size);
      RecordBlock(headers, live, p, size);
      headers := headers[p := Header(NumPages(size), size)];
      live := live[p := size];
      r := Some(got.value + PAGE_SIZE);
      TakenFor(p, size, free);
    }

    /** kmfree */
    method Free(addr: nat, ghost p: nat)
      requires Valid() && p in live && addr == Address(p)
      modifies this, pmm`freeMem, pmm.bitmap
      ensures stock == old(stock)
      ensures Valid() && live == old(live) - {p}
      ensures pmm.Free() == old(pmm.Free()) + Extent(p, old(live)[p])
    {
      hide Pmm.FreeSet, Owned, Range, Address, NumPages, HeaderPage, Recorded, Extent;
      ExtentBelow(p);
      ExtentIs(p, live[p]);
      HeaderOf(p);
      Lookup(headers, live, p);
      RecordBlock(headers, live, p, live[p]);
      var h := HeaderPage(addr);
      DropOwned(live, pmm.Free(), stock, p);
      pmm.Release(addr - PAGE_SIZE, headers[h].numPages + 1);
      live := live - {p};
    }

    /** What a caller that frees a block right after allocating it gets back: everything. */
    method AllocThenFree(size: nat) returns (ok: bool)
      requires Valid() && Pmm.SearchInside(pmm.Free(), pmm.Limit(), NumPages(size) + 1)
      modifies this, pmm`freeMem, pmm.bitmap
      ensures stock == old(stock)
      ensures Valid() && live == old(live)
      ensures pmm.Free() == old(pmm.Free()) && pmm.freeMem == old(pmm.freeMem)
      ensures ok <==> Pmm.HasRun(old(pmm.Free()), pmm.Limit(), NumPages(size) + 1)
    {
      hide Pmm.FreeSet, Apart, Held, Range, NumPages, Address, HeaderPage;
      var r := Alloc(size);
      if r.None? {
        return false;
      }
      ghost var p := HeaderPage(r.value);
      Free(r.value, p);
      assert live == old(live);
      return true;
    }

    lemma ExtentBelow(p: nat)
      requires Valid() && p in live
      ensures p + NumPages(live[p]) + 1 <= pmm.Limit()
    {
      assert p + NumPages(live[p]) in Extent(p, live[p]);
      assert Extent(p, live[p]) <= Held(live);
    }

    lemma BlocksApart(p: nat, q: nat)
      requires Valid() && p in live && q in live && p != q
      ensures Address(p) + live[p] <= Address(q) || Address(q) + live[q] <= Address(p)
    {
      BytesApart(p, live[p], q, live[q]);
    }

    /** Where the other live blocks lie, seen from block q. */
    lemma OthersApart(q: nat)
      requires Valid() && q in live
      ensures forall o <- live :: Address(o) + live[o] <= mem.Length
      ensures forall o <- live | o != q ::
                Address(o) + live[o] <= Address(q) || Address(q) + live[q] <= Address(o)
    {
      forall o <- live
        ensures Address(o) + live[o] <= mem.Length
      {
        BlockInside(o);
      }
      forall o <- live | o != q
        ensures Address(o) + live[o] <= Address(q) || Address(q) + live[q] <= Address(o)
      {
        BlocksApart(o, q);
      }
    }

    /** memcpy between two blocks */
    method Copy(src: nat, dst: nat, n: nat)
      requires src + n <= mem.Length && dst + n <= mem.Length
      requires src + n <= dst || dst + n <= src
      modifies mem
      ensures mem[..] == Splice(old(mem[..]), dst, old(mem[..])[src..src + n])
    {
      for i := 0 to n
        invariant mem[dst..dst + i] == old(mem[src..src + i])
        invariant forall j :: 0 <= j < mem.Length && !(dst <= j < dst + i) ==> mem[j] == old(mem[j])
      {
        mem[dst + i] := mem[src + i];
      }
      assert mem[..] == Splice(old(mem[..]), dst, old(mem[..])[src..src + n]);
    }

    /** memcpy of the first n bytes of block p to block q */
    method CopyBlock(src: nat, dst: nat, n: nat, ghost p: nat, ghost q: nat)
      requires Valid() && p in live && q in live && p != q && n <= live[p] && n <= live[q]
      requires src == Address(p) && dst == Address(q)
      modifies mem
      ensures Valid()
      ensures KeptBytes(old(mem[..]), mem[..], p, q, n)
      ensures OthersSame(live, old(mem[..]), mem[..], q)
    {
      hide Pmm.FreeSet, Apart, Held, Range, Address, NumPages, Extent, HeaderPage, OthersSame, KeptBytes, Splice;
      OthersApart(q);
      FrameOthers(live, mem[..], p, q, n);
      Copy(src, dst, n);
    }

    /** kmrealloc of a live block; a null pointer goes to Alloc. None is the panic. */
    method Realloc(addr: nat, size: nat, ghost p: nat) returns (r: Option<nat>)
      requires Valid() && p in live && addr == Address(p)
      requires NumPages(live[p]) != NumPages(size) ==>
                 Pmm.SearchInside(pmm.Free(), pmm.Limit(), NumPages(size) + 1)
      modifies this, mem, pmm`freeMem, pmm.bitmap
      ensures stock == old(stock)
      ensures Valid()
      ensures r.None? ==>
                && live == old(live) && mem[..] == old(mem[..])
                && !Pmm.HasRun(old(pmm.Free()), pmm.Limit(), NumPages(size) + 1)
      ensures r.Some? ==> Reallocated(old(live), live, old(mem[..]), mem[..], p, r.value, size)
    {
      hide Pmm.FreeSet, Apart, Held, Range, Address, NumPages, Extent;
      HeaderOf(p);
      var h := HeaderPage(addr);
      if NumPages(headers[h].size) != NumPages(size) {
        r := Move(addr, size, p);
        return;
      }
      OthersApart(p);
      ResizeBlock(live, p, size);
      MovedHere(live, p, size);
      RecordBlock(headers, live, p, size);
      headers := headers[h := Header(NumPages(size), size)];
      live := Moved(live, p, p, size);
      r := Some(addr);
    }

    /** The second half of kmrealloc: a new block, the bytes copied, the old block freed. */
    method Move(addr: nat, size: nat, ghost p: nat) returns (r: Option<nat>)
      requires Valid() && p in live && addr == Address(p)
      requires Pmm.SearchInside(pmm.Free(), pmm.Limit(), NumPages(size) + 1)
      modifies this, mem, pmm`freeMem, pmm.bitmap
      ensures stock == old(stock)
      ensures Valid()
      ensures r.None? ==>
                && live == old(live) && mem[..] == old(mem[..])
                && !Pmm.HasRun(old(pmm.Free()), pmm.Limit(), NumPages(size) + 1)
      ensures r.Some? ==> Reallocated(old(live), live, old(mem[..]), mem[..], p, r.value, size)
    {
      hide Pmm.FreeSet, Apart, Held, Range, Address, NumPages, Extent, HeaderPage, OthersSame, KeptBytes,
           Reallocated, Moved, Pmm.HasRun, Pmm.SearchInside, Pmm.IsFirstFit;
      HeaderOf(p);
      var old_size := headers[HeaderPage(addr)].size;
      r := Alloc(size);
      if r.None? {
        return;
      }
      ghost var q, before, mid: Blocks := HeaderPage(r.value), mem[..], live;
      assert before == old(mem[..]);
      CopyBlock(addr, r.value, Min(old_size, size), p, q);
      ghost var after := mem[..];
      Free(addr, p);
      assert live == mid - {p} && mem[..] == after;
      MoveDone(old(live), mid, before, after, p, r.value, size);
    }
  }

  /** A new block of `size` bytes at addr. */
  ghost predicate Allocated(live: Blocks, after: Blocks, addr: nat, size: nat) {
    IsBlock(addr) && HeaderPage(addr) !in live && after == live[HeaderPage(addr) := size]
  }

  /** Block p is now the block at addr, of the new size, with the bytes both sizes have room for; the
      other blocks and their bytes are what they were. */
  ghost predicate Reallocated(
    live: Blocks, after: Blocks, mem: seq<Byte>, now: seq<Byte>, p: nat, addr: nat, size: nat)
  {
    && p in live
    && IsBlock(addr) && (HeaderPage(addr) == p || HeaderPage(addr) !in live)
    && after == Moved(live, p, HeaderPage(addr), size)
    && KeptBytes(mem, now, p, HeaderPage(addr), Min(live[p], size))
    && OthersSame(live, mem, now, p)
  }

  lemma MovedHere(live: Blocks, p: nat, size: nat)
    requires p in live
    ensures Moved(live, p, p, size) == live[p := size]
  {
  }

  /** mem with `bytes` written at address dst. */
  function Splice(mem: seq<Byte>, dst: nat, bytes: seq<Byte>): seq<Byte>
    requires dst + |bytes| <= |mem|
  {
    mem[..dst] + bytes + mem[dst + |bytes|..]
  }

  /** Copying into block q leaves the other blocks alone. */
  lemma FrameOthers(live: Blocks, mem: seq<Byte>, p: nat, q: nat, n: nat)
    requires p in live && q in live && p != q && n <= live[p] && n <= live[q]
    requires forall o <- live :: Address(o) + live[o] <= |mem|
    requires forall o <- live | o != q ::
               Address(o) + live[o] <= Address(q) || Address(q) + live[q] <= Address(o)
    ensures var now := Splice(mem, Address(q), mem[Address(p)..Address(p) + n]);
            KeptBytes(mem, now, p, q, n) && OthersSame(live, mem, now, q)
  {
    hide Address;
    var now := Splice(mem, Address(q), mem[Address(p)..Address(p) + n]);
    forall o <- live | o != q
      ensures KeptBytes(mem, now, o, o, live[o])
    {
      SpliceElsewhere(mem, Address(q), mem[Address(p)..Address(p) + n], Address(o), live[o]);
    }
  }

  lemma SpliceElsewhere(mem: seq<Byte>, dst: nat, bytes: seq<Byte>, at: nat, n: nat)
    requires dst + |bytes| <= |mem| && at + n <= |mem|
    requires at + n <= dst || dst + |bytes| <= at
    ensures Splice(mem, dst, bytes)[at..at + n] == mem[at..at + n]
  {
  }

  lemma MoveDone(live: Blocks, mid: Blocks, before: seq<Byte>, after: seq<Byte>, p: nat, addr: nat, size: nat)
    requires p in live && Allocated(live, mid, addr, size)
    requires OthersSame(mid, before, after, HeaderPage(addr))
    requires KeptBytes(before, after, p, HeaderPage(addr), Min(live[p], size))
    ensures Reallocated(live, mid - {p}, before, after, p, addr, size)
  {
    hide Address, HeaderPage, KeptBytes;
    var q := HeaderPage(addr);
    assert mid - {p} == Moved(live, p, q, size);
    forall o <- live | o != p
      ensures KeptBytes(before, after, o, o, live[o])
    {
      assert o in mid && o != q;
    }
  }

  /** Blocks start one page after their header, on a page boundary. */
  ghost predicate IsBlock(addr: nat) {
    addr >= PAGE_SIZE && addr == Address(HeaderPage(addr))
  }

  /** Every live block but p has the bytes it had. */
  ghost predicate OthersSame(live: Blocks, before: seq<Byte>, after: seq<Byte>, p: nat) {
    forall o <- live | o != p :: KeptBytes(before, after, o, o, live[o])
  }

  ghost function Moved(live: Blocks, p: nat, q: nat, size: nat): Blocks {
    (live - {p})[q := size]
  }

  function Min(a: nat, b: nat): nat { if a < b then a else b }

  /** The first n bytes of the block at p are the first n bytes of the block at q afterwards. */
  ghost predicate KeptBytes(before: seq<Byte>, after: seq<Byte>, p: nat, q: nat, n: nat) {
    && Address(p) + n <= |before| && Address(q) + n <= |after|
    && after[Address(q)..Address(q) + n] == before[Address(p)..Address(p) + n]
  }
}
