/** The physical memory manager: a bitmap with one bit per page, a set bit meaning "free". */
module Pmm {
  import opened Common

  // ----- The bitmap as a set of free pages -----

  function Mask(k: nat): bv8
    requires k < 8
  {
    1 << k
  }

  predicate IsSet(b: bv8, k: nat)
    requires k < 8
  {
    b & Mask(k) != 0
  }

  /** The abstract value of a bitmap: the numbers of the pages whose bit is set. */
  ghost function FreeSet(bits: seq<bv8>): set<nat> {
    set p: nat | p < 8 * |bits| && IsSet(bits[p / 8], p % 8)
  }

  lemma MaskTable(k: nat)
    requires k < 8
    ensures Mask(k) == [1, 2, 4, 8, 16, 32, 64, 128][k]
  {
    if k == 0 {} else if k == 1 {} else if k == 2 {} else if k == 3 {}
    else if k == 4 {} else if k == 5 {} else if k == 6 {} else {}
  }

  lemma MasksDisjoint(k: nat, j: nat)
    requires k < 8 && j < 8
    ensures Mask(k) & Mask(j) == if j == k then Mask(k) else 0
    ensures Mask(k) != 0
  {
    MaskTable(k);
    MaskTable(j);
  }

  lemma OrMask(b: bv8, m: bv8, n: bv8)
    requires n != 0 && (m & n == 0 || m == n)
    ensures (b | m) & n != 0 <==> m == n || b & n != 0
  {
  }

  lemma ClearMask(b: bv8, m: bv8, n: bv8)
    requires n != 0 && (m & n == 0 || m == n)
    ensures (b & !m) & n != 0 <==> m != n && b & n != 0
  {
  }

  lemma SetByte(b: bv8, k: nat, j: nat)
    requires k < 8 && j < 8
    ensures IsSet(b | Mask(k), j) <==> j == k || IsSet(b, j)
  {
    MasksDisjoint(k, j);
    MasksDisjoint(j, k);
    OrMask(b, Mask(k), Mask(j));
  }

  lemma ClearByte(b: bv8, k: nat, j: nat)
    requires k < 8 && j < 8
    ensures IsSet(b & !Mask(k), j) <==> j != k && IsSet(b, j)
  {
    MasksDisjoint(k, j);
    MasksDisjoint(j, k);
    ClearMask(b, Mask(k), Mask(j));
  }

  lemma SetBit(bits: seq<bv8>, p: nat)
    requires p < 8 * |bits|
    ensures FreeSet(bits[p / 8 := bits[p / 8] | Mask(p % 8)]) == FreeSet(bits) + {p}
  {
    hide IsSet, Mask;
    var next := bits[p / 8 := bits[p / 8] | Mask(p % 8)];
    forall q: nat | q < 8 * |bits|
      ensures IsSet(next[q / 8], q % 8) <==> q == p || IsSet(bits[q / 8], q % 8)
    {
      SetByte(bits[p / 8], p % 8, q % 8);
    }
  }

  lemma ClearBit(bits: seq<bv8>, p: nat)
    requires p < 8 * |bits|
    ensures FreeSet(bits[p / 8 := bits[p / 8] & !Mask(p % 8)]) == FreeSet(bits) - {p}
  {
    hide IsSet, Mask;
    var next := bits[p / 8 := bits[p / 8] & !Mask(p % 8)];
    forall q: nat | q < 8 * |bits|
      ensures IsSet(next[q / 8], q % 8) <==> q != p && IsSet(bits[q / 8], q % 8)
    {
      ClearByte(bits[p / 8], p % 8, q % 8);
    }
  }

  lemma UnionStep(start: set<nat>, before: set<nat>, now: set<nat>, done: set<nat>, p: nat)
    requires before == start + done && now == before + {p}
    ensures now == start + (done + {p})
  {
  }

  lemma FreeBelow(bits: seq<bv8>)
    ensures forall q <- FreeSet(bits) :: q < 8 * |bits|
  {
  }

  lemma ZeroBitmap(bits: seq<bv8>)
    requires forall i :: 0 <= i < |bits| ==> bits[i] == 0
    ensures FreeSet(bits) == {}
  {
    forall p: nat | p < 8 * |bits|
      ensures !IsSet(bits[p / 8], p % 8)
    {
      assert bits[p / 8] == 0;
    }
  }

  // ----- Searching for a run of free pages -----

  /** The n pages starting at p are all free. */
  ghost predicate Fits(free: set<nat>, p: nat, n: nat) {
    Range(p, n) <= free
  }

  ghost predicate HasRun(free: set<nat>, limit: nat, n: nat) {
    exists p: nat :: p < limit && Fits(free, p, n)
  }

  /** Testing the run at p, which stops at the first used page, reads no bit past page `limit`. */
  ghost predicate ScanInside(free: set<nat>, limit: nat, p: nat, n: nat) {
    forall k: nat :: k < n && Fits(free, p, k) ==> p + k < limit
  }

  /** What a caller must know for the whole first-fit search to stay inside the bitmap. */
  ghost predicate SearchInside(free: set<nat>, limit: nat, n: nat) {
    n <= 1 || limit == 0 || limit - 1 !in free || HasRun(free, limit, n)
  }

  /** p is where the first-fit search stops. */
  ghost predicate IsFirstFit(free: set<nat>, limit: nat, n: nat, p: nat) {
    p < limit && Fits(free, p, n) && forall q: nat :: q < p ==> !Fits(free, q, n)
  }

  lemma FitInside(free: set<nat>, limit: nat, p: nat, n: nat)
    requires forall q <- free :: q < limit
    requires Fits(free, p, n)
    ensures ScanInside(free, limit, p, n)
  {
    forall k: nat | k < n && Fits(free, p, k)
      ensures p + k < limit
    {
      assert p + k in Range(p, n);
    }
  }

  /** A run that fits later than p ends inside the bitmap, so p cannot start a longer free stretch
      that reaches the end of it. */
  lemma LateFitImpossible(free: set<nat>, limit: nat, n: nat, p: nat, k: nat)
    requires forall q <- free :: q < limit
    requires HasRun(free, limit, n) && p < limit
    requires forall q: nat :: q < p ==> !Fits(free, q, n)
    requires k < n && Fits(free, p, k)
    ensures p + k < limit
  {
    var f: nat :| f < limit && Fits(free, f, n);
    assert f + n - 1 in Range(f, n);
  }

  /** Every candidate the search tests before it stops is tested inside the bitmap ... */
  lemma CandidateInside(free: set<nat>, limit: nat, n: nat, p: nat)
    requires forall q <- free :: q < limit
    requires SearchInside(free, limit, n) && p < limit
    requires forall q: nat :: q < p ==> !Fits(free, q, n)
    ensures ScanInside(free, limit, p, n)
  {
    forall k: nat | k < n && Fits(free, p, k)
      ensures p + k < limit
    {
      if limit <= p + k {
        assert limit - 1 in Range(p, k);
        LateFitImpossible(free, limit, n, p, k);
      }
    }
  }

  lemma NoRun(free: set<nat>, limit: nat, n: nat)
    requires forall p: nat :: p < limit ==> !Fits(free, p, n)
    ensures !HasRun(free, limit, n)
  {
  }

  /** ... and SearchInside is exactly that condition. */
  lemma SearchInsideExact(free: set<nat>, limit: nat, n: nat)
    requires forall q <- free :: q < limit
    ensures SearchInside(free, limit, n) <==>
            forall p: nat | p < limit && (forall q: nat :: q < p ==> !Fits(free, q, n)) ::
              ScanInside(free, limit, p, n)
  {
    if SearchInside(free, limit, n) {
      forall p: nat | p < limit && forall q: nat :: q < p ==> !Fits(free, q, n)
        ensures ScanInside(free, limit, p, n)
      {
        CandidateInside(free, limit, n, p);
      }
    } else {
      // The top page is free and nothing fits, so testing the top page reads the bit after it.
      assert forall q: nat :: q < limit - 1 ==> !Fits(free, q, n);
      assert Fits(free, limit - 1, 1);
      assert !ScanInside(free, limit, limit - 1, n);
    }
  }

  // ----- The memory map handed over by the boot loader -----

  const USABLE := 1
  const ACPI_RECLAIMABLE := 3
  const BOOTLOADER_RECLAIMABLE := 0x1000
  const KERNEL_AND_MODULES := 0x1001

  /** Entries that end at or below 1 MiB are skipped. */
  const LOW_MEMORY := 0x100000

  datatype Entry = Entry(base: nat, length: nat, kind: nat) {
    predicate Kept() { base + length > LOW_MEMORY }

    predicate Counted() {
      Kept() && (kind == USABLE || kind == BOOTLOADER_RECLAIMABLE || kind == ACPI_RECLAIMABLE
                 || kind == KERNEL_AND_MODULES)
    }

    predicate Usable() { Kept() && kind == USABLE }

    ghost function Bytes(): set<nat> { Range(base, length) }

    ghost function PageSet(): set<nat> { Range(base / PAGE_SIZE, NumPages(length)) }
  }

  /** The highest end address of a kept entry. */
  function PhysLimit(entries: seq<Entry>): nat {
    if entries == [] then 0
    else
      var e, rest := entries[|entries| - 1], PhysLimit(entries[..|entries| - 1]);
      if e.Kept() && e.base + e.length > rest then e.base + e.length else rest
  }

  function TotalMem(entries: seq<Entry>): nat {
    if entries == [] then 0
    else TotalMem(entries[..|entries| - 1]) +
         if entries[|entries| - 1].Counted() then entries[|entries| - 1].length else 0
  }

  /** A usable entry large enough for a bitmap of `size` bytes. */
  predicate Hosts(e: Entry, size: nat) {
    e.Usable() && e.length >= size
  }

  /** Pages of the entries selected by `pick`. */
  ghost function PagesOf(entries: seq<Entry>, pick: Entry -> bool): set<nat> {
    if entries == [] then {}
    else PagesOf(entries[..|entries| - 1], pick) +
         if pick(entries[|entries| - 1]) then entries[|entries| - 1].PageSet() else {}
  }

  ghost function UsablePages(entries: seq<Entry>): set<nat> {
    PagesOf(entries, (e: Entry) => e.Usable())
  }

  ghost function ReclaimablePages(entries: seq<Entry>): set<nat> {
    PagesOf(entries, (e: Entry) => e.kind == BOOTLOADER_RECLAIMABLE)
  }

  /** Membership in PagesOf, independently of the order of the map. */
  lemma {:induction false} PagesOfMember(entries: seq<Entry>, pick: Entry -> bool, p: nat)
    ensures p in PagesOf(entries, pick) <==> exists e <- entries :: pick(e) && p in e.PageSet()
  {
    if entries != [] {
      var front, last := entries[..|entries| - 1], entries[|entries| - 1];
      PagesOfMember(front, pick, p);
      assert entries == front + [last];
    }
  }

  lemma {:induction false} PhysLimitCovers(entries: seq<Entry>, e: Entry)
    requires e in entries && e.Kept()
    ensures e.base + e.length <= PhysLimit(entries)
  {
    if e != entries[|entries| - 1] {
      PhysLimitCovers(entries[..|entries| - 1], e);
    }
  }

  /** ... and the limit is the end of one of them. */
  lemma {:induction false} PhysLimitReached(entries: seq<Entry>)
    ensures PhysLimit(entries) > 0 ==> exists e <- entries :: e.Kept() && e.base + e.length == PhysLimit(entries)
  {
    if entries != [] {
      var front, last := entries[..|entries| - 1], entries[|entries| - 1];
      PhysLimitReached(front);
      assert entries == front + [last];
    }
  }

  /** The addresses of the bytes in counted entries. */
  ghost function CountedBytes(entries: seq<Entry>): set<nat> {
    set e, b | e in entries && e.Counted() && b in e.Bytes() :: b
  }

  /** No byte is in two counted entries. */
  ghost predicate Disjoint(entries: seq<Entry>) {
    forall i, j :: 0 <= i < j < |entries| && entries[i].Counted() && entries[j].Counted() ==>
      entries[i].Bytes() !! entries[j].Bytes()
  }

  lemma UnionSize(a: set<nat>, b: set<nat>)
    ensures |a + b| <= |a| + |b|
    ensures |a + b| == |a| + |b| <==> a !! b
  {
    assert |a + b| == |a| + |b| - |a * b|;
    if x :| x in a && x in b {
      assert x in a * b && |a * b - {x}| == |a * b| - 1;
    } else {
      assert a * b == {};
    }
  }

  /** One entry more is disjoint from those before it exactly when it shares no counted byte with them. */
  lemma DisjointStep(front: seq<Entry>, last: Entry)
    ensures var more := if last.Counted() then last.Bytes() else {};
            && CountedBytes(front + [last]) == CountedBytes(front) + more
            && (Disjoint(front + [last]) <==> Disjoint(front) && CountedBytes(front) !! more)
  {
    var entries := front + [last];
    assert forall e :: e in entries <==> e in front || e == last;
    assert forall i :: 0 <= i < |front| ==> entries[i] == front[i];
    if last.Counted() {
      if Disjoint(entries) {
        forall e <- front | e.Counted()
          ensures e.Bytes() !! last.Bytes()
        {
          var i :| 0 <= i < |front| && front[i] == e;
          assert entries[i] == e && entries[|front|] == last;
        }
      }
    }
  }

  /** total_mem is never less than the bytes there are in counted entries, and it is their number exactly
      when no byte is in two of them. */
  lemma {:induction false} TotalMemExactly(entries: seq<Entry>)
    ensures |CountedBytes(entries)| <= TotalMem(entries)
    ensures |CountedBytes(entries)| == TotalMem(entries) <==> Disjoint(entries)
  {
    hide CountedBytes, Disjoint, Range;
    if entries == [] {
      NothingCounted();
    } else {
      var front, last := entries[..|entries| - 1], entries[|entries| - 1];
      assert entries == front + [last];
      TotalMemExactly(front);
      DisjointStep(front, last);
      UnionSize(CountedBytes(front), if last.Counted() then last.Bytes() else {});
      RangeSize(last.base, last.length);
    }
  }

  lemma NothingCounted()
    ensures CountedBytes([]) == {} && Disjoint([])
  {
  }

  /** The bitmap has a bit for every page below the limit exactly when the limit is a multiple of
      32 KiB; otherwise the division rounds the last pages away. */
  lemma BitmapCovers(limit: nat)
    ensures (forall p: nat :: p * PAGE_SIZE < limit ==> p < 8 * (limit / BYTE_SPAN)) <==> limit % BYTE_SPAN == 0
  {
    if limit % BYTE_SPAN != 0 {
      var p := 8 * (limit / BYTE_SPAN);
      assert p * PAGE_SIZE < limit;
    }
  }

  /** The entry chosen for the bitmap: the first one that can hold it. */
  function Host(entries: seq<Entry>, size: nat): (h: nat)
    requires exists e <- entries :: Hosts(e, size)
    ensures h < |entries| && Hosts(entries[h], size)
    ensures forall k :: 0 <= k < h ==> !Hosts(entries[k], size)
  {
    if Hosts(entries[0], size) then 0
    else
      assert entries == [entries[0]] + entries[1..];
      1 + Host(entries[1..], size)
  }

  ghost predicate HasHost(entries: seq<Entry>) {
    exists e <- entries :: Hosts(e, PhysLimit(entries) / BYTE_SPAN)
  }

  ghost function BitmapPages(entries: seq<Entry>): set<nat>
    requires HasHost(entries)
  {
    var size := PhysLimit(entries) / BYTE_SPAN;
    Range(entries[Host(entries, size)].base / PAGE_SIZE, NumPages(size))
  }

  /** The pages that bytes of an entry lie in. */
  ghost function Touched(e: Entry): set<nat> {
    set b | b in e.Bytes() :: b / PAGE_SIZE
  }

  /** The pages counted for an entry are those its bytes lie in exactly when it is empty, or its length,
      rounded up to pages, reaches its end; so they are for an entry that begins at a page. */
  lemma PagesAreTouchedExactly(e: Entry)
    ensures e.PageSet() == Touched(e) <==>
            e.length == 0 || e.base % PAGE_SIZE + e.length <= NumPages(e.length) * PAGE_SIZE
    ensures e.base % PAGE_SIZE == 0 ==> e.PageSet() == Touched(e)
  {
    var first := e.base / PAGE_SIZE;
    forall p: nat
      ensures p in Touched(e) <==> e.length > 0 && first <= p <= (e.base + e.length - 1) / PAGE_SIZE
    {
      if e.length > 0 && first <= p <= (e.base + e.length - 1) / PAGE_SIZE {
        var b := if p == first then e.base else p * PAGE_SIZE;
        assert AtLeast(b, e.base) && b in e.Bytes() && b / PAGE_SIZE == p;
      }
    }
    forall p: nat
      ensures p in e.PageSet() <==> first <= p < first + NumPages(e.length)
    {
      assert AtLeast(p, first) <==> first <= p;
    }
    NumPagesLeast(e.length, NumPages(e.length));
    if e.length > 0 {
      var last := (e.base + e.length - 1) / PAGE_SIZE;
      assert last in Touched(e);
      assert e.PageSet() == Touched(e) <==> last == first + NumPages(e.length) - 1;
    } else {
      assert e.PageSet() == Touched(e) == {};
    }
  }

  /** The bitmap's pages are all usable, so taking them cannot fail. */
  lemma HostFits(entries: seq<Entry>)
    requires HasHost(entries)
    ensures BitmapPages(entries) <= UsablePages(entries)
  {
    var pick := (e: Entry) => e.Usable();
    var host := entries[Host(entries, PhysLimit(entries) / BYTE_SPAN)];
    forall p <- BitmapPages(entries)
      ensures p in PagesOf(entries, pick)
    {
      PagesOfMember(entries, pick, p);
      assert pick(host) && p in host.PageSet();
    }
  }

  /** An entry that ends below the limit touches only pages the bitmap describes, aligned or not. */
  lemma EntryInside(e: Entry, bytes: nat)
    requires e.base + e.length <= BYTE_SPAN * bytes
    ensures e.base / PAGE_SIZE + NumPages(e.length) <= 8 * bytes
  {
  }

  /** A reclaimable entry ends below the limit even when it is too low to be kept. */
  lemma ReclaimInside(entries: seq<Entry>, e: Entry, bytes: nat)
    requires e in entries && PhysLimit(entries) == BYTE_SPAN * bytes > LOW_MEMORY
    ensures e.base / PAGE_SIZE + NumPages(e.length) <= 8 * bytes
  {
    if e.Kept() {
      PhysLimitCovers(entries, e);
    }
    EntryInside(e, bytes);
  }

  /** First loop of pmm_init. */
  method MemoryStats(entries: seq<Entry>) returns (limit: nat, total: nat)
    ensures limit == PhysLimit(entries) && total == TotalMem(entries)
    ensures forall e <- entries :: e.Kept() ==> e.base + e.length <= limit
    ensures limit > 0 ==> exists e <- entries :: e.Kept() && e.base + e.length == limit
    ensures total >= |CountedBytes(entries)| && (total == |CountedBytes(entries)| <==> Disjoint(entries))
  {
    hide CountedBytes, Disjoint;
    limit, total := 0, 0;
    for i := 0 to |entries|
      invariant limit == PhysLimit(entries[..i]) && total == TotalMem(entries[..i])
    {
      assert entries[..i + 1][..i] == entries[..i];
      var e := entries[i];
      if e.base + e.length <= LOW_MEMORY {
        continue;
      }
      if e.base + e.length > limit {
        limit := e.base + e.length;
      }
      if e.kind == USABLE || e.kind == BOOTLOADER_RECLAIMABLE || e.kind == ACPI_RECLAIMABLE
         || e.kind == KERNEL_AND_MODULES {
        total := total + e.length;
      }
    }
    assert entries[..|entries|] == entries;
    forall e <- entries | e.Kept()
      ensures e.base + e.length <= limit
    {
      PhysLimitCovers(entries, e);
    }
    PhysLimitReached(entries);
    TotalMemExactly(entries);
  }

  /** Second loop of pmm_init: the first entry that can hold the bitmap. */
  method FindHost(entries: seq<Entry>, size: nat) returns (h: nat)
    requires exists e <- entries :: Hosts(e, size)
    ensures h == Host(entries, size)
  {
    h := 0;
    while h < |entries|
      invariant h <= |entries|
      invariant forall k :: 0 <= k < h ==> !Hosts(entries[k], size)
    {
      var e := entries[h];
      if e.base + e.length > LOW_MEMORY && e.length >= size && e.kind == USABLE {
        break;
      }
      h := h + 1;
    }
  }

  /** The memory map of a machine with 2 MiB, all of them usable. */
  const TWO_MIB := Entry(0, 0x200000, USABLE)

  /** Right after pmm_init has run on it, looking for as many pages as there are reads past the bitmap: the
      bitmap's own page is taken, so nothing fits, and the last page is free. */
  lemma SearchOverruns()
    ensures PhysLimit([TWO_MIB]) % BYTE_SPAN == 0 && HasHost([TWO_MIB])
    ensures var limit := 8 * (PhysLimit([TWO_MIB]) / BYTE_SPAN);
            var free := UsablePages([TWO_MIB]) - BitmapPages([TWO_MIB]);
            limit == 512 && !SearchInside(free, limit, limit) && !ScanInside(free, limit, limit - 1, limit)
  {
    var entries := [TWO_MIB];
    assert entries[..0] == [];
    assert PhysLimit(entries) == 0x200000;
    assert Hosts(entries[0], 64);
    var pick := (e: Entry) => e.Usable();
    assert PagesOf(entries, pick) == PagesOf([], pick) + TWO_MIB.PageSet();
    assert TWO_MIB.PageSet() == Range(0, 512) && BitmapPages(entries) == Range(0, 1);
    var free := UsablePages(entries) - BitmapPages(entries);
    assert 511 in free && 0 !in free && 512 !in free;
    forall p: nat | p < 512
      ensures !Fits(free, p, 512)
    {
      assert (if p == 0 then 0 else 512) in Range(p, 512);
    }
    assert Fits(free, 511, 1);
  }

  class PageAllocator {
    /** The bitmap; physical memory has 8 * bitmap.Length pages. */
    var bitmap: array<bv8>
    var freeMem: nat
    var physLimit: nat
    var totalMem: nat

    ghost function Free(): set<nat>
      reads this, bitmap
    {
      FreeSet(bitmap[..])
    }

    /** Number of pages the bitmap describes. */
    ghost function Limit(): nat
      reads this
    {
      8 * bitmap.Length
    }

    ghost predicate Valid()
      reads this, bitmap
    {
      && physLimit == BYTE_SPAN * bitmap.Length
      && freeMem == PAGE_SIZE * |Free()|
    }

    /** bitmap[...] &= ~(1 << ...) for the page holding addr. */
    method ClearPage(addr: nat)
      requires addr / PAGE_SIZE < Limit()
      modifies bitmap
      ensures Free() == old(Free()) - {addr / PAGE_SIZE}
    {
      ghost var before, p := bitmap[..], addr / PAGE_SIZE;
      assert addr / BYTE_SPAN == p / 8;
      bitmap[addr / BYTE_SPAN] := bitmap[addr / BYTE_SPAN] & !Mask((addr / PAGE_SIZE) % PAGES_PER_BYTE);
      ClearBit(before, p);
      assert bitmap[..] == before[p / 8 := before[p / 8] & !Mask(p % 8)];
    }

    /** bitmap[...] |= 1 << ... for the page holding addr. */
    method SetPage(addr: nat)
      requires addr / PAGE_SIZE < Limit()
      modifies bitmap
      ensures Free() == old(Free()) + {addr / PAGE_SIZE}
    {
      ghost var before, p := bitmap[..], addr / PAGE_SIZE;
      assert addr / BYTE_SPAN == p / 8;
      bitmap[addr / BYTE_SPAN] := bitmap[addr / BYTE_SPAN] | Mask((addr / PAGE_SIZE) % PAGES_PER_BYTE);
      SetBit(before, p);
      assert bitmap[..] == before[p / 8 := before[p / 8] | Mask(p % 8)];
    }

    /** Marks pages as used, whatever they were. The counter is the caller's business. */
    method MarkUsed(addr: nat, n: nat)
      requires n == 0 || addr / PAGE_SIZE + n <= Limit()
      modifies bitmap
      ensures Free() == old(Free()) - Range(addr / PAGE_SIZE, n)
    {
      hide FreeSet;
      ghost var first, k := addr / PAGE_SIZE, 0;
      var i := addr;
      RangeStep(first, 0);
      while i < addr + n * PAGE_SIZE
        invariant 0 <= k <= n && i == addr + k * PAGE_SIZE
        invariant Free() == old(Free()) - Range(first, k)
        decreases n - k
      {
        assert i / PAGE_SIZE == first + k;
        ClearPage(i);
        RangeStep(first, k);
        k := k + 1;
        i := i + PAGE_SIZE;
      }
    }

    /** True exactly when all n pages are free; stops at the first used one. */
    method IsFree(addr: nat, n: nat) returns (free: bool)
      requires ScanInside(Free(), Limit(), addr / PAGE_SIZE, n)
      ensures free <==> Fits(Free(), addr / PAGE_SIZE, n)
    {
      free := true;
      ghost var first, k := addr / PAGE_SIZE, 0;
      var i := addr;
      while i < addr + n * PAGE_SIZE
        invariant 0 <= k <= n && i == addr + k * PAGE_SIZE
        invariant free && Fits(Free(), first, k)
        decreases n - k
      {
        assert i / PAGE_SIZE == first + k;
        assert i / BYTE_SPAN == (first + k) / 8;
        free := bitmap[i / BYTE_SPAN] & Mask((i / PAGE_SIZE) % PAGES_PER_BYTE) != 0;
        if !free {
          assert first + k in Range(first, n);
          assert first + k !in Free();
          break;
        }
        RangeStep(first, k);
        k := k + 1;
        i := i + PAGE_SIZE;
      }
    }

    /** One turn of the loop of Release. */
    method ReleasePage(addr: nat)
      requires Valid() && addr / PAGE_SIZE < Limit()
      modifies this`freeMem, bitmap
      ensures Valid()
      ensures Free() == old(Free()) + {addr / PAGE_SIZE}
    {
      ghost var before, p := Free(), addr / PAGE_SIZE;
      assert Range(p, 1) == {p};
      var already := IsFree(addr, 1);
      if !already {
        freeMem := freeMem + PAGE_SIZE;
      }
      SetPage(addr);
      if already {
        assert before + {p} == before;
      }
    }

    /** Marks pages as free; a page that was free already is not counted twice. */
    method Release(addr: nat, n: nat)
      requires Valid()
      requires n == 0 || addr / PAGE_SIZE + n <= Limit()
      modifies this`freeMem, bitmap
      ensures Valid()
      ensures Free() == old(Free()) + Range(addr / PAGE_SIZE, n)
    {
      hide FreeSet, Fits, Range;
      ghost var first, k := addr / PAGE_SIZE, 0;
      var i := addr;
      RangeStep(first, 0);
      while i < addr + n * PAGE_SIZE
        invariant 0 <= k <= n && i == addr + k * PAGE_SIZE
        invariant Valid()
        invariant Free() == old(Free()) + Range(first, k)
        decreases n - k
      {
        assert i / PAGE_SIZE == first + k;
        ghost var before := Free();
        ReleasePage(i);
        RangeStep(first, k);
        UnionStep(old(Free()), before, Free(), Range(first, k), first + k);
        k := k + 1;
        i := i + PAGE_SIZE;
      }
    }

    /** Takes the n pages at addr if all of them are free, and does nothing otherwise. */
    method Alloc(addr: nat, n: nat) returns (ok: bool)
      requires Valid()
      requires ScanInside(Free(), Limit(), addr / PAGE_SIZE, n)
      modifies this`freeMem, bitmap
      ensures Valid()
      ensures ok <==> Fits(old(Free()), addr / PAGE_SIZE, n)
      ensures Free() == if ok then old(Free()) - Range(addr / PAGE_SIZE, n) else old(Free())
    {
      ok := IsFree(addr, n);
      if !ok {
        return;
      }
      ghost var first := addr / PAGE_SIZE;
      if n > 0 {
        assert first + n - 1 in Range(first, n);
      } else {
        assert Range(first, n) == {};
      }
      MarkUsed(addr, n);
      RangeSize(first, n);
      assert Free() + Range(first, n) == old(Free());
      freeMem := freeMem - n * PAGE_SIZE;
    }

    /** First fit: the lowest run of n free pages, or None where the kernel panics. */
    method Get(n: nat) returns (r: Option<nat>)
      requires Valid()
      requires SearchInside(Free(), Limit(), n)
      modifies this`freeMem, bitmap
      ensures Valid()
      ensures r.None? ==> !HasRun(old(Free()), Limit(), n) && Free() == old(Free())
      ensures r.Some? ==>
                && r.value % PAGE_SIZE == 0
                && IsFirstFit(old(Free()), Limit(), n, r.value / PAGE_SIZE)
                && Free() == old(Free()) - Range(r.value / PAGE_SIZE, n)
    {
      // `lastusedpage` is never assigned, so the search starts at 0 and the second pass is empty
      FreeBelow(bitmap[..]);
      hide FreeSet, Fits, ScanInside, SearchInside, Range, HasRun;
      var i := 0;
      ghost var p := 0;
      while i < physLimit
        invariant i == p * PAGE_SIZE && p <= Limit()
        invariant Valid() && Free() == old(Free())
        invariant forall q: nat :: q < p ==> !Fits(Free(), q, n)
      {
        assert i / PAGE_SIZE == p && i % PAGE_SIZE == 0;
        CandidateInside(Free(), Limit(), n, p);
        var ok := Alloc(i, n);
        if ok {
          return Some(i);
        }
        i := i + PAGE_SIZE;
        p := p + 1;
      }
      NoRun(Free(), Limit(), n);
      return None;
    }

    /** pmm_init: sizes the bitmap, stores it in the first usable entry that can hold it, frees the
        usable entries and takes the bitmap's own pages out again. */
    constructor (entries: seq<Entry>)
      requires PhysLimit(entries) % BYTE_SPAN == 0 && HasHost(entries)
      ensures Valid() && fresh(bitmap)
      ensures physLimit == PhysLimit(entries) && totalMem == TotalMem(entries)
      ensures Free() == UsablePages(entries) - BitmapPages(entries)
    {
      hide FreeSet, PagesOf, Range, TotalMem, Host;
      var limit, total := MemoryStats(entries);
      var size := limit / BYTE_SPAN;
      bitmap := new bv8[size](_ => 0);
      freeMem, physLimit, totalMem := 0, limit, total;
      new;
      Zeroed();
      FreeUsable(entries);
      TakeBitmap(entries);
    }

    /** Right after the memset no page is free. */
    lemma Zeroed()
      requires physLimit == BYTE_SPAN * bitmap.Length && freeMem == 0
      requires forall i :: 0 <= i < bitmap.Length ==> bitmap[i] == 0
      ensures Valid() && Free() == {}
    {
      ZeroBitmap(bitmap[..]);
    }

    /** The last line of pmm_init; its result is ignored there because it cannot be false. */
    method TakeBitmap(entries: seq<Entry>)
      requires Valid() && physLimit == PhysLimit(entries) && HasHost(entries)
      requires Free() == UsablePages(entries)
      modifies this`freeMem, bitmap
      ensures Valid() && Free() == UsablePages(entries) - BitmapPages(entries)
    {
      var size := physLimit / BYTE_SPAN;
      var h := FindHost(entries, size);
      HostFits(entries);
      FitInside(Free(), Limit(), entries[h].base / PAGE_SIZE, NumPages(size));
      var ok := Alloc(entries[h].base, NumPages(size));
    }

    method FreeUsable(entries: seq<Entry>)
      requires Valid() && physLimit == PhysLimit(entries) && Free() == {}
      modifies this`freeMem, bitmap
      ensures Valid() && Free() == UsablePages(entries)
    {
      hide FreeSet, Range;
      ghost var pick := (e: Entry) => e.Usable();
      for i := 0 to |entries|
        invariant Valid() && Free() == PagesOf(entries[..i], pick)
      {
        assert entries[..i + 1][..i] == entries[..i];
        var e := entries[i];
        if e.base + e.length <= LOW_MEMORY {
          continue;
        }
        if e.kind == USABLE {
          PhysLimitCovers(entries, e);
          EntryInside(e, bitmap.Length);
          Release(e.base, NumPages(e.length));
        }
      }
      assert entries[..|entries|] == entries;
      assert Free() == PagesOf(entries, pick);
    }

    /** pmm_reclaim_bootloader_mem, which does not skip the entries below 1 MiB. */
    method Reclaim(entries: seq<Entry>)
      requires Valid() && physLimit == PhysLimit(entries) && physLimit > LOW_MEMORY
      modifies this`freeMem, bitmap
      ensures Valid()
      ensures Free() == old(Free()) + ReclaimablePages(entries)
    {
      hide FreeSet, Range, PhysLimit;
      ghost var pick := (e: Entry) => e.kind == BOOTLOADER_RECLAIMABLE;
      for i := 0 to |entries|
        invariant Valid() && Free() == old(Free()) + PagesOf(entries[..i], pick)
      {
        assert entries[..i + 1][..i] == entries[..i];
        var e := entries[i];
        if e.kind == BOOTLOADER_RECLAIMABLE {
          ReclaimInside(entries, e, bitmap.Length);
          ghost var before := Free();
          Release(e.base, NumPages(e.length));
          assert Free() == before + e.PageSet();
        }
      }
      assert entries[..|entries|] == entries;
      assert Free() == old(Free()) + PagesOf(entries, pick);
    }
  }
}
