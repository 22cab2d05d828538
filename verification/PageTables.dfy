/** Four-level page tables as values: the tree of tables, the hardware walk and the flat map of
    translations that the tree stands for. */
module PageTables {
  import opened Common

  const ENTRIES := 512
  const WORDS := 0x1_0000_0000_0000_0000

  /** Number of virtual pages (48-bit addresses) and a bound on physical pages (52-bit addresses). */
  const VPAGES := 0x10_0000_0000
  const MAX_FRAMES := 0x100_0000_0000

  const FLAG_PRESENT := 1
  const FLAGS_USERMODE := 7

  type Word = w: nat | w < WORDS
  type Table = t: seq<Word> | |t| == ENTRIES witness seq(ENTRIES, _ => 0)

  function ZeroTable(): Table { seq(ENTRIES, _ => 0) }

  predicate Present(w: Word) { w % 2 == FLAG_PRESENT }

  /** The page number an entry points to: the entry without its low twelve bits. */
  function FrameOf(w: Word): nat { w / PAGE_SIZE }

  /** MAKE_TABLE_ENTRY: for flags that fit in twelve bits the bitwise or is a sum. */
  function MakeEntry(address: nat, flags: nat): nat { address - address % PAGE_SIZE + flags }

  function TableEntry(frame: nat): (w: Word)
    requires frame < MAX_FRAMES
  {
    MakeEntry(frame * PAGE_SIZE, FLAGS_USERMODE)
  }

  lemma TableEntryPoints(frame: nat)
    requires frame < MAX_FRAMES
    ensures Present(TableEntry(frame)) && FrameOf(TableEntry(frame)) == frame
  {
    assert TableEntry(frame) == PAGE_SIZE * frame + 7 == 2 * (2048 * frame + 3) + 1;
    hide TableEntry;
    LowTwelveBits(frame);
    LowBit(2048 * frame + 3);
  }

  lemma LowBit(q: nat)
    ensures (2 * q + 1) % 2 == 1
  {
  }

  lemma LowTwelveBits(q: nat)
    ensures (PAGE_SIZE * q + 7) % PAGE_SIZE == 7 && (PAGE_SIZE * q + 7) / PAGE_SIZE == q
  {
  }

  /** An entry has the page of the address and exactly these flags. */
  lemma EntryParts(address: nat, flags: nat)
    requires flags < PAGE_SIZE
    ensures MakeEntry(address, flags) / PAGE_SIZE == address / PAGE_SIZE
    ensures MakeEntry(address, flags) % PAGE_SIZE == flags
  {
    var q := address / PAGE_SIZE;
    assert MakeEntry(address, flags) == PAGE_SIZE * q + flags;
  }

  /** The entry (address | flags) under the two masks: ~0xfff in map_page, ~0x1ff in unmap_page. */
  lemma MaskedEntry(address: bv64, flags: bv64)
    requires address & 0xfff == 0 && flags & 0xffff_ffff_ffff_f000 == 0
    ensures (address | flags) & 0xffff_ffff_ffff_f000 == address
    ensures (address | flags) & 0xffff_ffff_ffff_fe00 == address | (flags & 0xe00)
  {
  }

  lemma NoStrayBits(address: bv64, flags: bv64)
    requires address & 0xfff == 0
    ensures address | (flags & 0xe00) == address <==> flags & 0xe00 == 0
  {
  }

  /** The two masks name the same table exactly when bits 9 to 11 of the flags are clear ... */
  lemma MasksAgree(address: bv64, flags: bv64)
    requires address & 0xfff == 0 && flags & 0xffff_ffff_ffff_f000 == 0
    ensures (address | flags) & 0xffff_ffff_ffff_fe00 == (address | flags) & 0xffff_ffff_ffff_f000
            <==> flags & 0xe00 == 0
  {
    MaskedEntry(address, flags);
    NoStrayBits(address, flags);
  }

  /** ... as they are in every table entry, whose flags are 7. */
  lemma TableEntryMasks(frame: nat)
    requires frame < MAX_FRAMES
    ensures var w := TableEntry(frame); w - w % 0x200 == w - w % PAGE_SIZE == frame * PAGE_SIZE
  {
    assert TableEntry(frame) == PAGE_SIZE * frame + 7 == 0x200 * (8 * frame) + 7;
    hide TableEntry;
    LowNineBits(8 * frame);
    LowTwelveBits(frame);
  }

  lemma LowNineBits(q: nat)
    ensures (0x200 * q + 7) % 0x200 == 7
  {
  }

  // ----- Tables and their place in the tree -----

  /** A table is named by its depth (0 is the PML4) and by the leading indices of the virtual pages
      it serves, read as one number in base 512. */
  datatype Key = Key(depth: nat, prefix: nat) {
    function Child(i: nat): Key { Key(depth + 1, prefix * ENTRIES + i) }

    function Parent(): Key
      requires depth > 0
    {
      Key(depth - 1, prefix / ENTRIES)
    }

    function Slot(): nat { prefix % ENTRIES }
  }

  const Root := Key(0, 0)

  /** 512 to the power d. */
  function Span(d: nat): nat
    requires d <= 4
  {
    if d == 0 then 1 else if d == 1 then 0x200 else if d == 2 then 0x4_0000
    else if d == 3 then 0x800_0000 else 0x10_0000_0000
  }

  /** The table of depth d on the way to virtual page v, and the index used in it. */
  function KeyOf(v: nat, d: nat): Key
    requires d <= 3
  {
    Key(d, v / Span(4 - d))
  }

  function Index(v: nat, d: nat): nat
    requires d <= 3
  {
    (v / Span(3 - d)) % ENTRIES
  }

  lemma KeyStep(v: nat, d: nat)
    requires d < 3
    ensures KeyOf(v, d).Child(Index(v, d)) == KeyOf(v, d + 1)
    ensures KeyOf(v, d + 1).Parent() == KeyOf(v, d) && KeyOf(v, d + 1).Slot() == Index(v, d)
  {
  }

  /** The live tables: where each one lies in physical memory. */
  type Tables = map<Key, nat>

  ghost predicate Placed(mem: seq<Table>, tbl: Tables) {
    && Root in tbl
    && (forall k <- tbl :: k.depth <= 3 && k.prefix < Span(k.depth) && tbl[k] < |mem|)
    && (forall k <- tbl, l <- tbl :: tbl[k] == tbl[l] ==> k == l)
  }

  /** The memory holds exactly the tree of `tbl`: an interior entry is zero where there is no child
      and points to the child where there is one; a leaf entry is zero or present. */
  ghost predicate Tree(mem: seq<Table>, tbl: Tables) {
    && |mem| <= MAX_FRAMES
    && Placed(mem, tbl)
    && (forall k <- tbl :: k.depth > 0 ==> k.Parent() in tbl)
    && (forall k <- tbl, i: nat | k.depth < 3 && i < ENTRIES ::
          mem[tbl[k]][i] == if k.Child(i) in tbl then TableEntry(tbl[k.Child(i)]) else 0)
    && (forall k <- tbl, i: nat | k.depth == 3 && i < ENTRIES ::
          mem[tbl[k]][i] == 0 || Present(mem[tbl[k]][i]))
  }

  ghost predicate Blank(t: Table) {
    forall i: nat | i < ENTRIES :: t[i] == 0
  }

  /** Every table except the root and those in `but` has a non-zero entry. */
  ghost predicate NonEmpty(mem: seq<Table>, tbl: Tables, but: set<Key>) {
    forall k <- tbl :: k.depth > 0 && k !in but && tbl[k] < |mem| ==> !Blank(mem[tbl[k]])
  }

  // ----- What the tree means -----

  /** The hardware walk, from the table in page `page` at depth d. */
  ghost function Walk(mem: seq<Table>, page: nat, v: nat, d: nat): Option<Word>
    requires d <= 3
    decreases 3 - d
  {
    if page >= |mem| then None
    else
      var w := mem[page][Index(v, d)];
      if !Present(w) then None
      else if d == 3 then Some(w)
      else Walk(mem, FrameOf(w), v, d + 1)
  }

  ghost predicate Mapped(mem: seq<Table>, tbl: Tables, v: nat) {
    && KeyOf(v, 3) in tbl && tbl[KeyOf(v, 3)] < |mem|
    && mem[tbl[KeyOf(v, 3)]][Index(v, 3)] != 0
  }

  /** The flat map of translations: the leaf entry of every mapped virtual page. */
  ghost function Flat(mem: seq<Table>, tbl: Tables): map<nat, Word> {
    map v: nat | v < VPAGES && Mapped(mem, tbl, v) :: mem[tbl[KeyOf(v, 3)]][Index(v, 3)]
  }

  /** From the table in page `page` at depth d on, every entry above the leaf on the way to v allows
      everything, so the flags of the leaf alone decide about writing and about user mode. */
  ghost predicate OpenWay(mem: seq<Table>, page: nat, v: nat, d: nat)
    requires d <= 3
    decreases 3 - d
  {
    d < 3 ==>
      && page < |mem| && mem[page][Index(v, d)] % 8 == 7
      && OpenWay(mem, FrameOf(mem[page][Index(v, d)]), v, d + 1)
  }

  lemma {:induction false} WayIsOpen(mem: seq<Table>, tbl: Tables, v: nat, d: nat)
    requires Tree(mem, tbl) && v < VPAGES && d <= 3 && KeyOf(v, d) in tbl && v in Flat(mem, tbl)
    ensures OpenWay(mem, tbl[KeyOf(v, d)], v, d)
    decreases 3 - d
  {
    if d < 3 {
      KeyStep(v, d);
      if KeyOf(v, d + 1) !in tbl {
        NoTableBelow(mem, tbl, v, d + 1, 3);
      }
      TableEntryPoints(tbl[KeyOf(v, d + 1)]);
      TableEntryOpen(tbl[KeyOf(v, d + 1)]);
      hide TableEntry;
      WayIsOpen(mem, tbl, v, d + 1);
    }
  }

  lemma TableEntryOpen(frame: nat)
    requires frame < MAX_FRAMES
    ensures TableEntry(frame) % 8 == 7
  {
    assert TableEntry(frame) == 8 * (512 * frame) + 7;
    hide TableEntry;
    LowThreeBits(512 * frame);
  }

  lemma LowThreeBits(q: nat)
    ensures (8 * q + 7) % 8 == 7
  {
  }

  /** The walk reads off the flat map. */
  lemma {:induction false} WalkFrom(mem: seq<Table>, tbl: Tables, v: nat, d: nat)
    requires Tree(mem, tbl) && v < VPAGES && d <= 3 && KeyOf(v, d) in tbl
    ensures Walk(mem, tbl[KeyOf(v, d)], v, d) ==
            if v in Flat(mem, tbl) then Some(Flat(mem, tbl)[v]) else None
    decreases 3 - d
  {
    var k, i := KeyOf(v, d), Index(v, d);
    if d < 3 {
      KeyStep(v, d);
      assert k.Child(i) == KeyOf(v, d + 1);
      if k.Child(i) in tbl {
        TableEntryPoints(tbl[k.Child(i)]);
        WalkFrom(mem, tbl, v, d + 1);
      } else {
        NoTableBelow(mem, tbl, v, d + 1, 3);
      }
    }
  }

  /** Without the table at depth d there is none deeper on the same way. */
  lemma {:induction false} NoTableBelow(mem: seq<Table>, tbl: Tables, v: nat, d: nat, e: nat)
    requires Tree(mem, tbl) && d <= e <= 3 && KeyOf(v, d) !in tbl
    ensures KeyOf(v, e) !in tbl
  {
    if d < e {
      NoTableBelow(mem, tbl, v, d, e - 1);
      KeyStep(v, e - 1);
    }
  }

  /** The four-level walk from the PML4 agrees with the flat map on every virtual page. */
  lemma WalkIsFlat(mem: seq<Table>, tbl: Tables, v: nat)
    requires Tree(mem, tbl) && v < VPAGES
    ensures Walk(mem, tbl[Root], v, 0) == if v in Flat(mem, tbl) then Some(Flat(mem, tbl)[v]) else None
  {
    assert KeyOf(v, 0) == Root;
    WalkFrom(mem, tbl, v, 0);
  }

  /** The live tables are not a choice of ours: the memory and the root determine them. */
  lemma {:induction false} TablesUnique(mem: seq<Table>, tbl: Tables, other: Tables, k: Key)
    requires Tree(mem, tbl) && Tree(mem, other) && tbl[Root] == other[Root]
    requires k in tbl
    ensures k in other && other[k] == tbl[k]
    decreases k.depth
  {
    if k.depth == 0 {
      assert k == Root;
    } else {
      var p, i := k.Parent(), k.Slot();
      TablesUnique(mem, tbl, other, p);
      assert p.Child(i) == k;
      assert mem[tbl[p]][i] == TableEntry(tbl[k]);
      assert mem[other[p]][i] == TableEntry(tbl[k]);
      assert k in other;
    }
  }

  // ----- The three kinds of write -----

  ghost function Write(mem: seq<Table>, page: nat, i: nat, w: Word): (next: seq<Table>)
    requires page < |mem| && i < ENTRIES
  {
    mem[page := mem[page][i := w]]
  }

  /** Linking a fresh zeroed page q into slot i of table k adds one empty table and maps nothing. */
  ghost function LinkTable(mem: seq<Table>, tbl: Tables, k: Key, i: nat, q: nat): seq<Table>
    requires Placed(mem, tbl) && k in tbl && i < ENTRIES && q < |mem| && q < MAX_FRAMES
  {
    Write(mem[q := ZeroTable()], tbl[k], i, TableEntry(q))
  }

  lemma ChildKeys(k: Key, i: nat, l: Key, j: nat)
    requires i < ENTRIES && j < ENTRIES
    ensures k.Child(i).Parent() == k && k.Child(i).Slot() == i
    ensures k.Child(i) == l.Child(j) <==> k == l && i == j
  {
  }

  lemma ChildInRange(k: Key, i: nat)
    requires k.depth < 3 && k.prefix < Span(k.depth) && i < ENTRIES
    ensures k.Child(i).prefix < Span(k.depth + 1)
  {
  }

  lemma LinkPlaced(mem: seq<Table>, tbl: Tables, k: Key, i: nat, q: nat)
    requires Tree(mem, tbl) && k in tbl && k.depth < 3 && i < ENTRIES
    requires k.Child(i) !in tbl && q < |mem| && q !in tbl.Values
    ensures Placed(LinkTable(mem, tbl, k, i, q), tbl[k.Child(i) := q])
  {
    ChildInRange(k, i);
  }

  lemma LinkKeepsTree(mem: seq<Table>, tbl: Tables, k: Key, i: nat, q: nat)
    requires Tree(mem, tbl) && k in tbl && k.depth < 3 && i < ENTRIES
    requires k.Child(i) !in tbl && q < |mem| && q !in tbl.Values
    ensures Tree(LinkTable(mem, tbl, k, i, q), tbl[k.Child(i) := q])
  {
    hide TableEntry, ZeroTable, Present;
    LinkPlaced(mem, tbl, k, i, q);
    var next, more := LinkTable(mem, tbl, k, i, q), tbl[k.Child(i) := q];
    forall l <- more, j: nat | l.depth < 3 && j < ENTRIES
      ensures more[l] < |next|
      ensures next[more[l]][j] == if l.Child(j) in more then TableEntry(more[l.Child(j)]) else 0
    {
      LinkEntry(mem, tbl, k, i, q, l, j);
    }
    forall l <- more, j: nat | l.depth == 3 && j < ENTRIES
      ensures more[l] < |next| && (next[more[l]][j] == 0 || Present(next[more[l]][j]))
    {
      LinkLeaf(mem, tbl, k, i, q, l, j);
    }
    forall l <- more | l.depth > 0
      ensures l.Parent() in more
    {
      ChildKeys(k, i, k, i);
    }
  }

  lemma LinkLeaf(mem: seq<Table>, tbl: Tables, k: Key, i: nat, q: nat, l: Key, j: nat)
    requires Tree(mem, tbl) && k in tbl && k.depth < 3 && i < ENTRIES
    requires k.Child(i) !in tbl && q < |mem| && q !in tbl.Values
    requires (l in tbl || l == k.Child(i)) && l.depth == 3 && j < ENTRIES
    ensures var next, more := LinkTable(mem, tbl, k, i, q), tbl[k.Child(i) := q];
            more[l] < |next| && (next[more[l]][j] == 0 || Present(next[more[l]][j]))
    ensures |LinkTable(mem, tbl, k, i, q)| == |mem|
  {
    hide TableEntry, Present;
  }

  /** Entry by entry: the new table has none, the table above it one more, all others what they had. */
  lemma LinkEntry(mem: seq<Table>, tbl: Tables, k: Key, i: nat, q: nat, l: Key, j: nat)
    requires Tree(mem, tbl) && k in tbl && k.depth < 3 && i < ENTRIES
    requires k.Child(i) !in tbl && q < |mem| && q !in tbl.Values
    requires (l in tbl || l == k.Child(i)) && l.depth < 3 && j < ENTRIES
    ensures var next, more := LinkTable(mem, tbl, k, i, q), tbl[k.Child(i) := q];
            && more[l] < |next|
            && next[more[l]][j] == if l.Child(j) in more then TableEntry(more[l.Child(j)]) else 0
  {
    var c := k.Child(i);
    ChildKeys(k, i, k, i);
    ChildKeys(k, i, l, j);
    if l == c {
      ChildKeys(c, j, c, j);
    }
    hide TableEntry;
  }

  lemma LinkMapsNothing(mem: seq<Table>, tbl: Tables, k: Key, i: nat, q: nat)
    requires Placed(mem, tbl) && k in tbl && k.depth < 3 && i < ENTRIES
    requires k.Child(i) !in tbl && q < |mem| && q !in tbl.Values && q < MAX_FRAMES
    requires Placed(LinkTable(mem, tbl, k, i, q), tbl[k.Child(i) := q])
    ensures Flat(LinkTable(mem, tbl, k, i, q), tbl[k.Child(i) := q]) == Flat(mem, tbl)
  {
    var next, more := LinkTable(mem, tbl, k, i, q), tbl[k.Child(i) := q];
    forall v: nat | v < VPAGES
      ensures Mapped(next, more, v) <==> Mapped(mem, tbl, v)
      ensures Mapped(mem, tbl, v) ==> next[more[KeyOf(v, 3)]] == mem[tbl[KeyOf(v, 3)]]
    {
      assert Index(v, 3) < ENTRIES;
    }
  }

  lemma LinkNonEmpty(mem: seq<Table>, tbl: Tables, k: Key, i: nat, q: nat)
    requires Placed(mem, tbl) && k in tbl && i < ENTRIES
    requires k.Child(i) !in tbl && q < |mem| && q !in tbl.Values && q < MAX_FRAMES
    requires NonEmpty(mem, tbl, {k})
    requires Placed(LinkTable(mem, tbl, k, i, q), tbl[k.Child(i) := q])
    ensures NonEmpty(LinkTable(mem, tbl, k, i, q), tbl[k.Child(i) := q], {k.Child(i)})
  {
    var next := LinkTable(mem, tbl, k, i, q);
    assert next[tbl[k]][i] != 0;
    forall l <- tbl | l != k
      ensures next[tbl[l]] == mem[tbl[l]]
    {
    }
  }

  lemma LeafSlots(u: nat, v: nat)
    ensures KeyOf(u, 3) == KeyOf(v, 3) && Index(u, 3) == Index(v, 3) ==> u == v
  {
  }

  lemma LeafKeepsTree(mem: seq<Table>, tbl: Tables, v: nat, w: Word)
    requires Tree(mem, tbl) && v < VPAGES && KeyOf(v, 3) in tbl && (w == 0 || Present(w))
    ensures Tree(Write(mem, tbl[KeyOf(v, 3)], Index(v, 3), w), tbl)
  {
    var k := KeyOf(v, 3);
    var next := Write(mem, tbl[k], Index(v, 3), w);
    forall l <- tbl | l != k
      ensures next[tbl[l]] == mem[tbl[l]]
    {
    }
  }

  /** Writing the leaf entry of v changes the translation of v and of no other page. */
  lemma LeafTranslates(mem: seq<Table>, tbl: Tables, v: nat, w: Word)
    requires Placed(mem, tbl) && v < VPAGES && KeyOf(v, 3) in tbl
    ensures Flat(Write(mem, tbl[KeyOf(v, 3)], Index(v, 3), w), tbl) ==
            if w == 0 then Flat(mem, tbl) - {v} else Flat(mem, tbl)[v := w]
  {
    hide TableEntry, Present, Tree;
    var k, i := KeyOf(v, 3), Index(v, 3);
    var next := Write(mem, tbl[k], i, w);
    assert next[tbl[k]][i] == w;
    forall u: nat | u < VPAGES && u != v && KeyOf(u, 3) in tbl
      ensures next[tbl[KeyOf(u, 3)]][Index(u, 3)] == mem[tbl[KeyOf(u, 3)]][Index(u, 3)]
    {
      LeafSlots(u, v);
    }
  }

  /** An empty table has no children. */
  lemma BlankIsChildless(mem: seq<Table>, tbl: Tables, k: Key, l: Key)
    requires Tree(mem, tbl) && k in tbl && Blank(mem[tbl[k]]) && l in tbl && l.depth > 0
    ensures l.Parent() != k
  {
    assert l.Parent().Child(l.Slot()) == l;
    assert mem[tbl[l.Parent()]][l.Slot()] == TableEntry(tbl[l]);
  }

  /** Unlinking an empty table. */
  lemma UnlinkKeepsTree(mem: seq<Table>, tbl: Tables, k: Key)
    requires Tree(mem, tbl) && k in tbl && k.depth > 0 && Blank(mem[tbl[k]])
    ensures Tree(Write(mem, tbl[k.Parent()], k.Slot(), 0), tbl - {k})
  {
    var p, less := k.Parent(), tbl - {k};
    var next := Write(mem, tbl[p], k.Slot(), 0);
    assert p.Child(k.Slot()) == k;
    forall l <- less | l.depth > 0
      ensures l.Parent() in less
    {
      BlankIsChildless(mem, tbl, k, l);
    }
    forall l <- tbl | l != p
      ensures next[tbl[l]] == mem[tbl[l]]
    {
    }
    forall l <- less, j: nat | l.depth < 3 && j < ENTRIES
      ensures next[less[l]][j] == if l.Child(j) in less then TableEntry(less[l.Child(j)]) else 0
    {
      hide TableEntry;
      ChildKeys(p, k.Slot(), l, j);
    }
  }

  lemma UnlinkNonEmpty(mem: seq<Table>, tbl: Tables, k: Key)
    requires Tree(mem, tbl) && k in tbl && k.depth > 0 && Blank(mem[tbl[k]])
    requires NonEmpty(mem, tbl, {k})
    requires Placed(Write(mem, tbl[k.Parent()], k.Slot(), 0), tbl - {k})
    ensures NonEmpty(Write(mem, tbl[k.Parent()], k.Slot(), 0), tbl - {k}, {k.Parent()})
  {
    var next := Write(mem, tbl[k.Parent()], k.Slot(), 0);
    forall l <- tbl | l != k.Parent()
      ensures next[tbl[l]] == mem[tbl[l]]
    {
    }
  }

  lemma UnlinkUnmapsNothing(mem: seq<Table>, tbl: Tables, k: Key)
    requires Tree(mem, tbl) && k in tbl && k.depth > 0 && Blank(mem[tbl[k]])
    requires Placed(Write(mem, tbl[k.Parent()], k.Slot(), 0), tbl - {k})
    ensures Flat(Write(mem, tbl[k.Parent()], k.Slot(), 0), tbl - {k}) == Flat(mem, tbl)
  {
    hide TableEntry, Present;
    var p, less := k.Parent(), tbl - {k};
    var next := Write(mem, tbl[p], k.Slot(), 0);
    forall v: nat | KeyOf(v, 3) in tbl
      ensures Mapped(next, less, v) <==> Mapped(mem, tbl, v)
      ensures next[tbl[KeyOf(v, 3)]] == mem[tbl[KeyOf(v, 3)]]
    {
      assert KeyOf(v, 3) != p;
      assert Index(v, 3) < ENTRIES;
    }
    hide Tree, Blank, KeyOf, Index, Write;
  }
}
