/** The virtual memory manager: page tables that come from the page allocator and go back to it. */
module Vmm {
  import opened Common
  import opened PageTables
  import Pmm

  /** An address space as a value: physical memory, the live tables and the allocator's free pages. */
  datatype Space = Space(mem: seq<Table>, tbl: Tables, free: set<nat>) {

    /** The tree is intact, every table but the root is in use for something, and no table page is
        free. */
    ghost predicate Inv() { Building({}) }

    /** The invariant in the middle of a call, when the tables in `but` may be empty. */
    ghost predicate Building(but: set<Key>) {
      && Placed(mem, tbl)
      && Tree(mem, tbl)
      && NonEmpty(mem, tbl, but)
      && Owned()
    }

    ghost predicate Owned() {
      && tbl.Values !! free
      && (forall p <- free :: p < |mem|)
    }

    ghost function Translation(): map<nat, Word> { Flat(mem, tbl) }

    /** Every page that is free or holds a table; the paging code only moves pages between the two. */
    ghost function Stock(): set<nat> { free + tbl.Values }
  }

  // ----- Ranges of the flat map -----

  function LeafEntry(frame: nat, flags: nat): nat { MakeEntry(frame * PAGE_SIZE, flags) }

  ghost function MapOne(m: map<nat, nat>, v: nat, p: nat, flags: nat): map<nat, nat> {
    m[v := LeafEntry(p, flags)]
  }

  /** n pages from v on sent to the n frames from p on. */
  ghost function MapRange(m: map<nat, nat>, v: nat, p: nat, n: nat, flags: nat): map<nat, nat> {
    map u: nat | u in m.Keys + Range(v, n) :: if u in Range(v, n) then LeafEntry(p + (u - v), flags) else m[u]
  }

  ghost function UnmapRange(m: map<nat, nat>, v: nat, n: nat): map<nat, nat> {
    m - Range(v, n)
  }

  predicate LeafFlags(flags: nat) {
    flags < PAGE_SIZE && flags % 2 == FLAG_PRESENT
  }

  // ----- What one call does -----

  /** Only table pages were written, and the tables stayed where they were. */
  ghost predicate Grew(s: Space, t: Space) {
    && |s.mem| == |t.mem|
    && s.tbl.Items <= t.tbl.Items
    && t.Stock() == s.Stock()
    && forall q: nat | q < |s.mem| && q !in t.tbl.Values :: t.mem[q] == s.mem[q]
  }

  ghost predicate Mapping(s: Space, t: Space, v: nat, p: nat, n: nat, flags: nat) {
    && s.Inv() && t.Inv() && Grew(s, t)
    && t.Translation() == MapRange(s.Translation(), v, p, n, flags)
  }

  ghost predicate Unmapping(s: Space, t: Space, v: nat, n: nat) {
    && s.Inv() && t.Inv() && Grew(t, s)
    && t.Translation() == UnmapRange(s.Translation(), v, n)
  }

  // ----- What the hardware makes of it -----

  /** The walk from table root leads page v to this frame, with exactly these flags in force. */
  ghost predicate PageAt(mem: seq<Table>, root: nat, v: nat, frame: nat, flags: nat) {
    && OpenWay(mem, root, v, 0)
    && var w := Walk(mem, root, v, 0);
       w.Some? && w.value / PAGE_SIZE == frame && w.value % PAGE_SIZE == flags
  }

  lemma {:induction false} RootKey(v: nat)
    requires v < VPAGES
    ensures KeyOf(v, 0) == Root
  {
  }

  lemma WalksFlat(s: Space, v: nat)
    requires s.Inv() && v < VPAGES
    ensures Walk(s.mem, s.tbl[Root], v, 0) == if v in s.Translation() then Some(s.Translation()[v]) else None
    ensures v in s.Translation() ==> OpenWay(s.mem, s.tbl[Root], v, 0)
  {
    hide Tree, Placed, NonEmpty, Flat, KeyOf, Walk, OpenWay;
    RootKey(v);
    RootLive(s);
    WalkFrom(s.mem, s.tbl, v, 0);
    if v in s.Translation() {
      WayIsOpen(s.mem, s.tbl, v, 0);
    }
  }

  lemma RootLive(s: Space)
    requires s.Inv()
    ensures Root in s.tbl
  {
    hide Tree, NonEmpty;
  }

  /** After mapping n pages from v on to the frames from p on, page v + k leads to frame p + k with exactly
      these flags, and every other page leads where it led. */
  lemma MappingWalks(s: Space, t: Space, v: nat, p: nat, n: nat, flags: nat, u: nat)
    requires Mapping(s, t, v, p, n, flags) && flags < PAGE_SIZE && u < VPAGES
    ensures Root in s.tbl && Root in t.tbl && t.tbl[Root] == s.tbl[Root]
    ensures if v <= u < v + n then PageAt(t.mem, t.tbl[Root], u, p + (u - v), flags)
            else Walk(t.mem, t.tbl[Root], u, 0) == Walk(s.mem, s.tbl[Root], u, 0)
  {
    hide Space.Building, Space.Translation, Walk, OpenWay, MakeEntry;
    RootLive(s);
    SubmapLookup(s.tbl, t.tbl, Root);
    WalksFlat(s, u);
    WalksFlat(t, u);
    if v <= u < v + n {
      EntryParts((p + (u - v)) * PAGE_SIZE, flags);
    }
  }

  /** After unmapping n pages from v on these lead nowhere, and every other page leads where it led. */
  lemma UnmappingWalks(s: Space, t: Space, v: nat, n: nat, u: nat)
    requires Unmapping(s, t, v, n) && u < VPAGES
    ensures Root in s.tbl && Root in t.tbl && t.tbl[Root] == s.tbl[Root]
    ensures Walk(t.mem, t.tbl[Root], u, 0) == if v <= u < v + n then None else Walk(s.mem, s.tbl[Root], u, 0)
  {
    hide Space.Building, Space.Translation, Walk, OpenWay;
    RootLive(t);
    SubmapLookup(t.tbl, s.tbl, Root);
    WalksFlat(s, u);
    WalksFlat(t, u);
  }

  /** Page u after n pages from v on were sent to the frames from p on: page v + k leads to frame p + k with
      exactly these flags, and all others lead where they led. */
  ghost predicate LeadsAt(
    mem: seq<Table>, now: seq<Table>, root: nat, v: nat, p: nat, n: nat, flags: nat, u: nat)
  {
    if v <= u < v + n then PageAt(now, root, u, p + (u - v), flags)
    else Walk(now, root, u, 0) == Walk(mem, root, u, 0)
  }

  /** What vmm_map is for, on physical memory before and after. */
  ghost predicate Leads(mem: seq<Table>, now: seq<Table>, root: nat, v: nat, p: nat, n: nat, flags: nat) {
    forall u: nat | u < VPAGES :: LeadsAt(mem, now, root, v, p, n, flags, u)
  }

  /** And vmm_unmap. */
  ghost predicate LeadsNowhere(mem: seq<Table>, now: seq<Table>, root: nat, v: nat, n: nat) {
    forall u: nat | u < VPAGES ::
      Walk(now, root, u, 0) == if v <= u < v + n then None else Walk(mem, root, u, 0)
  }

  lemma MappingLeads(s: Space, t: Space, v: nat, p: nat, n: nat, flags: nat)
    requires Mapping(s, t, v, p, n, flags) && flags < PAGE_SIZE
    ensures Root in s.tbl && Leads(s.mem, t.mem, s.tbl[Root], v, p, n, flags)
  {
    MappingWalks(s, t, v, p, n, flags, 0);
    hide Mapping, Walk, PageAt;
    forall u: nat | u < VPAGES
      ensures LeadsAt(s.mem, t.mem, s.tbl[Root], v, p, n, flags, u)
    {
      MappingWalks(s, t, v, p, n, flags, u);
    }
  }

  lemma UnmappingLeads(s: Space, t: Space, v: nat, n: nat)
    requires Unmapping(s, t, v, n)
    ensures Root in s.tbl && LeadsNowhere(s.mem, t.mem, s.tbl[Root], v, n)
  {
    UnmappingWalks(s, t, v, n, 0);
    hide Unmapping, Walk;
    forall u: nat | u < VPAGES
      ensures Walk(t.mem, s.tbl[Root], u, 0) == if v <= u < v + n then None else Walk(s.mem, s.tbl[Root], u, 0)
    {
      UnmappingWalks(s, t, v, n, u);
    }
  }

  /** One leaf entry. */
  lemma LeafWalks(s: Space, v: nat, p: nat, flags: nat)
    requires s.Inv() && v < VPAGES && flags < PAGE_SIZE
    requires v in s.Translation() && s.Translation()[v] == LeafEntry(p, flags)
    ensures Root in s.tbl && PageAt(s.mem, s.tbl[Root], v, p, flags)
  {
    hide Space.Building, Space.Translation, Walk, OpenWay, MakeEntry;
    RootLive(s);
    WalksFlat(s, v);
    EntryParts(p * PAGE_SIZE, flags);
  }

  // ----- The tables are determined by what is mapped -----

  /** Some mapped page goes through table k. */
  ghost predicate Used(s: Space, k: Key)
    requires s.Inv() && k.depth <= 3
  {
    exists v: nat :: v in s.Translation() && KeyOf(v, k.depth) == k
  }

  /** The virtual page served by slot i of the leaf table k. */
  function LeafPage(k: Key, i: nat): nat { k.prefix * ENTRIES + i }

  lemma LeafPageKey(k: Key, i: nat)
    requires k.depth == 3 && k.prefix < Span(3) && i < ENTRIES
    ensures LeafPage(k, i) < VPAGES
    ensures KeyOf(LeafPage(k, i), 3) == k && Index(LeafPage(k, i), 3) == i
  {
  }

  lemma LeafEntryIsTranslation(s: Space, k: Key, i: nat)
    requires Placed(s.mem, s.tbl) && k in s.tbl && k.depth == 3 && i < ENTRIES
    ensures var v := LeafPage(k, i);
            s.mem[s.tbl[k]][i] == if v in s.Translation() then s.Translation()[v] else 0
  {
    LeafPageKey(k, i);
    assert LeafPage(k, i) in s.Translation() <==> Mapped(s.mem, s.tbl, LeafPage(k, i));
  }

  lemma UsedIsLive(s: Space, k: Key)
    requires s.Inv() && k.depth <= 3 && Used(s, k)
    ensures k in s.tbl
  {
    var v: nat :| v in s.Translation() && KeyOf(v, k.depth) == k;
    if k !in s.tbl {
      NoTableBelow(s.mem, s.tbl, v, k.depth, 3);
      assert false;
    }
  }

  /** A live table is on the way to some mapped page: the invariant leaves no empty table behind. */
  lemma {:induction false} LiveIsUsed(s: Space, k: Key)
    requires s.Inv() && k in s.tbl && k.depth > 0
    ensures Used(s, k)
    decreases 3 - k.depth
  {
    assert !Blank(s.mem[s.tbl[k]]);
    var i: nat :| i < ENTRIES && s.mem[s.tbl[k]][i] != 0;
    if k.depth == 3 {
      LeafPageKey(k, i);
      LeafEntryIsTranslation(s, k, i);
    } else {
      assert k.Child(i) in s.tbl;
      LiveIsUsed(s, k.Child(i));
      var v: nat :| v in s.Translation() && KeyOf(v, k.depth + 1) == k.Child(i);
      ChildWay(v, k, i);
    }
  }

  lemma ChildWay(v: nat, k: Key, i: nat)
    requires k.depth < 3 && i < ENTRIES && KeyOf(v, k.depth + 1) == k.Child(i)
    ensures KeyOf(v, k.depth) == k
  {
    KeyStep(v, k.depth);
    ChildKeys(k, i, k, i);
  }

  /** Table k is live exactly when it is the root or some mapped page goes through it. */
  lemma LiveIffUsed(s: Space, k: Key)
    requires s.Inv() && 0 < k.depth <= 3
    ensures k in s.tbl <==> Used(s, k)
  {
    if k in s.tbl {
      LiveIsUsed(s, k);
    }
    if Used(s, k) {
      UsedIsLive(s, k);
    }
  }

  /** Two spaces that map the same pages have tables at the same places in the tree. */
  lemma SameMapSameKeys(s: Space, t: Space)
    requires s.Inv() && t.Inv() && s.Translation().Keys == t.Translation().Keys
    ensures s.tbl.Keys == t.tbl.Keys
  {
    forall k: Key
      ensures k in s.tbl <==> k in t.tbl
    {
      if k.depth == 0 {
        assert k in s.tbl || k in t.tbl ==> k == Root;
      } else if k.depth <= 3 {
        LiveIffUsed(s, k);
        LiveIffUsed(t, k);
        assert Used(s, k) <==> Used(t, k);
      }
    }
  }

  lemma SubmapLookup(a: Tables, b: Tables, k: Key)
    requires a.Items <= b.Items && k in a
    ensures k in b && b[k] == a[k]
  {
    assert (k, a[k]) in a.Items;
  }

  /** After mapping and unmapping, the tables that were live before are where they were. */
  lemma SameTables(s: Space, t: Space, u: Space)
    requires s.Inv() && u.Inv() && s.Translation().Keys == u.Translation().Keys
    requires s.tbl.Items <= t.tbl.Items && u.tbl.Items <= t.tbl.Items
    ensures u.tbl == s.tbl
  {
    SameMapSameKeys(s, u);
    forall k <- s.tbl
      ensures u.tbl[k] == s.tbl[k]
    {
      SubmapLookup(s.tbl, t.tbl, k);
      SubmapLookup(u.tbl, t.tbl, k);
    }
  }

  lemma UndoRange(m: map<nat, nat>, v: nat, p: nat, n: nat, flags: nat)
    requires m.Keys !! Range(v, n)
    ensures UnmapRange(MapRange(m, v, p, n, flags), v, n) == m
  {
  }

  lemma FreeFromStock(s: Space)
    requires s.Owned()
    ensures s.free == s.Stock() - s.tbl.Values
  {
  }

  /** Mapping a range that was not mapped and unmapping it again restores the translation, the live
      tables with all their contents, and the exact set of free pages. */
  lemma RoundTrip(s: Space, t: Space, u: Space, v: nat, p: nat, n: nat, flags: nat)
    requires Mapping(s, t, v, p, n, flags) && Unmapping(t, u, v, n)
    requires s.Translation().Keys !! Range(v, n)
    ensures u.Translation() == s.Translation()
    ensures u.tbl == s.tbl && u.free == s.free
    ensures forall k <- s.tbl :: u.mem[u.tbl[k]] == s.mem[s.tbl[k]]
  {
    UndoRange(s.Translation(), v, p, n, flags);
    SameTables(s, t, u);
    FreeFromStock(s);
    FreeFromStock(u);
    forall k <- s.tbl
      ensures u.mem[u.tbl[k]] == s.mem[s.tbl[k]]
    {
      TableContents(s, u, k);
    }
  }

  /** The contents of a table follow from the live tables and the translation. */
  lemma TableContents(s: Space, u: Space, k: Key)
    requires s.Inv() && u.Inv() && u.tbl == s.tbl && u.Translation() == s.Translation() && k in s.tbl
    ensures u.mem[u.tbl[k]] == s.mem[s.tbl[k]]
  {
    forall i: nat | i < ENTRIES
      ensures u.mem[u.tbl[k]][i] == s.mem[s.tbl[k]][i]
    {
      if k.depth == 3 {
        LeafEntryIsTranslation(s, k, i);
        LeafEntryIsTranslation(u, k, i);
      }
    }
  }

  // ----- Runs -----

  datatype Call = Map(v: nat, p: nat, n: nat, flags: nat) | Unmap(v: nat, n: nat)

  ghost predicate Step(s: Space, c: Call, t: Space) {
    match c
    case Map(v, p, n, flags) => Mapping(s, t, v, p, n, flags)
    case Unmap(v, n) => Unmapping(s, t, v, n)
  }

  ghost predicate IsRun(run: seq<Space>, calls: seq<Call>) {
    && |run| == |calls| + 1
    && run[0].Inv()
    && forall i: nat | i < |calls| :: Step(run[i], calls[i], run[i + 1])
  }

  /** The flat map after a list of calls. */
  ghost function After(m: map<nat, nat>, calls: seq<Call>): map<nat, nat> {
    if calls == [] then m
    else
      var before := After(m, calls[..|calls| - 1]);
      match calls[|calls| - 1]
      case Map(v, p, n, flags) => MapRange(before, v, p, n, flags)
      case Unmap(v, n) => UnmapRange(before, v, n)
  }

  lemma {:induction false} TablesCount(tbl: Tables)
    requires Injective(tbl)
    ensures |tbl.Values| == |tbl|
  {
    hide Injective;
    if tbl != map[] {
      var k :| k in tbl;
      OneTableLess(tbl, k);
      TablesCount(tbl - {k});
    }
  }

  ghost predicate Injective(tbl: Tables) {
    forall k <- tbl, l <- tbl :: tbl[k] == tbl[l] ==> k == l
  }

  lemma OneTableLess(tbl: Tables, k: Key)
    requires Injective(tbl) && k in tbl
    ensures Injective(tbl - {k}) && |tbl - {k}| == |tbl| - 1
    ensures |(tbl - {k}).Values| == |tbl.Values| - 1
  {
    var rest := tbl - {k};
    assert rest.Keys == tbl.Keys - {k};
    assert rest.Values == tbl.Values - {tbl[k]} by {
      forall q
        ensures q in rest.Values <==> q in tbl.Values && q != tbl[k]
      {
        if q in tbl.Values && q != tbl[k] {
          var l :| l in tbl && tbl[l] == q;
          assert l in rest && rest[l] == q;
        }
      }
    }
  }

  /** Two spaces with the same stock have the same number of free pages and tables together. */
  lemma StockCount(s: Space)
    requires s.Inv()
    ensures |s.Stock()| == |s.free| + |s.tbl|
  {
    TablesCount(s.tbl);
  }

  lemma {:induction false} RunInvariant(run: seq<Space>, calls: seq<Call>)
    requires IsRun(run, calls)
    ensures run[|calls|].Inv()
    ensures run[|calls|].Translation() == After(run[0].Translation(), calls)
    ensures run[|calls|].Stock() == run[0].Stock()
    ensures run[|calls|].tbl[Root] == run[0].tbl[Root]
  {
    var n := |calls|;
    if n > 0 {
      var s, c, t := run[n - 1], calls[n - 1], run[n];
      var front := calls[..n - 1];
      assert IsRun(run[..n], front) by {
        forall i: nat | i < n - 1
          ensures Step(run[..n][i], front[i], run[..n][i + 1])
        {
          assert Step(run[i], calls[i], run[i + 1]);
        }
      }
      RunInvariant(run[..n], front);
      assert Step(s, c, t);
      StepKeepsRoot(s, c, t);
    }
  }

  lemma StepKeepsRoot(s: Space, c: Call, t: Space)
    requires Step(s, c, t)
    ensures s.tbl[Root] == t.tbl[Root]
  {
    if c.Map? {
      SubmapLookup(s.tbl, t.tbl, Root);
    } else {
      SubmapLookup(t.tbl, s.tbl, Root);
    }
  }

  /** After any run of calls: the hardware walk from the PML4 agrees with the flat map that the calls
      describe, the tree is intact, and no page was gained or lost. */
  lemma RunRefinesAndConserves(run: seq<Space>, calls: seq<Call>, v: nat)
    requires IsRun(run, calls) && v < VPAGES
    ensures run[|calls|].Inv()
    ensures var m := After(run[0].Translation(), calls);
            Walk(run[|calls|].mem, run[0].tbl[Root], v, 0) == if v in m then Some(m[v]) else None
    ensures run[|calls|].Stock() == run[0].Stock()
    ensures |run[|calls|].free| + |run[|calls|].tbl| == |run[0].free| + |run[0].tbl|
  {
    var last := run[|calls|];
    RunInvariant(run, calls);
    WalkIsFlat(last.mem, last.tbl, v);
    StockCount(last);
    StockCount(run[0]);
  }

  ghost predicate Covers(c: Call, v: nat) { c.v <= v < c.v + c.n }

  /** What one call makes of page v. */
  lemma StepWalks(s: Space, c: Call, t: Space, v: nat)
    requires Step(s, c, t) && v < VPAGES && (c.Map? ==> c.flags < PAGE_SIZE)
    ensures Root in s.tbl && Root in t.tbl && t.tbl[Root] == s.tbl[Root]
    ensures !Covers(c, v) ==> Walk(t.mem, t.tbl[Root], v, 0) == Walk(s.mem, s.tbl[Root], v, 0)
    ensures Covers(c, v) && c.Map? ==> PageAt(t.mem, t.tbl[Root], v, c.p + (v - c.v), c.flags)
    ensures Covers(c, v) && c.Unmap? ==> Walk(t.mem, t.tbl[Root], v, 0) == None
  {
    hide Mapping, Unmapping, Walk, PageAt;
    match c
    case Map(w, p, n, flags) => MappingWalks(s, t, w, p, n, flags, v);
    case Unmap(w, n) => UnmappingWalks(s, t, w, n, v);
  }

  /** Calls that do not cover page v leave it where it leads. */
  lemma {:induction false} WalkStays(run: seq<Space>, calls: seq<Call>, v: nat, i: nat, j: nat)
    requires IsRun(run, calls) && v < VPAGES && i <= j < |run|
    requires forall k :: i <= k < j ==> !Covers(calls[k], v) && (calls[k].Map? ==> calls[k].flags < PAGE_SIZE)
    ensures Root in run[i].tbl && Root in run[j].tbl && run[j].tbl[Root] == run[i].tbl[Root]
    ensures Walk(run[j].mem, run[j].tbl[Root], v, 0) == Walk(run[i].mem, run[i].tbl[Root], v, 0)
  {
    hide Walk, Covers, Mapping, Unmapping, Space.Inv;
    if i == j {
      RunRoot(run, calls, i);
    } else {
      WalkStays(run, calls, v, i, j - 1);
      assert Step(run[j - 1], calls[j - 1], run[j]);
      StepWalks(run[j - 1], calls[j - 1], run[j], v);
    }
  }

  lemma RunRoot(run: seq<Space>, calls: seq<Call>, i: nat)
    requires IsRun(run, calls) && i < |run|
    ensures run[i].Inv() && Root in run[i].tbl
  {
    hide Tree, NonEmpty, Placed, Grew, Space.Translation;
    if i > 0 {
      assert Step(run[i - 1], calls[i - 1], run[i]);
    }
    RootLive(run[i]);
  }

  /** In every run the last call that covers a page decides what the hardware finds there: the frame and the
      flags that a vmm_map gave, nothing after a vmm_unmap. A page no call covers stays as it was. */
  lemma LastCallDecides(run: seq<Space>, calls: seq<Call>, v: nat, k: nat)
    requires IsRun(run, calls) && v < VPAGES && k < |calls| && Covers(calls[k], v)
    requires forall j :: k < j < |calls| ==> !Covers(calls[j], v)
    requires forall j :: 0 <= j < |calls| && calls[j].Map? ==> calls[j].flags < PAGE_SIZE
    ensures var n := run[|calls|];
            && Root in n.tbl && Root in run[0].tbl && n.tbl[Root] == run[0].tbl[Root]
            && match calls[k]
               case Map(w, p, _, flags) => PageAt(n.mem, n.tbl[Root], v, p + (v - w), flags)
               case Unmap(_, _) => Walk(n.mem, n.tbl[Root], v, 0) == None
  {
    hide Mapping, Unmapping, Walk, OpenWay, Covers, Space.Inv, Space.Translation, After;
    assert Step(run[k], calls[k], run[k + 1]);
    StepWalks(run[k], calls[k], run[k + 1], v);
    WalkStays(run, calls, v, k + 1, |calls|);
    RunInvariant(run, calls);
    RunRoot(run, calls, 0);
    WalksFlat(run[|calls|], v);
  }

  // ----- Steps between calls: one table linked, one leaf written, one table unlinked -----

  lemma GrewTransitive(s: Space, t: Space, u: Space)
    requires Grew(s, t) && Grew(t, u)
    ensures Grew(s, u)
  {
    forall q: nat | q < |s.mem| && q !in u.tbl.Values
      ensures u.mem[q] == s.mem[q]
    {
      if q in t.tbl.Values {
        ValuesGrow(t.tbl, u.tbl, q);
      }
    }
  }

  lemma ValuesGrow(a: Tables, b: Tables, q: nat)
    requires a.Items <= b.Items && q in a.Values
    ensures q in b.Values
  {
    var k :| k in a && a[k] == q;
    SubmapLookup(a, b, k);
  }

  /** Facts about a live table that the code relies on. */
  lemma LiveTable(s: Space, but: set<Key>, k: Key)
    requires s.Building(but) && k in s.tbl
    ensures s.tbl[k] < |s.mem| <= MAX_FRAMES && Root in s.tbl
    ensures k.depth > 0 ==> k.Parent() in s.tbl && k.Parent() != k
    ensures Placed(s.mem, s.tbl) && Tree(s.mem, s.tbl)
  {
  }

  lemma MayBeEmpty(s: Space, k: Key)
    requires s.Inv()
    ensures s.Building({k})
  {
  }

  lemma RootMayBeEmpty(s: Space)
    requires s.Building({Root})
    ensures s.Inv()
  {
  }

  lemma GrewSame(s: Space)
    ensures Grew(s, s)
  {
  }

  lemma NotEmpty(s: Space, k: Key)
    requires s.Building({k}) && k in s.tbl && (k.depth == 0 || !Blank(s.mem[s.tbl[k]]))
    ensures s.Inv()
  {
  }

  lemma ChildEntry(s: Space, but: set<Key>, k: Key, i: nat)
    requires s.Building(but) && k in s.tbl && k.depth < 3 && i < ENTRIES
    ensures Present(s.mem[s.tbl[k]][i]) <==> k.Child(i) in s.tbl
    ensures s.mem[s.tbl[k]][i] != 0 <==> k.Child(i) in s.tbl
    ensures k.Child(i) in s.tbl ==> s.mem[s.tbl[k]][i] == TableEntry(s.tbl[k.Child(i)])
    ensures k.Child(i) in s.tbl ==> FrameOf(s.mem[s.tbl[k]][i]) == s.tbl[k.Child(i)] < MAX_FRAMES
  {
    if k.Child(i) in s.tbl {
      TableEntryPoints(s.tbl[k.Child(i)]);
    }
  }

  lemma PresentChild(s: Space, k: Key, i: nat)
    requires s.Building({k}) && k in s.tbl && k.depth < 3 && i < ENTRIES
    requires Present(s.mem[s.tbl[k]][i])
    ensures k.Child(i) in s.tbl && s.tbl[k.Child(i)] == FrameOf(s.mem[s.tbl[k]][i])
    ensures s.Building({k.Child(i)})
  {
    ChildEntry(s, {k}, k, i);
    assert s.mem[s.tbl[k]][i] != 0;
    NotEmpty(s, k);
    MayBeEmpty(s, k.Child(i));
  }

  /** A free page q becomes the table in slot i of table k. */
  ghost function Linked(s: Space, k: Key, i: nat, q: nat): Space
    requires Placed(s.mem, s.tbl) && k in s.tbl && i < ENTRIES && q < |s.mem| && q < MAX_FRAMES
  {
    Space(LinkTable(s.mem, s.tbl, k, i, q), s.tbl[k.Child(i) := q], s.free - {q})
  }

  lemma LinkStep(s: Space, k: Key, i: nat, q: nat)
    requires s.Building({k}) && k in s.tbl && k.depth < 3 && i < ENTRIES
    requires !Present(s.mem[s.tbl[k]][i]) && q in s.free
    ensures q < |s.mem| && q < MAX_FRAMES
    ensures Linked(s, k, i, q).Building({k.Child(i)}) && Grew(s, Linked(s, k, i, q))
    ensures Linked(s, k, i, q).Translation() == s.Translation()
  {
    ChildEntry(s, {k}, k, i);
    LinkPlaced(s.mem, s.tbl, k, i, q);
    LinkKeepsTree(s.mem, s.tbl, k, i, q);
    LinkMapsNothing(s.mem, s.tbl, k, i, q);
    LinkNonEmpty(s.mem, s.tbl, k, i, q);
    StockMoves(s.tbl, s.free, k.Child(i), q);
  }

  /** A free page becomes a table. */
  lemma StockMoves(tbl: Tables, free: set<nat>, c: Key, q: nat)
    requires q in free && c !in tbl && tbl.Values !! free
    ensures tbl[c := q].Values !! free - {q}
    ensures tbl[c := q].Values + (free - {q}) == tbl.Values + free
    ensures tbl.Items <= tbl[c := q].Items && tbl[c := q].Values == tbl.Values + {q}
  {
    var more := tbl[c := q];
    assert more[c] == q;
    forall l <- tbl
      ensures more[l] == tbl[l]
    {
    }
    forall p <- tbl.Values
      ensures p in more.Values
    {
      var l :| l in tbl && tbl[l] == p;
      assert more[l] == p;
    }
  }

  ghost function Written(s: Space, v: nat, w: Word): Space
    requires Placed(s.mem, s.tbl) && KeyOf(v, 3) in s.tbl
  {
    s.(mem := Write(s.mem, s.tbl[KeyOf(v, 3)], Index(v, 3), w))
  }

  lemma LeafStep(s: Space, v: nat, w: Word)
    requires v < VPAGES && KeyOf(v, 3) in s.tbl && s.Building({KeyOf(v, 3)}) && Present(w)
    ensures Written(s, v, w).Inv() && Grew(s, Written(s, v, w))
    ensures Written(s, v, w).Translation() == s.Translation()[v := w]
  {
    hide Flat, Placed, NonEmpty, KeyOf, Index;
    LeafKeepsTree(s.mem, s.tbl, v, w);
    LeafTranslates(s.mem, s.tbl, v, w);
    LeafNonEmpty(s, v, w);
    WrittenElsewhere(s, v, w);
  }

  lemma ClearStep(s: Space, v: nat)
    requires v < VPAGES && KeyOf(v, 3) in s.tbl && s.Inv()
    ensures Written(s, v, 0).Building({KeyOf(v, 3)}) && Grew(Written(s, v, 0), s)
    ensures Written(s, v, 0).Translation() == s.Translation() - {v}
  {
    hide Flat, Placed, NonEmpty, KeyOf, Index;
    LeafKeepsTree(s.mem, s.tbl, v, 0);
    LeafTranslates(s.mem, s.tbl, v, 0);
    MayBeEmpty(s, KeyOf(v, 3));
    LeafNonEmpty(s, v, 0);
    WrittenElsewhere(s, v, 0);
  }

  lemma LeafNonEmpty(s: Space, v: nat, w: Word)
    requires KeyOf(v, 3) in s.tbl && s.Building({KeyOf(v, 3)})
    ensures NonEmpty(Written(s, v, w).mem, s.tbl, {KeyOf(v, 3)})
    ensures w != 0 ==> NonEmpty(Written(s, v, w).mem, s.tbl, {})
  {
    hide Flat, Tree;
    assert Written(s, v, w).mem[s.tbl[KeyOf(v, 3)]][Index(v, 3)] == w;
  }

  lemma WrittenElsewhere(s: Space, v: nat, w: Word)
    requires Placed(s.mem, s.tbl) && KeyOf(v, 3) in s.tbl
    ensures Placed(Written(s, v, w).mem, s.tbl)
    ensures Grew(s, Written(s, v, w)) && Grew(Written(s, v, w), s)
  {
    assert s.tbl[KeyOf(v, 3)] in s.tbl.Values;
  }

  /** An empty table k leaves the tree and its page becomes free. */
  ghost function Unlinked(s: Space, k: Key): Space
    requires Tree(s.mem, s.tbl) && k in s.tbl && k.depth > 0
  {
    Space(Write(s.mem, s.tbl[k.Parent()], k.Slot(), 0), s.tbl - {k}, s.free + {s.tbl[k]})
  }

  lemma UnlinkStep(s: Space, k: Key)
    requires s.Building({k}) && k in s.tbl && k.depth > 0 && Blank(s.mem[s.tbl[k]])
    ensures Unlinked(s, k).Building({k.Parent()}) && Grew(Unlinked(s, k), s)
    ensures Unlinked(s, k).Translation() == s.Translation()
  {
    hide Flat;
    UnlinkKeepsTree(s.mem, s.tbl, k);
    UnlinkUnmapsNothing(s.mem, s.tbl, k);
    UnlinkNonEmpty(s.mem, s.tbl, k);
    UnlinkStock(s, k);
  }

  lemma UnlinkStock(s: Space, k: Key)
    requires s.Building({k}) && k in s.tbl && k.depth > 0
    ensures Unlinked(s, k).Owned() && Grew(Unlinked(s, k), s)
  {
    ParentLive(s, k);
    KeyGone(s, k);
    UnlinkedParts(s, k);
    hide Flat, NonEmpty, Tree, Placed, Unlinked;
    OneTableBack(s.tbl, s.free, k);
    OneWrite(s.mem, s.tbl[k.Parent()], k.Slot(), 0);
    hide Write;
  }

  /** The page of table k moves from the tables to the free pages. */
  lemma OneTableBack(tbl: Tables, free: set<nat>, k: Key)
    requires k in tbl && tbl[k] !in (tbl - {k}).Values && tbl.Values !! free
    ensures (tbl - {k}).Values !! free + {tbl[k]}
    ensures (tbl - {k}).Items <= tbl.Items
    ensures tbl.Values + free == (tbl - {k}).Values + (free + {tbl[k]})
  {
    var less := tbl - {k};
    assert less[k := tbl[k]] == tbl;
    StockMoves(less, free + {tbl[k]}, k, tbl[k]);
  }

  /** A write changes one page. */
  lemma OneWrite(mem: seq<Table>, page: nat, i: nat, w: Word)
    requires page < |mem| && i < ENTRIES
    ensures |Write(mem, page, i, w)| == |mem|
    ensures forall q: nat | q < |mem| && q != page :: Write(mem, page, i, w)[q] == mem[q]
  {
  }

  lemma UnlinkedParts(s: Space, k: Key)
    requires s.Building({k}) && k in s.tbl && k.depth > 0
    ensures k.Parent() in s.tbl && s.tbl[k.Parent()] < |s.mem| && k.Slot() < ENTRIES
    ensures Unlinked(s, k).mem == Write(s.mem, s.tbl[k.Parent()], k.Slot(), 0)
    ensures Unlinked(s, k).tbl == s.tbl - {k} && Unlinked(s, k).free == s.free + {s.tbl[k]}
    ensures s.Owned()
  {
    hide Flat, NonEmpty, Write;
  }

  lemma ParentLive(s: Space, k: Key)
    requires s.Building({k}) && k in s.tbl && k.depth > 0
    ensures k.Parent() in s.tbl && s.tbl[k.Parent()] in s.tbl.Values && s.tbl[k] in s.tbl.Values
    ensures s.tbl[k] < |s.mem|
  {
    hide Flat, NonEmpty;
  }

  lemma KeyGone(s: Space, k: Key)
    requires Placed(s.mem, s.tbl) && k in s.tbl
    ensures s.tbl[k] !in (s.tbl - {k}).Values
  {
  }

  // ----- Addresses -----

  /** The virtual page of an address: bits 12 to 47. */
  function VPage(vaddr: nat): nat { (vaddr / PAGE_SIZE) % VPAGES }

  /** Dropping digits above the one selected does not change it. */
  lemma LowDigits(p: nat)
    ensures p % ENTRIES == (p % VPAGES) % ENTRIES
    ensures (p / 0x200) % ENTRIES == ((p % VPAGES) / 0x200) % ENTRIES
    ensures (p / 0x4_0000) % ENTRIES == ((p % VPAGES) / 0x4_0000) % ENTRIES
    ensures (p / 0x800_0000) % ENTRIES == ((p % VPAGES) / 0x800_0000) % ENTRIES
  {
    var q, r := p / VPAGES, p % VPAGES;
    assert p == q * VPAGES + r;
    assert p == 0x200 * (q * 0x800_0000) + r;
    assert p / 0x200 == 0x200 * (q * 0x4_0000) + r / 0x200;
    assert p / 0x4_0000 == 0x200 * (q * 0x200) + r / 0x4_0000;
    assert p / 0x800_0000 == 0x200 * q + r / 0x800_0000;
    SameDigit(q * 0x800_0000, r);
    SameDigit(q * 0x4_0000, r / 0x200);
    SameDigit(q * 0x200, r / 0x4_0000);
    SameDigit(q, r / 0x800_0000);
  }

  lemma SameDigit(m: nat, r: nat)
    ensures (0x200 * m + r) % ENTRIES == r % ENTRIES
  {
  }

  lemma Shifts(vaddr: nat)
    ensures vaddr / 0x20_0000 == (vaddr / PAGE_SIZE) / 0x200
    ensures vaddr / 0x4000_0000 == (vaddr / PAGE_SIZE) / 0x4_0000
    ensures vaddr / 0x80_0000_0000 == (vaddr / PAGE_SIZE) / 0x800_0000
  {
  }

  /** The shifts and masks of the code select the indices of the walk. */
  lemma AddressIndices(vaddr: nat)
    ensures (vaddr / 0x1000) % ENTRIES == Index(VPage(vaddr), 3)
    ensures (vaddr / 0x20_0000) % ENTRIES == Index(VPage(vaddr), 2)
    ensures (vaddr / 0x4000_0000) % ENTRIES == Index(VPage(vaddr), 1)
    ensures (vaddr / 0x80_0000_0000) % ENTRIES == Index(VPage(vaddr), 0)
    ensures VPage(vaddr) < VPAGES
  {
    var p := vaddr / PAGE_SIZE;
    LowDigits(p);
    Shifts(vaddr);
  }

  lemma NextPage(vaddr: nat, paddr: nat, k: nat, n: nat)
    requires VPage(vaddr) + n <= VPAGES && k < n
    ensures VPage(vaddr + k * PAGE_SIZE) == VPage(vaddr) + k
    ensures (paddr + k * PAGE_SIZE) / PAGE_SIZE == paddr / PAGE_SIZE + k
  {
    assert (vaddr + k * PAGE_SIZE) / PAGE_SIZE == vaddr / PAGE_SIZE + k;
  }

  /** The keys on the way to v follow the slots that the code uses. */
  lemma Way(v: nat)
    requires v < VPAGES
    ensures KeyOf(v, 0) == Root
    ensures forall d: nat {:trigger KeyOf(v, d)} | d < 3 ::
              && KeyOf(v, d).depth == d
              && KeyOf(v, d).Child(Index(v, d)) == KeyOf(v, d + 1)
              && KeyOf(v, d + 1).Parent() == KeyOf(v, d) && KeyOf(v, d + 1).Slot() == Index(v, d)
    ensures KeyOf(v, 3).depth == 3
  {
    KeyStep(v, 0);
    KeyStep(v, 1);
    KeyStep(v, 2);
  }

  /** Where an entry on the way is not present, the page is not mapped. */
  lemma Unreached(s: Space, v: nat, d: nat)
    requires s.Inv() && v < VPAGES && d < 3 && KeyOf(v, d) in s.tbl
    requires !Present(s.mem[s.tbl[KeyOf(v, d)]][Index(v, d)])
    ensures v !in s.Translation()
  {
    KeyStep(v, d);
    ChildEntry(s, {}, KeyOf(v, d), Index(v, d));
    NoTableBelow(s.mem, s.tbl, v, d + 1, 3);
  }

  lemma AbsentLeaf(s: Space, v: nat)
    requires s.Inv() && KeyOf(v, 3) in s.tbl
    requires !Present(s.mem[s.tbl[KeyOf(v, 3)]][Index(v, 3)])
    ensures v !in s.Translation()
  {
    assert Index(v, 3) < ENTRIES;
  }

  lemma LeafWord(paddr: nat, flags: nat)
    requires LeafFlags(flags) && paddr < WORDS
    ensures MakeEntry(paddr - paddr % PAGE_SIZE, flags) == LeafEntry(paddr / PAGE_SIZE, flags) < WORDS
    ensures Present(LeafEntry(paddr / PAGE_SIZE, flags))
  {
  }

  lemma EmptyRange(m: map<nat, nat>, v: nat, p: nat, flags: nat)
    ensures MapRange(m, v, p, 0, flags) == m && UnmapRange(m, v, 0) == m
  {
    RangeStep(v, 0);
  }

  lemma RangeCallStep(m: map<nat, nat>, v: nat, p: nat, k: nat, flags: nat)
    ensures MapRange(m, v, p, k + 1, flags) == MapOne(MapRange(m, v, p, k, flags), v + k, p + k, flags)
    ensures UnmapRange(m, v, k + 1) == UnmapRange(m, v, k) - {v + k}
  {
    RangeStep(v, k);
  }

  lemma NoPageLeft(free: set<nat>, limit: nat)
    requires forall q <- free :: q < limit
    requires !Pmm.HasRun(free, limit, 1)
    ensures free == {}
  {
    forall q <- free
      ensures false
    {
      assert Range(q, 1) == {q};
      assert Pmm.Fits(free, q, 1);
    }
  }

  // ----- The code -----

  class AddressSpace {
    /** The allocator, all of physical memory as page frames, and the frame of the PML4. */
    const pmm: Pmm.PageAllocator
    const frames: array<Table>
    const pml4: nat
    ghost var space: Space

    /** The memory and the allocator hold what `space` says. */
    ghost predicate Synced()
      reads this, frames, pmm, pmm.bitmap
    {
      && pmm.Valid()
      && frames.Length == pmm.Limit()
      && frames[..] == space.mem
      && pmm.Free() == space.free
      && Root in space.tbl && space.tbl[Root] == pml4
    }

    ghost predicate Valid()
      reads this, frames, pmm, pmm.bitmap
    {
      Synced() && space.Inv()
    }

    /** vmm_init: one zeroed page, already taken from the allocator, becomes the PML4. */
    constructor (pmm: Pmm.PageAllocator, frames: array<Table>, page: nat)
      requires pmm.Valid() && frames.Length == pmm.Limit() <= MAX_FRAMES
      requires page < frames.Length && page !in pmm.Free()
      modifies frames
      ensures Valid() && this.pmm == pmm && this.frames == frames && pml4 == page
      ensures space.Translation() == map[] && space.free == pmm.Free() && space.tbl == map[Root := page]
    {
      this.pmm, this.frames, this.pml4 := pmm, frames, page;
      new;
      frames[page] := ZeroTable();
      space := Space(frames[..], map[Root := page], pmm.Free());
      FreshSpace(space, page);
    }

    /** Someone else has taken free pages or given pages back. */
    ghost method Adopt()
      requires pmm.Valid() && frames.Length == pmm.Limit() && frames[..] == space.mem
      requires Root in space.tbl && space.tbl[Root] == pml4
      requires space.(free := pmm.Free()).Inv()
      modifies this`space
      ensures Valid() && space == old(space).(free := pmm.Free())
    {
      space := space.(free := pmm.Free());
    }

    /** pmm_get(1), as a page number. */
    method TakePage() returns (q: Option<nat>)
      requires pmm.Valid()
      modifies pmm`freeMem, pmm.bitmap
      ensures pmm.Valid()
      ensures q.None? ==> pmm.Free() == {}
      ensures q.Some? ==> q.value in old(pmm.Free()) && pmm.Free() == old(pmm.Free()) - {q.value}
    {
      hide Pmm.FreeSet;
      ghost var free := pmm.Free();
      Pmm.FreeBelow(pmm.bitmap[..]);
      var got := pmm.Get(1);
      if got.None? {
        NoPageLeft(free, pmm.Limit());
        return None;
      }
      RangeStep(got.value / PAGE_SIZE, 0);
      assert got.value / PAGE_SIZE in Range(got.value / PAGE_SIZE, 1);
      return Some(got.value / PAGE_SIZE);
    }

    /** The table that slot i of table `page` points to, created if there is none; None is the panic
        of the page allocator. */
    method EnsureTable(page: nat, i: nat, ghost k: Key) returns (next: Option<nat>)
      requires Synced() && space.Building({k}) && k in space.tbl && space.tbl[k] == page
      requires k.depth < 3 && i < ENTRIES
      modifies this, frames, pmm`freeMem, pmm.bitmap
      ensures next.None? ==> pmm.Free() == {}
      ensures next.Some? ==>
                && Synced() && space.Building({k.Child(i)}) && Grew(old(space), space)
                && space.Translation() == old(space.Translation())
                && k.Child(i) in space.tbl && space.tbl[k.Child(i)] == next.value
    {
      hide Space.Building, Space.Translation, Placed, Tree, Grew, Pmm.FreeSet;
      LiveTable(space, {k}, k);
      var w := frames[page][i];
      if Present(w) {
        PresentChild(space, k, i);
        GrewSame(space);
        return Some(FrameOf(w));
      }
      next := TakePage();
      if next.None? {
        return;
      }
      var q := next.value;
      LinkStep(space, k, i, q);
      frames[q] := ZeroTable();
      frames[page] := frames[page][i := TableEntry(q)];
      space := Linked(space, k, i, q);
    }

    /** map_page: creates the missing tables and writes the leaf entry; false is the panic. */
    method MapPage(vaddr: nat, paddr: nat, flags: nat) returns (ok: bool)
      requires Valid() && LeafFlags(flags) && paddr < WORDS
      modifies this, frames, pmm`freeMem, pmm.bitmap
      ensures !ok ==> pmm.Free() == {}
      ensures ok ==>
                && Valid() && Grew(old(space), space)
                && space.Translation() ==
                   MapOne(old(space.Translation()), VPage(vaddr), paddr / PAGE_SIZE, flags)
                && PageAt(frames[..], pml4, VPage(vaddr), paddr / PAGE_SIZE, flags)
    {
      hide Space.Building, Space.Translation, Grew, KeyOf, Index, Span, VPage, Pmm.FreeSet, LeafEntry, MakeEntry, Flat;
      var pte := (vaddr / 0x1000) % ENTRIES;
      var pde := (vaddr / 0x20_0000) % ENTRIES;
      var pdpe := (vaddr / 0x4000_0000) % ENTRIES;
      var pml4e := (vaddr / 0x80_0000_0000) % ENTRIES;
      ghost var v, s := VPage(vaddr), space;
      AddressIndices(vaddr);
      LeafWord(paddr, flags);
      var pt := LeafTable(pml4e, pdpe, pde, v);
      if pt.None? {
        return false;
      }
      ghost var t := space;
      WriteLeaf(pt.value, pte, MakeEntry(paddr - paddr % PAGE_SIZE, flags), v);
      GrewTransitive(s, t, space);
      LeafWalks(space, v, paddr / PAGE_SIZE, flags);
      return true;
    }

    /** The first half of map_page: the page table for v, with the missing tables created. */
    method LeafTable(pml4e: nat, pdpe: nat, pde: nat, ghost v: nat) returns (pt: Option<nat>)
      requires Valid() && v < VPAGES
      requires pml4e == Index(v, 0) && pdpe == Index(v, 1) && pde == Index(v, 2)
      modifies this, frames, pmm`freeMem, pmm.bitmap
      ensures pt.None? ==> pmm.Free() == {}
      ensures pt.Some? ==>
                && Synced() && space.Building({KeyOf(v, 3)}) && Grew(old(space), space)
                && space.Translation() == old(space.Translation())
                && KeyOf(v, 3) in space.tbl && space.tbl[KeyOf(v, 3)] == pt.value
    {
      hide Space.Building, Space.Translation, Grew, KeyOf, Span, Pmm.FreeSet;
      ghost var s := space;
      Way(v);
      MayBeEmpty(s, Root);
      pt := EnsureTable(pml4, pml4e, Root);
      if pt.None? {
        return;
      }
      ghost var s1 := space;
      pt := EnsureTable(pt.value, pdpe, KeyOf(v, 1));
      if pt.None? {
        return;
      }
      ghost var s2 := space;
      GrewTransitive(s, s1, s2);
      pt := EnsureTable(pt.value, pde, KeyOf(v, 2));
      if pt.Some? {
        GrewTransitive(s, s2, space);
      }
    }

    /** pt[pte] = entry */
    method WriteLeaf(page: nat, i: nat, w: Word, ghost v: nat)
      requires v < VPAGES && KeyOf(v, 3) in space.tbl && space.tbl[KeyOf(v, 3)] == page && i == Index(v, 3)
      requires Synced() && space.Building({KeyOf(v, 3)}) && Present(w)
      modifies this`space, frames
      ensures Valid() && Grew(old(space), space)
      ensures space.Translation() == old(space.Translation())[v := w]
    {
      hide Space.Building, Space.Translation, Placed, Tree, KeyOf;
      LiveTable(space, {KeyOf(v, 3)}, KeyOf(v, 3));
      LeafStep(space, v, w);
      frames[page] := frames[page][i := w];
      space := Written(space, v, w);
    }

    /** unmap_page: clears the leaf entry and gives back the tables that became empty. */
    method UnmapPage(vaddr: nat)
      requires Valid()
      modifies this, frames, pmm`freeMem, pmm.bitmap
      ensures Valid() && Grew(space, old(space))
      ensures space.Translation() == old(space.Translation()) - {VPage(vaddr)}
    {
      hide Space.Building, Space.Translation, Placed, Tree, Grew, KeyOf, Index, Span, VPage;
      var pte := (vaddr / 0x1000) % ENTRIES;
      var pde := (vaddr / 0x20_0000) % ENTRIES;
      var pdpe := (vaddr / 0x4000_0000) % ENTRIES;
      var pml4e := (vaddr / 0x80_0000_0000) % ENTRIES;
      ghost var v, s := VPage(vaddr), space;
      AddressIndices(vaddr);
      Way(v);
      GrewSame(s);

      LiveTable(s, {}, Root);
      if !Present(frames[pml4][pml4e]) {
        Unreached(s, v, 0);
        return;
      }
      var pdpt := Follow(pml4, pml4e, Root);
      if !Present(frames[pdpt][pdpe]) {
        Unreached(s, v, 1);
        return;
      }
      var pd := Follow(pdpt, pdpe, KeyOf(v, 1));
      if !Present(frames[pd][pde]) {
        Unreached(s, v, 2);
        return;
      }
      var pt := Follow(pd, pde, KeyOf(v, 2));
      if !Present(frames[pt][pte]) {
        AbsentLeaf(s, v);
        return;
      }

      ClearLeaf(pt, pte, v);
      ghost var s1 := space;
      PruneAll(pt, pd, pdpt, pde, pdpe, pml4e, v);
      GrewTransitive(space, s1, s);
    }

    /** The table behind a present entry, under the mask ~0x1ff of unmap_page. */
    method Follow(page: nat, i: nat, ghost k: Key) returns (next: nat)
      requires Valid() && k in space.tbl && space.tbl[k] == page && k.depth < 3 && i < ENTRIES
      requires page < frames.Length && Present(frames[page][i])
      ensures k.Child(i) in space.tbl && space.tbl[k.Child(i)] == next < frames.Length
    {
      hide Space.Building;
      var w := frames[page][i];
      ChildEntry(space, {}, k, i);
      TableEntryMasks(space.tbl[k.Child(i)]);
      LiveTable(space, {}, k.Child(i));
      next := (w - w % 0x200) / PAGE_SIZE;
    }

    /** pt[pte] = 0 */
    method ClearLeaf(page: nat, i: nat, ghost v: nat)
      requires v < VPAGES && KeyOf(v, 3) in space.tbl && space.tbl[KeyOf(v, 3)] == page && i == Index(v, 3)
      requires Valid()
      modifies this`space, frames
      ensures Synced() && space.Building({KeyOf(v, 3)}) && Grew(space, old(space))
      ensures space.tbl == old(space.tbl)
      ensures space.Translation() == old(space.Translation()) - {v}
    {
      hide Space.Building, Space.Translation, Placed, Tree, KeyOf;
      LiveTable(space, {}, KeyOf(v, 3));
      ClearStep(space, v);
      frames[page] := frames[page][i := 0];
      space := Written(space, v, 0);
    }

    /** The second half of unmap_page, from the emptiness loop on. */
    method PruneAll(pt: nat, pd: nat, pdpt: nat, pde: nat, pdpe: nat, pml4e: nat, ghost v: nat)
      requires v < VPAGES && Synced() && space.Building({KeyOf(v, 3)})
      requires KeyOf(v, 3) in space.tbl && space.tbl[KeyOf(v, 3)] == pt
      requires KeyOf(v, 2) in space.tbl && space.tbl[KeyOf(v, 2)] == pd && pde == Index(v, 2)
      requires KeyOf(v, 1) in space.tbl && space.tbl[KeyOf(v, 1)] == pdpt && pdpe == Index(v, 1)
      requires pml4e == Index(v, 0)
      modifies this, frames, pmm`freeMem, pmm.bitmap
      ensures Valid() && Grew(space, old(space)) && space.Translation() == old(space.Translation())
    {
      hide Space.Building, Space.Translation, Grew, KeyOf, Index, Span;
      ghost var s := space;
      Way(v);
      GrewSame(s);
      var pruned := Prune(pt, pd, pde, KeyOf(v, 3));
      if !pruned {
        return;
      }
      ghost var s1 := space;
      pruned := Prune(pd, pdpt, pdpe, KeyOf(v, 2));
      GrewTransitive(space, s1, s);
      if !pruned {
        return;
      }
      s1 := space;
      pruned := Prune(pdpt, pml4, pml4e, KeyOf(v, 1));
      GrewTransitive(space, s1, s);
      if pruned {
        RootMayBeEmpty(space);
      }
    }

    /** The loop over the 512 entries of a table. */
    method IsBlank(page: nat) returns (blank: bool)
      requires page < frames.Length
      ensures blank <==> Blank(frames[page])
    {
      for i := 0 to ENTRIES
        invariant forall j: nat | j < i :: frames[page][j] == 0
      {
        if frames[page][i] != 0 {
          return false;
        }
      }
      return true;
    }

    /** Gives table `page` back if it is empty, and reports whether it did. */
    method Prune(page: nat, parent: nat, slot: nat, ghost k: Key) returns (pruned: bool)
      requires Synced() && space.Building({k}) && k in space.tbl && space.tbl[k] == page && k.depth > 0
      requires k.Parent() in space.tbl && space.tbl[k.Parent()] == parent && slot == k.Slot()
      modifies this, frames, pmm`freeMem, pmm.bitmap
      ensures Synced() && Grew(space, old(space)) && space.Translation() == old(space.Translation())
      ensures if pruned then space.tbl == old(space.tbl) - {k} && space.Building({k.Parent()})
              else space.tbl == old(space.tbl) && space.Inv()
    {
      hide Space.Building, Space.Translation, Placed, Tree, Grew, Pmm.FreeSet;
      GrewSame(space);
      LiveTable(space, {k}, k);
      LiveTable(space, {k}, k.Parent());
      var blank := IsBlank(page);
      if !blank {
        NotEmpty(space, k);
        return false;
      }
      UnlinkStep(space, k);
      frames[parent] := frames[parent][slot := 0];
      GiveBack(page);
      space := Unlinked(space, k);
      return true;
    }

    /** pmm_free of one page */
    method GiveBack(page: nat)
      requires pmm.Valid() && page < pmm.Limit()
      modifies pmm`freeMem, pmm.bitmap
      ensures pmm.Valid() && pmm.Free() == old(pmm.Free()) + {page}
    {
      RangeStep(page, 0);
      pmm.Release(page * PAGE_SIZE, 1);
    }

    /** vmm_map; false is the panic of the page allocator. */
    method MapPages(vaddr: nat, paddr: nat, np: nat, flags: nat) returns (ok: bool)
      requires Valid() && LeafFlags(flags)
      requires paddr + np * PAGE_SIZE <= WORDS && VPage(vaddr) + np <= VPAGES
      modifies this, frames, pmm`freeMem, pmm.bitmap
      ensures !ok ==> pmm.Free() == {}
      ensures ok ==> Valid() && Mapping(old(space), space, VPage(vaddr), paddr / PAGE_SIZE, np, flags)
      ensures ok ==> Leads(old(frames[..]), frames[..], pml4, VPage(vaddr), paddr / PAGE_SIZE, np, flags)
    {
      hide Space.Building, Space.Translation, VPage, MapRange, Grew, Pmm.FreeSet, LeafEntry, MakeEntry;
      ghost var s, v, p, k := space, VPage(vaddr), paddr / PAGE_SIZE, 0;
      var i := 0;
      EmptyRange(s.Translation(), v, p, flags);
      GrewSame(s);
      while i < np * PAGE_SIZE
        invariant 0 <= k <= np && i == k * PAGE_SIZE
        invariant Valid() && Grew(s, space)
        invariant space.Translation() == MapRange(s.Translation(), v, p, k, flags)
        decreases np - k
      {
        ghost var t := space;
        NextPage(vaddr, paddr, k, np);
        ok := MapPage(vaddr + i, paddr + i, flags);
        if !ok {
          return;
        }
        GrewTransitive(s, t, space);
        RangeCallStep(s.Translation(), v, p, k, flags);
        k := k + 1;
        i := i + PAGE_SIZE;
      }
      MappingLeads(s, space, v, p, np, flags);
      return true;
    }

    /** vmm_unmap */
    method UnmapPages(vaddr: nat, np: nat)
      requires Valid() && VPage(vaddr) + np <= VPAGES
      modifies this, frames, pmm`freeMem, pmm.bitmap
      ensures Valid() && Unmapping(old(space), space, VPage(vaddr), np)
      ensures LeadsNowhere(old(frames[..]), frames[..], pml4, VPage(vaddr), np)
    {
      hide Space.Building, Space.Translation, VPage, UnmapRange, Grew, Pmm.FreeSet;
      GrewSame(space);
      ghost var s, v, k := space, VPage(vaddr), 0;
      var i := 0;
      EmptyRange(s.Translation(), v, 0, 0);
      while i < np * PAGE_SIZE
        invariant 0 <= k <= np && i == k * PAGE_SIZE
        invariant Valid() && Grew(space, s)
        invariant space.Translation() == UnmapRange(s.Translation(), v, k)
        decreases np - k
      {
        ghost var t := space;
        NextPage(vaddr, 0, k, np);
        UnmapPage(vaddr + i);
        GrewTransitive(space, t, s);
        RangeCallStep(s.Translation(), v, 0, k, 0);
        k := k + 1;
        i := i + PAGE_SIZE;
      }
      UnmappingLeads(s, space, v, np);
    }

    /** What a caller that maps a fresh range and unmaps it again gets back. */
    method MapThenUnmap(vaddr: nat, paddr: nat, np: nat, flags: nat) returns (ok: bool)
      requires Valid() && LeafFlags(flags)
      requires paddr + np * PAGE_SIZE <= WORDS && VPage(vaddr) + np <= VPAGES
      requires space.Translation().Keys !! Range(VPage(vaddr), np)
      modifies this, frames, pmm`freeMem, pmm.bitmap
      ensures ok ==>
                && Valid() && space.tbl == old(space.tbl)
                && space.Translation() == old(space.Translation())
                && pmm.Free() == old(pmm.Free()) && pmm.freeMem == old(pmm.freeMem)
    {
      hide Space.Building, Space.Translation, VPage;
      ghost var s := space;
      ok := MapPages(vaddr, paddr, np, flags);
      if ok {
        ghost var t := space;
        UnmapPages(vaddr, np);
        RoundTrip(s, t, space, VPage(vaddr), paddr / PAGE_SIZE, np, flags);
      }
    }
  }

  lemma FreshSpace(s: Space, page: nat)
    requires page < |s.mem| <= MAX_FRAMES && s.mem[page] == ZeroTable() && s.tbl == map[Root := page]
    requires page !in s.free && forall p <- s.free :: p < |s.mem|
    ensures s.Inv() && s.Translation() == map[]
  {
    hide ZeroTable, Tree, Blank, Flat, Key.Parent, Key.Child, TableEntry, Present;
    FreshTree(s.mem, s.tbl, page);
    FreshFlat(s.mem, s.tbl, page);
  }

  lemma FreshTree(mem: seq<Table>, tbl: Tables, page: nat)
    requires page < |mem| <= MAX_FRAMES && mem[page] == ZeroTable() && tbl == map[Root := page]
    ensures Tree(mem, tbl)
  {
    hide TableEntry, Present;
  }

  lemma FreshFlat(mem: seq<Table>, tbl: Tables, page: nat)
    requires page < |mem| && tbl == map[Root := page] && Placed(mem, tbl)
    ensures Flat(mem, tbl) == map[]
  {
    hide TableEntry, Present, Tree, ZeroTable;
  }
}
