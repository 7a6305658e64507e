/** The mapping loops, building page tables out of heap pages. */
module Paging {
  import opened Widths
  import opened Bits
  import opened Memory
  import opened HeapModel
  import opened HeapLayout
  import opened HeapGrants
  import opened HeapSteps
  import opened Heap
  import opened PageModel
  import opened PageMapping
  import opened PageTranslation
  import opened Processor

  /** Every table below the root is a page granted by the heap. */
  ghost predicate TablesOwned(nodes: Nodes, grants: set<Grant>) {
    forall k :: k in nodes && k.level < 4 ==> OwnedPage(grants, nodes[k])
  }

  ghost predicate OwnedPage(grants: set<Grant>, t: nat) {
    exists g :: g in grants && g.hidden && g.ptr == t && g.size == PAGE
  }

  /** Where the heap, the root table and the direct map lie. */
  predicate LayoutOk(start: nat, end: nat, pml4: nat, hhdm: nat) {
    && pml4 % PAGE == 0
    && (pml4 + PAGE <= start || end <= pml4)
    && hhdm % PAGE == 0
    && hhdm <= start
    && end <= hhdm + PHYS52
  }

  /** Heap calls and writes confined to other clients leave the table pages alone. */
  lemma TablePagesAreKept(s: HeapState, lo: nat, hi: nat, nodes: Nodes, pml4: nat, hhdm: nat)
    requires Inv(s, lo, hi) && LayoutOk(lo, hi, pml4, hhdm)
    requires NodesOk(nodes, pml4, hhdm) && TablesOwned(nodes, s.grants)
    ensures forall k: Node, a: int :: k in nodes && InPage(nodes[k], a) ==> Kept(s.cells, lo, hi, a)
  {
    forall k: Node, a: int | k in nodes && InPage(nodes[k], a) ensures Kept(s.cells, lo, hi, a) {
      if k.level < 4 {
        OwnedPageIsKept(s, lo, hi, nodes[k], a);
      } else {
        assert k == ROOT;
        RootPageIsKept(s.cells, lo, hi, pml4, hhdm, a);
      }
    }
  }

  lemma RootPageIsKept(cs: seq<Cell>, lo: nat, hi: nat, pml4: nat, hhdm: nat, a: int)
    requires LayoutOk(lo, hi, pml4, hhdm) && InPage(pml4, a)
    ensures Kept(cs, lo, hi, a)
  {}

  lemma OwnedPageIsKept(s: HeapState, lo: nat, hi: nat, t: nat, a: int)
    requires Inv(s, lo, hi) && OwnedPage(s.grants, t) && InPage(t, a)
    ensures Kept(s.cells, lo, hi, a)
  {
    var g :| g in s.grants && g.hidden && g.ptr == t && g.size == PAGE;
    var c :| c in Used(s.cells) && Backs(s.mem, c, g);
    assert c.Payload() <= a < c.End();
  }

  /** A page granted now is none of the tables granted before. */
  lemma NewPageIsFresh(s: HeapState, lo: nat, hi: nat, nodes: Nodes, pml4: nat, hhdm: nat, g: Grant)
    requires Inv(s, lo, hi) && LayoutOk(lo, hi, pml4, hhdm)
    requires NodesOk(nodes, pml4, hhdm) && TablesOwned(nodes, s.grants - {g})
    requires g in s.grants && g.hidden && g.size == PAGE
    ensures hhdm <= g.ptr < hhdm + PHYS52
    ensures forall k :: k in nodes ==> nodes[k] != g.ptr
  {
    var c :| c in Used(s.cells) && Backs(s.mem, c, g);
    TilesOrdered(s.cells, lo, hi);
    assert lo <= c.addr && c.End() <= hi;
    forall k | k in nodes ensures nodes[k] != g.ptr {
      if k.level < 4 {
        var h :| h in s.grants - {g} && h.hidden && h.ptr == nodes[k] && h.size == PAGE;
        GrantsDisjoint(s.mem, s.cells, lo, hi, s.grants, g, h);
        assert GrantOk(s.mem, s.cells, g) && GrantOk(s.mem, s.cells, h);
      }
    }
  }

  lemma PageIsPow2()
    ensures IsPow2(PAGE)
  {
    Pow2Of64();
    assert PAGE == Pow2(12);
  }

  lemma OneLessRoom(cs: seq<Cell>, cs': seq<Cell>)
    requires PagesIn(cs') == PagesIn(cs) - 1
    ensures forall r: nat :: Room(cs, r + 1) ==> Room(cs', r)
  {}

  /** What `malloc_align(4096, 4096)` gives. */
  lemma PageAllocated(s: HeapState, t: HeapState, lo: nat, hi: nat, virt: nat) returns (g: Grant)
    requires Inv(s, lo, hi) && Chosen(s, PAGE_REQUEST) < |s.cells|
    requires AlignedStep(s, t, lo, hi, PAGE_REQUEST, PAGE, virt)
    ensures g.hidden && g.ptr == virt && g.size == PAGE
    ensures g !in s.grants && t.grants == s.grants + {g}
    ensures forall r: nat :: Room(s.cells, r + 1) ==> Room(t.cells, r)
    ensures forall a: int :: InPage(virt, a) ==> !Kept(s.cells, lo, hi, a)
    ensures Used(s.cells) <= Used(t.cells)
  {
    hide AllocAt, Represents, Coalesced, PreservesClients, Room, Tiles, GrantsOk, RoundUp16, FirstFit;
    var k := Chosen(s, PAGE_REQUEST);
    AllocAtUsed(s.cells, lo, hi, k, RoundUp16(PAGE_REQUEST));
    g := Grant(virt, PAGE, s.cells[k].Payload(), true);
    AlignedBlockIsNew(s, t, lo, hi, PAGE_REQUEST, PAGE, virt);
    PageRequestRounds();
    RoomAfter(s.cells, k);
    OneLessRoom(s.cells, t.cells);
  }

  lemma OwnedGrow(nodes: Nodes, gs: set<Grant>, g: Grant)
    requires TablesOwned(nodes, gs)
    ensures TablesOwned(nodes, gs + {g})
  {
    forall k | k in nodes && k.level < 4 ensures OwnedPage(gs + {g}, nodes[k]) {
      var h :| h in gs && h.hidden && h.ptr == nodes[k] && h.size == PAGE;
      assert h in gs + {g};
    }
  }

  /** Changes confined to one page that is no table leave every table page as it was. */
  lemma TablesUntouched(m0: Words, m1: Words, m2: Words, nodes: Nodes, root: nat, hhdm: nat, t: nat)
    requires NodesOk(nodes, root, hhdm) && SameTables(m0, m1, nodes)
    requires t % PAGE == 0 && (forall k :: k in nodes ==> nodes[k] != t)
    requires forall a: int :: !InPage(t, a) ==> At(m2, a) == At(m1, a)
    ensures SameTables(m0, m2, nodes)
  {
    hide InPage;
    forall k: Node, a: int | k in nodes && InPage(nodes[k], a) ensures At(m2, a) == At(m0, a) {
      PagesApart(nodes[k], t);
    }
  }

  /** What the code reads in the slot of table `key`. */
  lemma EntryOfKey(m: Words, nodes: Nodes, root: nat, hhdm: nat, key: Node)
    requires Tree(m, nodes, root, hhdm) && 1 <= key.level <= 3 && Parent(key) in nodes
    ensures var e := At(m, nodes[Parent(key)] + 8 * (key.prefix % 512));
      && 0 <= e < TWO64
      && (key in nodes ==> e % 2 == 1 && e - e % PAGE + hhdm == nodes[key])
      && (key !in nodes ==> e == 0)
  {
    var e := At(m, nodes[Parent(key)] + 8 * (key.prefix % 512));
    assert e == At(m, Slot(nodes, key));
    if key in nodes {
      assert nodes[key] % PAGE == 0 && hhdm <= nodes[key] < hhdm + PHYS52;
      TableEntryParts(nodes[key], hhdm);
    }
  }

  lemma TableEntryParts(t: nat, hhdm: nat)
    requires t % PAGE == 0 && hhdm % PAGE == 0 && hhdm <= t < hhdm + PHYS52
    ensures var e := TableEntry(t, hhdm);
      0 <= e < TWO64 && e % 2 == 1 && e - e % PAGE + hhdm == t
  {
    TableEntryDecodes(t, hhdm);
    RemainderIs(TableEntry(t, hhdm), PAGE, (t - hhdm) / PAGE, TABLE_FLAGS);
  }

  /** Storing an entry in a table page disturbs neither the heap nor its grants. */
  lemma LinkKeepsHeap(s: HeapState, lo: nat, hi: nat, nodes: Nodes, pml4: nat, hhdm: nat, key: Node, v: int)
    requires Inv(s, lo, hi) && LayoutOk(lo, hi, pml4, hhdm)
    requires NodesOk(nodes, pml4, hhdm) && TablesOwned(nodes, s.grants) && Parent(key) in nodes
    ensures Inv(s.(mem := s.mem[Slot(nodes, key) := v]), lo, hi)
  {
    SlotInPage(nodes, pml4, hhdm, key);
    TableStoreKeepsHeap(s, lo, hi, nodes, pml4, hhdm, Parent(key), Slot(nodes, key), v);
  }

  lemma TableStoreKeepsHeap(s: HeapState, lo: nat, hi: nat, nodes: Nodes, pml4: nat, hhdm: nat, k: Node, a: nat, v: int)
    requires Inv(s, lo, hi) && LayoutOk(lo, hi, pml4, hhdm)
    requires NodesOk(nodes, pml4, hhdm) && TablesOwned(nodes, s.grants) && k in nodes && InPage(nodes[k], a)
    ensures Inv(s.(mem := s.mem[a := v]), lo, hi)
  {
    if k.level < 4 {
      var g :| g in s.grants && g.hidden && g.ptr == nodes[k] && g.size == PAGE;
      ClientStore(s.mem, s.cells, lo, hi, s.grants, g, a, v);
    } else {
      assert nodes[k] == pml4;
      OutsideStore(s, lo, hi, a, v);
    }
  }

  lemma OutsideStore(s: HeapState, lo: nat, hi: nat, a: nat, v: int)
    requires Inv(s, lo, hi) && (a < lo || hi <= a)
    ensures Inv(s.(mem := s.mem[a := v]), lo, hi)
  {
    var m' := s.mem[a := v];
    TilesOrdered(s.cells, lo, hi);
    HeadersAreNotKept(s.cells, lo, hi);
    RepresentsFrame(s.mem, m', s.cells);
    forall g | g in s.grants ensures GrantOk(m', s.cells, g) {
      var c :| c in Used(s.cells) && Backs(s.mem, c, g);
      assert Backs(m', c, g);
    }
  }

  lemma LinkedOwned(nodes: Nodes, gs: set<Grant>, key: Node, g: Grant)
    requires TablesOwned(nodes, gs) && g in gs && g.hidden && g.size == PAGE
    ensures TablesOwned(nodes[key := g.ptr], gs)
  {
    assert OwnedPage(gs, g.ptr);
  }

  /** Linking a freshly allocated page: one more table, no translation changed, heap intact. */
  lemma LinkedTables(m0: Words, t: HeapState, lo: nat, hi: nat, nodes: Nodes, pml4: nat, hhdm: nat, key: Node, g: Grant)
    requires Tree(m0, nodes, pml4, hhdm) && SameTables(m0, t.mem, nodes)
    requires Inv(t, lo, hi) && LayoutOk(lo, hi, pml4, hhdm) && TablesOwned(nodes, t.grants)
    requires 1 <= key.level <= 3 && Parent(key) in nodes && key !in nodes
    requires g in t.grants && g.hidden && g.size == PAGE
    requires hhdm <= g.ptr < hhdm + PHYS52 && FreshPage(t.mem, nodes, g.ptr)
    ensures var m' := t.mem[nodes[Parent(key)] + 8 * (key.prefix % 512) := NamingEntry(g.ptr - hhdm)];
      var grown := nodes[key := g.ptr];
      && Tree(m', grown, pml4, hhdm)
      && (forall pn: PageNumber :: Leaf(m', grown, pn) == Leaf(m0, nodes, pn))
      && Inv(t.(mem := m'), lo, hi)
      && TablesOwned(grown, t.grants)
      && Quiet(t, t.(mem := m'), lo, hi, grown)
    ensures NamingEntry(g.ptr - hhdm) < TWO64
  {
    hide Inv, InPage, Quiet, TableWord, At, SameTables, NamingEntry, Leaf, EntriesOk, TablesOwned;
    PhysicalPage(g.ptr, hhdm);
    NamingEntryIs(g.ptr - hhdm);
    TreeFrame(m0, t.mem, nodes, pml4, hhdm);
    LinkTable(t.mem, nodes, pml4, hhdm, key, g.ptr);
    LinkKeepsHeap(t, lo, hi, nodes, pml4, hhdm, key, NamingEntry(g.ptr - hhdm));
    LinkedOwned(nodes, t.grants, key, g);
    SlotInPage(nodes, pml4, hhdm, key);
    QuietStore(t, lo, hi, nodes[key := g.ptr], Parent(key), Slot(nodes, key), NamingEntry(g.ptr - hhdm));
  }

  lemma RootOf(m: Words, nodes: Nodes, root: nat, hhdm: nat)
    requires Tree(m, nodes, root, hhdm)
    ensures ROOT in nodes && nodes[ROOT] == root
  {}

  /** Writing one leaf entry: that page's entry changes, nothing else does. */
  lemma LeafStored(t: HeapState, lo: nat, hi: nat, nodes: Nodes, pml4: nat, hhdm: nat, pn: PageNumber, v: int)
    requires Inv(t, lo, hi) && LayoutOk(lo, hi, pml4, hhdm)
    requires Tree(t.mem, nodes, pml4, hhdm) && TablesOwned(nodes, t.grants) && NodeOf(1, pn) in nodes
    ensures var m' := t.mem[nodes[NodeOf(1, pn)] + 8 * (pn % 512) := v];
      && Tree(m', nodes, pml4, hhdm)
      && (forall q: PageNumber :: Leaf(m', nodes, q) == if q == pn then v else Leaf(t.mem, nodes, q))
      && Inv(t.(mem := m'), lo, hi)
      && Quiet(t, t.(mem := m'), lo, hi, nodes)
  {
    hide Inv, InPage, Leaf, EntriesOk, TablesOwned, NodeOf, Quiet, TableWord;
    WriteLeaf(t.mem, nodes, pml4, hhdm, pn, v);
    LeafInPage(nodes, pml4, hhdm, pn);
    QuietStore(t, lo, hi, nodes, NodeOf(1, pn), nodes[NodeOf(1, pn)] + 8 * (pn % 512), v);
    TableStoreKeepsHeap(t, lo, hi, nodes, pml4, hhdm, NodeOf(1, pn), nodes[NodeOf(1, pn)] + 8 * (pn % 512), v);
  }

  lemma EntriesAreLeaves(m: Words, nodes: Nodes, root: nat, hhdm: nat)
    requires Tree(m, nodes, root, hhdm)
    ensures forall pn: PageNumber :: Walk(m, hhdm, root, pn) == Leaf(m, nodes, pn)
  {
    forall pn: PageNumber ensures Walk(m, hhdm, root, pn) == Leaf(m, nodes, pn) {
      WalkIsLeafFromRoot(m, nodes, root, hhdm, pn);
    }
  }

  lemma MappedEntries(m0: Words, n0: Nodes, m1: Words, n1: Nodes, root: nat, hhdm: nat,
      v: nat, p: nat, n: nat, flags: nat)
    requires Tree(m0, n0, root, hhdm) && Tree(m1, n1, root, hhdm)
    requires MappedPages(m0, n0, m1, n1, v, p, n, flags)
    ensures forall q: PageNumber :: Walk(m1, hhdm, root, q) == Mapped(Walk(m0, hhdm, root, q), v, p, n, flags, q)
    ensures Extends(n0, n1, Needed(v, n))
  {
    hide Tree, Walk, Leaf, Mapped, Needed;
    EntriesAreLeaves(m0, n0, root, hhdm);
    EntriesAreLeaves(m1, n1, root, hhdm);
  }

  lemma PathIs(pn: PageNumber)
    ensures Path(pn) == {NodeOf(3, pn), NodeOf(2, pn), NodeOf(1, pn)}
  {}

  /** n1 is n0 with table k looked up or added. */
  ghost predicate Entered(n0: Nodes, n1: Nodes, k: Node) {
    k in n1 && n1 == n0[k := n1[k]] && (k in n0 ==> n1 == n0)
  }

  lemma PathAdded(n0: Nodes, n1: Nodes, n2: Nodes, n3: Nodes, pn: PageNumber)
    requires Entered(n0, n1, NodeOf(3, pn)) && Entered(n1, n2, NodeOf(2, pn)) && Entered(n2, n3, NodeOf(1, pn))
    ensures Extends(n0, n3, Path(pn))
    ensures Path(pn) <= n0.Keys ==> n3 == n0
  {
    hide NodeOf;
  }

  ghost predicate TableWord(nodes: Nodes, a: int) {
    exists k :: k in nodes && InPage(nodes[k], a)
  }

  /** Nothing but table words and memory that was free has changed; no used block is lost. */
  ghost predicate Quiet(s: HeapState, t: HeapState, lo: nat, hi: nat, nodes: Nodes) {
    && Used(s.cells) <= Used(t.cells)
    && forall a: int :: Kept(s.cells, lo, hi, a) && !TableWord(nodes, a) ==> At(t.mem, a) == At(s.mem, a)
  }

  lemma QuietThen(s: HeapState, t: HeapState, u: HeapState, lo: nat, hi: nat, n1: Nodes, n2: Nodes)
    requires Quiet(s, t, lo, hi, n1) && Quiet(t, u, lo, hi, n2)
    requires forall k :: k in n1 ==> k in n2 && n2[k] == n1[k]
    ensures Quiet(s, u, lo, hi, n2)
  {
    hide InPage;
    KeptGrows(s.cells, t.cells, lo, hi);
    forall a: int | Kept(s.cells, lo, hi, a) && !TableWord(n2, a) ensures At(u.mem, a) == At(s.mem, a) {
      assert !TableWord(n1, a);
    }
  }

  lemma QuietStore(s: HeapState, lo: nat, hi: nat, nodes: Nodes, k: Node, a: int, v: int)
    requires k in nodes && InPage(nodes[k], a)
    ensures Quiet(s, s.(mem := s.mem[a := v]), lo, hi, nodes)
  {
    assert TableWord(nodes, a);
  }

  lemma QuietAlloc(s: HeapState, t: HeapState, lo: nat, hi: nat, nodes: Nodes)
    requires PreservesClients(s.mem, t.mem, s.cells, lo, hi) && Used(s.cells) <= Used(t.cells)
    ensures Quiet(s, t, lo, hi, nodes)
  {}

  lemma QuietNow(s: HeapState, lo: nat, hi: nat, nodes: Nodes)
    ensures Quiet(s, s, lo, hi, nodes)
  {}

  lemma TablesKeptBy(m0: Words, n0: Nodes, m1: Words, n1: Nodes, v: nat, p: nat, flags: nat)
    requires OnePage(m0, n0, m1, n1, v, p, flags)
    ensures forall k :: k in n0 ==> k in n1 && n1[k] == n0[k]
  {
    hide Path, Leaf, LeafEntry, PageOf;
    assert n0.Keys <= n1.Keys;
  }

  lemma RoundingIs(start: nat, end: nat)
    ensures RoundDownPage(start) == start - start % PAGE
    ensures RoundUpPage(end) == end + 4095 - (end + 4095) % PAGE
    ensures !(RoundDownPage(start) < RoundUpPage(end)) ==> PagesBetween(start, end) == 0
  {}

  /** From heap state s0 with tables n0, the first i pages of a range have been mapped: nothing was
      allocated if their tables were there, one grant came with each new table, and no other
      client's memory changed. */
  ghost predicate MappedSoFar(s0: HeapState, n0: Nodes, s: HeapState, n: Nodes, lo: nat, hi: nat,
      v: nat, p: nat, i: nat, flags: nat)
  {
    && MappedPages(s0.mem, n0, s.mem, n, v, p, i, flags)
    && (Needed(v, i) <= n0.Keys ==> s.cells == s0.cells && s.grants == s0.grants && n == n0)
    && s0.grants <= s.grants
    && |s.grants| - |n| == |s0.grants| - |n0|
    && Quiet(s0, s, lo, hi, n)
  }

  lemma NoneMapped(s: HeapState, n: Nodes, lo: nat, hi: nat, v: nat, p: nat, flags: nat)
    ensures MappedSoFar(s, n, s, n, lo, hi, v, p, 0, flags)
  {
    hide MappedPages, Quiet;
    NothingMapped(s.mem, n, v, p, flags);
    QuietNow(s, lo, hi, n);
  }

  /** The loop over offsets runs once for each page. */
  lemma StillWithin(i: nat, size: nat)
    requires i <= Pages(size)
    ensures PAGE * i < size <==> i < Pages(size)
  {
    PagesAre(size);
  }

  /** The rounded range is whole pages. */
  lemma WholePages(start: nat, end: nat)
    requires end <= PHYS52 && RoundDownPage(start) <= RoundUpPage(end)
    ensures Pages(RoundUpPage(end) - RoundDownPage(start)) == PagesBetween(start, end)
    ensures RoundUpPage(end) <= PHYS52
  {
    var n := PagesBetween(start, end);
    RangeIs(start, end);
    assert RoundUpPage(end) - RoundDownPage(start) == PAGE * n;
    RemainderIs(PAGE * n + PAGE - 1, PAGE, n, PAGE - 1);
  }

  /** The rounding masks of `Map_memory`. */
  lemma RoundedEnds(start: Word, end: nat)
    requires end <= PHYS52
    ensures And(start, Not64(0xFFF)) == RoundDownPage(start) == start - start % 0x1000
    ensures And(end + 4095, Not64(0xFFF)) == RoundUpPage(end) == end + 0xFFF - (end + 0xFFF) % 0x1000
    ensures !(RoundDownPage(start) < RoundUpPage(end)) ==> PagesBetween(start, end) == 0
  {
    RoundingIs(start, end);
    EntryMasks(start);
    EntryMasks(end + 4095);
    hide *;
  }

  lemma RangeSeen(m0: Words, n0: Nodes, m1: Words, n1: Nodes, root: nat, hhdm: nat,
      first: nat, limit: nat, n: nat, flags: nat)
    requires Tree(m0, n0, root, hhdm) && Tree(m1, n1, root, hhdm) && FlagsOk(flags)
    requires first % PAGE == 0 && first <= limit <= first + PAGE * PAGES48 && limit <= PHYS52
    requires n == Pages(limit - first) && MappedPages(m0, n0, m1, n1, first, first, n, flags)
    ensures BytesMapped(m0, m1, hhdm, root, first, first, limit - first, flags)
  {
    hide *;
    MappedEntries(m0, n0, m1, n1, root, hhdm, first, first, n, flags);
    RangeTranslated(m0, n0, m1, n1, root, hhdm, first, first, limit - first, flags);
  }

  /** The identity range of `Map_memory` seen by the processor. */
  lemma IdentityTranslated(m0: Words, n0: Nodes, m1: Words, n1: Nodes, root: nat, hhdm: nat,
      start: nat, end: nat, flags: nat)
    requires Tree(m0, n0, root, hhdm) && Tree(m1, n1, root, hhdm)
    requires end <= PHYS52 && FlagsOk(flags)
    requires MappedPages(m0, n0, m1, n1, RoundDownPage(start), RoundDownPage(start), PagesBetween(start, end), flags)
    ensures var first, limit := RoundDownPage(start), RoundUpPage(end);
      first <= limit <= first + 0x1_0000_0000_0000 ==>
        BytesMapped(m0, m1, hhdm, root, first, first, limit - first, flags)
  {
    assert PAGE * PAGES48 == 0x1_0000_0000_0000;
    hide *;
    var first, limit := RoundDownPage(start), RoundUpPage(end);
    RangeIs(start, end);
    if first <= limit <= first + 0x1_0000_0000_0000 {
      WholePages(start, end);
      RangeSeen(m0, n0, m1, n1, root, hhdm, first, limit, PagesBetween(start, end), flags);
    }
  }

  lemma OneMoreMapped(s0: HeapState, n0: Nodes, s1: HeapState, n1: Nodes, s2: HeapState, n2: Nodes,
      lo: nat, hi: nat, v: nat, p: nat, i: nat, flags: nat)
    requires MappedSoFar(s0, n0, s1, n1, lo, hi, v, p, i, flags)
    requires OnePage(s1.mem, n1, s2.mem, n2, v + PAGE * i, p + PAGE * i, flags)
    requires Path(PageOf(v + PAGE * i)) <= n1.Keys ==> s2.cells == s1.cells && s2.grants == s1.grants && n2 == n1
    requires s1.grants <= s2.grants && |s2.grants| - |n2| == |s1.grants| - |n1|
    requires Quiet(s1, s2, lo, hi, n2)
    ensures MappedSoFar(s0, n0, s2, n2, lo, hi, v, p, i + 1, flags)
  {
    hide MappedPages, OnePage, Quiet, Path, PageOf, Needed;
    NeededNext(v, i);
    TablesKeptBy(s1.mem, n1, s2.mem, n2, v + PAGE * i, p + PAGE * i, flags);
    QuietThen(s0, s1, s2, lo, hi, n1, n2);
    OneMorePage(s0.mem, n0, s1.mem, n1, s2.mem, n2, v, p, i, flags);
  }

  class PageTables {
    const ram: Ram
    const heap: KernelHeap
    const pml4: nat
    const hhdm: nat
    ghost var nodes: Nodes

    ghost predicate Valid()
      reads this, ram, heap
    {
      && heap.ram == ram
      && heap.Valid()
      && LayoutOk(heap.start, heap.end, pml4, hhdm)
      && Tree(ram.words, nodes, pml4, hhdm)
      && TablesOwned(nodes, heap.grants)
    }

    /** The leaf entry the processor finds for page pn. */
    ghost function Entry(pn: PageNumber): int
      reads this, ram
    {
      Walk(ram.words, hhdm, pml4, pn)
    }

    /** A set of tables over a PML4 that `Init` has cleared. */
    constructor (ram: Ram, heap: KernelHeap, pml4: nat, hhdm: nat)
      requires heap.ram == ram && heap.Valid() && LayoutOk(heap.start, heap.end, pml4, hhdm)
      requires forall i :: 0 <= i < 512 ==> At(ram.words, pml4 + 8 * i) == 0
      ensures Valid() && this.ram == ram && this.heap == heap && this.pml4 == pml4 && this.hhdm == hhdm
      ensures nodes.Keys == {ROOT}
      ensures forall pn: PageNumber :: Entry(pn) == 0
    {
      this.ram := ram;
      this.heap := heap;
      this.pml4 := pml4;
      this.hhdm := hhdm;
      this.nodes := map[ROOT := pml4];
      new;
      forall pn: PageNumber ensures Entry(pn) == 0 {
        WalkIsLeafFromRoot(ram.words, nodes, pml4, hhdm, pn);
      }
    }

    /** `alloc_page`: a zeroed page, returned by its physical address. */
    method AllocPage() returns (phys: nat, ghost g: Grant)
      requires Valid() && Room(heap.cells, 1)
      modifies ram, heap`cells, heap`grants
      ensures Valid()
      ensures g.ptr == phys + hhdm && g !in old(heap.grants) && heap.grants == old(heap.grants) + {g}
      ensures g.hidden && g.size == PAGE
      ensures hhdm <= g.ptr < hhdm + PHYS52 && FreshPage(ram.words, nodes, g.ptr)
      ensures SameTables(old(ram.words), ram.words, nodes)
      ensures forall r: nat :: Room(old(heap.cells), r + 1) ==> Room(heap.cells, r)
      ensures PreservesClients(old(ram.words), ram.words, old(heap.cells), heap.start, heap.end)
      ensures Used(old(heap.cells)) <= Used(heap.cells)
    {
      hide Room, GrantsOk, Tiles, Coalesced, Represents, AllocAt, IsPow2, EntriesOk, InPage, RoundUp16, FirstFit,
        Kept, NodesOk, At;
      ghost var s := heap.State();
      PageRequestRounds();
      RoomServes(heap.cells);
      PageIsPow2();
      var virt := heap.MallocAlign(PAGE, PAGE);
      ghost var t := heap.State();
      g := PageAllocated(s, t, heap.start, heap.end, virt);
      TablePagesAreKept(s, heap.start, heap.end, nodes, pml4, hhdm);
      assert t.grants - {g} == s.grants;
      NewPageIsFresh(t, heap.start, heap.end, nodes, pml4, hhdm, g);
      OwnedGrow(nodes, s.grants, g);
      ClearPage(virt, g);
      TablesUntouched(s.mem, t.mem, ram.words, nodes, pml4, hhdm, virt);
      TreeFrame(s.mem, ram.words, nodes, pml4, hhdm);
      phys := virt - hhdm;
    }

    /** Follow the entry for table `key` in the table above it, first linking a new page
        there when the entry is not present. */
    method Descend(table: nat, index: nat, ghost key: Node, ghost goal: set<Node>) returns (child: nat)
      requires Valid() && 1 <= key.level <= 3 && Parent(key) in nodes
      requires table == nodes[Parent(key)] && index == key.prefix % 512
      requires key in goal && Budget(goal)
      modifies ram, heap`cells, heap`grants, `nodes
      ensures Valid() && Budget(goal)
      ensures Entered(old(nodes), nodes, key) && child == nodes[key]
      ensures key in old(nodes) ==> heap.State() == old(heap.State())
      ensures forall pn: PageNumber :: Leaf(ram.words, nodes, pn) == old(Leaf(ram.words, nodes, pn))
      ensures old(heap.grants) <= heap.grants
      ensures |heap.grants| - |nodes| == old(|heap.grants| - |nodes|)
      ensures Quiet(old(heap.State()), heap.State(), heap.start, heap.end, nodes)
    {
      hide Room, Inv, InPage, NodeOf, Tree, TablesOwned, Leaf, At, Parent, Quiet;
      QuietNow(heap.State(), heap.start, heap.end, nodes);
      var entry := ram.Load(table + 8 * index);
      EntryOfKey(ram.words, nodes, pml4, hhdm, key);
      EntryMasks(entry);
      if And(entry, PRESENT) == 0 {
        GoalShrinks(goal, nodes.Keys, key);
        RoomLess(heap.cells, 1, |goal - nodes.Keys|);
        Link(table, index, key);
        EntryOfKey(ram.words, nodes, pml4, hhdm, key);
        assert nodes.Keys == old(nodes.Keys) + {key};
        entry := ram.Load(table + 8 * index);
        EntryMasks(entry);
      }
      child := And(entry, Not64(0xFFF)) + hhdm;
    }

    /** The heap has room for every table of `goal` that is not there yet. */
    ghost predicate Budget(goal: set<Node>)
      reads this, heap
    {
      Room(heap.cells, |goal - nodes.Keys|)
    }

    /** The body of both mapping loops, for one page. */
    method MapPage(v: nat, p: nat, flags: nat, ghost goal: set<Node>)
      requires Valid() && p % PAGE == 0 && p < PHYS52 && FlagsOk(flags)
      requires Path(PageOf(v)) <= goal && Budget(goal)
      modifies ram, heap`cells, heap`grants, `nodes
      ensures Valid() && Budget(goal)
      ensures OnePage(old(ram.words), old(nodes), ram.words, nodes, v, p, flags)
      ensures Path(PageOf(v)) <= old(nodes.Keys) ==>
        heap.cells == old(heap.cells) && heap.grants == old(heap.grants) && nodes == old(nodes)
      ensures old(heap.grants) <= heap.grants
      ensures |heap.grants| - |nodes| == old(|heap.grants| - |nodes|)
      ensures Quiet(old(heap.State()), heap.State(), heap.start, heap.end, nodes)
    {
      hide Room, Inv, InPage, NodeOf, Tree, TablesOwned, Leaf, At, Parent, PageOf, LeafEntry, FlagsOk, Budget, Extends,
        LayoutOk, Path, Quiet;
      ghost var n0 := nodes;
      ghost var s0 := heap.State();
      ghost var pn := PageOf(v);
      ghost var k3, k2, k1 := NodeOf(3, pn), NodeOf(2, pn), NodeOf(1, pn);
      NodeOfChild(4, pn);
      NodeOfChild(3, pn);
      NodeOfChild(2, pn);
      LeafIndex(pn);
      RootOf(ram.words, nodes, pml4, hhdm);
      IndexBitsAre(v, 4);
      IndexBitsAre(v, 3);
      IndexBitsAre(v, 2);
      IndexBitsAre(v, 1);
      PathIs(pn);
      var pdpt := Descend(pml4, IndexBits(v, 4), k3, goal);
      ghost var n1 := nodes;
      ghost var s1 := heap.State();
      var pd := Descend(pdpt, IndexBits(v, 3), k2, goal);
      ghost var n2 := nodes;
      ghost var s2 := heap.State();
      QuietThen(s0, s1, s2, heap.start, heap.end, n1, n2);
      var pt := Descend(pd, IndexBits(v, 2), k1, goal);
      PathAdded(n0, n1, n2, nodes, pn);
      ghost var s3 := heap.State();
      QuietThen(s0, s2, s3, heap.start, heap.end, n2, nodes);
      LeafEntryIs(p, flags);
      LeafStored(heap.State(), heap.start, heap.end, nodes, pml4, hhdm, pn, LeafEntry(p, flags));
      ram.Store(pt + 8 * IndexBits(v, 1), LeafEntry(p, flags));
      QuietThen(s0, s3, heap.State(), heap.start, heap.end, nodes, nodes);
    }

    /** `Map_memory_vp`. */
    method MapMemoryVp(virt: nat, phys: nat, size: nat, flags: nat, ghost goal: set<Node>)
      requires Valid()
      requires virt % PAGE == 0 && phys % PAGE == 0 && FlagsOk(flags)
      requires virt + size <= TWO64 && phys + size <= PHYS52
      requires Needed(virt, Pages(size)) <= goal && Budget(goal)
      modifies ram, heap`cells, heap`grants, `nodes
      ensures Valid() && Budget(goal)
      ensures size <= 0x1_0000_0000_0000 ==>
        BytesMapped(old(ram.words), ram.words, hhdm, pml4, virt, phys, size, flags)
      ensures forall q: PageNumber :: Entry(q) == Mapped(old(Entry(q)), virt, phys, Pages(size), flags, q)
      ensures Extends(old(nodes), nodes, Needed(virt, Pages(size)))
      ensures Needed(virt, Pages(size)) <= old(nodes.Keys) ==>
        heap.cells == old(heap.cells) && heap.grants == old(heap.grants)
      ensures old(heap.grants) <= heap.grants
      ensures |heap.grants| - |nodes| == old(|heap.grants| - |nodes|)
      ensures Quiet(old(heap.State()), heap.State(), heap.start, heap.end, nodes)
    {
      hide Room, Inv, Tree, TablesOwned, Leaf, At, PageOf, LeafEntry, FlagsOk, Path, LayoutOk, Mapped, Needed, Walk,
        MappedPages, OnePage, Budget, Extends, Quiet, BytesMapped;
      ghost var s0 := heap.State();
      ghost var m0, n0 := ram.words, nodes;
      NoneMapped(s0, n0, heap.start, heap.end, virt, phys, flags);
      var offset := 0;
      ghost var i := 0;
      while offset < size
        invariant offset == PAGE * i && i <= Pages(size)
        invariant Valid() && Budget(goal)
        invariant MappedSoFar(s0, n0, heap.State(), nodes, heap.start, heap.end, virt, phys, i, flags)
        decreases size - offset
      {
        ghost var s1, n1 := heap.State(), nodes;
        StillWithin(i, size);
        NeededGrows(virt, i, Pages(size));
        MapPage(virt + offset, phys + offset, flags, goal);
        OneMoreMapped(s0, n0, s1, n1, heap.State(), nodes, heap.start, heap.end, virt, phys, i, flags);
        offset := offset + PAGE;
        i := i + 1;
      }
      StillWithin(i, size);
      MappedEntries(m0, n0, ram.words, nodes, pml4, hhdm, virt, phys, i, flags);
      if size <= PAGE * PAGES48 {
        RangeTranslated(m0, n0, ram.words, nodes, pml4, hhdm, virt, phys, size, flags);
      }
    }

    /** `Map_memory`: identity mapping of [start0, end0) rounded outward to pages. */
    method MapMemory(start0: Word, end0: nat, flags: nat, ghost goal: set<Node>)
      requires Valid() && FlagsOk(flags)
      requires end0 <= PHYS52
      requires Needed(RoundDownPage(start0), PagesBetween(start0, end0)) <= goal && Budget(goal)
      modifies ram, heap`cells, heap`grants, `nodes
      ensures Valid() && Budget(goal)
      ensures
        var first, limit := start0 - start0 % 0x1000, end0 + 0xFFF - (end0 + 0xFFF) % 0x1000;
        first <= limit <= first + 0x1_0000_0000_0000 ==>
          BytesMapped(old(ram.words), ram.words, hhdm, pml4, first, first, limit - first, flags)
      ensures forall q: PageNumber ::
        Entry(q) ==
          Mapped(old(Entry(q)), RoundDownPage(start0), RoundDownPage(start0), PagesBetween(start0, end0), flags, q)
      ensures Extends(old(nodes), nodes, Needed(RoundDownPage(start0), PagesBetween(start0, end0)))
      ensures Needed(RoundDownPage(start0), PagesBetween(start0, end0)) <= old(nodes.Keys) ==>
        heap.cells == old(heap.cells) && heap.grants == old(heap.grants) && nodes == old(nodes)
      ensures old(heap.grants) <= heap.grants
      ensures |heap.grants| - |nodes| == old(|heap.grants| - |nodes|)
      ensures Quiet(old(heap.State()), heap.State(), heap.start, heap.end, nodes)
    {
      hide Room, Inv, Tree, TablesOwned, Leaf, At, PageOf, LeafEntry, FlagsOk, Path, LayoutOk, Mapped, Needed, Walk,
        MappedPages, OnePage, Budget, Extends, Quiet, And, RoundDownPage, RoundUpPage, PagesBetween, BytesMapped;
      ghost var s0 := heap.State();
      ghost var m0, n0 := ram.words, nodes;
      RoundedEnds(start0, end0);
      var start := And(start0, Not64(0xFFF));
      var end := And(end0 + 4095, Not64(0xFFF));
      RangeIs(start0, end0);
      NoneMapped(s0, n0, heap.start, heap.end, start, start, flags);
      ghost var n := PagesBetween(start0, end0);
      var addr := start;
      ghost var i := 0;
      while addr < end
        invariant addr == start + PAGE * i && i <= n
        invariant Valid() && Budget(goal)
        invariant MappedSoFar(s0, n0, heap.State(), nodes, heap.start, heap.end, start, start, i, flags)
        decreases end - addr
      {
        ghost var s1, n1 := heap.State(), nodes;
        NeededGrows(start, i, n);
        MapPage(addr, addr, flags, goal);
        OneMoreMapped(s0, n0, s1, n1, heap.State(), nodes, heap.start, heap.end, start, start, i, flags);
        addr := addr + PAGE;
        i := i + 1;
      }
      MappedEntries(m0, n0, ram.words, nodes, pml4, hhdm, start, start, i, flags);
      IdentityTranslated(m0, n0, ram.words, nodes, pml4, hhdm, start0, end0, flags);
    }

    /** The not-present branch: `table[index] = alloc_page() | Present | Writable | User`. */
    method Link(table: nat, index: nat, ghost key: Node)
      requires Valid() && 1 <= key.level <= 3 && Parent(key) in nodes && key !in nodes
      requires table == nodes[Parent(key)] && index == key.prefix % 512
      requires Room(heap.cells, 1)
      modifies ram, heap`cells, heap`grants, `nodes
      ensures Valid()
      ensures key in nodes && nodes == old(nodes)[key := nodes[key]]
      ensures forall pn: PageNumber :: Leaf(ram.words, nodes, pn) == old(Leaf(ram.words, nodes, pn))
      ensures forall r: nat :: Room(old(heap.cells), r + 1) ==> Room(heap.cells, r)
      ensures old(heap.grants) <= heap.grants
      ensures |heap.grants| - |nodes| == old(|heap.grants| - |nodes|)
      ensures Quiet(old(heap.State()), heap.State(), heap.start, heap.end, nodes)
    {
      hide Room, Inv, InPage, At, SameTables, PreservesClients, NamingEntry, Leaf, Tree,
        TablesOwned, LayoutOk, FreshPage, Quiet;
      ghost var s := heap.State();
      var newTable, g := AllocPage();
      ghost var t := heap.State();
      QuietAlloc(s, t, heap.start, heap.end, nodes);
      LinkedTables(s.mem, t, heap.start, heap.end, nodes, pml4, hhdm, key, g);
      ram.Store(table + 8 * index, NamingEntry(newTable));
      ghost var n0 := nodes;
      nodes := nodes[key := g.ptr];
      QuietThen(s, t, heap.State(), heap.start, heap.end, n0, nodes);
    }

    /** `memset(virt, 0, 4096)`, a word at a time. */
    method ClearPage(virt: nat, ghost g: Grant)
      requires heap.ram == ram && heap.Valid()
      requires g in heap.grants && g.hidden && g.ptr == virt && g.size == PAGE && virt % PAGE == 0
      modifies ram
      ensures heap.Valid()
      ensures forall a: int :: InPage(virt, a) ==> At(ram.words, a) == 0
      ensures forall a: int :: !InPage(virt, a) ==> At(ram.words, a) == old(At(ram.words, a))
    {
      hide Inv, InPage, Cleared, At;
      ghost var before := ram.words;
      ClearedNone(before, virt);
      var i := 0;
      while i < 512
        invariant 0 <= i <= 512
        invariant heap.Valid()
        invariant Cleared(before, ram.words, virt, i)
      {
        ClearedNext(before, ram.words, virt, i);
        InPageSlot(virt, i);
        InPageBounds(virt, virt + 8 * i);
        heap.ClientWrite(g, virt + 8 * i, 0);
        i := i + 1;
      }
      ClearedAll(before, ram.words, virt);
    }
  }

  /** The first i words of the page are zero and nothing else has changed. */
  ghost predicate Cleared(before: Words, m: Words, virt: nat, i: nat) {
    forall a: int :: At(m, a) == if InPage(virt, a) && a < virt + 8 * i then 0 else At(before, a)
  }

  lemma ClearedNone(m: Words, virt: nat)
    ensures Cleared(m, m, virt, 0)
  {}

  lemma ClearedNext(before: Words, m: Words, virt: nat, i: nat)
    requires Cleared(before, m, virt, i) && virt % PAGE == 0 && i < 512
    ensures Cleared(before, m[virt + 8 * i := 0], virt, i + 1)
  {
    InPageSlot(virt, i);
    forall a: int ensures InPage(virt, a) && a != virt + 8 * i ==> (a < virt + 8 * (i + 1) <==> a < virt + 8 * i) {
      WordBefore(virt, a, i);
    }
    hide InPage;
  }

  /** Between two neighbouring words of a page there is no third. */
  lemma WordBefore(virt: nat, a: int, i: nat)
    requires virt % PAGE == 0
    ensures InPage(virt, a) && a != virt + 8 * i ==> (a < virt + 8 * (i + 1) <==> a < virt + 8 * i)
  {
    var p, q := virt / PAGE, a / 8;
    assert virt == 8 * (512 * p);
  }

  lemma InPageBounds(virt: nat, a: int)
    requires InPage(virt, a)
    ensures virt <= a < virt + PAGE && a % 8 == 0
  {}

  lemma ClearedAll(before: Words, m: Words, virt: nat)
    requires Cleared(before, m, virt, 512)
    ensures forall a: int :: InPage(virt, a) ==> At(m, a) == 0
    ensures forall a: int :: !InPage(virt, a) ==> At(m, a) == At(before, a)
  {}
}
