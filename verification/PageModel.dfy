/** Four-level page tables as a tree of 4 KiB pages in memory, and the walk the processor
    makes through them (Intel SDM Volume 3A, section 4.5). */
module PageModel {
  import opened Widths
  import opened Bits
  import opened Memory

  const PAGE: nat := 4096
  const PRESENT: nat := 1
  const WRITABLE: nat := 2
  const USER: nat := 4
  const TABLE_FLAGS: nat := 7

  /** Number of 48-bit page numbers. */
  const PAGES48: nat := 0x10_0000_0000
  /** End of the 52-bit physical address space. */
  const PHYS52: nat := 0x10_0000_0000_0000

  type PageNumber = n: nat | n < 0x10_0000_0000

  /** Page number of a virtual address: bits 47 to 12. */
  function PageOf(v: nat): PageNumber {
    (v / PAGE) % PAGES48
  }

  /** Pages translated by one entry of a table at this level (1 is a PT, 4 the PML4). */
  function Span(level: nat): (r: nat)
    ensures r > 0
  {
    if level <= 1 then 1 else if level == 2 then 512 else if level == 3 then 0x4_0000 else 0x800_0000
  }

  function IndexIn(level: nat, pn: nat): (i: nat)
    ensures i < 512
  {
    (pn / Span(level)) % 512
  }

  /** A table is named by its level and by the page-number bits above it. */
  datatype Node = Node(level: nat, prefix: nat)

  const ROOT: Node := Node(4, 0)

  /** The table of this level on the way to page pn. */
  function NodeOf(level: nat, pn: nat): Node {
    Node(level, pn / Span(level) / 512)
  }

  function Parent(k: Node): Node {
    Node(k.level + 1, k.prefix / 512)
  }

  lemma NodeOfChild(level: nat, pn: PageNumber)
    requires 2 <= level <= 4
    ensures Parent(NodeOf(level - 1, pn)) == NodeOf(level, pn)
    ensures NodeOf(level - 1, pn).prefix % 512 == IndexIn(level, pn)
    ensures NodeOf(level - 1, pn).level == level - 1
    ensures level == 4 ==> NodeOf(level, pn) == ROOT
  {}

  type Nodes = map<Node, nat>

  /** Address of the entry that names table k. */
  function Slot(nodes: Nodes, k: Node): nat
    requires Parent(k) in nodes
  {
    nodes[Parent(k)] + 8 * (k.prefix % 512)
  }

  /** What an entry naming the table at virtual address t holds. */
  function TableEntry(t: nat, hhdm: nat): int {
    t - hhdm + TABLE_FLAGS
  }

  ghost predicate NodesOk(nodes: Nodes, root: nat, hhdm: nat) {
    && ROOT in nodes && nodes[ROOT] == root
    && (forall k :: k in nodes ==> 1 <= k.level <= 4 && (k.level == 4 ==> k == ROOT))
    && (forall k :: k in nodes && k.level < 4 ==> Parent(k) in nodes)
    && (forall k :: k in nodes ==> nodes[k] % PAGE == 0)
    && (forall k :: k in nodes && k.level < 4 ==> hhdm <= nodes[k] < hhdm + PHYS52)
    && (forall j, k :: j in nodes && k in nodes && nodes[j] == nodes[k] ==> j == k)
  }

  /** Every entry of every interior table names its child, or is zero when there is none. */
  ghost predicate EntriesOk(m: Words, nodes: Nodes, hhdm: nat) {
    forall k: Node :: 1 <= k.level <= 3 && Parent(k) in nodes ==>
      At(m, Slot(nodes, k)) == if k in nodes then TableEntry(nodes[k], hhdm) else 0
  }

  ghost predicate Tree(m: Words, nodes: Nodes, root: nat, hhdm: nat) {
    && hhdm % PAGE == 0
    && NodesOk(nodes, root, hhdm)
    && EntriesOk(m, nodes, hhdm)
  }

  // ----- the processor's walk -----

  /** Bits 51 to 12 of an entry. */
  function PhysBase(e: int): nat {
    (e / PAGE % 0x100_0000_0000) * PAGE
  }

  /** The leaf entry the processor reaches for page pn; zero when a table is missing. Physical
      memory is read through the direct map at hhdm. */
  function WalkFrom(m: Words, hhdm: nat, table: nat, level: nat, pn: PageNumber): int
    requires level >= 1
    decreases level
  {
    var e := At(m, table + 8 * IndexIn(level, pn));
    if level == 1 then e
    else if e % 2 == 0 then 0
    else WalkFrom(m, hhdm, hhdm + PhysBase(e), level - 1, pn)
  }

  function Walk(m: Words, hhdm: nat, root: nat, pn: PageNumber): int {
    WalkFrom(m, hhdm, root, 4, pn)
  }

  /** The entry for pn read off the tree. */
  ghost function Leaf(m: Words, nodes: Nodes, pn: PageNumber): int {
    var k := NodeOf(1, pn);
    if k in nodes then At(m, nodes[k] + 8 * (pn % 512)) else 0
  }

  lemma TableEntryDecodes(t: nat, hhdm: nat)
    requires t % PAGE == 0 && hhdm % PAGE == 0 && hhdm <= t < hhdm + PHYS52
    ensures TableEntry(t, hhdm) % 2 == 1
    ensures PhysBase(TableEntry(t, hhdm)) == t - hhdm
  {
    PhysicalPage(t, hhdm);
    var q := (t - hhdm) / PAGE;
    assert t - hhdm == PAGE * q;
    RemainderIs(PAGE * q + TABLE_FLAGS, PAGE, q, TABLE_FLAGS);
    assert PAGE * q + TABLE_FLAGS == 2 * (2048 * q + 3) + 1;
    assert q < 0x100_0000_0000;
  }

  /** Aligned virtual pages have aligned physical addresses. */
  lemma PhysicalPage(t: nat, hhdm: nat)
    requires t % PAGE == 0 && hhdm % PAGE == 0 && hhdm <= t
    ensures (t - hhdm) % PAGE == 0
  {
    var a, b := t / PAGE, hhdm / PAGE;
    assert t == PAGE * a && hhdm == PAGE * b;
    RemainderIs(t - hhdm, PAGE, a - b, 0);
  }

  /** A table is reachable only if the tables above it are. */
  lemma AncestorsPresent(nodes: Nodes, root: nat, hhdm: nat, level: nat, pn: PageNumber)
    requires NodesOk(nodes, root, hhdm) && 1 <= level <= 4 && NodeOf(1, pn) in nodes
    ensures NodeOf(level, pn) in nodes
    decreases level
  {
    if level > 1 {
      AncestorsPresent(nodes, root, hhdm, level - 1, pn);
      NodeOfChild(level, pn);
    }
  }

  /** What the processor reads on its way through the table of this level. */
  lemma EntryOnTheWay(m: Words, nodes: Nodes, root: nat, hhdm: nat, level: nat, pn: PageNumber)
    requires Tree(m, nodes, root, hhdm) && 2 <= level <= 4 && NodeOf(level, pn) in nodes
    ensures var e := At(m, nodes[NodeOf(level, pn)] + 8 * IndexIn(level, pn));
      var child := NodeOf(level - 1, pn);
      if child in nodes then e % 2 == 1 && hhdm + PhysBase(e) == nodes[child]
      else e == 0 && NodeOf(1, pn) !in nodes
  {
    hide Span, IndexIn, NodeOf, PhysBase, TableEntry, Parent;
    var child := NodeOf(level - 1, pn);
    NodeOfChild(level, pn);
    assert Slot(nodes, child) == nodes[NodeOf(level, pn)] + 8 * IndexIn(level, pn);
    if child in nodes {
      TableEntryDecodes(nodes[child], hhdm);
    } else if NodeOf(1, pn) in nodes {
      AncestorsPresent(nodes, root, hhdm, level - 1, pn);
    }
  }

  /** One level of the walk. */
  lemma WalkStep(m: Words, nodes: Nodes, root: nat, hhdm: nat, level: nat, pn: PageNumber)
    requires Tree(m, nodes, root, hhdm) && 2 <= level <= 4 && NodeOf(level, pn) in nodes
    ensures var child := NodeOf(level - 1, pn);
      WalkFrom(m, hhdm, nodes[NodeOf(level, pn)], level, pn) ==
      if child in nodes then WalkFrom(m, hhdm, nodes[child], level - 1, pn) else 0
    ensures NodeOf(level - 1, pn) !in nodes ==> NodeOf(1, pn) !in nodes
  {
    hide Tree, NodeOf, IndexIn, PhysBase, At;
    EntryOnTheWay(m, nodes, root, hhdm, level, pn);
  }

  /** The processor's walk and the tree agree. */
  lemma {:induction false} WalkIsLeaf(m: Words, nodes: Nodes, root: nat, hhdm: nat, level: nat, pn: PageNumber)
    requires Tree(m, nodes, root, hhdm) && 1 <= level <= 4 && NodeOf(level, pn) in nodes
    ensures WalkFrom(m, hhdm, nodes[NodeOf(level, pn)], level, pn) == Leaf(m, nodes, pn)
    decreases level
  {
    if level > 1 {
      hide Tree, NodeOf, WalkFrom;
      WalkStep(m, nodes, root, hhdm, level, pn);
      if NodeOf(level - 1, pn) in nodes {
        WalkIsLeaf(m, nodes, root, hhdm, level - 1, pn);
      }
    } else {
      LeafIndex(pn);
    }
  }

  lemma LeafIndex(pn: PageNumber)
    ensures IndexIn(1, pn) == pn % 512 && NodeOf(1, pn) == Node(1, pn / 512)
  {}

  lemma WalkIsLeafFromRoot(m: Words, nodes: Nodes, root: nat, hhdm: nat, pn: PageNumber)
    requires Tree(m, nodes, root, hhdm)
    ensures Walk(m, hhdm, root, pn) == Leaf(m, nodes, pn)
  {
    NodeOfChild(4, pn);
    WalkIsLeaf(m, nodes, root, hhdm, 4, pn);
  }

  // ----- growing the tree and writing leaves -----

  /** a is the address of an aligned word of the page at t. */
  predicate InPage(t: nat, a: int) {
    t <= a < t + PAGE && a % 8 == 0
  }

  lemma PagesApart(t: nat, u: nat)
    requires t % PAGE == 0 && u % PAGE == 0 && t != u
    ensures forall a: int :: InPage(t, a) ==> !InPage(u, a)
  {
    PagesFarApart(t, u);
    hide *;
    forall a: int | InPage(t, a) ensures !InPage(u, a) {
      OnlyOnePage(t, u, a);
    }
  }

  lemma OnlyOnePage(t: nat, u: nat, a: int)
    requires InPage(t, a) && (t + PAGE <= u || u + PAGE <= t)
    ensures !InPage(u, a)
  {}

  lemma PagesFarApart(t: nat, u: nat)
    requires t % PAGE == 0 && u % PAGE == 0 && t != u
    ensures t + PAGE <= u || u + PAGE <= t
  {
    assert t == PAGE * (t / PAGE) && u == PAGE * (u / PAGE);
  }

  lemma InPageSlot(t: nat, i: nat)
    requires t % PAGE == 0 && i < 512
    ensures InPage(t, t + 8 * i)
  {}

  /** m' agrees with m on every table page. */
  ghost predicate SameTables(m: Words, m': Words, nodes: Nodes) {
    forall k: Node, a: int :: k in nodes && InPage(nodes[k], a) ==> At(m', a) == At(m, a)
  }

  lemma SlotInPage(nodes: Nodes, root: nat, hhdm: nat, k: Node)
    requires NodesOk(nodes, root, hhdm) && Parent(k) in nodes
    ensures InPage(nodes[Parent(k)], Slot(nodes, k))
  {
    InPageSlot(nodes[Parent(k)], k.prefix % 512);
  }

  lemma LeafInPage(nodes: Nodes, root: nat, hhdm: nat, pn: PageNumber)
    requires NodesOk(nodes, root, hhdm) && NodeOf(1, pn) in nodes
    ensures InPage(nodes[NodeOf(1, pn)], nodes[NodeOf(1, pn)] + 8 * (pn % 512))
  {
    InPageSlot(nodes[NodeOf(1, pn)], pn % 512);
  }

  lemma TablesApart(nodes: Nodes, root: nat, hhdm: nat, j: Node, k: Node)
    requires NodesOk(nodes, root, hhdm) && j in nodes && k in nodes && j != k
    ensures forall a: int :: InPage(nodes[j], a) ==> !InPage(nodes[k], a)
  {
    assert nodes[j] != nodes[k];
    PagesApart(nodes[j], nodes[k]);
  }

  lemma TreeFrame(m: Words, m': Words, nodes: Nodes, root: nat, hhdm: nat)
    requires Tree(m, nodes, root, hhdm) && SameTables(m, m', nodes)
    ensures Tree(m', nodes, root, hhdm)
    ensures forall pn: PageNumber :: Leaf(m', nodes, pn) == Leaf(m, nodes, pn)
  {
    hide InPage, NodesOk, NodeOf, Parent, TableEntry, At;
    forall k: Node | 1 <= k.level <= 3 && Parent(k) in nodes
      ensures At(m', Slot(nodes, k)) == At(m, Slot(nodes, k))
    {
      SlotInPage(nodes, root, hhdm, k);
    }
    forall pn: PageNumber ensures Leaf(m', nodes, pn) == Leaf(m, nodes, pn) {
      if NodeOf(1, pn) in nodes {
        LeafInPage(nodes, root, hhdm, pn);
      }
    }
  }

  lemma SlotArithmetic(t: nat, u: nat, i: nat, j: nat)
    requires t % PAGE == 0 && u % PAGE == 0 && i < 512 && j < 512 && t + 8 * i == u + 8 * j
    ensures t == u && i == j
  {}

  /** Distinct tables occupy distinct slots. */
  lemma SlotsDistinct(nodes: Nodes, root: nat, hhdm: nat, j: Node, k: Node)
    requires NodesOk(nodes, root, hhdm) && Parent(j) in nodes && Parent(k) in nodes
    ensures Slot(nodes, j) == Slot(nodes, k) ==> j == k
  {
    var p, q := Parent(j), Parent(k);
    assert nodes[p] % PAGE == 0 && nodes[q] % PAGE == 0 && (nodes[p] == nodes[q] ==> p == q);
    hide NodesOk;
    if Slot(nodes, j) == Slot(nodes, k) {
      SlotArithmetic(nodes[p], nodes[q], j.prefix % 512, k.prefix % 512);
    }
  }

  lemma NodesGrow(nodes: Nodes, root: nat, hhdm: nat, key: Node, t: nat)
    requires NodesOk(nodes, root, hhdm)
    requires 1 <= key.level <= 3 && Parent(key) in nodes && key !in nodes
    requires t % PAGE == 0 && hhdm <= t < hhdm + PHYS52 && (forall k :: k in nodes ==> nodes[k] != t)
    ensures NodesOk(nodes[key := t], root, hhdm)
  {}

  /** Linking a zeroed page t as table `key` adds one table and changes no translation. */
  lemma LinkTable(m: Words, nodes: Nodes, root: nat, hhdm: nat, key: Node, t: nat)
    requires Tree(m, nodes, root, hhdm)
    requires 1 <= key.level <= 3 && Parent(key) in nodes && key !in nodes
    requires hhdm <= t < hhdm + PHYS52 && FreshPage(m, nodes, t)
    ensures Tree(m[Slot(nodes, key) := TableEntry(t, hhdm)], nodes[key := t], root, hhdm)
    ensures forall pn: PageNumber ::
      Leaf(m[Slot(nodes, key) := TableEntry(t, hhdm)], nodes[key := t], pn) == Leaf(m, nodes, pn)
  {
    hide InPage, Leaf, At, NodeOf;
    var grown := nodes[key := t];
    var m' := m[Slot(nodes, key) := TableEntry(t, hhdm)];
    NodesGrow(nodes, root, hhdm, key, t);
    forall k: Node | 1 <= k.level <= 3 && Parent(k) in grown
      ensures At(m', Slot(grown, k)) == if k in grown then TableEntry(grown[k], hhdm) else 0
    {
      LinkedEntry(m, nodes, root, hhdm, key, t, k);
    }
    forall pn: PageNumber ensures Leaf(m', grown, pn) == Leaf(m, nodes, pn) {
      LinkedLeaf(m, nodes, root, hhdm, key, t, pn);
    }
  }

  /** The fresh page t shares no word with the table that will name it. */
  ghost predicate FreshPage(m: Words, nodes: Nodes, t: nat) {
    && t % PAGE == 0
    && (forall k :: k in nodes ==> nodes[k] != t)
    && (forall a: int :: InPage(t, a) ==> At(m, a) == 0)
  }

  lemma LinkedEntry(m: Words, nodes: Nodes, root: nat, hhdm: nat, key: Node, t: nat, k: Node)
    requires Tree(m, nodes, root, hhdm)
    requires 1 <= key.level <= 3 && Parent(key) in nodes && key !in nodes
    requires FreshPage(m, nodes, t)
    requires 1 <= k.level <= 3 && Parent(k) in nodes[key := t]
    ensures var grown := nodes[key := t];
      At(m[Slot(nodes, key) := TableEntry(t, hhdm)], Slot(grown, k)) ==
      if k in grown then TableEntry(grown[k], hhdm) else 0
  {
    if Parent(k) == key {
      NewTableEmpty(m, nodes, root, hhdm, key, t, k.prefix % 512);
      assert k !in nodes;
    } else {
      hide FreshPage, InPage;
      SlotsDistinct(nodes, root, hhdm, k, key);
    }
  }

  /** Linking does not disturb the words of the new page. */
  lemma NewTableEmpty(m: Words, nodes: Nodes, root: nat, hhdm: nat, key: Node, t: nat, i: nat)
    requires NodesOk(nodes, root, hhdm) && Parent(key) in nodes && FreshPage(m, nodes, t) && i < 512
    ensures At(m[Slot(nodes, key) := TableEntry(t, hhdm)], t + 8 * i) == 0
  {
    hide InPage;
    InPageSlot(t, i);
    SlotInPage(nodes, root, hhdm, key);
    PagesApart(t, nodes[Parent(key)]);
  }

  lemma LinkedLeaf(m: Words, nodes: Nodes, root: nat, hhdm: nat, key: Node, t: nat, pn: PageNumber)
    requires Tree(m, nodes, root, hhdm)
    requires 1 <= key.level <= 3 && Parent(key) in nodes && key !in nodes
    requires FreshPage(m, nodes, t)
    ensures Leaf(m[Slot(nodes, key) := TableEntry(t, hhdm)], nodes[key := t], pn) == Leaf(m, nodes, pn)
  {
    hide InPage, NodeOf, Parent, TableEntry, NodesOk, EntriesOk, FreshPage;
    var k := NodeOf(1, pn);
    if k == key {
      NewTableEmpty(m, nodes, root, hhdm, key, t, pn % 512);
    } else if k in nodes {
      NotLeafTable(pn, key);
      SlotInPage(nodes, root, hhdm, key);
      LeafInPage(nodes, root, hhdm, pn);
      TablesApart(nodes, root, hhdm, k, Parent(key));
    }
  }

  /** Writing the leaf entry of one page changes that page's entry and nothing else. */
  lemma WriteLeaf(m: Words, nodes: Nodes, root: nat, hhdm: nat, pn: PageNumber, v: int)
    requires Tree(m, nodes, root, hhdm) && NodeOf(1, pn) in nodes
    ensures var m' := m[nodes[NodeOf(1, pn)] + 8 * (pn % 512) := v];
      && Tree(m', nodes, root, hhdm)
      && forall q: PageNumber :: Leaf(m', nodes, q) == if q == pn then v else Leaf(m, nodes, q)
  {
    hide InPage, NodeOf, TableEntry, Parent;
    var k := NodeOf(1, pn);
    var a := nodes[k] + 8 * (pn % 512);
    var m' := m[a := v];
    LeafInPage(nodes, root, hhdm, pn);
    forall j: Node | 1 <= j.level <= 3 && Parent(j) in nodes ensures At(m', Slot(nodes, j)) == At(m, Slot(nodes, j)) {
      NotLeafTable(pn, j);
      TablesApart(nodes, root, hhdm, k, Parent(j));
      SlotInPage(nodes, root, hhdm, j);
    }
    forall q: PageNumber ensures Leaf(m', nodes, q) == if q == pn then v else Leaf(m, nodes, q) {
      if NodeOf(1, q) in nodes {
        LeafInPage(nodes, root, hhdm, q);
        if NodeOf(1, q) == k {
          SameLeafTable(pn, q);
        } else {
          TablesApart(nodes, root, hhdm, k, NodeOf(1, q));
        }
      }
    }
  }

  lemma NotLeafTable(pn: PageNumber, j: Node)
    requires 1 <= j.level
    ensures Parent(j) != NodeOf(1, pn)
  {}

  lemma SameLeafTable(pn: PageNumber, q: PageNumber)
    requires NodeOf(1, pn) == NodeOf(1, q)
    ensures pn % 512 == q % 512 <==> pn == q
  {}
}
