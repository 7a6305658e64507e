/** The tables of the model seen by the processor: what each address translates to. */
module PageTranslation {
  import opened Widths
  import opened Bits
  import opened Memory
  import opened Processor
  import opened PageModel
  import opened PageMapping

  /** What the processor makes of a leaf entry under tables that grant every right. */
  function OfLeaf(e: int, offset: nat): Translation {
    if !IsPresent(e) then Fault
    else Page(Frame(e) + offset, IsWritable(e), IsUser(e), IsExecutable(e))
  }

  // ----- interior entries -----

  /** An entry that names a table is present, grants every right and is no large page. */
  lemma TableEntryGrants(t: nat, hhdm: nat)
    requires t % PAGE == 0 && hhdm % PAGE == 0 && hhdm <= t < hhdm + PHYS52
    ensures var e := TableEntry(t, hhdm);
      IsPresent(e) && IsWritable(e) && IsUser(e) && IsExecutable(e) && !IsLarge(e) && hhdm + Frame(e) == t
  {
    PhysicalPage(t, hhdm);
    TableEntryDecodes(t, hhdm);
    LowBits7((t - hhdm) / PAGE);
    assert t - hhdm == PAGE * ((t - hhdm) / PAGE);
  }

  lemma LowBits7(q: nat)
    ensures var e := PAGE * q + 7;
      e % 2 == 1 && e / 2 % 2 == 1 && e / 4 % 2 == 1 && e / 0x80 % 2 == 0
  {
    RemainderIs(PAGE * q + 7, 2, 2048 * q + 3, 1);
    RemainderIs(2048 * q + 3, 2, 1024 * q + 1, 1);
    RemainderIs(PAGE * q + 7, 4, 1024 * q + 1, 3);
    RemainderIs(1024 * q + 1, 2, 512 * q, 1);
    RemainderIs(PAGE * q + 7, 0x80, 32 * q, 7);
  }

  // ----- the walk -----

  lemma IndexReach(va: nat, level: nat)
    requires 1 <= level <= 4
    ensures va / Reach(level) % 512 == IndexIn(level, PageOf(va))
  {
    IndexDrop(va, level);
    assert Reach(level) == PAGE * Span(level);
  }

  lemma EntryIsTable(m: Words, nodes: Nodes, root: nat, hhdm: nat, level: nat, pn: PageNumber)
    requires Tree(m, nodes, root, hhdm) && 2 <= level <= 4 && NodeOf(level, pn) in nodes
    ensures var e := At(m, nodes[NodeOf(level, pn)] + 8 * IndexIn(level, pn));
      var child := NodeOf(level - 1, pn);
      if child in nodes then
        && IsPresent(e) && IsWritable(e) && IsUser(e) && IsExecutable(e) && !IsLarge(e)
        && hhdm + Frame(e) == nodes[child]
      else !IsPresent(e) && NodeOf(1, pn) !in nodes
  {
    hide Span, IndexIn, NodeOf, PhysBase, Frame, TableEntry, Parent, IsWritable, IsUser, IsExecutable, IsLarge;
    EntryOnTheWay(m, nodes, root, hhdm, level, pn);
    var child := NodeOf(level - 1, pn);
    NodeOfChild(level, pn);
    assert Slot(nodes, child) == nodes[NodeOf(level, pn)] + 8 * IndexIn(level, pn);
    if child in nodes {
      TableEntryGrants(nodes[child], hhdm);
    }
  }

  /** Every level grants every right, so the leaf alone decides. */
  lemma {:induction false} TranslateFromLeaf(m: Words, nodes: Nodes, root: nat, hhdm: nat, level: nat, va: nat)
    requires Tree(m, nodes, root, hhdm) && 1 <= level <= 4 && NodeOf(level, PageOf(va)) in nodes
    ensures TranslateFrom(m, hhdm, nodes[NodeOf(level, PageOf(va))], level, va, true, true, true)
      == OfLeaf(Leaf(m, nodes, PageOf(va)), va % 0x1000)
    decreases level
  {
    var pn := PageOf(va);
    if level == 1 {
      IndexReach(va, level);
      LeafIndex(pn);
      hide Tree, NodeOf, At, PageOf, Reach, IndexIn, Frame, IsWritable, IsUser, IsExecutable;
    } else {
      hide *;
      TranslateStep(m, nodes, root, hhdm, level, va);
      if NodeOf(level - 1, pn) in nodes {
        TranslateFromLeaf(m, nodes, root, hhdm, level - 1, va);
      } else {
        NoLeaf(m, nodes, pn);
      }
    }
  }

  lemma NoLeaf(m: Words, nodes: Nodes, pn: PageNumber)
    requires NodeOf(1, pn) !in nodes
    ensures forall offset :: OfLeaf(Leaf(m, nodes, pn), offset) == Fault
  {}

  lemma TranslateStep(m: Words, nodes: Nodes, root: nat, hhdm: nat, level: nat, va: nat)
    requires Tree(m, nodes, root, hhdm) && 2 <= level <= 4 && NodeOf(level, PageOf(va)) in nodes
    ensures var child := NodeOf(level - 1, PageOf(va));
      TranslateFrom(m, hhdm, nodes[NodeOf(level, PageOf(va))], level, va, true, true, true) ==
      if child in nodes then TranslateFrom(m, hhdm, nodes[child], level - 1, va, true, true, true) else Fault
    ensures NodeOf(level - 1, PageOf(va)) !in nodes ==> NodeOf(1, PageOf(va)) !in nodes
  {
    hide *;
    IndexReach(va, level);
    EntryIsTable(m, nodes, root, hhdm, level, PageOf(va));
    TranslateEntry(m, hhdm, nodes[NodeOf(level, PageOf(va))], level, va);
  }

  /** One level of the translation with every right granted so far. */
  lemma TranslateEntry(m: Words, hhdm: nat, table: nat, level: nat, va: nat)
    requires level >= 2
    ensures var e := At(m, table + 8 * (va / Reach(level) % 512));
      && (!IsPresent(e) ==> TranslateFrom(m, hhdm, table, level, va, true, true, true) == Fault)
      && (IsPresent(e) && !IsLarge(e) && IsWritable(e) && IsUser(e) && IsExecutable(e) ==>
        TranslateFrom(m, hhdm, table, level, va, true, true, true) ==
        TranslateFrom(m, hhdm, hhdm + Frame(e), level - 1, va, true, true, true))
  {
    hide At, Reach, IsPresent, IsLarge, IsWritable, IsUser, IsExecutable, Frame;
  }

  /** Through a tree, the processor's translation is that of the leaf the walk reaches. */
  lemma TranslateIsLeaf(m: Words, nodes: Nodes, root: nat, hhdm: nat, va: nat)
    requires Tree(m, nodes, root, hhdm)
    ensures Translate(m, hhdm, root, va) == OfLeaf(Walk(m, hhdm, root, PageOf(va)), va % 0x1000)
  {
    WalkIsLeafFromRoot(m, nodes, root, hhdm, PageOf(va));
    RootNode(PageOf(va));
    hide PageOf, TranslateFrom, Leaf, EntriesOk, Walk;
    TranslateFromLeaf(m, nodes, root, hhdm, 4, va);
  }

  lemma RootNode(pn: PageNumber)
    ensures NodeOf(4, pn) == ROOT
  {
    NodeOfChild(4, pn);
  }

  // ----- leaf entries -----

  /** A leaf entry gives its page's bytes the flags' rights. */
  lemma LeafGrants(p: nat, flags: nat, offset: nat)
    requires p % PAGE == 0 && p < PHYS52 && FlagsOk(flags)
    ensures OfLeaf(LeafEntry(p, flags), offset) == Granted(p + offset, flags)
  {
    LeafEntryIs(p, flags);
    LeafEntryDecodes(p, flags);
    LeafBits(p, flags);
    hide LeafEntry, PhysBase, FlagsOk;
  }

  lemma LeafBits(p: nat, flags: nat)
    requires p % PAGE == 0 && p < PHYS52 && FlagsOk(flags)
    ensures IsWritable(p + flags) == IsWritable(flags) && IsUser(p + flags) == IsUser(flags)
    ensures IsExecutable(p + flags) == IsExecutable(flags)
  {
    var q, hi, low := p / PAGE, flags / PHYS52, flags % PHYS52;
    assert p == 4 * (1024 * q) && p == 8 * (512 * q);
    assert flags == hi * PHYS52 + low && hi < 4096 && low < PAGE;
    TopBit(p, hi, low);
    BitOne(1024 * q, flags);
    BitTwo(512 * q, flags);
  }

  lemma BitOne(x: nat, f: nat)
    ensures (4 * x + f) / 2 % 2 == f / 2 % 2
  {
    assert (4 * x + f) / 2 == 2 * x + f / 2;
  }

  lemma BitTwo(x: nat, f: nat)
    ensures (8 * x + f) / 4 % 2 == f / 4 % 2
  {
    assert (8 * x + f) / 4 == 2 * x + f / 4;
  }

  lemma TopBit(p: nat, hi: nat, low: nat)
    requires p + low < PHYS52 + PAGE && p < PHYS52 && p % PAGE == 0 && low < PAGE && hi < 4096
    ensures (p + (hi * PHYS52 + low)) / 0x8000_0000_0000_0000 == (hi * PHYS52 + low) / 0x8000_0000_0000_0000
  {}

  // ----- bytes and pages -----

  lemma SamePageIff(a: nat, b: nat)
    ensures SamePage(a, b) <==> PageOf(a) == PageOf(b)
  {}

  /** The page of byte o of an aligned range is o / 4096 pages on. */
  lemma PageOfByte(v: nat, o: nat)
    requires v % PAGE == 0 && o / PAGE < PAGES48
    ensures Ahead(PageOf(v), PageOf(v + o)) == o / PAGE
    ensures (v + o) % 0x1000 == o % 0x1000
  {
    var q, k := v / PAGE, o / PAGE;
    assert v == PAGE * q && o == PAGE * k + o % PAGE;
    RemainderIs(v + o, PAGE, q + k, o % PAGE);
    RemainderIs(v + PAGE * k, PAGE, q + k, 0);
    PageOfStep(v, k);
  }

  /** The pages that hold a byte of the range are those the loop visits. */
  lemma TouchesIff(v: nat, size: nat, va: nat)
    requires v % PAGE == 0 && size <= PAGE * PAGES48
    ensures Touches(v, size, va) <==> Ahead(PageOf(v), PageOf(va)) < Pages(size)
    ensures Pages(size) <= PAGES48
  {
    var d := Ahead(PageOf(v), PageOf(va));
    PagesAre(size);
    if Touches(v, size, va) {
      var a: nat :| v <= a < v + size && SamePage(a, va);
      var o := a - v;
      SamePageIff(v + o, va);
      QuotientLess(o, size);
      PageOfByte(v, o);
    }
    if d < Pages(size) {
      AheadReaches(v, va);
      assert PAGE * d < size;
      RemainderIs(PAGE * d, PAGE, d, 0);
      PageOfByte(v, PAGE * d);
      SamePageIff(v + PAGE * d, va);
      assert SamePage(v + PAGE * d, va);
    }
  }

  lemma AheadReaches(v: nat, va: nat)
    requires v % PAGE == 0
    ensures Ahead(PageOf(v), PageOf(va)) < PAGES48
    ensures PageOf(v + PAGE * Ahead(PageOf(v), PageOf(va))) == PageOf(va)
  {
    PageOfStep(v, Ahead(PageOf(v), PageOf(va)));
  }

  /** `Pages` counts the pages a range that starts on a page needs. */
  lemma PagesAre(size: nat)
    ensures PAGE * Pages(size) >= size
    ensures forall d: nat :: d < Pages(size) ==> PAGE * d < size
    ensures size <= PAGE * PAGES48 ==> Pages(size) <= PAGES48
  {
    var n := Pages(size);
    assert size + PAGE - 1 == PAGE * n + (size + PAGE - 1) % PAGE;
  }

  lemma QuotientLess(o: nat, size: nat)
    requires o < size
    ensures o / PAGE < Pages(size)
  {
    PagesAre(size);
    assert PAGE * (o / PAGE) <= o;
  }

  /** After the mapping, byte o of the range translates to byte o of the target with the flags'
      rights, and an address in no page of the range as before. */
  lemma MappedBytes(before: int, v: nat, p: nat, size: nat, flags: nat, va: nat)
    requires v % PAGE == 0 && p % PAGE == 0 && p + size <= PHYS52 && FlagsOk(flags)
    requires size <= PAGE * PAGES48
    ensures var after := Mapped(before, v, p, Pages(size), flags, PageOf(va));
      && (!Touches(v, size, va) ==> after == before)
      && (v <= va < v + size ==> OfLeaf(after, va % 0x1000) == Granted(p + (va - v), flags))
  {
    TouchesIff(v, size, va);
    MappedIsOverride(before, v, p, Pages(size), flags, PageOf(va));
    if v <= va < v + size {
      var o := va - v;
      QuotientLess(o, size);
      PageOfByte(v, o);
      ByteOfPage(p, o, size);
      hide *;
      LeafGrants(p + PAGE * (o / PAGE), flags, o % 0x1000);
      assert p + PAGE * (o / PAGE) + o % 0x1000 == p + o;
    }
  }

  lemma ByteOfPage(p: nat, o: nat, size: nat)
    requires p % PAGE == 0 && p + size <= PHYS52 && o < size
    ensures (p + PAGE * (o / PAGE)) % PAGE == 0 && p + PAGE * (o / PAGE) < PHYS52
  {
    RemainderIs(p + PAGE * (o / PAGE), PAGE, p / PAGE + o / PAGE, 0);
  }

  /** A mapping call over the flat map of entries, seen by the processor byte by byte. */
  lemma RangeTranslated(m0: Words, n0: Nodes, m1: Words, n1: Nodes, root: nat, hhdm: nat,
      v: nat, p: nat, size: nat, flags: nat)
    requires Tree(m0, n0, root, hhdm) && Tree(m1, n1, root, hhdm)
    requires v % PAGE == 0 && p % PAGE == 0 && p + size <= PHYS52 && FlagsOk(flags)
    requires size <= PAGE * PAGES48
    requires forall q: PageNumber ::
      Walk(m1, hhdm, root, q) == Mapped(Walk(m0, hhdm, root, q), v, p, Pages(size), flags, q)
    ensures BytesMapped(m0, m1, hhdm, root, v, p, size, flags)
  {
    hide Tree, Walk, Mapped, Pages, FlagsOk, Translate, Touches, Granted, OfLeaf;
    forall va: nat
      ensures v <= va < v + size ==> Translate(m1, hhdm, root, va) == Granted(p + (va - v), flags)
      ensures !Touches(v, size, va) ==> Translate(m1, hhdm, root, va) == Translate(m0, hhdm, root, va)
    {
      TranslateIsLeaf(m0, n0, root, hhdm, va);
      TranslateIsLeaf(m1, n1, root, hhdm, va);
      MappedBytes(Walk(m0, hhdm, root, PageOf(va)), v, p, size, flags, va);
    }
  }
}
