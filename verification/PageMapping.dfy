/** What the mapping calls mean for the flat map from page numbers to leaf entries, and how
    many tables they need. */
module PageMapping {
  import opened Widths
  import opened Bits
  import opened Memory
  import opened HeapModel
  import opened PageModel

  /** Iterations of the mapping loop for `size` bytes. */
  function Pages(size: nat): nat {
    (size + PAGE - 1) / PAGE
  }

  function RoundDownPage(a: nat): nat {
    a - a % PAGE
  }

  function RoundUpPage(a: nat): nat {
    RoundDownPage(a + PAGE - 1)
  }

  /** Iterations of the identity loop over [start, end) rounded outward. */
  function PagesBetween(start: nat, end: nat): nat {
    if RoundDownPage(start) < RoundUpPage(end) then (RoundUpPage(end) - RoundDownPage(start)) / PAGE else 0
  }

  lemma RangeIs(start: nat, end: nat)
    ensures RoundDownPage(start) % PAGE == 0 && RoundUpPage(end) % PAGE == 0
    ensures RoundDownPage(start) < RoundUpPage(end) ==>
      RoundDownPage(start) + PAGE * PagesBetween(start, end) == RoundUpPage(end)
  {}

  /** The leaf entry the loop stores for physical page p. */
  function LeafEntry(p: nat, flags: nat): nat {
    Or(p, flags)
  }

  /** Entry of page pn after mapping n pages from v to p over an old entry `before`; a later
      page of the loop overrides an earlier one. */
  ghost function Mapped(before: int, v: nat, p: nat, n: nat, flags: nat, pn: PageNumber): int {
    if n == 0 then before
    else if PageOf(v + PAGE * (n - 1)) == pn then LeafEntry(p + PAGE * (n - 1), flags)
    else Mapped(before, v, p, n - 1, flags, pn)
  }

  lemma MappedNext(before: int, v: nat, p: nat, i: nat, flags: nat, q: PageNumber)
    ensures Mapped(before, v, p, i + 1, flags, q) ==
      if q == PageOf(v + PAGE * i) then LeafEntry(p + PAGE * i, flags) else Mapped(before, v, p, i, flags, q)
  {}

  /** Distance from page `from` forward to page `to` in the 48-bit space. */
  function Ahead(from: PageNumber, to: PageNumber): nat {
    if to >= from then to - from else to + PAGES48 - from
  }

  lemma PageOfStep(v: nat, i: nat)
    requires i < PAGES48
    ensures v / PAGE + i == (v + PAGE * i) / PAGE
    ensures PageOf(v + PAGE * i) == (if PageOf(v) + i < PAGES48 then PageOf(v) + i else PageOf(v) + i - PAGES48)
  {}

  /** For ranges of at most 2^48 bytes: exactly the pages of the range get the matching
      physical page and the flags, and every other page keeps its entry. */
  lemma {:induction false} MappedIsOverride(before: int, v: nat, p: nat, n: nat, flags: nat, pn: PageNumber)
    requires n <= PAGES48
    ensures Mapped(before, v, p, n, flags, pn) ==
      if Ahead(PageOf(v), pn) < n then LeafEntry(p + PAGE * Ahead(PageOf(v), pn), flags) else before
    decreases n
  {
    if n > 0 {
      MappedIsOverride(before, v, p, n - 1, flags, pn);
      PageOfStep(v, n - 1);
    }
  }

  /** Flag bits lie outside the address bits 51 to 12. */
  predicate FlagsOk(flags: nat) {
    flags < TWO64 && flags % PHYS52 < PAGE
  }

  lemma {:induction false} OrSplit(x: nat, y: nat, a: nat, b: nat, k: nat)
    requires a < Pow2(k) && b < Pow2(k)
    ensures Or(x * Pow2(k) + a, y * Pow2(k) + b) == Or(x, y) * Pow2(k) + Or(a, b)
    decreases k
  {
    if k > 0 {
      hide Or;
      OrSplit(x, y, a / 2, b / 2, k - 1);
      OrSplitStep(x, y, a, b, Pow2(k - 1));
    } else {
      OrZero(0);
    }
  }

  lemma OrSplitStep(x: nat, y: nat, a: nat, b: nat, d: nat)
    requires Or(x * d + a / 2, y * d + b / 2) == Or(x, y) * d + Or(a / 2, b / 2)
    ensures Or(x * (2 * d) + a, y * (2 * d) + b) == Or(x, y) * (2 * d) + Or(a, b)
  {
    hide Or;
    DoubleProduct(x, d);
    DoubleProduct(y, d);
    DoubleProduct(Or(x, y), d);
    OrHalves(x * d + a / 2, a % 2, y * d + b / 2, b % 2);
    OrHalves(a / 2, a % 2, b / 2, b % 2);
    assert 2 * (a / 2) + a % 2 == a && 2 * (b / 2) + b % 2 == b;
    assert 2 * (x * d + a / 2) + a % 2 == x * (2 * d) + a;
    assert 2 * (y * d + b / 2) + b % 2 == y * (2 * d) + b;
  }

  lemma DoubleProduct(x: nat, d: nat)
    ensures x * (2 * d) == 2 * (x * d)
  {}

  lemma OrHalves(x: nat, i: nat, y: nat, j: nat)
    requires i < 2 && j < 2
    ensures Or(2 * x + i, 2 * y + j) == 2 * Or(x, y) + (if i == 1 || j == 1 then 1 else 0)
  {}

  lemma OrZero(y: nat)
    ensures Or(0, y) == y
  {}

  /** A page-aligned 52-bit address or-ed with flags outside the address bits is their sum. */
  lemma LeafEntryIs(p: nat, flags: nat)
    requires p % PAGE == 0 && p < PHYS52 && FlagsOk(flags)
    ensures LeafEntry(p, flags) == p + flags < TWO64
  {
    hide Or, Pow2;
    var hi, low := flags / PHYS52, flags % PHYS52;
    Pow2Of64();
    OrZero(hi);
    OrSplit(0, hi, p, low, 52);
    OrDisjoint(p, low, 12);
    assert flags == hi * PHYS52 + low;
    assert hi < 4096 && p + low < PHYS52;
  }

  lemma PhysBaseOf(e: nat, hi: nat, frame: nat, low: nat)
    requires e == (hi * 0x100_0000_0000 + frame) * PAGE + low && low < PAGE && frame < 0x100_0000_0000
    ensures PhysBase(e) == frame * PAGE
  {
    RemainderIs(e, PAGE, hi * 0x100_0000_0000 + frame, low);
    RemainderIs(hi * 0x100_0000_0000 + frame, 0x100_0000_0000, hi, frame);
  }

  lemma SumParity(p: nat, flags: nat)
    requires p % PAGE == 0
    ensures (p + flags) % 2 == flags % 2
  {
    assert p == 2 * (2048 * (p / PAGE));
  }

  /** The address and the flags read back from a leaf entry are the ones mapped. */
  lemma LeafEntryDecodes(p: nat, flags: nat)
    requires p % PAGE == 0 && p < PHYS52 && FlagsOk(flags)
    ensures PhysBase(LeafEntry(p, flags)) == p
    ensures LeafEntry(p, flags) - PhysBase(LeafEntry(p, flags)) == flags
    ensures LeafEntry(p, flags) % 2 == flags % 2
  {
    hide LeafEntry, PhysBase;
    LeafEntryIs(p, flags);
    SumParity(p, flags);
    PhysBaseOf(p + flags, flags / PHYS52, p / PAGE, flags % PHYS52);
  }

  /** `new_table | Present | Writable | User`. */
  function NamingEntry(phys: nat): nat {
    Or(Or(Or(phys, PRESENT), WRITABLE), USER)
  }

  lemma NamingEntryIs(phys: nat)
    requires phys % PAGE == 0
    ensures NamingEntry(phys) == phys + TABLE_FLAGS
  {
    Pow2Of64();
    OrDisjoint(phys, 1, 12);
    OrLow(phys, 1, 2);
    OrLow(phys, 3, 4);
    assert Or(1, 2) == 3 && Or(3, 4) == 7;
  }

  lemma OrLow(x: nat, a: nat, b: nat)
    requires x % PAGE == 0 && a < PAGE && b < PAGE && Or(a, b) < PAGE
    ensures Or(x + a, b) == x + Or(a, b)
  {
    hide Or, Pow2;
    Pow2Of64();
    OrCommutes(x / PAGE, 0);
    OrZero(x / PAGE);
    assert x == (x / PAGE) * PAGE;
    OrSplit(x / PAGE, 0, a, b, 12);
  }

  /** `entry & ~0xFFF` and `entry & Present`. */
  lemma EntryMasks(e: Word)
    ensures And(e, Not64(0xFFF)) == e - e % PAGE
    ensures And(e, PRESENT) == e % 2
  {
    Pow2Of64();
    assert IsPow2(PAGE) by { assert PAGE == Pow2(12); }
    AlignDown(e, PAGE);
    assert Pow2(1) == 2;
    AndLowOnes(e, 1);
  }

  // ----- the tables a mapping needs -----

  ghost function Path(pn: PageNumber): set<Node> {
    {NodeOf(3, pn), NodeOf(2, pn), NodeOf(1, pn)}
  }

  ghost function Needed(v: nat, n: nat): set<Node> {
    if n == 0 then {} else Needed(v, n - 1) + Path(PageOf(v + PAGE * (n - 1)))
  }

  lemma {:induction false} NeededGrows(v: nat, i: nat, n: nat)
    requires i <= n
    ensures Needed(v, i) <= Needed(v, n)
    ensures i < n ==> Path(PageOf(v + PAGE * i)) <= Needed(v, n)
    decreases n
  {
    if i < n {
      NeededGrows(v, i, n - 1);
    }
  }

  lemma NeededNext(v: nat, i: nat)
    ensures Needed(v, i + 1) == Needed(v, i) + Path(PageOf(v + PAGE * i))
  {}

  /** Tables are only added, never replaced. */
  ghost predicate Extends(n0: Nodes, n1: Nodes, added: set<Node>) {
    && n1.Keys == n0.Keys + added
    && (forall k :: k in n0 ==> n1[k] == n0[k])
  }

  /** One page mapped: its entry is new, every other entry and every old table is kept. */
  ghost predicate OnePage(m0: Words, n0: Nodes, m1: Words, n1: Nodes, v: nat, p: nat, flags: nat) {
    && Extends(n0, n1, Path(PageOf(v)))
    && forall q: PageNumber :: Leaf(m1, n1, q) == (if q == PageOf(v) then LeafEntry(p, flags) else Leaf(m0, n0, q))
  }

  /** i pages mapped. */
  ghost predicate MappedPages(m0: Words, n0: Nodes, m1: Words, n1: Nodes, v: nat, p: nat, i: nat, flags: nat) {
    && Extends(n0, n1, Needed(v, i))
    && forall q: PageNumber :: Leaf(m1, n1, q) == Mapped(Leaf(m0, n0, q), v, p, i, flags, q)
  }

  lemma NothingMapped(m: Words, n: Nodes, v: nat, p: nat, flags: nat)
    ensures MappedPages(m, n, m, n, v, p, 0, flags)
  {}

  lemma OneMorePage(m0: Words, n0: Nodes, m1: Words, n1: Nodes, m2: Words, n2: Nodes,
      v: nat, p: nat, i: nat, flags: nat)
    requires MappedPages(m0, n0, m1, n1, v, p, i, flags)
    requires OnePage(m1, n1, m2, n2, v + PAGE * i, p + PAGE * i, flags)
    ensures MappedPages(m0, n0, m2, n2, v, p, i + 1, flags)
  {
    hide PageOf, LeafEntry, Leaf, Mapped, Path, Needed;
    NeededNext(v, i);
    forall q: PageNumber ensures Leaf(m2, n2, q) == Mapped(Leaf(m0, n0, q), v, p, i + 1, flags, q) {
      MappedNext(Leaf(m0, n0, q), v, p, i, flags, q);
    }
  }

  lemma CardUnion<T>(a: set<T>, b: set<T>)
    ensures |a + b| <= |a| + |b|
    ensures |a + b| >= |a|
  {
    assert a + b == a + (b - a);
    assert |a + (b - a)| == |a| + |b - a|;
    SubsetCard(b - a, b);
  }

  lemma {:induction false} SubsetCard<T>(a: set<T>, b: set<T>)
    requires a <= b
    ensures |a| <= |b|
    decreases |a|
  {
    if a != {} {
      var x :| x in a;
      SubsetCard(a - {x}, b - {x});
    }
  }

  /** Mapping n pages takes at most 3n new tables. */
  lemma {:induction false} NeededAtMostThreeEach(v: nat, n: nat)
    ensures |Needed(v, n)| <= 3 * n
    decreases n
  {
    if n > 0 {
      NeededAtMostThreeEach(v, n - 1);
      var pn := PageOf(v + PAGE * (n - 1));
      CardUnion({NodeOf(3, pn)} + {NodeOf(2, pn)}, {NodeOf(1, pn)});
      CardUnion({NodeOf(3, pn)}, {NodeOf(2, pn)});
      assert Path(pn) == {NodeOf(3, pn)} + {NodeOf(2, pn)} + {NodeOf(1, pn)};
      CardUnion(Needed(v, n - 1), Path(pn));
    }
  }

  // The tables of one level along n consecutive pages.
  ghost function LevelNodes(level: nat, v: nat, n: nat): set<Node> {
    if n == 0 then {} else LevelNodes(level, v, n - 1) + {NodeOf(level, PageOf(v + PAGE * (n - 1)))}
  }

  /** Pages of one table: 512 to the power of its level. */
  function TablePages(level: nat): (r: nat)
    ensures r > 0
  {
    if level <= 1 then 512 else if level == 2 then 0x4_0000 else 0x800_0000
  }

  lemma QuotientBelow(r: nat, s: nat, t: nat)
    requires s > 0 && r < s * t
    ensures r / s < t
  {
    if r / s >= t { MulAtMost(s, t, r / s); }
  }

  lemma MixedDigits(x: nat, s: nat, t: nat, q: nat, a: nat, b: nat)
    requires b < s && a < t && x == (s * t) * q + (s * a + b)
    ensures x / s == t * q + a && (x / s) % t == a
  {
    assert (s * t) * q == s * (t * q);
    assert s * (t * q + a) == s * (t * q) + s * a;
    RemainderIs(x, s, t * q + a, b);
    RemainderIs(t * q + a, t, q, a);
  }

  lemma ModDiv(x: nat, s: nat, t: nat)
    requires s > 0 && t > 0
    ensures s * t > 0 && (x % (s * t)) / s == (x / s) % t
  {
    var m := s * t;
    var r := x % m;
    QuotientBelow(r, s, t);
    MixedDigits(x, s, t, x / m, r / s, r % s);
  }

  lemma NodeOfPage(level: nat, v: nat)
    requires 1 <= level <= 3
    ensures NodeOf(level, PageOf(v)) == Node(level, (v / PAGE / TablePages(level)) % (PAGES48 / TablePages(level)))
  {
    var x := v / PAGE;
    if level == 1 {
      ModDiv(x, 512, 0x800_0000);
    } else if level == 2 {
      ModDiv(x, 0x4_0000, 0x4_0000);
      DivDiv(PageOf(v), 512, 512);
    } else {
      ModDiv(x, 0x800_0000, 512);
      DivDiv(PageOf(v), 0x4_0000, 512);
    }
  }

  /** Pages in the same aligned group share their table. */
  lemma SameGroupSameNode(level: nat, v: nat, w: nat)
    requires 1 <= level <= 3 && v / PAGE / TablePages(level) == w / PAGE / TablePages(level)
    ensures NodeOf(level, PageOf(v)) == NodeOf(level, PageOf(w))
  {
    NodeOfPage(level, v);
    NodeOfPage(level, w);
  }

  /** One table per aligned group the range touches. */
  lemma {:induction false} LevelCount(level: nat, v: nat, n: nat)
    requires 1 <= level <= 3 && n > 0
    ensures |LevelNodes(level, v, n)| <= (v / PAGE + n - 1) / TablePages(level) - v / PAGE / TablePages(level) + 1
    ensures NodeOf(level, PageOf(v + PAGE * (n - 1))) in LevelNodes(level, v, n)
    decreases n
  {
    var s := TablePages(level);
    var a := v / PAGE;
    var last := v + PAGE * (n - 1);
    assert last / PAGE == a + n - 1;
    if n == 1 {
      assert LevelNodes(level, v, 1) == {NodeOf(level, PageOf(last))};
    } else {
      hide NodeOf, PageOf, TablePages;
      LevelCount(level, v, n - 1);
      GroupSteps(a + n - 2, s);
      var before := v + PAGE * (n - 2);
      assert before / PAGE == a + n - 2;
      if (a + n - 1) / s == (a + n - 2) / s {
        SameGroupSameNode(level, last, before);
      } else {
        CardUnion(LevelNodes(level, v, n - 1), {NodeOf(level, PageOf(last))});
      }
    }
  }

  lemma GroupSteps(x: nat, s: nat)
    requires s > 0
    ensures x / s <= (x + 1) / s <= x / s + 1
  {
    if x % s + 1 < s {
      RemainderIs(x + 1, s, x / s, x % s + 1);
    } else {
      assert s * (x / s + 1) == s * (x / s) + s;
      RemainderIs(x + 1, s, x / s + 1, 0);
    }
  }

  lemma {:induction false} NeededByLevel(v: nat, n: nat)
    ensures Needed(v, n) == LevelNodes(3, v, n) + LevelNodes(2, v, n) + LevelNodes(1, v, n)
    decreases n
  {
    if n > 0 {
      hide NodeOf, PageOf;
      NeededByLevel(v, n - 1);
    }
  }

  /** n consecutive pages need no more than n/512 + n/512^2 + n/512^3 + 6 tables. */
  lemma NeededCount(v: nat, n: nat)
    ensures |Needed(v, n)| <= n / 512 + n / 0x4_0000 + n / 0x800_0000 + 6
  {
    if n > 0 {
      NeededByLevel(v, n);
      CardUnion(LevelNodes(3, v, n) + LevelNodes(2, v, n), LevelNodes(1, v, n));
      CardUnion(LevelNodes(3, v, n), LevelNodes(2, v, n));
      hide LevelNodes, Needed, NodeOf, PageOf;
      LevelCount(1, v, n);
      LevelCount(2, v, n);
      LevelCount(3, v, n);
      GroupsTouched(v / PAGE, n, 512);
      GroupsTouched(v / PAGE, n, 0x4_0000);
      GroupsTouched(v / PAGE, n, 0x800_0000);
    }
  }

  lemma GroupsTouched(a: nat, n: nat, s: nat)
    requires n > 0 && s > 0
    ensures (a + n - 1) / s - a / s + 1 <= n / s + 2
  {
    DivMod(a, s);
    DivMod(n - 1, s);
    SumOfQuotients(a + n - 1, s, a / s, a % s, (n - 1) / s, (n - 1) % s);
    GroupSteps(n - 1, s);
  }

  lemma DivMod(x: nat, s: nat)
    requires s > 0
    ensures x == s * (x / s) + x % s
  {}

  lemma SumOfQuotients(x: nat, s: nat, q: nat, r: nat, m: nat, t: nat)
    requires r < s && t < s && x == s * q + r + (s * m + t)
    ensures x / s <= q + m + 1
  {
    assert s * (q + m) == s * q + s * m;
    if r + t < s {
      RemainderIs(x, s, q + m, r + t);
    } else {
      assert s * (q + m + 1) == s * (q + m) + s;
      RemainderIs(x, s, q + m + 1, r + t - s);
    }
  }

  // ----- room for tables in the heap -----

  /** What `malloc_align(4096, 4096)` asks of `malloc`, and what it costs the heap. */
  const PAGE_REQUEST: nat := 8200
  const PAGE_COST: nat := 8240

  /** Page allocations one free block of this size serves: each takes PAGE_COST bytes off it, and
      the last may take the block whole. */
  function Serves(size: nat): nat {
    (size + HEADER) / PAGE_COST
  }

  /** Page allocations the heap serves. */
  ghost function PagesIn(cs: seq<Cell>): nat {
    if |cs| == 0 then 0
    else PagesIn(cs[..|cs| - 1]) + (if cs[|cs| - 1].free then Serves(cs[|cs| - 1].size) else 0)
  }

  /** The free blocks together serve k page allocations. */
  ghost predicate Room(cs: seq<Cell>, k: nat) {
    k <= PagesIn(cs)
  }

  lemma RoomLess(cs: seq<Cell>, j: nat, k: nat)
    requires j <= k && Room(cs, k)
    ensures Room(cs, j)
  {}

  lemma PageRequestRounds()
    ensures RoundUp16(PAGE_REQUEST) == 8208
  {
    RoundUp16Is(PAGE_REQUEST);
  }

  lemma {:induction false} PagesInAppend(a: seq<Cell>, b: seq<Cell>)
    ensures PagesIn(a + b) == PagesIn(a) + PagesIn(b)
    decreases |b|
  {
    if |b| == 0 {
      assert a + b == a;
    } else {
      var front := b[..|b| - 1];
      assert (a + b)[..|a + b| - 1] == a + front;
      PagesInAppend(a, front);
    }
  }

  lemma PagesInOne(c: Cell)
    ensures PagesIn([c]) == if c.free then Serves(c.size) else 0
  {
    assert [c][..0] == [];
  }

  lemma {:induction false} SomeBlockServes(cs: seq<Cell>)
    ensures PagesIn(cs) > 0 <==> exists c :: c in cs && Fits(c, 8208)
    decreases |cs|
  {
    if |cs| > 0 {
      var front, last := cs[..|cs| - 1], cs[|cs| - 1];
      SomeBlockServes(front);
      ServesIff(last.size);
      hide Serves;
      assert PagesIn(cs) > 0 <==> PagesIn(front) > 0 || Fits(last, 8208);
      assert cs == front + [last];
      assert forall c :: c in cs <==> c in front || c == last;
    }
  }

  lemma ServesIff(size: nat)
    ensures Serves(size) > 0 <==> size >= 8208
  {}

  /** A page allocation succeeds if and only if there is room for one. */
  lemma RoomServes(cs: seq<Cell>)
    ensures Room(cs, 1) <==> FirstFit(cs, 8208) < |cs|
  {
    SomeBlockServes(cs);
    if FirstFit(cs, 8208) < |cs| {
      assert cs[FirstFit(cs, 8208)] in cs;
    }
  }

  /** Whichever block first fit takes, a page allocation uses up exactly one page of room. */
  lemma RoomAfter(cs: seq<Cell>, k: nat)
    requires k < |cs| && Fits(cs[k], 8208)
    ensures PagesIn(AllocAt(cs, k, 8208)) == PagesIn(cs) - 1
  {
    hide *;
    AllocAtParts(cs, k, 8208);
    PagesInParts(cs[..k], [cs[k]], cs[k + 1..]);
    PagesInParts(cs[..k], Pieces(cs[k], 8208), cs[k + 1..]);
    OnePageLess(cs[k]);
  }

  lemma OnePageLess(c: Cell)
    requires Fits(c, 8208)
    ensures PagesIn(Pieces(c, 8208)) == PagesIn([c]) - 1
  {
    PagesInOne(c);
    ServesLess(c.size);
    var rest := Pieces(c, 8208);
    if |rest| == 2 {
      assert rest == [rest[0]] + [rest[1]];
      hide PagesIn, Serves;
      PagesInAppend([rest[0]], [rest[1]]);
      PagesInOne(rest[0]);
      PagesInOne(rest[1]);
    } else {
      PagesInOne(rest[0]);
    }
  }

  lemma PagesInParts(a: seq<Cell>, b: seq<Cell>, c: seq<Cell>)
    ensures PagesIn(a + b + c) == PagesIn(a) + PagesIn(b) + PagesIn(c)
  {
    PagesInAppend(a + b, c);
    PagesInAppend(a, b);
  }

  lemma ServesLess(size: nat)
    requires size >= 8208
    ensures if size >= PAGE_COST + 16 then Serves(size) == Serves(size - PAGE_COST) + 1 else Serves(size) == 1
  {}

  /** `(v >> shift) & 0x1FF` with shift 12, 21, 30 or 39 for levels 1 to 4. */
  function IndexBits(v: nat, level: nat): nat {
    And(v / (PAGE * Span(level)), 0x1FF)
  }

  lemma IndexBitsAre(v: nat, level: nat)
    requires 1 <= level <= 4
    ensures IndexBits(v, level) == IndexIn(level, PageOf(v))
  {
    hide And, Pow2;
    Pow2Of512();
    AndLowOnes(v / (PAGE * Span(level)), 9);
    IndexDrop(v, level);
  }

  lemma Pow2Of512()
    ensures Pow2(9) == 512
  {
    assert Pow2(5) == 32;
  }

  lemma DivDiv(x: nat, a: nat, b: nat)
    requires a > 0 && b > 0
    ensures a * b > 0 && x / (a * b) == x / a / b
  {
    var q := x / a;
    var r := x % a;
    assert x == a * q + r && q == b * (q / b) + q % b;
    assert a * (b * (q / b) + q % b) == (a * b) * (q / b) + a * (q % b) by {
      assert a * (b * (q / b)) == (a * b) * (q / b);
    }
    assert a * (q % b) + r < a * b by {
      assert a * (q % b) + a <= a * b by {
        assert a * (q % b) + a == a * (q % b + 1);
        MulAtMost(a, q % b + 1, b);
      }
    }
    RemainderIs(x, a * b, q / b, a * (q % b) + r);
  }

  lemma MulAtMost(a: nat, x: nat, y: nat)
    requires x <= y
    ensures a * x <= a * y
  {
    assert a * (y - x) == a * y - a * x;
  }

  /** Address bits above the index do not reach it. */
  lemma DropHigh(x: nat, s: nat, u: nat)
    requires s > 0 && u > 0
    ensures s * (512 * u) > 0 && ((x % (s * (512 * u))) / s) % 512 == (x / s) % 512
  {
    ModDiv(x, s, 512 * u);
    ModMod(x / s, u);
  }

  lemma ModMod(y: nat, u: nat)
    requires u > 0
    ensures (y % (512 * u)) % 512 == y % 512
  {
    var q, r := y / (512 * u), y % (512 * u);
    assert y == (512 * u) * q + r;
    assert (512 * u) * q == 512 * (u * q);
    RemainderIs(y, 512, u * q + r / 512, r % 512);
  }

  lemma IndexDrop(v: nat, level: nat)
    requires 1 <= level <= 4
    ensures (v / (PAGE * Span(level))) % 512 == IndexIn(level, PageOf(v))
  {
    DivDiv(v, PAGE, Span(level));
    if level == 1 {
      DropHigh(v / PAGE, 1, 0x800_0000);
    } else if level == 2 {
      DropHigh(v / PAGE, 512, 0x4_0000);
    } else if level == 3 {
      DropHigh(v / PAGE, 0x4_0000, 512);
    } else {
      DropHigh(v / PAGE, 0x800_0000, 1);
    }
  }

  /** Taking a still missing table out of the goal uses one unit of room. */
  lemma GoalShrinks(goal: set<Node>, have: set<Node>, key: Node)
    requires key in goal && key !in have
    ensures |goal - have| == |goal - (have + {key})| + 1
  {
    assert goal - have == (goal - (have + {key})) + {key};
  }
}
