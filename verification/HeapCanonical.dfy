/** Consequences of the heap invariant over whole runs: the block list is determined by the
    used blocks, so frees commute, a free undoes the malloc it matches, and freeing
    everything gives back the single initial block. */
module HeapCanonical {
  import opened Widths
  import opened Bits
  import opened HeapModel

  // ----- canonical form -----

  lemma CellAtSameAddress(cs: seq<Cell>, lo: nat, hi: nat, c: Cell, i: nat)
    requires Tiles(cs, lo, hi) && c in cs && i < |cs|
    requires cs[i].addr <= c.addr < cs[i].End()
    ensures c == cs[i]
  {
    TilesOrdered(cs, lo, hi);
    var m :| 0 <= m < |cs| && cs[m] == c;
  }

  /** Under equal used sets, a free cell cannot end before the free cell at the same place
      in the other list. */
  lemma FreeCellNotShorter(a: seq<Cell>, b: seq<Cell>, lo: nat, hi: nat, i: nat)
    requires WellFormed(a, lo, hi) && WellFormed(b, lo, hi) && Used(a) == Used(b)
    requires i < |a| && i < |b| && a[i].addr == b[i].addr && a[i].free && b[i].free
    ensures a[i].size >= b[i].size
  {
    if a[i].size < b[i].size {
      TilesOrdered(b, lo, hi);
      assert i + 1 < |a|;
      var next := a[i + 1];
      assert !(a[i].free && next.free);
      assert a[i].End() == next.addr;
      assert next in Used(a);
      CellAtSameAddress(b, lo, hi, next, i);
    }
  }

  lemma {:induction false} SamePrefix(a: seq<Cell>, b: seq<Cell>, lo: nat, hi: nat, n: nat)
    requires WellFormed(a, lo, hi) && WellFormed(b, lo, hi) && Used(a) == Used(b)
    requires n <= |a| && n <= |b|
    ensures a[..n] == b[..n]
    decreases n
  {
    if n > 0 {
      var i := n - 1;
      SamePrefix(a, b, lo, hi, i);
      if i > 0 {
        assert a[i - 1] == a[..i][i - 1] == b[..i][i - 1] == b[i - 1];
        assert a[i - 1].End() == a[i].addr && b[i - 1].End() == b[i].addr;
      }
      if !a[i].free {
        assert a[i] in Used(a);
        CellAtSameAddress(b, lo, hi, a[i], i);
      } else if !b[i].free {
        assert b[i] in Used(b);
        CellAtSameAddress(a, lo, hi, b[i], i);
      } else {
        FreeCellNotShorter(a, b, lo, hi, i);
        FreeCellNotShorter(b, a, lo, hi, i);
      }
    }
  }

  lemma NotProperPrefix(a: seq<Cell>, b: seq<Cell>, lo: nat, hi: nat)
    requires WellFormed(a, lo, hi) && WellFormed(b, lo, hi)
    requires |a| <= |b| && a == b[..|a|]
    ensures a == b
  {
    TilesOrdered(b, lo, hi);
  }

  /** The whole block list is a function of the set of used blocks. */
  lemma CanonicalForm(a: seq<Cell>, b: seq<Cell>, lo: nat, hi: nat)
    requires WellFormed(a, lo, hi) && WellFormed(b, lo, hi)
    ensures a == b <==> Used(a) == Used(b)
  {
    if Used(a) == Used(b) {
      if |a| <= |b| {
        SamePrefix(a, b, lo, hi, |a|);
        assert a[..|a|] == a;
        NotProperPrefix(a, b, lo, hi);
      } else {
        SamePrefix(a, b, lo, hi, |b|);
        assert b[..|b|] == b;
        NotProperPrefix(b, a, lo, hi);
      }
    }
  }

  lemma InitialWellFormed(lo: nat, hi: nat)
    requires 0 < lo && lo + HEADER <= hi < TWO64 && lo % 16 == 0 && hi % 16 == 0
    ensures WellFormed(InitialCells(lo, hi), lo, hi)
    ensures Used(InitialCells(lo, hi)) == {}
  {
    assert (hi - lo - HEADER) % 16 == 0;
  }

  /** free(malloc(n)) restores the list exactly, split or not. */
  lemma FreeUndoesMalloc(cs: seq<Cell>, lo: nat, hi: nat, k: nat, n: nat)
    requires WellFormed(cs, lo, hi) && k < |cs| && Fits(cs[k], n) && n % 16 == 0
    ensures k < |AllocAt(cs, k, n)|
    ensures Release(AllocAt(cs, k, n), k) == cs
  {
    var r := AllocAt(cs, k, n);
    AllocAtKeeps(cs, lo, hi, k, n);
    AllocAtUsed(cs, lo, hi, k, n);
    assert r[k] == Taken(cs[k], n);
    ReleaseKeeps(r, lo, hi, k);
    assert Used(Release(r, k)) == Used(cs);
    CanonicalForm(Release(r, k), cs, lo, hi);
  }

  // ----- whole runs -----

  datatype Call = Malloc(size: Word) | Free(ptr: nat)

  /** Index of the used block whose payload starts at p, or |cs|. */
  function LiveIndex(cs: seq<Cell>, p: nat): (k: nat)
    ensures k <= |cs|
    ensures k < |cs| ==> !cs[k].free && cs[k].Payload() == p
    ensures k == |cs| ==> forall c :: c in cs && !c.free ==> c.Payload() != p
  {
    if |cs| == 0 then 0
    else if !cs[0].free && cs[0].Payload() == p then 0
    else
      var k := LiveIndex(cs[1..], p);
      assert forall c :: c in cs ==> c == cs[0] || c in cs[1..];
      k + 1
  }

  predicate Live(cs: seq<Cell>, p: nat) {
    LiveIndex(cs, p) < |cs|
  }

  /** What the code demands of its caller: only null and live pointers are freed. */
  predicate Legal(cs: seq<Cell>, call: Call) {
    call.Free? && call.ptr != 0 ==> Live(cs, call.ptr)
  }

  function Apply(cs: seq<Cell>, call: Call): seq<Cell>
    requires Legal(cs, call)
  {
    match call
    case Malloc(size) =>
      var n := RoundUp16(size);
      var k := FirstFit(cs, n);
      if k < |cs| then AllocAt(cs, k, n) else cs
    case Free(p) =>
      if p == 0 then cs else Release(cs, LiveIndex(cs, p))
  }

  predicate LegalRun(cs: seq<Cell>, calls: seq<Call>)
    decreases |calls|
  {
    |calls| == 0 || (Legal(cs, calls[0]) && LegalRun(Apply(cs, calls[0]), calls[1..]))
  }

  function Run(cs: seq<Cell>, calls: seq<Call>): seq<Cell>
    requires LegalRun(cs, calls)
    decreases |calls|
  {
    if |calls| == 0 then cs else Run(Apply(cs, calls[0]), calls[1..])
  }

  lemma LiveIndexUnique(cs: seq<Cell>, lo: nat, hi: nat, k: nat)
    requires Tiles(cs, lo, hi) && k < |cs| && !cs[k].free
    ensures LiveIndex(cs, cs[k].Payload()) == k
  {
    TilesOrdered(cs, lo, hi);
    assert cs[k] in cs;
  }

  lemma ApplyKeeps(cs: seq<Cell>, lo: nat, hi: nat, call: Call)
    requires WellFormed(cs, lo, hi) && Legal(cs, call)
    ensures WellFormed(Apply(cs, call), lo, hi)
  {
    match call
    case Malloc(size) =>
      var n := RoundUp16(size);
      var k := FirstFit(cs, n);
      RoundUp16Is(size);
      if k < |cs| { AllocAtKeeps(cs, lo, hi, k, n); }
    case Free(p) =>
      if p != 0 { ReleaseKeeps(cs, lo, hi, LiveIndex(cs, p)); }
  }

  /** Over every run: exact tiling in address order, 16-byte units, no two free neighbours,
      and conservation of every byte. */
  lemma {:induction false} RunKeeps(cs: seq<Cell>, lo: nat, hi: nat, calls: seq<Call>)
    requires WellFormed(cs, lo, hi) && LegalRun(cs, calls)
    ensures WellFormed(Run(cs, calls), lo, hi)
    ensures SumSizes(Run(cs, calls)) + HEADER * |Run(cs, calls)| == hi - lo
    ensures SumSizes(Run(cs, calls)) == SumFree(Run(cs, calls)) + SumUsed(Run(cs, calls))
    decreases |calls|
  {
    if |calls| > 0 {
      ApplyKeeps(cs, lo, hi, calls[0]);
      RunKeeps(Apply(cs, calls[0]), lo, hi, calls[1..]);
    } else {
      HeapAccounts(cs, lo, hi);
    }
  }

  /** Two histories of one heap that leave the same blocks in use leave the same list. */
  lemma RunsAgree(cs: seq<Cell>, lo: nat, hi: nat, first: seq<Call>, second: seq<Call>)
    requires WellFormed(cs, lo, hi) && LegalRun(cs, first) && LegalRun(cs, second)
    ensures Run(cs, first) == Run(cs, second) <==> Used(Run(cs, first)) == Used(Run(cs, second))
  {
    RunKeeps(cs, lo, hi, first);
    RunKeeps(cs, lo, hi, second);
    CanonicalForm(Run(cs, first), Run(cs, second), lo, hi);
  }

  ghost function LivePointers(cs: seq<Cell>): set<nat> {
    set c | c in Used(cs) :: c.Payload()
  }

  lemma PointersWithout(cs: seq<Cell>, lo: nat, hi: nat, r: seq<Cell>, x: Cell)
    requires Tiles(cs, lo, hi) && x in Used(cs) && Used(r) == Used(cs) - {x}
    ensures LivePointers(r) == LivePointers(cs) - {x.Payload()}
  {
    forall c | c in Used(cs) && c.Payload() == x.Payload() ensures c == x {
      var i :| 0 <= i < |cs| && cs[i] == x;
      CellAtSameAddress(cs, lo, hi, c, i);
    }
  }

  /** Freeing a live pointer takes it, and no other pointer, out of the live set. */
  lemma FreeRemovesPointer(cs: seq<Cell>, lo: nat, hi: nat, p: nat)
    requires WellFormed(cs, lo, hi) && Live(cs, p)
    ensures LivePointers(Apply(cs, Free(p))) == LivePointers(cs) - {p}
    ensures Used(Apply(cs, Free(p))) == Used(cs) - {cs[LiveIndex(cs, p)]}
  {
    var k := LiveIndex(cs, p);
    ReleaseKeeps(cs, lo, hi, k);
    PointersWithout(cs, lo, hi, Release(cs, k), cs[k]);
  }

  /** Frees commute. */
  lemma FreesCommute(cs: seq<Cell>, lo: nat, hi: nat, p: nat, q: nat)
    requires WellFormed(cs, lo, hi) && Live(cs, p) && Live(cs, q) && p != q
    ensures LegalRun(cs, [Free(p), Free(q)]) && LegalRun(cs, [Free(q), Free(p)])
    ensures Run(cs, [Free(p), Free(q)]) == Run(cs, [Free(q), Free(p)])
  {
    FreeTwo(cs, lo, hi, p, q);
    FreeTwo(cs, lo, hi, q, p);
    RunsAgree(cs, lo, hi, [Free(p), Free(q)], [Free(q), Free(p)]);
  }

  lemma FreeTwo(cs: seq<Cell>, lo: nat, hi: nat, p: nat, q: nat)
    requires WellFormed(cs, lo, hi) && Live(cs, p) && Live(cs, q) && p != q
    ensures LegalRun(cs, [Free(p), Free(q)])
    ensures Used(Run(cs, [Free(p), Free(q)])) == Used(cs) - {cs[LiveIndex(cs, p)], cs[LiveIndex(cs, q)]}
  {
    var calls := [Free(p), Free(q)];
    var one := Apply(cs, Free(p));
    ApplyKeeps(cs, lo, hi, Free(p));
    FreeRemovesPointer(cs, lo, hi, p);
    var c := cs[LiveIndex(cs, q)];
    assert c in Used(cs) && c != cs[LiveIndex(cs, p)];
    assert c in Used(one);
    var m :| 0 <= m < |one| && one[m] == c;
    LiveIndexUnique(one, lo, hi, m);
    FreeRemovesPointer(one, lo, hi, q);
    assert calls[1..] == [Free(q)] && calls[1..][1..] == [];
    assert Run(cs, calls) == Run(one, [Free(q)]) == Run(Apply(one, Free(q)), []);
  }

  function Frees(ps: seq<nat>): seq<Call> {
    seq(|ps|, i requires 0 <= i < |ps| => Free(ps[i]))
  }

  /** Freeing every live pointer once, in any order, is legal and gives the initial block. */
  lemma {:induction false} FreeAllAnyOrder(cs: seq<Cell>, lo: nat, hi: nat, ps: seq<nat>)
    requires WellFormed(cs, lo, hi) && lo + HEADER <= hi && lo % 16 == 0 && hi % 16 == 0
    requires forall i, j :: 0 <= i < j < |ps| ==> ps[i] != ps[j]
    requires forall p :: p in ps <==> p in LivePointers(cs)
    ensures LegalRun(cs, Frees(ps))
    ensures Run(cs, Frees(ps)) == InitialCells(lo, hi)
    decreases |ps|
  {
    if |ps| == 0 {
      forall c | c in cs ensures c !in Used(cs) {
        assert c in Used(cs) ==> c.Payload() in LivePointers(cs);
      }
      assert Used(cs) == {};
      InitialWellFormed(lo, hi);
      CanonicalForm(cs, InitialCells(lo, hi), lo, hi);
    } else {
      var p := ps[0];
      assert p in LivePointers(cs);
      FreeRemovesPointer(cs, lo, hi, p);
      ApplyKeeps(cs, lo, hi, Free(p));
      var one := Apply(cs, Free(p));
      forall q ensures q in ps[1..] <==> q in LivePointers(one) {
        if q in ps[1..] { assert q in ps && q != p; }
      }
      assert Frees(ps)[1..] == Frees(ps[1..]);
      FreeAllAnyOrder(one, lo, hi, ps[1..]);
    }
  }

  // ----- what malloc hands out -----

  ghost predicate Disjoint(a: nat, aEnd: nat, b: nat, bEnd: nat) {
    aEnd <= b || bEnd <= a
  }

  /** First fit by address, and null exactly when nothing fits. */
  lemma MallocTakesLowestFit(cs: seq<Cell>, lo: nat, hi: nat, n: nat)
    requires WellFormed(cs, lo, hi)
    ensures FirstFit(cs, n) == |cs| <==> forall c :: c in cs ==> !Fits(c, n)
    ensures FirstFit(cs, n) < |cs| ==>
      forall c :: c in cs && Fits(c, n) ==> cs[FirstFit(cs, n)].addr <= c.addr
  {
    TilesOrdered(cs, lo, hi);
    if FirstFit(cs, n) < |cs| {
      assert cs[FirstFit(cs, n)] in cs;
    }
  }

  /** The request in whole 16-byte units. */
  function InUnits(size: nat): nat {
    16 * ((size + 15) / 16)
  }

  lemma InUnitsIs(size: Word)
    ensures size <= TWO64 - 16 ==> RoundUp16(size) == InUnits(size)
  {
    RoundUp16Is(size);
    hide RoundUp16;
  }

  /** The block handed out has just the units asked for and leaves the rest behind as a free
      block with room for at least one unit, or it is the whole block and wastes under 48
      bytes. */
  lemma LittleWasted(cs: seq<Cell>, size: Word, k: nat)
    requires size <= TWO64 - 16 && k == FirstFit(cs, RoundUp16(size)) < |cs|
    ensures var r := AllocAt(cs, k, RoundUp16(size));
      && k < |r|
      && if r[k].End() == cs[k].End() then InUnits(size) <= r[k].size < InUnits(size) + 48
         else
           && r[k].size == InUnits(size)
           && k + 1 < |r| && r[k + 1].free && r[k + 1].size >= 16
           && r[k + 1].addr == r[k].End() && r[k + 1].End() == cs[k].End()
  {
    InUnitsIs(size);
    hide RoundUp16, InUnits;
  }

  /** The payload is aligned and clear of every other header and payload, and it is big enough
      if and only if the request does not exceed 2^64 - 16. */
  lemma MallocPayload(cs: seq<Cell>, lo: nat, hi: nat, size: Word, k: nat)
    requires WellFormed(cs, lo, hi)
    requires k == FirstFit(cs, RoundUp16(size)) < |cs|
    ensures var r := AllocAt(cs, k, RoundUp16(size));
      && k < |r| && !r[k].free && r[k].Payload() % 16 == 0
      && r[k].Payload() == cs[k].Payload()
      && (r[k].size >= size <==> size <= TWO64 - 16)
      && (forall c :: c in r && c != r[k] ==> Disjoint(r[k].addr, r[k].End(), c.addr, c.End()))
  {
    var n := RoundUp16(size);
    RoundUp16Is(size);
    AllocAtKeeps(cs, lo, hi, k, n);
    AllocAtTaken(cs, k, n);
    TakenPayload(cs, AllocAt(cs, k, n), lo, hi, n, k);
  }

  lemma TakenPayload(cs: seq<Cell>, r: seq<Cell>, lo: nat, hi: nat, n: nat, k: nat)
    requires Tiles(r, lo, hi) && hi < TWO64 && k < |cs| && k < |r| && n <= cs[k].size
    requires r[k] == Taken(cs[k], n)
    ensures !r[k].free && n <= r[k].size < TWO64 - HEADER
    ensures r[k].Payload() % 16 == 0 && r[k].Payload() == cs[k].Payload()
    ensures forall c :: c in r && c != r[k] ==> Disjoint(r[k].addr, r[k].End(), c.addr, c.End())
  {
    CellsDisjoint(r, lo, hi, k);
    TilesOrdered(r, lo, hi);
    assert r[k].addr % 16 == 0;
  }

  /** A fresh heap of 80 bytes answers a request for 2^64 - 1 bytes with an empty block. */
  lemma HugeRequestServed()
    ensures var cs := InitialCells(16, 96);
      var n := RoundUp16(TWO64 - 1);
      && WellFormed(cs, 16, 96)
      && FirstFit(cs, n) == 0
      && AllocAt(cs, 0, n)[0] == Cell(16, 0, false)
  {
    InitialWellFormed(16, 96);
    RoundUp16Is(TWO64 - 1);
  }

  lemma AllocAtTaken(cs: seq<Cell>, k: nat, n: nat)
    requires k < |cs| && Fits(cs[k], n)
    ensures k < |AllocAt(cs, k, n)| && AllocAt(cs, k, n)[k] == Taken(cs[k], n)
  {}

  lemma CellsDisjoint(cs: seq<Cell>, lo: nat, hi: nat, k: nat)
    requires Tiles(cs, lo, hi) && k < |cs|
    ensures forall c :: c in cs && c != cs[k] ==> Disjoint(cs[k].addr, cs[k].End(), c.addr, c.End())
  {
    TilesOrdered(cs, lo, hi);
  }

  /** The rounding covers the request if and only if the request is at most 2^64 - 16. */
  lemma RoundingCoversIff(size: Word)
    ensures RoundUp16(size) >= size <==> size <= TWO64 - 16
  {
    RoundUp16Is(size);
  }
}
