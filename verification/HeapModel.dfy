/** The block list of the kernel heap as a value: an address-ordered sequence of cells.
    What `malloc` and `free` do to the list is a function on such sequences; this module
    proves what those functions keep. */
module HeapModel {
  import opened Widths
  import opened Bits

  /** sizeof(Block). */
  const HEADER: nat := 32

  datatype Cell = Cell(addr: nat, size: nat, free: bool) {
    function Payload(): nat { addr + HEADER }
    function End(): nat { addr + HEADER + size }
  }

  /** The cells cover [lo, hi) exactly, in address order, in 16-byte units. */
  ghost predicate Tiles(cs: seq<Cell>, lo: nat, hi: nat) {
    && |cs| > 0
    && cs[0].addr == lo
    && cs[|cs| - 1].End() == hi
    && (forall i, j :: 0 <= i && j == i + 1 && j < |cs| ==> cs[i].End() == cs[j].addr)
    && (forall i :: 0 <= i < |cs| ==> cs[i].addr % 16 == 0 && cs[i].size % 16 == 0)
  }

  /** No two neighbours are both free. */
  ghost predicate Coalesced(cs: seq<Cell>) {
    forall i, j :: 0 <= i && j == i + 1 && j < |cs| ==> !(cs[i].free && cs[j].free)
  }

  /** A tiling of a heap that lies strictly inside the 64-bit address space. */
  ghost predicate WellFormed(cs: seq<Cell>, lo: nat, hi: nat) {
    && 0 < lo
    && hi < TWO64
    && Tiles(cs, lo, hi)
    && Coalesced(cs)
  }

  /** The list `heap_init` writes. */
  function InitialCells(lo: nat, hi: nat): seq<Cell>
    requires lo + HEADER <= hi
  {
    [Cell(lo, hi - lo - HEADER, true)]
  }

  ghost function Used(cs: seq<Cell>): set<Cell> {
    set c | c in cs && !c.free
  }

  /** Distinct cells are disjoint and inside the heap. */
  lemma {:induction false} TilesOrdered(cs: seq<Cell>, lo: nat, hi: nat)
    requires Tiles(cs, lo, hi)
    ensures forall i, j :: 0 <= i < j < |cs| ==> cs[i].End() <= cs[j].addr
    ensures forall i :: 0 <= i < |cs| ==> lo <= cs[i].addr && cs[i].End() <= hi
  {
    forall i, j | 0 <= i < j < |cs| ensures cs[i].End() <= cs[j].addr {
      CellsOrdered(cs, lo, hi, i, j);
    }
  }

  lemma ListStarts(cs: seq<Cell>, lo: nat, hi: nat)
    requires Tiles(cs, lo, hi)
    ensures |cs| > 0 && cs[0].addr == lo
  {}

  lemma {:induction false} CellsOrdered(cs: seq<Cell>, lo: nat, hi: nat, i: nat, j: nat)
    requires Tiles(cs, lo, hi) && i < j < |cs|
    ensures cs[i].End() <= cs[j].addr
    decreases j - i
  {
    if i + 1 < j {
      CellsOrdered(cs, lo, hi, i + 1, j);
    }
  }

  // ----- malloc -----

  /** What `malloc` rounds a request to, wrapping in 64 bits as the code does. */
  function RoundUp16(size: Word): Word {
    And((size + 15) % TWO64, Not64(15))
  }

  predicate Fits(c: Cell, n: nat) {
    c.free && c.size >= n
  }

  /** Index of the lowest block that fits, or |cs| when none does. */
  function FirstFit(cs: seq<Cell>, n: nat): (k: nat)
    ensures k <= |cs|
    ensures forall i :: 0 <= i < k ==> !Fits(cs[i], n)
    ensures k < |cs| ==> Fits(cs[k], n)
  {
    if |cs| == 0 || Fits(cs[0], n) then 0
    else
      var k := FirstFit(cs[1..], n);
      assert forall i :: 0 < i < |cs| ==> cs[i] == cs[1..][i - 1];
      k + 1
  }

  lemma FirstFitIs(cs: seq<Cell>, n: nat, k: nat)
    requires k <= |cs| && (forall i :: 0 <= i < k ==> !Fits(cs[i], n)) && (k < |cs| ==> Fits(cs[k], n))
    ensures FirstFit(cs, n) == k
  {}

  /** The list after taking cell k for n bytes: split when 48 bytes would be left. */
  function AllocAt(cs: seq<Cell>, k: nat, n: nat): seq<Cell>
    requires k < |cs| && Fits(cs[k], n)
  {
    var c := cs[k];
    if c.size >= n + HEADER + 16 then
      cs[..k] + [Cell(c.addr, n, false), Cell(c.addr + HEADER + n, c.size - n - HEADER, true)] + cs[k + 1..]
    else
      cs[k := c.(free := false)]
  }

  /** The cell that AllocAt hands out. */
  function Taken(c: Cell, n: nat): Cell {
    if c.size >= n + HEADER + 16 then Cell(c.addr, n, false) else c.(free := false)
  }

  lemma SplitCells(cs: seq<Cell>, k: nat, n: nat)
    requires k < |cs| && Fits(cs[k], n) && cs[k].size >= n + HEADER + 16
    ensures var r := AllocAt(cs, k, n);
      && |r| == |cs| + 1
      && (forall i :: 0 <= i < k ==> r[i] == cs[i])
      && r[k] == Cell(cs[k].addr, n, false)
      && r[k + 1] == Cell(cs[k].addr + HEADER + n, cs[k].size - n - HEADER, true)
      && (forall i :: k + 2 <= i < |r| ==> r[i] == cs[i - 1])
  {}

  lemma RoundUp16Is(size: Word)
    ensures RoundUp16(size) % 16 == 0
    ensures size <= TWO64 - 16 ==> size <= RoundUp16(size) < size + 16
    ensures size > TWO64 - 16 ==> RoundUp16(size) == 0
  {
    hide And, Pow2;
    var x := (size + 15) % TWO64;
    Pow2Of64();
    assert IsPow2(16);
    AlignDown(x, 16);
    if size <= TWO64 - 16 {
      RemainderIs(size + 15, TWO64, 0, size + 15);
    } else {
      RemainderIs(size + 15, TWO64, 1, size + 15 - TWO64);
    }
  }

  /** Replacing free cell k by a used cell a and a cell b that together cover it. */
  lemma SplitKeeps(cs: seq<Cell>, r: seq<Cell>, lo: nat, hi: nat, k: nat, a: Cell, b: Cell)
    requires WellFormed(cs, lo, hi) && k < |cs| && cs[k].free
    requires |r| == |cs| + 1 && r[k] == a && r[k + 1] == b
    requires forall i :: 0 <= i < k ==> r[i] == cs[i]
    requires forall i :: k + 1 <= i < |cs| ==> r[i + 1] == cs[i]
    requires a.addr == cs[k].addr && a.End() == b.addr && b.End() == cs[k].End() && !a.free
    requires b.addr % 16 == 0 && a.size % 16 == 0 && b.size % 16 == 0
    ensures WellFormed(r, lo, hi)
  {
    forall i | 0 <= i < |r| ensures r[i].addr % 16 == 0 && r[i].size % 16 == 0 {
      if i > k + 1 { assert r[i] == cs[i - 1]; }
    }
    forall i, j | 0 <= i && j == i + 1 && j < |r|
      ensures r[i].End() == r[j].addr && !(r[i].free && r[j].free)
    {
      if i < k {
        assert cs[i].End() == cs[j].addr;
      } else if i > k {
        assert cs[i - 1].End() == cs[i].addr;
        assert r[j] == cs[i];
        if i > k + 1 { assert r[i] == cs[i - 1]; }
      }
    }
    if k + 1 < |cs| { assert r[|cs|] == cs[|cs| - 1]; }
  }

  lemma AllocAtKeeps(cs: seq<Cell>, lo: nat, hi: nat, k: nat, n: nat)
    requires WellFormed(cs, lo, hi) && k < |cs| && Fits(cs[k], n) && n % 16 == 0
    ensures WellFormed(AllocAt(cs, k, n), lo, hi)
  {
    var r := AllocAt(cs, k, n);
    if cs[k].size >= n + HEADER + 16 {
      SplitKeeps(cs, r, lo, hi, k, r[k], r[k + 1]);
    } else {
      assert forall i :: 0 <= i < |cs| && i != k ==> r[i] == cs[i];
    }
  }

  /** What a free block becomes when n bytes of it are taken. */
  function Pieces(c: Cell, n: nat): seq<Cell>
    requires Fits(c, n)
  {
    if c.size >= n + HEADER + 16 then
      [Cell(c.addr, n, false), Cell(c.addr + HEADER + n, c.size - n - HEADER, true)]
    else
      [c.(free := false)]
  }

  lemma AllocAtParts(cs: seq<Cell>, k: nat, n: nat)
    requires k < |cs| && Fits(cs[k], n)
    ensures cs == cs[..k] + [cs[k]] + cs[k + 1..]
    ensures AllocAt(cs, k, n) == cs[..k] + Pieces(cs[k], n) + cs[k + 1..]
  {}

  lemma UsedPieces(c: Cell, n: nat)
    requires Fits(c, n)
    ensures Used([c]) == {} && Used(Pieces(c, n)) == {Taken(c, n)}
    ensures Taken(c, n).addr == c.addr
  {}

  lemma UsedParts(a: seq<Cell>, b: seq<Cell>, c: seq<Cell>)
    ensures Used(a + b + c) == Used(a) + Used(b) + Used(c)
  {}

  lemma UsedElsewhere(cs: seq<Cell>, lo: nat, hi: nat, k: nat)
    requires Tiles(cs, lo, hi) && k < |cs| && cs[k].free
    ensures forall c :: c in Used(cs) ==> c.addr != cs[k].addr
  {
    TilesOrdered(cs, lo, hi);
    forall c | c in Used(cs) ensures c.addr != cs[k].addr {
      var i :| 0 <= i < |cs| && cs[i] == c;
    }
  }

  lemma AllocAtUsed(cs: seq<Cell>, lo: nat, hi: nat, k: nat, n: nat)
    requires Tiles(cs, lo, hi) && k < |cs| && Fits(cs[k], n)
    ensures Used(AllocAt(cs, k, n)) == Used(cs) + {Taken(cs[k], n)}
    ensures Taken(cs[k], n) !in Used(cs)
    ensures forall c :: c in Used(cs) ==> c.addr != cs[k].addr
  {
    UsedElsewhere(cs, lo, hi, k);
    hide *;
    AllocAtParts(cs, k, n);
    UsedPieces(cs[k], n);
    UsedParts(cs[..k], [cs[k]], cs[k + 1..]);
    UsedParts(cs[..k], Pieces(cs[k], n), cs[k + 1..]);
  }

  // ----- free -----

  /** Cell k swallows its right neighbour. */
  function MergeAt(cs: seq<Cell>, k: nat): seq<Cell>
    requires k + 1 < |cs|
  {
    cs[..k] + [cs[k].(size := cs[k].size + cs[k + 1].size + HEADER)] + cs[k + 2..]
  }

  function CoalesceRight(cs: seq<Cell>, k: nat): seq<Cell>
    requires k < |cs|
    decreases |cs|
  {
    if k + 1 < |cs| && cs[k + 1].free then CoalesceRight(MergeAt(cs, k), k) else cs
  }

  function CoalesceLeft(cs: seq<Cell>, k: nat): seq<Cell>
    requires k < |cs|
    decreases |cs|
  {
    if k > 0 && cs[k - 1].free then CoalesceLeft(MergeAt(cs, k - 1), k - 1) else cs
  }

  /** The list after freeing cell k. */
  function Release(cs: seq<Cell>, k: nat): seq<Cell>
    requires k < |cs|
  {
    var freed := cs[k := cs[k].(free := true)];
    CoalesceRightPrefix(freed, k);
    CoalesceLeft(CoalesceRight(freed, k), k)
  }

  lemma MergeCells(cs: seq<Cell>, k: nat)
    requires k + 1 < |cs|
    ensures var r := MergeAt(cs, k);
      && |r| == |cs| - 1
      && (forall i :: 0 <= i < k ==> r[i] == cs[i])
      && r[k] == Cell(cs[k].addr, cs[k].size + cs[k + 1].size + HEADER, cs[k].free)
      && (forall i :: k + 1 <= i < |r| ==> r[i] == cs[i + 1])
  {}

  /** Merging to the right leaves the cells left of k alone. */
  lemma {:induction false} CoalesceRightPrefix(cs: seq<Cell>, k: nat)
    requires k < |cs|
    ensures k < |CoalesceRight(cs, k)|
    ensures CoalesceRight(cs, k)[..k] == cs[..k]
    ensures CoalesceRight(cs, k)[k].addr == cs[k].addr && CoalesceRight(cs, k)[k].free == cs[k].free
    decreases |cs|
  {
    if k + 1 < |cs| && cs[k + 1].free {
      CoalesceRightPrefix(MergeAt(cs, k), k);
    }
  }

  /** Coalesced except possibly around cell k. */
  ghost predicate CoalescedBut(cs: seq<Cell>, k: nat) {
    forall i, j :: 0 <= i && j == i + 1 && j < |cs| && i != k && j != k ==> !(cs[i].free && cs[j].free)
  }

  lemma MergeAtTiles(cs: seq<Cell>, lo: nat, hi: nat, k: nat)
    requires Tiles(cs, lo, hi) && k + 1 < |cs|
    ensures Tiles(MergeAt(cs, k), lo, hi)
  {
    var r := MergeAt(cs, k);
    MergeCells(cs, k);
  }

  lemma MergeAtUsed(cs: seq<Cell>, k: nat)
    requires k + 1 < |cs| && cs[k].free && cs[k + 1].free
    ensures Used(MergeAt(cs, k)) == Used(cs)
  {
    var r := MergeAt(cs, k);
    MergeCells(cs, k);
    forall c | c in Used(cs) ensures c in Used(r) {
      var i :| 0 <= i < |cs| && cs[i] == c;
      if i < k { assert r[i] == c; } else { assert r[i - 1] == c; }
    }
  }

  lemma {:induction false} CoalesceRightKeeps(cs: seq<Cell>, lo: nat, hi: nat, k: nat)
    requires Tiles(cs, lo, hi) && k < |cs| && cs[k].free && CoalescedBut(cs, k)
    ensures var r := CoalesceRight(cs, k);
      && Tiles(r, lo, hi) && k < |r| && r[k].free && CoalescedBut(r, k)
      && (k + 1 < |r| ==> !r[k + 1].free)
      && Used(r) == Used(cs)
    decreases |cs|
  {
    if k + 1 < |cs| && cs[k + 1].free {
      var m := MergeAt(cs, k);
      MergeAtTiles(cs, lo, hi, k);
      MergeAtUsed(cs, k);
      MergeCells(cs, k);
      CoalesceRightKeeps(m, lo, hi, k);
    }
  }

  lemma {:induction false} CoalesceLeftKeeps(cs: seq<Cell>, lo: nat, hi: nat, k: nat)
    requires Tiles(cs, lo, hi) && k < |cs| && cs[k].free && CoalescedBut(cs, k)
    requires k + 1 < |cs| ==> !cs[k + 1].free
    ensures Tiles(CoalesceLeft(cs, k), lo, hi) && Coalesced(CoalesceLeft(cs, k))
    ensures Used(CoalesceLeft(cs, k)) == Used(cs)
    decreases |cs|
  {
    if k > 0 && cs[k - 1].free {
      var m := MergeAt(cs, k - 1);
      MergeAtTiles(cs, lo, hi, k - 1);
      MergeAtUsed(cs, k - 1);
      MergeCells(cs, k - 1);
      CoalesceLeftKeeps(m, lo, hi, k - 1);
    }
  }

  /** Freeing keeps the invariant and takes exactly that block out of the used set. */
  lemma ReleaseKeeps(cs: seq<Cell>, lo: nat, hi: nat, k: nat)
    requires WellFormed(cs, lo, hi) && k < |cs| && !cs[k].free
    ensures WellFormed(Release(cs, k), lo, hi)
    ensures Used(Release(cs, k)) == Used(cs) - {cs[k]}
  {
    var freed := cs[k := cs[k].(free := true)];
    assert Used(freed) == Used(cs) - {cs[k]} by {
      TilesOrdered(cs, lo, hi);
      forall c ensures c in Used(freed) <==> c in Used(cs) - {cs[k]} {
        if c in Used(cs) && c != cs[k] {
          var i :| 0 <= i < |cs| && cs[i] == c;
          assert freed[i] == c;
        }
        if c in Used(freed) {
          var i :| 0 <= i < |freed| && freed[i] == c;
          assert cs[i] == c;
        }
      }
    }
    CoalesceRightKeeps(freed, lo, hi, k);
    CoalesceLeftKeeps(CoalesceRight(freed, k), lo, hi, k);
  }

  // ----- accounting -----

  ghost function SumSizes(cs: seq<Cell>): nat {
    if |cs| == 0 then 0 else SumSizes(cs[..|cs| - 1]) + cs[|cs| - 1].size
  }

  ghost function SumFree(cs: seq<Cell>): nat {
    if |cs| == 0 then 0
    else SumFree(cs[..|cs| - 1]) + (if cs[|cs| - 1].free then cs[|cs| - 1].size else 0)
  }

  ghost function SumUsed(cs: seq<Cell>): nat {
    if |cs| == 0 then 0
    else SumUsed(cs[..|cs| - 1]) + (if cs[|cs| - 1].free then 0 else cs[|cs| - 1].size)
  }

  /** Every prefix of the list accounts for every byte below its end. */
  lemma {:induction false} PrefixAccounts(cs: seq<Cell>, lo: nat, hi: nat, n: nat)
    requires Tiles(cs, lo, hi) && n <= |cs|
    ensures lo + SumSizes(cs[..n]) + HEADER * n == (if n < |cs| then cs[n].addr else hi)
    ensures SumSizes(cs[..n]) == SumFree(cs[..n]) + SumUsed(cs[..n])
    decreases n
  {
    if n > 0 {
      PrefixAccounts(cs, lo, hi, n - 1);
      assert cs[..n][..n - 1] == cs[..n - 1];
    }
  }

  /** Block sizes plus 32 per block always add to the heap size, and free plus used is all. */
  lemma HeapAccounts(cs: seq<Cell>, lo: nat, hi: nat)
    requires WellFormed(cs, lo, hi)
    ensures SumSizes(cs) + HEADER * |cs| == hi - lo
    ensures SumSizes(cs) == SumFree(cs) + SumUsed(cs)
  {
    PrefixAccounts(cs, lo, hi, |cs|);
    assert cs[..|cs|] == cs;
  }

  lemma {:induction false} SumsAppend(a: seq<Cell>, b: seq<Cell>)
    ensures SumUsed(a + b) == SumUsed(a) + SumUsed(b)
    ensures SumFree(a + b) == SumFree(a) + SumFree(b)
    decreases |b|
  {
    if |b| == 0 {
      assert a + b == a;
    } else {
      var n := |b| - 1;
      assert (a + b)[..|a| + n] == a + b[..n];
      SumsAppend(a, b[..n]);
    }
  }

  lemma SumsOfParts(a: seq<Cell>, b: seq<Cell>, c: seq<Cell>)
    ensures SumUsed(a + b + c) == SumUsed(a) + SumUsed(b) + SumUsed(c)
  {
    hide SumUsed, SumFree;
    SumsAppend(a + b, c);
    SumsAppend(a, b);
  }

  lemma SumOfCell(c: Cell)
    ensures SumUsed([c]) == if c.free then 0 else c.size
    ensures SumFree([c]) == if c.free then c.size else 0
  {
    assert [c][..0] == [];
  }

  lemma SumOfPieces(c: Cell, n: nat)
    requires Fits(c, n)
    ensures SumUsed(Pieces(c, n)) == Taken(c, n).size
  {
    SumOfCell(c.(free := false));
    if c.size >= n + HEADER + 16 {
      var a, b := Cell(c.addr, n, false), Cell(c.addr + HEADER + n, c.size - n - HEADER, true);
      SumOfCell(a);
      SumOfCell(b);
      SumsAppend([a], [b]);
      assert Pieces(c, n) == [a] + [b];
    }
  }

  /** Taking a block adds exactly the bytes of that block to the used total. */
  lemma UsedBytesTaken(cs: seq<Cell>, k: nat, n: nat)
    requires k < |cs| && Fits(cs[k], n)
    ensures k < |AllocAt(cs, k, n)|
    ensures SumUsed(AllocAt(cs, k, n)) == SumUsed(cs) + AllocAt(cs, k, n)[k].size
  {
    hide SumUsed, SumFree;
    AllocAtParts(cs, k, n);
    SumOfPieces(cs[k], n);
    SumOfCell(cs[k]);
    SumsOfParts(cs[..k], [cs[k]], cs[k + 1..]);
    SumsOfParts(cs[..k], Pieces(cs[k], n), cs[k + 1..]);
  }

  lemma UsedBytesMerged(cs: seq<Cell>, k: nat)
    requires k + 1 < |cs| && cs[k].free && cs[k + 1].free
    ensures SumUsed(MergeAt(cs, k)) == SumUsed(cs)
  {
    hide SumUsed, SumFree;
    var merged := cs[k].(size := cs[k].size + cs[k + 1].size + HEADER);
    assert cs == cs[..k] + ([cs[k]] + [cs[k + 1]]) + cs[k + 2..];
    SumsOfParts(cs[..k], [cs[k]] + [cs[k + 1]], cs[k + 2..]);
    SumsOfParts(cs[..k], [merged], cs[k + 2..]);
    SumsAppend([cs[k]], [cs[k + 1]]);
    SumOfCell(cs[k]);
    SumOfCell(cs[k + 1]);
    SumOfCell(merged);
  }

  lemma {:induction false} UsedBytesCoalesced(cs: seq<Cell>, k: nat)
    requires k < |cs| && cs[k].free
    ensures SumUsed(CoalesceRight(cs, k)) == SumUsed(cs)
    ensures SumUsed(CoalesceLeft(cs, k)) == SumUsed(cs)
    decreases |cs|
  {
    hide SumUsed;
    if k + 1 < |cs| && cs[k + 1].free {
      UsedBytesMerged(cs, k);
      UsedBytesCoalesced(MergeAt(cs, k), k);
    }
    if k > 0 && cs[k - 1].free {
      UsedBytesMerged(cs, k - 1);
      UsedBytesCoalesced(MergeAt(cs, k - 1), k - 1);
    }
  }

  /** Freeing takes exactly the bytes of the freed block out of the used total. */
  lemma UsedBytesReleased(cs: seq<Cell>, k: nat)
    requires k < |cs| && !cs[k].free
    ensures SumUsed(Release(cs, k)) + cs[k].size == SumUsed(cs)
  {
    hide SumUsed;
    var freed := cs[k := cs[k].(free := true)];
    assert cs == cs[..k] + [cs[k]] + cs[k + 1..];
    assert freed == cs[..k] + [freed[k]] + cs[k + 1..];
    SumsOfParts(cs[..k], [cs[k]], cs[k + 1..]);
    SumsOfParts(cs[..k], [freed[k]], cs[k + 1..]);
    SumOfCell(cs[k]);
    SumOfCell(freed[k]);
    CoalesceRightPrefix(freed, k);
    UsedBytesCoalesced(freed, k);
    UsedBytesCoalesced(CoalesceRight(freed, k), k);
  }
}
