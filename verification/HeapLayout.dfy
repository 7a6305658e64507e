/** How a block list lies in memory: four words per header, linked both ways, and what the
    pointer surgery in `malloc` and `free` does to it. */
module HeapLayout {
  import opened Widths
  import opened Bits
  import opened Memory
  import opened HeapModel

  // Offsets of the fields of Block.
  const SIZE: nat := 0
  const FREE: nat := 8
  const NEXT: nat := 16
  const PREV: nat := 24

  function NextOf(cs: seq<Cell>, i: nat): nat {
    if i + 1 < |cs| then cs[i + 1].addr else 0
  }

  function PrevOf(cs: seq<Cell>, i: nat): nat
    requires i <= |cs|
  {
    if i > 0 then cs[i - 1].addr else 0
  }

  ghost predicate HeaderAt(m: Words, cs: seq<Cell>, i: nat)
    requires i < |cs|
  {
    && At(m, cs[i].addr + SIZE) == cs[i].size
    && At(m, cs[i].addr + FREE) == (if cs[i].free then 1 else 0)
    && At(m, cs[i].addr + NEXT) == NextOf(cs, i)
    && At(m, cs[i].addr + PREV) == PrevOf(cs, i)
  }

  /** Every header holds its cell, and `next` and `prev` are inverse. */
  ghost predicate Represents(m: Words, cs: seq<Cell>) {
    forall i :: 0 <= i < |cs| ==> HeaderAt(m, cs, i)
  }

  ghost predicate HeaderWord(cs: seq<Cell>, a: int) {
    exists i :: 0 <= i < |cs| && cs[i].addr <= a < cs[i].addr + HEADER
  }

  /** Addresses no heap call may touch: outside the heap or in a live payload. */
  ghost predicate Kept(cs: seq<Cell>, lo: nat, hi: nat, a: int) {
    a < lo || hi <= a || exists c :: c in Used(cs) && c.Payload() <= a < c.End()
  }

  ghost predicate PreservesClients(m: Words, m': Words, cs: seq<Cell>, lo: nat, hi: nat) {
    forall a: int :: Kept(cs, lo, hi, a) ==> At(m', a) == At(m, a)
  }

  lemma HeadersAreNotKept(cs: seq<Cell>, lo: nat, hi: nat)
    requires Tiles(cs, lo, hi)
    ensures forall a: int :: HeaderWord(cs, a) ==> !Kept(cs, lo, hi, a)
  {
    TilesOrdered(cs, lo, hi);
  }

  lemma FreePayloadIsNotKept(cs: seq<Cell>, lo: nat, hi: nat, k: nat)
    requires Tiles(cs, lo, hi) && k < |cs| && cs[k].free
    ensures forall a: int :: cs[k].addr <= a < cs[k].End() ==> !Kept(cs, lo, hi, a)
  {
    TilesOrdered(cs, lo, hi);
  }

  /** Writes that miss every header leave the list as it was. */
  lemma RepresentsFrame(m: Words, m': Words, cs: seq<Cell>)
    requires Represents(m, cs)
    requires forall a: int :: HeaderWord(cs, a) ==> At(m', a) == At(m, a)
    ensures Represents(m', cs)
  {
    forall i | 0 <= i < |cs| ensures HeaderAt(m', cs, i) {
      assert HeaderAt(m, cs, i);
      var b := cs[i].addr;
      assert HeaderWord(cs, b + SIZE) && HeaderWord(cs, b + FREE)
        && HeaderWord(cs, b + NEXT) && HeaderWord(cs, b + PREV);
    }
  }

  /** Memory m' holds the header of r's cell i when m holds it for cs's cell j and neither
      the cell, its neighbours nor its words differ. */
  lemma HeaderMoves(m: Words, m': Words, cs: seq<Cell>, j: nat, r: seq<Cell>, i: nat)
    requires j < |cs| && i < |r| && cs[j] == r[i] && HeaderAt(m, cs, j)
    requires NextOf(cs, j) == NextOf(r, i)
    requires At(m', r[i].addr + PREV) == PrevOf(r, i)
    requires At(m', cs[j].addr + SIZE) == At(m, cs[j].addr + SIZE)
    requires At(m', cs[j].addr + FREE) == At(m, cs[j].addr + FREE)
    requires At(m', cs[j].addr + NEXT) == At(m, cs[j].addr + NEXT)
    ensures HeaderAt(m', r, i)
  {}

  /** Marking cell k used or free in place. */
  lemma MarkRepresents(m: Words, m': Words, cs: seq<Cell>, lo: nat, hi: nat, k: nat, free: bool)
    requires Tiles(cs, lo, hi) && Represents(m, cs) && k < |cs|
    requires m' == m[cs[k].addr + FREE := if free then 1 else 0]
    ensures Represents(m', cs[k := cs[k].(free := free)])
  {
    var r := cs[k := cs[k].(free := free)];
    forall i | 0 <= i < |r| ensures HeaderAt(m', r, i) {
      assert HeaderAt(m, cs, i);
      assert NextOf(r, i) == NextOf(cs, i) && PrevOf(r, i) == PrevOf(cs, i);
      if i < k {
        CellsOrdered(cs, lo, hi, i, k);
        HeaderMoves(m, m', cs, i, r, i);
      } else if i > k {
        CellsOrdered(cs, lo, hi, k, i);
        HeaderMoves(m, m', cs, i, r, i);
      }
    }
  }

  /** The writes of the split in `malloc`: a new header at nb, a shortened block at c. */
  ghost predicate SplitWrites(m: Words, m': Words, cs: seq<Cell>, k: nat, n: nat, nb: nat)
    requires k < |cs|
  {
    var c := cs[k];
    && nb == c.addr + HEADER + n && c.size >= n + HEADER + 16
    && At(m', nb + SIZE) == c.size - n - HEADER && At(m', nb + FREE) == 1
    && At(m', nb + NEXT) == NextOf(cs, k) && At(m', nb + PREV) == c.addr
    && (k + 1 < |cs| ==> At(m', cs[k + 1].addr + PREV) == nb)
    && At(m', c.addr + SIZE) == n && At(m', c.addr + NEXT) == nb && At(m', c.addr + FREE) == 0
    && (forall a: int ::
          (a < c.addr || c.End() <= a || a == c.addr + PREV) && !(k + 1 < |cs| && a == cs[k + 1].addr + PREV)
          ==> At(m', a) == At(m, a))
  }

  /** The stores of the split, in the order the code makes them. */
  ghost function SplitStores(m: Words, b: int, size: int, next: int, n: int, nb: int): Words
  {
    var made := m[nb + SIZE := size - n - HEADER][nb + FREE := 1][nb + NEXT := next][nb + PREV := b];
    var linked := if next != 0 then made[next + PREV := nb] else made;
    linked[b + SIZE := n][b + NEXT := nb][b + FREE := 0]
  }

  lemma SplitStoresAt(m: Words, b: int, size: int, next: int, n: int, nb: int)
    requires n >= 0 && nb == b + HEADER + n && (next == 0 || next >= nb + HEADER)
    ensures var m' := SplitStores(m, b, size, next, n, nb);
      && At(m', nb + SIZE) == size - n - HEADER && At(m', nb + FREE) == 1
      && At(m', nb + NEXT) == next && At(m', nb + PREV) == b
      && (next != 0 ==> At(m', next + PREV) == nb)
      && At(m', b + SIZE) == n && At(m', b + NEXT) == nb && At(m', b + FREE) == 0
      && (forall a: int ::
            (a < b || nb + HEADER <= a || a == b + PREV) && !(next != 0 && a == next + PREV)
            ==> At(m', a) == At(m, a))
  {}

  lemma SplitStoresWrite(m: Words, cs: seq<Cell>, lo: nat, hi: nat, k: nat, n: nat, nb: nat)
    requires 0 < lo && hi < TWO64 && Tiles(cs, lo, hi) && k < |cs| && cs[k].size >= n + HEADER + 16
    requires nb == cs[k].addr + HEADER + n
    ensures SplitWrites(m, SplitStores(m, cs[k].addr, cs[k].size, NextOf(cs, k), n, nb), cs, k, n, nb)
  {
    if k + 1 < |cs| { CellsOrdered(cs, lo, hi, k, k + 1); }
    SplitStoresAt(m, cs[k].addr, cs[k].size, NextOf(cs, k), n, nb);
  }

  /** Cutting a new header at nb out of free cell k. */
  lemma SplitRepresents(m: Words, m': Words, cs: seq<Cell>, lo: nat, hi: nat, k: nat, n: nat, nb: nat)
    requires Tiles(cs, lo, hi) && Represents(m, cs) && k < |cs| && Fits(cs[k], n)
    requires SplitWrites(m, m', cs, k, n, nb)
    ensures Represents(m', AllocAt(cs, k, n))
  {
    var r := AllocAt(cs, k, n);
    SplitCells(cs, k, n);
    forall i | 0 <= i < |r| ensures HeaderAt(m', r, i) {
      if i < k {
        SplitHeaderLeft(m, m', cs, lo, hi, k, n, nb, r, i);
      } else if i <= k + 1 {
        SplitHeaderNew(m, m', cs, lo, hi, k, n, nb, r, i);
      } else {
        SplitHeaderRight(m, m', cs, lo, hi, k, n, nb, r, i);
      }
    }
  }

  ghost predicate SplitList(cs: seq<Cell>, k: nat, n: nat, nb: nat, r: seq<Cell>)
    requires k < |cs| && cs[k].size >= n + HEADER
  {
    && |r| == |cs| + 1
    && (forall x :: 0 <= x < k ==> r[x] == cs[x])
    && r[k] == Cell(cs[k].addr, n, false)
    && r[k + 1] == Cell(nb, cs[k].size - n - HEADER, true)
    && (forall x :: k + 2 <= x < |r| ==> r[x] == cs[x - 1])
  }

  lemma SplitHeaderLeft(m: Words, m': Words, cs: seq<Cell>, lo: nat, hi: nat, k: nat, n: nat, nb: nat,
      r: seq<Cell>, i: nat)
    requires Tiles(cs, lo, hi) && Represents(m, cs) && k < |cs|
    requires SplitWrites(m, m', cs, k, n, nb)
    requires SplitList(cs, k, n, nb, r)
    requires i < k
    ensures HeaderAt(m', r, i)
  {
    CellsOrdered(cs, lo, hi, i, k);
    assert HeaderAt(m, cs, i);
    HeaderMoves(m, m', cs, i, r, i);
  }

  lemma SplitHeaderNew(m: Words, m': Words, cs: seq<Cell>, lo: nat, hi: nat, k: nat, n: nat, nb: nat,
      r: seq<Cell>, i: nat)
    requires Tiles(cs, lo, hi) && Represents(m, cs) && k < |cs|
    requires SplitWrites(m, m', cs, k, n, nb)
    requires SplitList(cs, k, n, nb, r)
    requires k <= i <= k + 1
    ensures HeaderAt(m', r, i)
  {
    assert HeaderAt(m, cs, k);
    assert k + 2 < |r| ==> r[k + 2] == cs[k + 1];
  }

  lemma SplitHeaderRight(m: Words, m': Words, cs: seq<Cell>, lo: nat, hi: nat, k: nat, n: nat, nb: nat,
      r: seq<Cell>, i: nat)
    requires Tiles(cs, lo, hi) && Represents(m, cs) && k < |cs|
    requires SplitWrites(m, m', cs, k, n, nb)
    requires SplitList(cs, k, n, nb, r)
    requires k + 2 <= i < |r|
    ensures HeaderAt(m', r, i)
  {
    var j := i - 1;
    assert r[i] == cs[j];
    CellsOrdered(cs, lo, hi, k, j);
    assert HeaderAt(m, cs, j);
    assert NextOf(r, i) == NextOf(cs, j);
    if j > k + 1 {
      CellsOrdered(cs, lo, hi, k + 1, j);
      assert PrevOf(r, i) == r[i - 1].addr == cs[j - 1].addr;
      assert At(m', cs[j].addr + PREV) == At(m, cs[j].addr + PREV);
    }
    HeaderMoves(m, m', cs, j, r, i);
  }

  /** The writes of a merge: block k takes the size and the successor of block k + 1. */
  ghost predicate MergeWrites(m: Words, m': Words, cs: seq<Cell>, k: nat)
    requires k + 1 < |cs|
  {
    && At(m', cs[k].addr + SIZE) == cs[k].size + cs[k + 1].size + HEADER
    && At(m', cs[k].addr + NEXT) == NextOf(cs, k + 1)
    && (k + 2 < |cs| ==> At(m', cs[k + 2].addr + PREV) == cs[k].addr)
    && (forall a: int ::
          a != cs[k].addr + SIZE && a != cs[k].addr + NEXT && !(k + 2 < |cs| && a == cs[k + 2].addr + PREV)
          ==> At(m', a) == At(m, a))
  }

  /** The stores of a merge, in the order the code makes them. */
  ghost function MergeStores(m: Words, left: int, size: int, next: int): Words {
    var sized := m[left + SIZE := size][left + NEXT := next];
    if next != 0 then sized[next + PREV := left] else sized
  }

  lemma MergeStoresWrite(m: Words, cs: seq<Cell>, lo: nat, hi: nat, k: nat)
    requires 0 < lo && Tiles(cs, lo, hi) && k + 1 < |cs|
    ensures MergeWrites(m, MergeStores(m, cs[k].addr, cs[k].size + cs[k + 1].size + HEADER, NextOf(cs, k + 1)), cs, k)
  {
    if k + 2 < |cs| { CellsOrdered(cs, lo, hi, k, k + 2); }
  }

  /** Cell k swallowing cell k + 1. */
  lemma MergeRepresents(m: Words, m': Words, cs: seq<Cell>, lo: nat, hi: nat, k: nat)
    requires Tiles(cs, lo, hi) && Represents(m, cs) && k + 1 < |cs|
    requires MergeWrites(m, m', cs, k)
    ensures Represents(m', MergeAt(cs, k))
  {
    var r := MergeAt(cs, k);
    MergeCells(cs, k);
    forall i | 0 <= i < |r| ensures HeaderAt(m', r, i) {
      if i < k {
        MergeHeaderLeft(m, m', cs, lo, hi, k, r, i);
      } else if i == k {
        MergeHeaderKept(m, m', cs, lo, hi, k, r, i);
      } else {
        MergeHeaderRight(m, m', cs, lo, hi, k, r, i);
      }
    }
  }

  ghost predicate MergeList(cs: seq<Cell>, k: nat, r: seq<Cell>)
    requires k + 1 < |cs|
  {
    && |r| == |cs| - 1
    && (forall x :: 0 <= x < k ==> r[x] == cs[x])
    && r[k] == Cell(cs[k].addr, cs[k].size + cs[k + 1].size + HEADER, cs[k].free)
    && (forall x :: k + 1 <= x < |r| ==> r[x] == cs[x + 1])
  }

  lemma MergeHeaderLeft(m: Words, m': Words, cs: seq<Cell>, lo: nat, hi: nat, k: nat, r: seq<Cell>, i: nat)
    requires Tiles(cs, lo, hi) && Represents(m, cs) && k + 1 < |cs|
    requires MergeWrites(m, m', cs, k)
    requires MergeList(cs, k, r)
    requires i < k
    ensures HeaderAt(m', r, i)
  {
    CellsOrdered(cs, lo, hi, i, k);
    if k + 2 < |cs| { CellsOrdered(cs, lo, hi, i, k + 2); }
    assert HeaderAt(m, cs, i);
    HeaderMoves(m, m', cs, i, r, i);
  }

  lemma MergeHeaderKept(m: Words, m': Words, cs: seq<Cell>, lo: nat, hi: nat, k: nat, r: seq<Cell>, i: nat)
    requires Tiles(cs, lo, hi) && Represents(m, cs) && k + 1 < |cs|
    requires MergeWrites(m, m', cs, k)
    requires MergeList(cs, k, r)
    requires i == k
    ensures HeaderAt(m', r, i)
  {
    if k + 2 < |cs| {
      CellsOrdered(cs, lo, hi, k, k + 2);
      assert r[k + 1] == cs[k + 2];
    }
    assert HeaderAt(m, cs, k);
  }

  lemma MergeHeaderRight(m: Words, m': Words, cs: seq<Cell>, lo: nat, hi: nat, k: nat, r: seq<Cell>, i: nat)
    requires Tiles(cs, lo, hi) && Represents(m, cs) && k + 1 < |cs|
    requires MergeWrites(m, m', cs, k)
    requires MergeList(cs, k, r)
    requires k < i < |r|
    ensures HeaderAt(m', r, i)
  {
    var j := i + 1;
    assert r[i] == cs[j];
    CellsOrdered(cs, lo, hi, k, j);
    assert HeaderAt(m, cs, j);
    assert NextOf(r, i) == NextOf(cs, j);
    if j > k + 2 {
      CellsOrdered(cs, lo, hi, k + 2, j);
      assert PrevOf(r, i) == r[i - 1].addr == cs[j - 1].addr;
      assert At(m', cs[j].addr + PREV) == At(m, cs[j].addr + PREV);
    }
    HeaderMoves(m, m', cs, j, r, i);
  }

  lemma MergeHeaderWords(cs: seq<Cell>, k: nat)
    requires k + 1 < |cs|
    ensures forall a: int :: HeaderWord(MergeAt(cs, k), a) ==> HeaderWord(cs, a)
  {
    var r := MergeAt(cs, k);
    forall a: int | HeaderWord(r, a) ensures HeaderWord(cs, a) {
      var i :| 0 <= i < |r| && r[i].addr <= a < r[i].addr + HEADER;
      if i <= k { assert r[i].addr == cs[i].addr; } else { assert r[i] == cs[i + 1]; }
    }
  }

  ghost predicate HeadersWithin(cs: seq<Cell>, outer: seq<Cell>) {
    forall a: int :: HeaderWord(cs, a) ==> HeaderWord(outer, a)
  }

  ghost predicate OnlyHeadersChanged(m: Words, m': Words, cs: seq<Cell>) {
    forall a: int :: !HeaderWord(cs, a) ==> At(m', a) == At(m, a)
  }

  lemma MergeTouchesHeaders(m: Words, m': Words, cs: seq<Cell>, k: nat)
    requires k + 1 < |cs| && MergeWrites(m, m', cs, k)
    ensures OnlyHeadersChanged(m, m', cs)
  {
    forall a: int | !HeaderWord(cs, a) ensures At(m', a) == At(m, a) {
      assert a != cs[k].addr + SIZE && a != cs[k].addr + NEXT;
      if k + 2 < |cs| { assert a != cs[k + 2].addr + PREV; }
    }
  }

  lemma SplitTouchesNoClient(m: Words, m': Words, cs: seq<Cell>, lo: nat, hi: nat, k: nat, n: nat, nb: nat)
    requires Tiles(cs, lo, hi) && k < |cs| && cs[k].free && SplitWrites(m, m', cs, k, n, nb)
    ensures PreservesClients(m, m', cs, lo, hi)
  {
    HeadersAreNotKept(cs, lo, hi);
    FreePayloadIsNotKept(cs, lo, hi, k);
    forall a: int | Kept(cs, lo, hi, a) ensures At(m', a) == At(m, a) {
      if k + 1 < |cs| { assert HeaderWord(cs, cs[k + 1].addr + PREV); }
    }
  }

  /** What a walker reads from the header of cell k. */
  lemma ReadHeader(m: Words, cs: seq<Cell>, lo: nat, hi: nat, k: nat)
    requires 0 < lo && Tiles(cs, lo, hi) && Represents(m, cs) && k < |cs|
    ensures HeaderAt(m, cs, k)
    ensures lo <= cs[k].addr && cs[k].End() <= hi
    ensures k + 1 < |cs| ==>
      && NextOf(cs, k) == cs[k].End() && 0 < NextOf(cs, k) <= cs[k + 1].End() <= hi
      && HeaderAt(m, cs, k + 1)
    ensures k > 0 ==> 0 < PrevOf(cs, k) && HeaderAt(m, cs, k - 1)
    ensures k + 1 == |cs| ==> NextOf(cs, k) == 0
  {
    TilesOrdered(cs, lo, hi);
    assert HeaderAt(m, cs, k);
    if k + 1 < |cs| { assert HeaderAt(m, cs, k + 1); }
    if k > 0 { assert HeaderAt(m, cs, k - 1); }
  }

  /** One merge keeps the list in memory and touches only headers of the outer list. */
  lemma MergeListed(m: Words, cs: seq<Cell>, lo: nat, hi: nat, k: nat, outer: seq<Cell>, before: Words)
    requires 0 < lo && hi < TWO64 && Tiles(cs, lo, hi) && Represents(m, cs) && k + 1 < |cs|
    requires HeadersWithin(cs, outer) && OnlyHeadersChanged(before, m, outer)
    ensures var m' := MergeStores(m, cs[k].addr, cs[k].size + cs[k + 1].size + HEADER, NextOf(cs, k + 1));
      && Tiles(MergeAt(cs, k), lo, hi) && Represents(m', MergeAt(cs, k))
      && HeadersWithin(MergeAt(cs, k), outer) && OnlyHeadersChanged(before, m', outer)
  {
    var m' := MergeStores(m, cs[k].addr, cs[k].size + cs[k + 1].size + HEADER, NextOf(cs, k + 1));
    MergeStoresWrite(m, cs, lo, hi, k);
    MergeRepresents(m, m', cs, lo, hi, k);
    MergeAtTiles(cs, lo, hi, k);
    MergeHeaderWords(cs, k);
    MergeTouchesHeaders(m, m', cs, k);
    OnlyHeadersTwice(before, m, m', cs, outer);
  }

  lemma OnlyHeadersTwice(m0: Words, m1: Words, m2: Words, cs: seq<Cell>, outer: seq<Cell>)
    requires HeadersWithin(cs, outer) && OnlyHeadersChanged(m0, m1, outer) && OnlyHeadersChanged(m1, m2, cs)
    ensures OnlyHeadersChanged(m0, m2, outer)
  {}

  /** Taking free cell k by splitting it. */
  lemma TakeSplit(m: Words, cs: seq<Cell>, lo: nat, hi: nat, k: nat, n: nat, nb: nat)
    requires 0 < lo && hi < TWO64 && Tiles(cs, lo, hi) && Represents(m, cs) && k < |cs| && Fits(cs[k], n)
    requires cs[k].size >= n + HEADER + 16 && nb == cs[k].addr + HEADER + n
    ensures var m' := SplitStores(m, cs[k].addr, cs[k].size, NextOf(cs, k), n, nb);
      Represents(m', AllocAt(cs, k, n)) && PreservesClients(m, m', cs, lo, hi)
  {
    var m' := SplitStores(m, cs[k].addr, cs[k].size, NextOf(cs, k), n, nb);
    SplitStoresWrite(m, cs, lo, hi, k, n, nb);
    SplitRepresents(m, m', cs, lo, hi, k, n, nb);
    SplitTouchesNoClient(m, m', cs, lo, hi, k, n, nb);
  }

  /** Taking free cell k whole. */
  lemma TakeWhole(m: Words, cs: seq<Cell>, lo: nat, hi: nat, k: nat, n: nat)
    requires Tiles(cs, lo, hi) && Represents(m, cs) && k < |cs| && Fits(cs[k], n)
    requires cs[k].size < n + HEADER + 16
    ensures var m' := m[cs[k].addr + FREE := 0];
      Represents(m', AllocAt(cs, k, n)) && PreservesClients(m, m', cs, lo, hi)
  {
    MarkRepresents(m, m[cs[k].addr + FREE := 0], cs, lo, hi, k, false);
    HeadersAreNotKept(cs, lo, hi);
    assert HeaderWord(cs, cs[k].addr + FREE);
  }

  /** The first store of `free`: cell k is marked free in place. */
  lemma MarkFree(m: Words, cs: seq<Cell>, lo: nat, hi: nat, k: nat)
    requires Tiles(cs, lo, hi) && Represents(m, cs) && k < |cs|
    ensures var m' := m[cs[k].addr + FREE := 1]; var freed := cs[k := cs[k].(free := true)];
      && Represents(m', freed) && Tiles(freed, lo, hi)
      && HeadersWithin(freed, cs) && OnlyHeadersChanged(m, m', cs)
  {
    MarkRepresents(m, m[cs[k].addr + FREE := 1], cs, lo, hi, k, true);
    assert HeaderWord(cs, cs[k].addr + FREE);
    var freed := cs[k := cs[k].(free := true)];
    forall a: int | HeaderWord(freed, a) ensures HeaderWord(cs, a) {
      var i :| 0 <= i < |freed| && freed[i].addr <= a < freed[i].addr + HEADER;
      assert cs[i].addr == freed[i].addr;
    }
  }

  lemma HeadersOnlyPreserves(m: Words, m': Words, cs: seq<Cell>, lo: nat, hi: nat)
    requires Tiles(cs, lo, hi) && OnlyHeadersChanged(m, m', cs)
    ensures PreservesClients(m, m', cs, lo, hi)
  {
    HeadersAreNotKept(cs, lo, hi);
  }
}
