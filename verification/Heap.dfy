/** The kernel heap: first-fit `malloc`, coalescing `free` and the aligned allocators,
    working on block headers in memory. */
module Heap {
  import opened Widths
  import opened Bits
  import opened Memory
  import opened HeapModel
  import opened HeapCanonical
  import opened HeapLayout
  import opened HeapGrants
  import opened HeapSteps
  import opened Alignment

  class KernelHeap {
    const ram: Ram
    var head: nat
    var start: nat
    var end: nat
    ghost var cells: seq<Cell>
    ghost var grants: set<Grant>

    ghost function State(): HeapState
      reads this, ram
    {
      HeapState(ram.words, cells, grants)
    }

    ghost predicate Valid()
      reads this, ram
    {
      head == start && Inv(State(), start, end)
    }

    /** `heap_init`: one free block over the whole range. */
    constructor (ram: Ram, size: Word, heapAddr: nat)
      requires 0 < heapAddr && heapAddr + size < TWO64 && size >= HEADER
      requires heapAddr % 16 == 0 && size % 16 == 0
      modifies ram
      ensures Valid() && this.ram == ram && start == heapAddr && end == heapAddr + size
      ensures cells == InitialCells(start, end) && grants == {}
      ensures forall a: int :: a < start || end <= a ==> At(ram.words, a) == old(At(ram.words, a))
    {
      this.ram := ram;
      head := heapAddr;
      start := heapAddr;
      end := heapAddr + size;
      cells := InitialCells(heapAddr, heapAddr + size);
      grants := {};
      new;
      ram.Store(head + SIZE, size - HEADER);
      ram.Store(head + FREE, 1);
      ram.Store(head + NEXT, 0);
      ram.Store(head + PREV, 0);
      InitialWellFormed(start, end);
      assert HeaderAt(ram.words, cells, 0);
    }

    method Malloc(size: Word) returns (p: nat)
      requires Valid()
      modifies ram, `cells, `grants
      ensures Valid()
      ensures MallocStep(old(State()), State(), start, end, size, p)
      ensures size <= TWO64 - 16 ==> Serves(old(State()), State(), size, p)
    {
      hide Serves;
      hide Tiles, Coalesced, Represents, GrantsOk, PreservesClients, AllocAt, FirstFit, RoundUp16;
      ListStarts(cells, start, end);
      RoundUp16Is(size);
      var n := RoundUp16(size);
      ghost var k := 0;
      var block := head;
      while block != 0
        invariant k <= |cells|
        invariant block == (if k < |cells| then cells[k].addr else 0)
        invariant forall i :: 0 <= i < k ==> !Fits(cells[i], n)
        invariant ram.words == old(ram.words) && cells == old(cells) && grants == old(grants)
        decreases |cells| - k
      {
        ReadHeader(ram.words, cells, start, end, k);
        if ram.Load(block + FREE) == 1 && ram.Load(block + SIZE) >= n {
          FirstFitIs(cells, n, k);
          Take(block, n, k);
          p := block + HEADER;
          grants := grants + {Grant(p, GrantedBytes(size), p, false)};
          MallocKeeps(old(State()), State(), start, end, size, p);
          if size <= TWO64 - 16 { MallocServes(old(State()), State(), start, end, size, p); }
          return;
        }
        block := ram.Load(block + NEXT);
        k := k + 1;
      }
      if k < |cells| { ReadHeader(ram.words, cells, start, end, k); }
      FirstFitIs(cells, n, k);
      p := 0;
      if size <= TWO64 - 16 { MallocServes(old(State()), State(), start, end, size, p); }
    }

    /** The body of the fit branch in `malloc`: split if 48 bytes would be left, mark used. */
    method Take(block: nat, n: nat, ghost k: nat)
      requires WellFormed(cells, start, end) && Represents(ram.words, cells)
      requires k < |cells| && cells[k].addr == block && Fits(cells[k], n) && n % 16 == 0
      modifies ram, `cells
      ensures cells == AllocAt(old(cells), k, n)
      ensures Represents(ram.words, cells)
      ensures PreservesClients(old(ram.words), ram.words, old(cells), start, end)
    {
      hide AllocAt, PreservesClients, Tiles, Coalesced, Represents;
      ghost var before := ram.words;
      ReadHeader(before, cells, start, end, k);
      assert At(before, block + SIZE) == cells[k].size && At(before, block + NEXT) == NextOf(cells, k);
      if ram.Load(block + SIZE) >= n + HEADER + 16 {
        ghost var newBlock := block + HEADER + n;
        TakeSplit(before, cells, start, end, k, n, newBlock);
        Split(block, n);
        assert ram.words == SplitStores(before, block, cells[k].size, NextOf(cells, k), n, newBlock);
      } else {
        TakeWhole(before, cells, start, end, k, n);
        ram.Store(block + FREE, 0);
      }
      cells := AllocAt(cells, k, n);
    }

    /** Carve a new free block out of `block`, leaving it n bytes. */
    method Split(block: nat, n: nat)
      requires block + HEADER + n < TWO64 && n + HEADER <= ram.Load(block + SIZE) < TWO64
      requires 0 <= ram.Load(block + NEXT) < TWO64
      modifies ram
      ensures ram.words == SplitStores(old(ram.words), block, old(ram.Load(block + SIZE)), old(ram.Load(block + NEXT)),
                                       n, block + HEADER + n)
    {
      var size := ram.Load(block + SIZE);
      var next := ram.Load(block + NEXT);
      var newBlock := block + HEADER + n;
      ram.Store(newBlock + SIZE, size - n - HEADER);
      ram.Store(newBlock + FREE, 1);
      ram.Store(newBlock + NEXT, next);
      ram.Store(newBlock + PREV, block);
      if next != 0 {
        ram.Store(next + PREV, newBlock);
      }
      ram.Store(block + SIZE, n);
      ram.Store(block + NEXT, newBlock);
      ram.Store(block + FREE, 0);
    }

    method Free(p: nat)
      requires Valid()
      requires p == 0 || Live(cells, p)
      modifies ram, `cells, `grants
      ensures Valid()
      ensures FreeStep(old(State()), State(), start, end, p)
    {
      if p == 0 { return; }
      var oldBlock := p - HEADER;
      ghost var before := ram.words;
      ghost var k := LiveIndex(cells, p);
      MarkFree(before, cells, start, end, k);
      ram.Store(oldBlock + FREE, 1);
      ghost var freed := cells[k := cells[k].(free := true)];
      ghost var right := MergeRight(oldBlock, freed, k, before);
      ghost var left := MergeLeft(oldBlock, right, k, before);
      HeadersOnlyPreserves(before, ram.words, cells, start, end);
      cells := left;
      grants := Without(grants, p);
      FreeKeeps(old(State()), State(), start, end, p);
    }

    /** The first loop of `free`: swallow free successors. */
    method MergeRight(block: nat, ghost freed: seq<Cell>, ghost k: nat, ghost before: Words)
        returns (ghost cur: seq<Cell>)
      requires Listed(freed) && InPlace(freed, k, block)
      requires HeadersWithin(freed, cells) && OnlyHeadersChanged(before, ram.words, cells)
      modifies ram
      ensures cur == CoalesceRight(freed, k)
      ensures Listed(cur) && InPlace(cur, k, block)
      ensures HeadersWithin(cur, cells) && OnlyHeadersChanged(before, ram.words, cells)
    {
      hide Tiles, Represents, HeadersWithin, OnlyHeadersChanged;
      cur := freed;
      while ram.Load(block + NEXT) != 0 && ram.Load(ram.Load(block + NEXT) + FREE) == 1
        invariant Listed(cur) && InPlace(cur, k, block)
        invariant HeadersWithin(cur, cells) && OnlyHeadersChanged(before, ram.words, cells)
        invariant CoalesceRight(cur, k) == CoalesceRight(freed, k)
        decreases |cur|
      {
        ReadHeader(ram.words, cur, start, end, k);
        Merge(block, ram.Load(block + NEXT), cur, k, before);
        cur := MergeAt(cur, k);
      }
      ReadHeader(ram.words, cur, start, end, k);
    }

    /** The second loop of `free`: let free predecessors swallow the block. */
    method MergeLeft(block: nat, ghost right: seq<Cell>, ghost k: nat, ghost before: Words)
        returns (ghost cur: seq<Cell>)
      requires Listed(right) && InPlace(right, k, block)
      requires HeadersWithin(right, cells) && OnlyHeadersChanged(before, ram.words, cells)
      modifies ram
      ensures cur == CoalesceLeft(right, k)
      ensures Listed(cur)
      ensures HeadersWithin(cur, cells) && OnlyHeadersChanged(before, ram.words, cells)
    {
      hide Tiles, Represents, HeadersWithin, OnlyHeadersChanged;
      cur := right;
      ghost var i := k;
      var oldBlock: nat := block;
      while ram.Load(oldBlock + PREV) != 0 && ram.Load(ram.Load(oldBlock + PREV) + FREE) == 1
        invariant Listed(cur) && InPlace(cur, i, oldBlock)
        invariant HeadersWithin(cur, cells) && OnlyHeadersChanged(before, ram.words, cells)
        invariant CoalesceLeft(cur, i) == CoalesceLeft(right, k)
        decreases |cur|
      {
        ReadHeader(ram.words, cur, start, end, i);
        var prev: nat := ram.Load(oldBlock + PREV);
        Merge(prev, oldBlock, cur, i - 1, before);
        cur := MergeAt(cur, i - 1);
        oldBlock := prev;
        i := i - 1;
      }
      ReadHeader(ram.words, cur, start, end, i);
    }

    ghost predicate InPlace(cur: seq<Cell>, k: nat, block: int) {
      k < |cur| && cur[k].addr == block && cur[k].free
    }

    /** The list tiles the heap and memory holds it. */
    ghost predicate Listed(cur: seq<Cell>)
      reads this, ram
    {
      0 < start && end < TWO64 && Tiles(cur, start, end) && Represents(ram.words, cur)
    }

    /** The stores of one merge, of either loop in `free`. */
    method MergeNext(left: nat, right: nat)
      requires left < TWO64 && 0 <= ram.Load(left + SIZE) + ram.Load(right + SIZE) + HEADER < TWO64
      requires 0 <= ram.Load(right + NEXT) < TWO64
      modifies ram
      ensures ram.words == MergeStores(old(ram.words), left,
                                       old(ram.Load(left + SIZE)) + old(ram.Load(right + SIZE)) + HEADER,
                                       old(ram.Load(right + NEXT)))
    {
      var size := ram.Load(left + SIZE) + ram.Load(right + SIZE) + HEADER;
      var next := ram.Load(right + NEXT);
      ram.Store(left + SIZE, size);
      ram.Store(left + NEXT, next);
      if next != 0 {
        ram.Store(next + PREV, left);
      }
    }

    /** `left` swallows its successor `right`, cell k + 1 of the list. */
    method Merge(left: nat, right: nat, ghost cur: seq<Cell>, ghost k: nat, ghost before: Words)
      requires Listed(cur) && k + 1 < |cur| && cur[k].addr == left && cur[k + 1].addr == right
      requires HeadersWithin(cur, cells) && OnlyHeadersChanged(before, ram.words, cells)
      modifies ram
      ensures Listed(MergeAt(cur, k))
      ensures HeadersWithin(MergeAt(cur, k), cells) && OnlyHeadersChanged(before, ram.words, cells)
    {
      hide Tiles, Represents, HeadersWithin, OnlyHeadersChanged, MergeAt, MergeStores;
      ghost var m := ram.words;
      ReadHeader(m, cur, start, end, k);
      ReadHeader(m, cur, start, end, k + 1);
      assert At(m, left + SIZE) == cur[k].size && At(m, right + SIZE) == cur[k + 1].size;
      assert At(m, right + NEXT) == NextOf(cur, k + 1);
      MergeListed(m, cur, start, end, k, cells, before);
      MergeNext(left, right);
      assert ram.words == MergeStores(m, left, cur[k].size + cur[k + 1].size + HEADER, NextOf(cur, k + 1));
    }
  
    // ----- aligned allocation -----

    method MallocAlign(size: Word, align0: Word) returns (p: nat)
      requires Valid()
      requires align0 == 0 || IsPow2(align0)
      requires size + align0 + 25 <= TWO64
      modifies ram, `cells, `grants
      ensures Valid()
      ensures var align := if align0 == 0 then 1 else align0;
        var total := size + align + ALIGN_HEADER;
        if Chosen(old(State()), total) == |old(cells)| then p == 0 && State() == old(State())
        else p % align == 0 && AlignedStep(old(State()), State(), start, end, total, size, p)
    {
      hide Tiles, Coalesced, Represents, GrantsOk, PreservesClients, AllocAt, RoundUp16, FirstFit,
        AlignUp, MallocStep, AlignedStep, IsPow2, Serves;
      var align := if align0 == 0 then 1 else align0;
      EightIsPow2();
      var total := size + align + ALIGN_HEADER;
      ghost var s := State();
      var raw := Malloc(total);
      MallocOutcome(s, State(), start, end, total, raw);
      if raw == 0 {
        return 0;
      }
      RawBlockBounds(s, start, end, total);
      var base := raw + ALIGN_HEADER;
      var aligned := AlignUp(base, align);
      AlignUpIs(base, align);
      HideRawPointer(s, raw, total, aligned, size);
      p := aligned;
    }

    /** `header->raw = raw` just below the aligned address. */
    method HideRawPointer(ghost s: HeapState, raw: nat, total: Word, aligned: nat, size: nat)
      requires Valid() && Inv(s, start, end) && total <= TWO64 - 16
      requires Chosen(s, total) < |s.cells| && raw == s.cells[Chosen(s, total)].Payload() < TWO64
      requires MallocStep(s, State(), start, end, total, raw)
      requires raw + ALIGN_HEADER <= aligned && aligned % 8 == 0 && aligned + size <= raw + total
      modifies ram, `grants
      ensures Valid()
      ensures AlignedStep(s, State(), start, end, total, size, aligned)
    {
      ghost var t := State();
      ghost var g := Grant(raw, total, raw, false);
      ghost var h := Grant(aligned, size, raw, true);
      ram.Store(aligned - ALIGN_HEADER, raw);
      grants := Swapped(grants, g, h);
      MallocThenHide(s, t, State(), start, end, total, size, aligned);
    }

    /** `free_align`, and word for word `free_boundry`: free what the hidden word names. */
    method FreeAlign(ptr: nat, ghost g: Grant)
      requires Valid()
      requires ptr == 0 || (g in grants && g.hidden && g.ptr == ptr)
      modifies ram, `cells, `grants
      ensures Valid()
      ensures ptr == 0 ==> State() == old(State())
      ensures ptr != 0 ==> FreeStep(old(State()), State(), start, end, g.raw) && grants == old(grants) - {g}
    {
      if ptr == 0 { return; }
      FreeTakesOneGrant(State(), start, end, g);
      Free(ram.Load(ptr - ALIGN_HEADER));
    }

    method MallocBoundary(size: Word, align0: Word, boundary: Word) returns (p: nat, error: nat)
      requires Valid()
      requires align0 == 0 || IsPow2(align0)
      requires align0 + boundary + 9 <= TWO64
      requires size + align0 + boundary + 25 <= TWO64 || size + align0 + boundary + 9 > TWO64
      modifies ram, `cells, `grants
      ensures Valid()
      ensures p == 0 <==> error != 0
      ensures error == 1 <==> size + align0 + boundary + 9 > TWO64
      ensures error == 2 <==> error != 1 && boundary != 0 && !IsPow2(boundary)
      ensures error <= 4
      ensures error == 1 || error == 2 || error == 3 ==> State() == old(State())
      ensures error == 4 ==> cells == old(cells) && grants == old(grants)
      ensures error == 4 ==> PreservesClients(old(ram.words), ram.words, old(cells), start, end)
      ensures error != 1 && error != 2 ==>
        var align := if align0 == 0 then 1 else align0;
        var total := size + align + boundary + ALIGN_HEADER;
        && (error == 3 <==> Chosen(old(State()), total) == |old(cells)|)
        && (error == 0 ==>
              && AlignedStep(old(State()), State(), start, end, total, size, p)
              && WellPlaced(p, old(cells)[Chosen(old(State()), total)].Payload(), size, align, boundary, total))
        && (error != 3 && boundary == 0 ==> error == 0)
        && (error != 3 && boundary > 0 && size > 0 ==> (error == 4 <==> size > boundary))
        && (error != 3 && boundary > 0 && size == 0 ==>
              (error == 4 <==> StartsWindow(old(cells)[Chosen(old(State()), total)].Payload(), align, boundary)))
    {
      hide Tiles, Coalesced, Represents, GrantsOk, PreservesClients, AllocAt, Release, RoundUp16, FirstFit,
        And, AlignedStep, MallocStep, FreeStep, IsPow2, Serves;
      if size > TWO64 - 1 - align0 - boundary - ALIGN_HEADER {
        return 0, 1;
      }
      if boundary != 0 {
        PowerOfTwoTest(boundary);
        if And(boundary, boundary - 1) != 0 {
          return 0, 2;
        }
      }
      var align := if align0 == 0 then 1 else align0;
      EightIsPow2();
      var total := size + align + boundary + ALIGN_HEADER;
      ghost var s := State();
      var raw := Malloc(total);
      MallocOutcome(s, State(), start, end, total, raw);
      if raw == 0 {
        return 0, 3;
      }
      RawBlockBounds(s, start, end, total);
      PlaceResult(raw, size, align, boundary);
      hide Place, StartsWindow;
      var aligned, failure := PlaceIn(raw, size, align, boundary, total);
      if failure != 0 {
        GiveBack(s, total, raw);
        return 0, failure;
      }
      HideRawPointer(s, raw, total, aligned, size);
      return aligned, 0;
    }

    /** `free(raw)` on the error paths: the list is what it was. */
    method GiveBack(ghost s: HeapState, total: Word, raw: nat)
      requires Valid() && Inv(s, start, end) && raw != 0
      requires MallocStep(s, State(), start, end, total, raw)
      modifies ram, `cells, `grants
      ensures Valid()
      ensures cells == s.cells && grants == s.grants
      ensures PreservesClients(s.mem, ram.words, s.cells, start, end)
    {
      ghost var t := State();
      MallocIsLive(s, t, start, end, total, raw);
      Free(raw);
      MallocThenFree(s, t, State(), start, end, total, raw);
    }

    // ----- clients and accounting -----

    /** A client stores a word inside memory it was granted. */
    method ClientWrite(ghost g: Grant, a: nat, v: Word)
      requires Valid() && g in grants && MayWrite(g, a)
      modifies ram
      ensures Valid()
      ensures StoreStep(old(State()), State(), g, a, v)
    {
      ClientStore(ram.words, cells, start, end, grants, g, a, v);
      ram.Store(a, v);
    }

    /** `check_heap`. */
    method CheckHeap() returns (bytes: nat)
      requires Valid()
      ensures bytes == SumSizes(cells)
      ensures bytes + HEADER * |cells| == end - start
    {
      hide Tiles, Coalesced, Represents, GrantsOk;
      ListStarts(cells, start, end);
      bytes := 0;
      ghost var k := 0;
      var b := head;
      while b != 0
        invariant k <= |cells| && b == (if k < |cells| then cells[k].addr else 0)
        invariant bytes == SumSizes(cells[..k])
        decreases |cells| - k
      {
        ReadHeader(ram.words, cells, start, end, k);
        bytes := bytes + ram.Load(b + SIZE);
        b := ram.Load(b + NEXT);
        k := k + 1;
        assert cells[..k][..k - 1] == cells[..k - 1];
      }
      if k < |cells| { ReadHeader(ram.words, cells, start, end, k); }
      assert cells[..k] == cells;
      HeapAccounts(cells, start, end);
    }

    /** `check_free_heap` (wantFree) and `check_used_heap`: one loop, two tests of `free`. */
    method CheckHalf(wantFree: bool) returns (bytes: nat)
      requires Valid()
      ensures bytes == if wantFree then SumFree(cells) else SumUsed(cells)
    {
      hide Tiles, Coalesced, Represents, GrantsOk;
      ListStarts(cells, start, end);
      bytes := 0;
      ghost var k := 0;
      var b := head;
      while b != 0
        invariant k <= |cells| && b == (if k < |cells| then cells[k].addr else 0)
        invariant bytes == if wantFree then SumFree(cells[..k]) else SumUsed(cells[..k])
        decreases |cells| - k
      {
        ReadHeader(ram.words, cells, start, end, k);
        if (ram.Load(b + FREE) == 1) == wantFree {
          bytes := bytes + ram.Load(b + SIZE);
        }
        b := ram.Load(b + NEXT);
        k := k + 1;
        assert cells[..k][..k - 1] == cells[..k - 1];
      }
      if k < |cells| { ReadHeader(ram.words, cells, start, end, k); }
      assert cells[..k] == cells;
    }
  }
}
