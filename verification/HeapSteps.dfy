/** The heap calls as steps between heap states, and what every run of such steps keeps. */
module HeapSteps {
  import opened Widths
  import opened Bits
  import opened Memory
  import opened HeapModel
  import opened HeapCanonical
  import opened HeapLayout
  import opened HeapGrants

  datatype HeapState = HeapState(mem: Words, cells: seq<Cell>, grants: set<Grant>)

  /** The heap occupying [lo, hi) is sound. */
  ghost predicate Inv(s: HeapState, lo: nat, hi: nat) {
    && WellFormed(s.cells, lo, hi)
    && Represents(s.mem, s.cells)
    && GrantsOk(s.mem, s.cells, s.grants)
  }

  /** The list in memory is new, and no live payload changed. */
  ghost predicate Relists(s: HeapState, t: HeapState, lo: nat, hi: nat) {
    && Represents(t.mem, t.cells)
    && PreservesClients(s.mem, t.mem, s.cells, lo, hi)
  }

  ghost predicate MallocStep(s: HeapState, t: HeapState, lo: nat, hi: nat, size: Word, p: nat) {
    var n := RoundUp16(size);
    var k := FirstFit(s.cells, n);
    if k == |s.cells| then p == 0 && t == s
    else
      && p == s.cells[k].Payload()
      && t.cells == AllocAt(s.cells, k, n)
      && t.grants == s.grants + {Grant(p, GrantedBytes(size), p, false)}
      && Relists(s, t, lo, hi)
  }

  ghost predicate FreeStep(s: HeapState, t: HeapState, lo: nat, hi: nat, p: nat) {
    if p == 0 then t == s
    else
      && Live(s.cells, p)
      && t.cells == Release(s.cells, LiveIndex(s.cells, p))
      && t.grants == Without(s.grants, p)
      && Relists(s, t, lo, hi)
  }

  ghost predicate StoreStep(s: HeapState, t: HeapState, g: Grant, a: nat, v: Word) {
    && g in s.grants
    && MayWrite(g, a)
    && t == s.(mem := s.mem[a := v])
  }

  /** What the aligning calls do after `malloc`: hide the raw pointer below the result. */
  ghost predicate HideStep(s: HeapState, t: HeapState, g: Grant, aligned: Grant) {
    && g in s.grants && !g.hidden
    && aligned.hidden && aligned.raw == g.raw < TWO64
    && g.raw + 8 <= aligned.ptr && aligned.ptr % 8 == 0
    && aligned.ptr + aligned.size <= g.ptr + g.size
    && t == s.(mem := s.mem[aligned.ptr - 8 := g.raw], grants := Swapped(s.grants, g, aligned))
  }

  datatype Event =
    | DidMalloc(size: Word, ptr: nat)
    | DidFree(ptr: nat)
    | DidStore(grant: Grant, a: nat, v: Word)
    | DidHide(grant: Grant, aligned: Grant)

  ghost predicate Step(s: HeapState, e: Event, t: HeapState, lo: nat, hi: nat) {
    match e
    case DidMalloc(size, p) => MallocStep(s, t, lo, hi, size, p)
    case DidFree(p) => FreeStep(s, t, lo, hi, p)
    case DidStore(g, a, v) => StoreStep(s, t, g, a, v)
    case DidHide(g, h) => HideStep(s, t, g, h)
  }

  /** What a caller of `malloc` sees: null exactly when no free block has the units asked for;
      otherwise a 16-byte aligned pointer to the lowest such block and a grant of `size` bytes. */
  ghost predicate Serves(s: HeapState, t: HeapState, size: nat, p: nat) {
    && (p == 0 <==> forall c :: c in s.cells && c.free ==> c.size < InUnits(size))
    && (p == 0 ==> t == s)
    && (p != 0 ==>
          && p % 16 == 0
          && (exists c :: c in s.cells && c.free && c.size >= InUnits(size) && p == c.addr + 32)
          && (forall c :: c in s.cells && c.free && c.size >= InUnits(size) ==> p <= c.addr + 32)
          && t.grants == s.grants + {Grant(p, size, p, false)})
  }

  lemma MallocServes(s: HeapState, t: HeapState, lo: nat, hi: nat, size: Word, p: nat)
    requires Inv(s, lo, hi) && MallocStep(s, t, lo, hi, size, p) && size <= TWO64 - 16
    ensures Serves(s, t, size, p)
  {
    InUnitsIs(size);
    var n := RoundUp16(size);
    MallocTakesLowestFit(s.cells, lo, hi, n);
    MallocOutcome(s, t, lo, hi, size, p);
    hide RoundUp16, InUnits, FirstFit, AllocAt, WellFormed, GrantsOk, Represents, PreservesClients;
    if p == 0 {
      forall c | c in s.cells && c.free ensures c.size < n {
        assert !Fits(c, n);
      }
    } else {
      var c := s.cells[Chosen(s, size)];
      CellAligned(s.cells, lo, hi, Chosen(s, size));
      assert Fits(c, n) && c in s.cells && c.addr + 32 == p;
      forall d | d in s.cells && d.free && d.size >= n ensures p <= d.addr + 32 {
        assert Fits(d, n);
      }
    }
  }

  lemma CellAligned(cs: seq<Cell>, lo: nat, hi: nat, k: nat)
    requires WellFormed(cs, lo, hi) && k < |cs|
    ensures cs[k].Payload() % 16 == 0
  {}

  lemma MallocKeeps(s: HeapState, t: HeapState, lo: nat, hi: nat, size: Word, p: nat)
    requires Inv(s, lo, hi) && MallocStep(s, t, lo, hi, size, p)
    ensures Inv(t, lo, hi)
  {
    var n := RoundUp16(size);
    var k := FirstFit(s.cells, n);
    RoundUp16Is(size);
    if k < |s.cells| {
      AllocAtKeeps(s.cells, lo, hi, k, n);
      AllocGrants(s.mem, t.mem, s.cells, lo, hi, k, n, s.grants, GrantedBytes(size));
    }
  }

  lemma FreeKeeps(s: HeapState, t: HeapState, lo: nat, hi: nat, p: nat)
    requires Inv(s, lo, hi) && FreeStep(s, t, lo, hi, p)
    ensures Inv(t, lo, hi)
  {
    if p != 0 {
      var k := LiveIndex(s.cells, p);
      ReleaseKeeps(s.cells, lo, hi, k);
      FreeGrants(s.mem, t.mem, s.cells, t.cells, lo, hi, k, s.grants);
    }
  }

  lemma StepKeeps(s: HeapState, e: Event, t: HeapState, lo: nat, hi: nat)
    requires Inv(s, lo, hi) && Step(s, e, t, lo, hi)
    ensures Inv(t, lo, hi)
  {
    match e
    case DidMalloc(size, p) => MallocKeeps(s, t, lo, hi, size, p);
    case DidFree(p) => FreeKeeps(s, t, lo, hi, p);
    case DidStore(g, a, v) => ClientStore(s.mem, s.cells, lo, hi, s.grants, g, a, v);
    case DidHide(g, h) => HideRaw(s.mem, s.cells, lo, hi, s.grants, g, h);
  }

  /** A run: states and the events between them. */
  ghost predicate IsRun(states: seq<HeapState>, events: seq<Event>, lo: nat, hi: nat) {
    && |states| == |events| + 1
    && forall i :: 0 <= i < |events| ==> Step(states[i], events[i], states[i + 1], lo, hi)
  }

  lemma {:induction false} RunInvariant(states: seq<HeapState>, events: seq<Event>, lo: nat, hi: nat, n: nat)
    requires IsRun(states, events, lo, hi) && Inv(states[0], lo, hi) && n < |states|
    ensures Inv(states[n], lo, hi)
    decreases n
  {
    if n > 0 {
      RunInvariant(states, events, lo, hi, n - 1);
      StepKeeps(states[n - 1], events[n - 1], states[n], lo, hi);
    }
  }

  /** At any point of any run, each aligned pointer still has its raw pointer below it, and
      freeing what is read there releases exactly the block the call obtained. */
  lemma HiddenPointerIntact(states: seq<HeapState>, events: seq<Event>, lo: nat, hi: nat, n: nat, g: Grant)
    requires IsRun(states, events, lo, hi) && Inv(states[0], lo, hi) && n < |states|
    requires g in states[n].grants && g.hidden
    ensures g.ptr >= 8 && At(states[n].mem, g.ptr - 8) == g.raw
    ensures Live(states[n].cells, g.raw)
    ensures forall t :: FreeStep(states[n], t, lo, hi, At(states[n].mem, g.ptr - 8)) ==>
      && t.grants == states[n].grants - {g}
      && Used(t.cells) == Used(states[n].cells) - {states[n].cells[LiveIndex(states[n].cells, g.raw)]}
  {
    RunInvariant(states, events, lo, hi, n);
    FreeTakesOneGrant(states[n], lo, hi, g);
  }

  lemma FreeTakesOneGrant(s: HeapState, lo: nat, hi: nat, g: Grant)
    requires Inv(s, lo, hi) && g in s.grants
    ensures Live(s.cells, g.raw)
    ensures forall t :: FreeStep(s, t, lo, hi, g.raw) ==>
      t.grants == s.grants - {g} && Used(t.cells) == Used(s.cells) - {s.cells[LiveIndex(s.cells, g.raw)]}
    ensures g.raw > 0
    ensures g.hidden ==> g.ptr >= 8 && At(s.mem, g.ptr - 8) == g.raw
  {
    var c :| c in Used(s.cells) && Backs(s.mem, c, g);
    assert g.raw == c.Payload();
    ReleaseKeeps(s.cells, lo, hi, LiveIndex(s.cells, g.raw));
    assert Without(s.grants, g.raw) == s.grants - {g};
  }

  /** No leaks: when every grant has been given back the heap is its single initial block. */
  lemma NoGrantsNoBlocks(s: HeapState, lo: nat, hi: nat)
    requires Inv(s, lo, hi) && s.grants == {}
    requires lo + HEADER <= hi && lo % 16 == 0 && hi % 16 == 0
    ensures s.cells == InitialCells(lo, hi)
  {
    forall c | c in s.cells ensures c !in Used(s.cells) {
      assert c in Used(s.cells) ==> Granted(s.grants, c.Payload());
    }
    assert Used(s.cells) == {};
    InitialWellFormed(lo, hi);
    CanonicalForm(s.cells, InitialCells(lo, hi), lo, hi);
  }

  /** malloc followed by freeing its result restores the block list and the grants. */
  lemma MallocThenFree(s: HeapState, t: HeapState, u: HeapState, lo: nat, hi: nat, size: Word, p: nat)
    requires Inv(s, lo, hi) && MallocStep(s, t, lo, hi, size, p) && p != 0 && FreeStep(t, u, lo, hi, p)
    ensures u.cells == s.cells && u.grants == s.grants
    ensures PreservesClients(s.mem, u.mem, s.cells, lo, hi)
  {
    hide Tiles, Coalesced, Represents, AllocAt, Release, FirstFit, RoundUp16;
    var n := RoundUp16(size);
    var k := FirstFit(s.cells, n);
    RoundUp16Is(size);
    MallocKeeps(s, t, lo, hi, size, p);
    AllocAtTaken(s.cells, k, n);
    LiveIndexUnique(t.cells, lo, hi, k);
    FreeUndoesMalloc(s.cells, lo, hi, k, n);
    AllocAtUsed(s.cells, lo, hi, k, n);
    AllocGrants(s.mem, t.mem, s.cells, lo, hi, k, n, s.grants, GrantedBytes(size));
    assert Without(t.grants, p) == s.grants;
    KeptGrows(s.cells, t.cells, lo, hi);
  }

  lemma KeptGrows(cs: seq<Cell>, cs': seq<Cell>, lo: nat, hi: nat)
    requires Used(cs) <= Used(cs')
    ensures forall a: int :: Kept(cs, lo, hi, a) ==> Kept(cs', lo, hi, a)
  {}

  // ----- the aligned allocators -----

  /** Index of the block that a request of `total` bytes takes. */
  function Chosen(s: HeapState, total: Word): nat {
    FirstFit(s.cells, RoundUp16(total))
  }

  /** An aligned pointer p for `size` bytes in the block taken for `total` bytes, with the raw
      pointer hidden below it. */
  ghost predicate AlignedStep(s: HeapState, t: HeapState, lo: nat, hi: nat, total: Word, size: nat, p: nat)
    requires Chosen(s, total) < |s.cells|
  {
    var k := Chosen(s, total);
    var raw := s.cells[k].Payload();
    && t.cells == AllocAt(s.cells, k, RoundUp16(total))
    && t.grants == s.grants + {Grant(p, size, raw, true)}
    && Relists(s, t, lo, hi)
    && raw + 8 <= p && p % 8 == 0 && p + size <= raw + total
    && At(t.mem, p - 8) == raw
  }

  lemma MallocThenHide(s: HeapState, t: HeapState, u: HeapState, lo: nat, hi: nat, total: Word, size: nat, p: nat)
    requires Inv(s, lo, hi) && Chosen(s, total) < |s.cells| && total <= TWO64 - 16
    requires var raw := s.cells[Chosen(s, total)].Payload();
      && MallocStep(s, t, lo, hi, total, raw)
      && HideStep(t, u, Grant(raw, total, raw, false), Grant(p, size, raw, true))
    ensures AlignedStep(s, u, lo, hi, total, size, p)
    ensures Inv(u, lo, hi)
  {
    hide Tiles, Coalesced, Represents, AllocAt, Release, FirstFit, RoundUp16, GrantsOk;
    var k := Chosen(s, total);
    var n := RoundUp16(total);
    var raw := s.cells[k].Payload();
    RoundUp16Is(total);
    MallocKeeps(s, t, lo, hi, total, raw);
    HideRaw(t.mem, t.cells, lo, hi, t.grants, Grant(raw, total, raw, false), Grant(p, size, raw, true));
    AllocGrants(s.mem, t.mem, s.cells, lo, hi, k, n, s.grants, total);
    assert u.grants == s.grants + {Grant(p, size, raw, true)};
    FreePayloadIsNotKept(s.cells, lo, hi, k);
    assert s.cells[k].addr <= p - 8 < s.cells[k].End();
    assert PreservesClients(s.mem, u.mem, s.cells, lo, hi);
  }

  /** `malloc` returns null exactly when no block was chosen, and then changed nothing. */
  lemma MallocOutcome(s: HeapState, t: HeapState, lo: nat, hi: nat, total: Word, p: nat)
    requires Inv(s, lo, hi) && MallocStep(s, t, lo, hi, total, p)
    ensures p == 0 <==> Chosen(s, total) == |s.cells|
    ensures p == 0 ==> t == s
    ensures p != 0 ==> p == s.cells[Chosen(s, total)].Payload()
  {}

  /** The block taken has room for the request below the end of the address space. */
  lemma RawBlockBounds(s: HeapState, lo: nat, hi: nat, total: Word)
    requires Inv(s, lo, hi) && Chosen(s, total) < |s.cells| && total <= TWO64 - 16
    ensures var raw := s.cells[Chosen(s, total)].Payload();
      raw > 0 && raw % 16 == 0 && raw + total <= hi < TWO64
  {
    hide RoundUp16, FirstFit, Represents, GrantsOk, Coalesced;
    RoundUp16Is(total);
    TilesOrdered(s.cells, lo, hi);
    assert s.cells[Chosen(s, total)].addr % 16 == 0;
  }

  lemma MallocIsLive(s: HeapState, t: HeapState, lo: nat, hi: nat, size: Word, p: nat)
    requires Inv(s, lo, hi) && MallocStep(s, t, lo, hi, size, p) && p != 0
    ensures Live(t.cells, p)
  {
    var n := RoundUp16(size);
    var k := FirstFit(s.cells, n);
    RoundUp16Is(size);
    AllocAtTaken(s.cells, k, n);
    AllocAtKeeps(s.cells, lo, hi, k, n);
    LiveIndexUnique(t.cells, lo, hi, k);
  }

  /** The block of an aligned allocation backed no earlier grant, and was free. */
  lemma AlignedBlockIsNew(s: HeapState, t: HeapState, lo: nat, hi: nat, total: Word, size: nat, p: nat)
    requires Inv(s, lo, hi) && Chosen(s, total) < |s.cells| && total <= TWO64 - 16
    requires AlignedStep(s, t, lo, hi, total, size, p)
    ensures Grant(p, size, s.cells[Chosen(s, total)].Payload(), true) !in s.grants
    ensures forall a: int :: p <= a < p + size ==> !Kept(s.cells, lo, hi, a)
  {
    hide AllocAt, Represents, Coalesced, RoundUp16, PreservesClients;
    var k := Chosen(s, total);
    RoundUp16Is(total);
    FreePayloadIsNotKept(s.cells, lo, hi, k);
    var g := Grant(p, size, s.cells[k].Payload(), true);
    if g in s.grants {
      var c :| c in Used(s.cells) && Backs(s.mem, c, g);
      TilesOrdered(s.cells, lo, hi);
    }
  }
}
