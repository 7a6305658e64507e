/** The mapping sequence at the start of `systemPL::Init`. */
module Boot {
  import opened Widths
  import opened Bits
  import opened Memory
  import opened HeapModel
  import opened HeapCanonical
  import opened HeapSteps
  import opened Heap
  import opened PageModel
  import opened PageMapping
  import opened PageTranslation
  import opened Paging
  import opened Processor

  const GLOBAL: nat := 0x100
  const NO_EXECUTE: nat := 0x8000_0000_0000_0000

  // Paging::Profile
  const KERNEL_CODE_WRITABLE: nat := PRESENT + USER + GLOBAL + WRITABLE
  const KERNEL_DATA: nat := PRESENT + USER + WRITABLE + NO_EXECUTE + GLOBAL
  const USER_CODE: nat := PRESENT + USER

  const HEAP_SIZE: nat := 1024 * 1024 * 64
  const IDENTITY_END: nat := 1024 * 1024 * 96

  // Memory map entry types of the Limine protocol.
  const USABLE: nat := 0
  const ACPI_RECLAIMABLE: nat := 2
  const ACPI_NVS: nat := 3
  const BOOTLOADER_RECLAIMABLE: nat := 5
  const FRAMEBUFFER: nat := 7

  datatype MemmapEntry = MemmapEntry(base: nat, length: nat, kind: nat)

  /** The entry types the switch in `Init` maps. */
  predicate Listed(e: MemmapEntry) {
    e.kind == USABLE || e.kind == BOOTLOADER_RECLAIMABLE || e.kind == ACPI_RECLAIMABLE
    || e.kind == ACPI_NVS || e.kind == FRAMEBUFFER
  }

  /** One call: n pages from v to p. */
  datatype Mapping = Mapping(v: nat, p: nat, n: nat, flags: nat)

  /** The flat map after a list of calls over an empty one, last writer first. */
  ghost function FlatAfter(calls: seq<Mapping>, q: PageNumber): int {
    if |calls| == 0 then 0
    else
      var c := calls[|calls| - 1];
      Mapped(FlatAfter(calls[..|calls| - 1], q), c.v, c.p, c.n, c.flags, q)
  }

  ghost function NeededAll(calls: seq<Mapping>): set<Node> {
    if |calls| == 0 then {}
    else NeededAll(calls[..|calls| - 1]) + Needed(calls[|calls| - 1].v, calls[|calls| - 1].n)
  }

  ghost predicate InCall(c: Mapping, q: PageNumber) {
    Ahead(PageOf(c.v), q) < c.n
  }

  /** The value call c stores for page q of its range. */
  ghost function Stored(c: Mapping, q: PageNumber): int {
    LeafEntry(c.p + PAGE * Ahead(PageOf(c.v), q), c.flags)
  }

  // ----- the direct map -----

  /** Physical page that the direct map gives page q. */
  function DirectPhys(hhdm: nat, q: PageNumber): nat {
    PAGE * Ahead(PageOf(hhdm), q)
  }

  /** A call that sends v to v - hhdm with the KernelData profile, within 48 bits. */
  predicate IsDirect(c: Mapping, hhdm: nat) {
    && c.v == hhdm + c.p && c.flags == KERNEL_DATA
    && c.p % PAGE == 0 && c.p + PAGE * c.n <= PAGE * PAGES48
  }

  /** All direct-map calls, the heap's included, store the same entry for a page. */
  lemma DirectStores(c: Mapping, hhdm: nat, q: PageNumber)
    requires hhdm % PAGE == 0 && IsDirect(c, hhdm) && InCall(c, q)
    ensures Stored(c, q) == LeafEntry(DirectPhys(hhdm, q), KERNEL_DATA)
  {
    var b := c.p / PAGE;
    assert c.v == hhdm + PAGE * b;
    PageOfStep(hhdm, b);
    assert Ahead(PageOf(hhdm), q) == b + Ahead(PageOf(c.v), q);
  }

  function EntryMapping(hhdm: nat, e: MemmapEntry): Mapping {
    Mapping(hhdm + e.base, e.base, Pages(e.length), KERNEL_DATA)
  }

  /** The calls of the memory-map loop, in order. */
  function EntryCalls(hhdm: nat, es: seq<MemmapEntry>): seq<Mapping> {
    if |es| == 0 then []
    else
      EntryCalls(hhdm, es[..|es| - 1]) +
      (if Listed(es[|es| - 1]) then [EntryMapping(hhdm, es[|es| - 1])] else [])
  }

  datatype BootInfo = BootInfo(heapAddr: nat, kernelVirt: nat, kernelPhys: nat, kernelSize: nat, hhdm: nat,
                               pml4: nat, memmap: seq<MemmapEntry>)

  function HeapCall(b: BootInfo): Mapping
    requires b.heapAddr >= b.hhdm
  {
    Mapping(b.heapAddr, b.heapAddr - b.hhdm, Pages(HEAP_SIZE), KERNEL_DATA)
  }

  function IdentityCall(): Mapping {
    Mapping(0, 0, PagesBetween(0, IDENTITY_END), USER_CODE)
  }

  function KernelCall(b: BootInfo): Mapping {
    Mapping(b.kernelVirt, b.kernelPhys, Pages(b.kernelSize), KERNEL_CODE_WRITABLE)
  }

  /** Every mapping call of `Init`, in order. */
  function BootCalls(b: BootInfo): seq<Mapping>
    requires b.heapAddr >= b.hhdm
  {
    [HeapCall(b), IdentityCall(), KernelCall(b)] + EntryCalls(b.hhdm, b.memmap)
  }

  /** What the boot loader promises and the 64-bit arithmetic needs. */
  predicate BootOk(b: BootInfo) {
    && b.hhdm % PAGE == 0 && b.hhdm >= TWO64 - PAGE * PAGES48
    && b.heapAddr % PAGE == 0 && 0 < b.hhdm <= b.heapAddr && b.heapAddr + HEAP_SIZE < TWO64
    && b.pml4 % PAGE == 0 && (b.pml4 + PAGE <= b.heapAddr || b.heapAddr + HEAP_SIZE <= b.pml4)
    && b.kernelVirt % PAGE == 0 && b.kernelPhys % PAGE == 0
    && b.kernelVirt + b.kernelSize <= TWO64 && b.kernelPhys + b.kernelSize <= PAGE * PAGES48
    && (forall e :: e in b.memmap && Listed(e) ==> e.base % PAGE == 0 && b.hhdm + e.base + e.length <= TWO64)
  }

  ghost predicate ComesFrom(c: Mapping, hhdm: nat, es: seq<MemmapEntry>) {
    exists e :: e in es && Listed(e) && c == EntryMapping(hhdm, e)
  }

  /** The loop makes one call for each listed entry and no others. */
  lemma {:induction false} EntryCallsAre(hhdm: nat, es: seq<MemmapEntry>)
    ensures forall c :: c in EntryCalls(hhdm, es) <==> ComesFrom(c, hhdm, es)
    decreases |es|
  {
    if |es| > 0 {
      var rest := es[..|es| - 1];
      var last := es[|es| - 1];
      EntryCallsAre(hhdm, rest);
      assert forall e :: e in es <==> e in rest || e == last;
      hide EntryMapping, Listed;
      forall c ensures c in EntryCalls(hhdm, es) <==> ComesFrom(c, hhdm, es) {
        assert ComesFrom(c, hhdm, es) <==> ComesFrom(c, hhdm, rest) || (Listed(last) && c == EntryMapping(hhdm, last));
      }
    }
  }

  /** Whole pages from an aligned start end no later than any aligned limit. */
  lemma WholePagesFit(start: nat, size: nat, limit: nat)
    requires start % PAGE == 0 && limit % PAGE == 0 && start + size <= limit
    ensures start + PAGE * Pages(size) <= limit
  {
    var a, b, n := start / PAGE, limit / PAGE, Pages(size);
    PagesAre(size);
    assert start == PAGE * a && limit == PAGE * b;
    if n > 0 {
      assert PAGE * (n - 1) < size;
    }
  }

  lemma EntryIsDirect(b: BootInfo, e: MemmapEntry)
    requires BootOk(b) && e in b.memmap && Listed(e)
    ensures IsDirect(EntryMapping(b.hhdm, e), b.hhdm) && EntryMapping(b.hhdm, e).n <= PAGES48
  {
    hide Pages;
    WholePagesFit(e.base, e.length, PAGE * PAGES48);
  }

  lemma HeapIsDirect(b: BootInfo)
    requires BootOk(b)
    ensures IsDirect(HeapCall(b), b.hhdm) && HeapCall(b).n <= PAGES48
  {
    hide Listed, Pages;
    PhysicalPage(b.heapAddr, b.hhdm);
    WholePagesFit(b.heapAddr - b.hhdm, HEAP_SIZE, PAGE * PAGES48);
  }

  lemma KernelPages(b: BootInfo)
    requires BootOk(b)
    ensures KernelCall(b).n <= PAGES48
  {
    hide Listed;
    PagesAre(b.kernelSize);
  }

  lemma BootCallsShape(b: BootInfo)
    requires BootOk(b)
    ensures forall i :: 0 <= i < |BootCalls(b)| ==> BootCalls(b)[i].n <= PAGES48
    ensures IsDirect(HeapCall(b), b.hhdm)
    ensures forall i :: 3 <= i < |BootCalls(b)| ==> IsDirect(BootCalls(b)[i], b.hhdm)
  {
    EntryCallsAre(b.hhdm, b.memmap);
    HeapIsDirect(b);
    KernelPages(b);
    IdentityRange();
    hide BootOk, Listed, EntryMapping, IsDirect;
    forall i | 3 <= i < |BootCalls(b)|
      ensures IsDirect(BootCalls(b)[i], b.hhdm) && BootCalls(b)[i].n <= PAGES48
    {
      var c := EntryCalls(b.hhdm, b.memmap)[i - 3];
      assert BootCalls(b)[i] == c && c in EntryCalls(b.hhdm, b.memmap);
      assert ComesFrom(c, b.hhdm, b.memmap);
      var e :| e in b.memmap && Listed(e) && c == EntryMapping(b.hhdm, e);
      EntryIsDirect(b, e);
    }
  }

  /** The entry that the direct map gives page q. */
  ghost function DirectEntry(b: BootInfo, q: PageNumber): int {
    LeafEntry(DirectPhys(b.hhdm, q), KERNEL_DATA)
  }

  /** Every call that covers q stores x there. */
  ghost predicate AllStore(calls: seq<Mapping>, q: PageNumber, x: int) {
    forall i :: 0 <= i < |calls| ==> calls[i].n <= PAGES48 && (InCall(calls[i], q) ==> Stored(calls[i], q) == x)
  }

  ghost predicate SomeCovers(calls: seq<Mapping>, q: PageNumber) {
    exists i :: 0 <= i < |calls| && InCall(calls[i], q)
  }

  /** Splitting off the calls of the memory-map loop. */
  lemma {:induction false} FlatAfterSuffix(front: seq<Mapping>, back: seq<Mapping>, q: PageNumber, x: int)
    requires AllStore(back, q, x)
    ensures FlatAfter(front + back, q) == if SomeCovers(back, q) then x else FlatAfter(front, q)
    decreases |back|
  {
    var calls := front + back;
    if |back| == 0 {
      assert calls == front;
    } else {
      var n := |back| - 1;
      var c := back[n];
      var rest := back[..n];
      assert calls[..|calls| - 1] == front + rest && calls[|calls| - 1] == c;
      assert forall i :: 0 <= i < n ==> rest[i] == back[i];
      FlatAfterSuffix(front, rest, q, x);
      MappedIsOverride(FlatAfter(front + rest, q), c.v, c.p, c.n, c.flags, q);
      CoversLast(back, q);
    }
  }

  lemma CoversLast(calls: seq<Mapping>, q: PageNumber)
    requires |calls| > 0
    ensures SomeCovers(calls, q) <==> SomeCovers(calls[..|calls| - 1], q) || InCall(calls[|calls| - 1], q)
  {
    hide InCall;
    var rest := calls[..|calls| - 1];
    assert forall i :: 0 <= i < |rest| ==> rest[i] == calls[i];
    if SomeCovers(rest, q) {
      var i :| 0 <= i < |rest| && InCall(rest[i], q);
      assert InCall(calls[i], q);
    }
  }

  /** Every page of a listed memory-map entry ends with the direct entry. */
  lemma DirectPageStored(b: BootInfo, e: MemmapEntry, q: PageNumber)
    requires BootOk(b) && e in b.memmap && Listed(e) && InCall(EntryMapping(b.hhdm, e), q)
    ensures FlatAfter(BootCalls(b), q) == DirectEntry(b, q)
  {
    var back := EntryCalls(b.hhdm, b.memmap);
    BackIsDirect(b, q);
    EntryIsCalled(b.hhdm, b.memmap, e, q);
    hide EntryMapping, EntryCalls, InCall, Stored, DirectEntry, FlatAfter, AllStore, SomeCovers;
    FlatAfterSuffix([HeapCall(b), IdentityCall(), KernelCall(b)], back, q, DirectEntry(b, q));
  }

  lemma EntryIsCalled(hhdm: nat, es: seq<MemmapEntry>, e: MemmapEntry, q: PageNumber)
    requires e in es && Listed(e) && InCall(EntryMapping(hhdm, e), q)
    ensures SomeCovers(EntryCalls(hhdm, es), q)
  {
    EntryCallsAre(hhdm, es);
    assert ComesFrom(EntryMapping(hhdm, e), hhdm, es);
    assert EntryMapping(hhdm, e) in EntryCalls(hhdm, es);
  }

  lemma BackIsDirect(b: BootInfo, q: PageNumber)
    requires BootOk(b)
    ensures AllStore(EntryCalls(b.hhdm, b.memmap), q, DirectEntry(b, q))
  {
    hide EntryMapping, EntryCalls, InCall, Stored, DirectEntry;
    BootCallsShape(b);
    var back := EntryCalls(b.hhdm, b.memmap);
    forall i | 0 <= i < |back|
      ensures back[i].n <= PAGES48 && (InCall(back[i], q) ==> Stored(back[i], q) == DirectEntry(b, q))
    {
      assert BootCalls(b)[i + 3] == back[i];
      if InCall(back[i], q) {
        DirectStores(back[i], b.hhdm, q);
        DirectEntryIs(b, q);
      }
    }
  }

  lemma DirectEntryIs(b: BootInfo, q: PageNumber)
    ensures DirectEntry(b, q) == LeafEntry(DirectPhys(b.hhdm, q), KERNEL_DATA)
  {}

  /** So does every heap page outside the identity and kernel ranges. */
  lemma HeapPageStored(b: BootInfo, q: PageNumber)
    requires BootOk(b) && InCall(HeapCall(b), q)
    requires !InCall(IdentityCall(), q) && !InCall(KernelCall(b), q)
    ensures FlatAfter(BootCalls(b), q) == DirectEntry(b, q)
  {
    var calls := BootCalls(b);
    BootCallsShape(b);
    forall i | 0 <= i < |calls|
      ensures calls[i].n <= PAGES48 && (InCall(calls[i], q) ==> Stored(calls[i], q) == DirectEntry(b, q))
    {
      if InCall(calls[i], q) {
        DirectStores(calls[i], b.hhdm, q);
      }
    }
    assert InCall(calls[0], q);
    assert calls == [] + calls;
    FlatAfterSuffix([], calls, q, DirectEntry(b, q));
  }

  lemma KernelDataFlags()
    ensures FlagsOk(KERNEL_DATA) && KERNEL_DATA % 2 == 1
    ensures FlagsOk(USER_CODE) && FlagsOk(KERNEL_CODE_WRITABLE)
  {}

  lemma AheadIs(a: PageNumber, q: PageNumber)
    ensures Ahead(a, q) < PAGES48
    ensures (if a + Ahead(a, q) < PAGES48 then a + Ahead(a, q) else a + Ahead(a, q) - PAGES48) == q
  {}

  /** The direct entry decodes to its physical page and is present. */
  lemma DirectEntryDecodes(b: BootInfo, q: PageNumber)
    ensures PhysBase(DirectEntry(b, q)) == DirectPhys(b.hhdm, q)
    ensures DirectEntry(b, q) % 2 == 1
    ensures PageOf(b.hhdm + DirectPhys(b.hhdm, q)) == q
  {
    KernelDataFlags();
    var d := Ahead(PageOf(b.hhdm), q);
    AheadIs(PageOf(b.hhdm), q);
    hide LeafEntry, PhysBase, Ahead, FlagsOk;
    LeafEntryDecodes(PAGE * d, KERNEL_DATA);
    PageOfStep(b.hhdm, d);
  }

  // ----- what each byte translates to -----

  /** Memory map types other than reserved, bad memory and the kernel's own pages. */
  predicate Reachable(e: MemmapEntry) {
    e.kind <= 7 && e.kind != 1 && e.kind != 4 && e.kind != 6
  }

  lemma ListedIs(e: MemmapEntry)
    ensures Listed(e) <==> Reachable(e)
  {}

  /** Some byte of a reachable entry shares the page of va in the direct map. */
  ghost predicate DirectMapped(b: BootInfo, va: nat) {
    exists e :: e in b.memmap && Reachable(e) && Touches(b.hhdm + e.base, e.length, va)
  }

  /** What the boot sequence promises of every virtual address, with later calls before earlier ones. */
  ghost predicate Translates(b: BootInfo, va: nat, t: Translation) {
    && (forall e :: e in b.memmap && Reachable(e) && b.hhdm + e.base <= va < b.hhdm + e.base + e.length ==>
          t == Page(va - b.hhdm, true, true, false))
    && (b.kernelVirt <= va < b.kernelVirt + b.kernelSize && !DirectMapped(b, va) ==>
          t == Page(b.kernelPhys + (va - b.kernelVirt), true, true, true))
    && (va < 0x600_0000 && !DirectMapped(b, va) && !Touches(b.kernelVirt, b.kernelSize, va) ==>
          t == Page(va, false, true, true))
    && (b.hhdm <= b.heapAddr <= va < b.heapAddr + 0x400_0000
          && !Touches(0, 0x600_0000, va) && !Touches(b.kernelVirt, b.kernelSize, va) ==>
          t == Page(va - b.hhdm, true, true, false))
  }

  lemma ProfileRights(p: nat)
    ensures Granted(p, KERNEL_DATA) == Page(p, true, true, false)
    ensures Granted(p, KERNEL_CODE_WRITABLE) == Page(p, true, true, true)
    ensures Granted(p, USER_CODE) == Page(p, false, true, true)
  {}

  /** A byte whose page holds the direct entry translates to v - hhdm. */
  lemma DirectByte(b: BootInfo, va: nat)
    requires b.hhdm % PAGE == 0 && b.hhdm <= va < b.hhdm + PAGE * PAGES48
    ensures OfLeaf(DirectEntry(b, PageOf(va)), va % 0x1000) == Page(va - b.hhdm, true, true, false)
  {
    var o := va - b.hhdm;
    assert o / PAGE < PAGES48;
    PageOfByte(b.hhdm, o);
    KernelDataFlags();
    ByteOfPage(0, o, PHYS52);
    hide Ahead, PageOf, LeafEntry, FlagsOk, OfLeaf, Granted;
    LeafGrants(PAGE * (o / PAGE), KERNEL_DATA, va % 0x1000);
    assert PAGE * (o / PAGE) + o % 0x1000 == o;
    ProfileRights(o);
  }

  /** Every byte of every listed memory-map entry translates to v - hhdm, writable and not
      executable. */
  lemma DirectMapTranslates(b: BootInfo, e: MemmapEntry, va: nat)
    requires BootOk(b) && e in b.memmap && Listed(e) && b.hhdm + e.base <= va < b.hhdm + e.base + e.length
    ensures OfLeaf(FlatAfter(BootCalls(b), PageOf(va)), va % 0x1000) == Page(va - b.hhdm, true, true, false)
  {
    EntryIsDirect(b, e);
    InsideTouches(b.hhdm + e.base, e.length, va);
    hide FlatAfter, BootCalls, DirectEntry, OfLeaf, Touches, Listed, PageOf, Ahead, Pages;
    TouchesIff(b.hhdm + e.base, e.length, va);
    DirectPageStored(b, e, PageOf(va));
    DirectByte(b, va);
  }

  lemma InsideTouches(start: nat, size: nat, va: nat)
    requires start <= va < start + size
    ensures Touches(start, size, va)
  {
    assert SamePage(va, va);
  }

  /** Every heap byte outside the pages of the identity and kernel ranges translates so too. */
  lemma HeapTranslates(b: BootInfo, va: nat)
    requires BootOk(b) && b.heapAddr <= va < b.heapAddr + HEAP_SIZE
    requires !Touches(0, IDENTITY_END, va) && !Touches(b.kernelVirt, b.kernelSize, va)
    ensures OfLeaf(FlatAfter(BootCalls(b), PageOf(va)), va % 0x1000) == Page(va - b.hhdm, true, true, false)
  {
    IdentityRange();
    IdentityPages();
    hide FlatAfter, BootCalls, DirectEntry, OfLeaf, Touches, Listed, PageOf, Ahead, Pages, PagesBetween;
    InsideTouches(b.heapAddr, HEAP_SIZE, va);
    TouchesIff(b.heapAddr, HEAP_SIZE, va);
    TouchesIff(0, IDENTITY_END, va);
    TouchesIff(b.kernelVirt, b.kernelSize, va);
    HeapPageStored(b, PageOf(va));
    DirectByte(b, va);
  }

  lemma IdentityPages()
    ensures PagesBetween(0, IDENTITY_END) == Pages(IDENTITY_END)
  {
    IdentityRange();
  }

  /** No call of the memory-map loop reaches a page outside the direct map. */
  lemma LoopMisses(b: BootInfo, va: nat)
    requires BootOk(b) && !DirectMapped(b, va)
    ensures FlatAfter(BootCalls(b), PageOf(va)) == FlatAfter(FirstCalls(b), PageOf(va))
  {
    var q := PageOf(va);
    var back := EntryCalls(b.hhdm, b.memmap);
    BackIsDirect(b, q);
    EntryCallsAre(b.hhdm, b.memmap);
    hide FlatAfter, EntryCalls, EntryMapping, InCall, Listed, Reachable, AllStore, DirectEntry, Touches;
    forall i | 0 <= i < |back| ensures !InCall(back[i], q) {
      assert back[i] in back;
      assert ComesFrom(back[i], b.hhdm, b.memmap);
      var e :| e in b.memmap && Listed(e) && back[i] == EntryMapping(b.hhdm, e);
      EntryTouches(b, e, va);
      ListedIs(e);
    }
    FlatAfterSuffix(FirstCalls(b), back, q, DirectEntry(b, q));
  }

  lemma EntryTouches(b: BootInfo, e: MemmapEntry, va: nat)
    requires BootOk(b) && e in b.memmap && Listed(e)
    ensures InCall(EntryMapping(b.hhdm, e), PageOf(va)) <==> Touches(b.hhdm + e.base, e.length, va)
  {
    hide Touches, PageOf, Ahead, Pages, Listed;
    TouchesIff(b.hhdm + e.base, e.length, va);
  }

  /** Every kernel byte outside the direct map translates to its physical byte, writable and
      executable. */
  lemma KernelTranslates(b: BootInfo, va: nat)
    requires BootOk(b) && b.kernelVirt <= va < b.kernelVirt + b.kernelSize && !DirectMapped(b, va)
    ensures OfLeaf(FlatAfter(BootCalls(b), PageOf(va)), va % 0x1000)
      == Page(b.kernelPhys + (va - b.kernelVirt), true, true, true)
  {
    var q := PageOf(va);
    var c := KernelCall(b);
    LoopMisses(b, va);
    KernelDataFlags();
    ProfileRights(b.kernelPhys + (va - b.kernelVirt));
    hide DirectMapped, Listed, OfLeaf, Granted, Touches, PageOf, Mapped, Pages, FlagsOk, FlatAfter;
    FlatAfterNext([HeapCall(b), IdentityCall()], c, q);
    assert [HeapCall(b), IdentityCall()] + [c] == FirstCalls(b);
    MappedBytes(FlatAfter([HeapCall(b), IdentityCall()], q), c.v, c.p, b.kernelSize, c.flags, va);
  }

  /** Every byte of the first 96 MiB outside the direct map and the kernel translates to itself,
      executable and not writable. */
  lemma IdentityTranslates(b: BootInfo, va: nat)
    requires BootOk(b) && va < IDENTITY_END && !DirectMapped(b, va) && !Touches(b.kernelVirt, b.kernelSize, va)
    ensures OfLeaf(FlatAfter(BootCalls(b), PageOf(va)), va % 0x1000) == Page(va, false, true, true)
  {
    var q := PageOf(va);
    var h, i, c := HeapCall(b), IdentityCall(), KernelCall(b);
    LoopMisses(b, va);
    KernelDataFlags();
    ProfileRights(va);
    IdentityPages();
    hide DirectMapped, Listed, OfLeaf, Granted, Touches, PageOf, Mapped, Pages, PagesBetween, FlagsOk, FlatAfter;
    FlatAfterNext([h, i], c, q);
    FlatAfterNext([h], i, q);
    assert [h, i] + [c] == FirstCalls(b) && [h] + [i] == [h, i];
    MappedBytes(FlatAfter([h, i], q), c.v, c.p, b.kernelSize, c.flags, va);
    MappedBytes(FlatAfter([h], q), 0, 0, IDENTITY_END, i.flags, va);
  }

  /** All of it, for every address. */
  lemma FlatTranslates(b: BootInfo, va: nat)
    requires BootOk(b)
    ensures Translates(b, va, OfLeaf(FlatAfter(BootCalls(b), PageOf(va)), va % 0x1000))
  {
    assert b.heapAddr >= b.hhdm;
    hide BootOk, Listed, Reachable, Touches, DirectMapped, FlatAfter, BootCalls, OfLeaf, PageOf;
    forall e | e in b.memmap && Reachable(e) && b.hhdm + e.base <= va < b.hhdm + e.base + e.length
      ensures OfLeaf(FlatAfter(BootCalls(b), PageOf(va)), va % 0x1000) == Page(va - b.hhdm, true, true, false)
    {
      ListedIs(e);
      DirectMapTranslates(b, e, va);
    }
    if b.kernelVirt <= va < b.kernelVirt + b.kernelSize && !DirectMapped(b, va) {
      KernelTranslates(b, va);
    }
    if va < IDENTITY_END && !DirectMapped(b, va) && !Touches(b.kernelVirt, b.kernelSize, va) {
      IdentityTranslates(b, va);
    }
    if b.heapAddr <= va < b.heapAddr + HEAP_SIZE
      && !Touches(0, IDENTITY_END, va) && !Touches(b.kernelVirt, b.kernelSize, va)
    {
      HeapTranslates(b, va);
    }
  }

  // ----- the code -----

  lemma {:induction false} NeededAllHas(calls: seq<Mapping>, i: nat)
    requires i < |calls|
    ensures Needed(calls[i].v, calls[i].n) <= NeededAll(calls)
    decreases |calls|
  {
    if i < |calls| - 1 {
      NeededAllHas(calls[..|calls| - 1], i);
    }
  }

  /** `Paging::Init`: clear the root table. */
  method ClearPml4(ram: Ram, pml4: nat)
    modifies ram
    ensures forall i :: 0 <= i < 512 ==> At(ram.words, pml4 + 8 * i) == 0
  {
    var i := 0;
    while i < 512
      invariant 0 <= i <= 512
      invariant forall j :: 0 <= j < i ==> At(ram.words, pml4 + 8 * j) == 0
    {
      ram.Store(pml4 + 8 * i, 0);
      i := i + 1;
    }
  }

  /** The tables hold exactly the flat map of the first calls. */
  ghost predicate Reached(t: PageTables, calls: seq<Mapping>, goal: set<Node>)
    reads t, t.ram, t.heap
  {
    && t.Valid() && t.Budget(goal)
    && (forall q: PageNumber :: t.Entry(q) == FlatAfter(calls, q))
    && t.nodes.Keys == NeededAll(calls) + {ROOT}
    && |t.heap.grants| + 1 == |t.nodes|
  }

  /** One more call on top of the flat map of the earlier ones. */
  lemma FlatAfterNext(calls: seq<Mapping>, c: Mapping, q: PageNumber)
    ensures FlatAfter(calls + [c], q) == Mapped(FlatAfter(calls, q), c.v, c.p, c.n, c.flags, q)
    ensures NeededAll(calls + [c]) == NeededAll(calls) + Needed(c.v, c.n)
  {
    assert (calls + [c])[..|calls|] == calls;
  }

  /** A `Map_memory_vp` call of the sequence. */
  method MapNext(t: PageTables, c: Mapping, size: nat, ghost calls: seq<Mapping>, ghost goal: set<Node>)
    requires Reached(t, calls, goal) && CallOk(c, size, goal)
    modifies t.ram, t.heap`cells, t.heap`grants, t`nodes
    ensures Reached(t, calls + [c], goal)
  {
    hide Inv, Tree, TablesOwned, Needed, Mapped, FlatAfter, NeededAll, Walk, FlagsOk, Room, Quiet, LayoutOk, Pages;
    t.MapMemoryVp(c.v, c.p, size, c.flags, goal);
    forall q: PageNumber ensures t.Entry(q) == FlatAfter(calls + [c], q) {
      FlatAfterNext(calls, c, q);
    }
    FlatAfterNext(calls, c, 0);
  }

  /** The `Map_memory` call of the sequence. */
  method MapIdentity(t: PageTables, ghost calls: seq<Mapping>, ghost goal: set<Node>)
    requires Reached(t, calls, goal)
    requires Needed(IdentityCall().v, IdentityCall().n) <= goal
    modifies t.ram, t.heap`cells, t.heap`grants, t`nodes
    ensures Reached(t, calls + [IdentityCall()], goal)
  {
    IdentityRange();
    KernelDataFlags();
    ghost var c := IdentityCall();
    hide Inv, Tree, TablesOwned, Needed, Mapped, FlatAfter, NeededAll, Walk, FlagsOk, Room, Quiet, LayoutOk,
      PagesBetween,
      RoundDownPage, RoundUpPage;
    t.MapMemory(0, IDENTITY_END, USER_CODE, goal);
    forall q: PageNumber ensures t.Entry(q) == FlatAfter(calls + [c], q) {
      FlatAfterNext(calls, c, q);
    }
    FlatAfterNext(calls, c, 0);
  }

  lemma IdentityRange()
    ensures RoundDownPage(0) == 0 && RoundUpPage(IDENTITY_END) == IDENTITY_END
    ensures PagesBetween(0, IDENTITY_END) == 24576
  {}

  lemma CallsInOrder(b: BootInfo, i: nat)
    requires b.heapAddr >= b.hhdm && i < |b.memmap|
    ensures var e := b.memmap[i];
      EntryCalls(b.hhdm, b.memmap[..i + 1]) ==
      EntryCalls(b.hhdm, b.memmap[..i]) + (if Listed(e) then [EntryMapping(b.hhdm, e)] else [])
  {
    assert b.memmap[..i + 1][..i] == b.memmap[..i];
  }

  /** The first three calls. */
  ghost function FirstCalls(b: BootInfo): seq<Mapping>
    requires b.heapAddr >= b.hhdm
  {
    [HeapCall(b), IdentityCall(), KernelCall(b)]
  }

  lemma CallNeeds(b: BootInfo, c: Mapping)
    requires b.heapAddr >= b.hhdm && c in BootCalls(b)
    ensures Needed(c.v, c.n) <= NeededAll(BootCalls(b))
  {
    var i :| 0 <= i < |BootCalls(b)| && BootCalls(b)[i] == c;
    NeededAllHas(BootCalls(b), i);
  }

  /** A listed entry's call is one of the sequence and within the address space. */
  lemma EntryCallOk(b: BootInfo, e: MemmapEntry)
    requires BootOk(b) && e in b.memmap && Listed(e)
    ensures CallOk(EntryMapping(b.hhdm, e), e.length, NeededAll(BootCalls(b)))
  {
    EntryNeeds(b, e);
    KernelDataFlags();
    EntryRange(b, e);
    var c := EntryMapping(b.hhdm, e);
    assert c.n == Pages(e.length) && c.flags == KERNEL_DATA;
    hide NeededAll, Needed, BootCalls, FlagsOk, EntryMapping, BootOk, Listed, Pages;
  }

  lemma EntryRange(b: BootInfo, e: MemmapEntry)
    requires BootOk(b) && e in b.memmap && Listed(e)
    ensures var c := EntryMapping(b.hhdm, e);
      c.v % PAGE == 0 && c.p % PAGE == 0 && c.v + e.length <= TWO64 && c.p + e.length <= PHYS52
  {
    RemainderIs(b.hhdm + e.base, PAGE, b.hhdm / PAGE + e.base / PAGE, 0);
    hide Listed, Pages;
  }

  lemma EntryNeeds(b: BootInfo, e: MemmapEntry)
    requires b.heapAddr >= b.hhdm && e in b.memmap && Listed(e)
    ensures Needed(EntryMapping(b.hhdm, e).v, EntryMapping(b.hhdm, e).n) <= NeededAll(BootCalls(b))
  {
    var c := EntryMapping(b.hhdm, e);
    EntryCallsAre(b.hhdm, b.memmap);
    assert ComesFrom(c, b.hhdm, b.memmap);
    hide NeededAll, Needed;
    CallNeeds(b, c);
  }

  /** What `MapNext` asks of a call. */
  ghost predicate CallOk(c: Mapping, size: nat, goal: set<Node>) {
    && Needed(c.v, c.n) <= goal && c.n == Pages(size)
    && c.v % PAGE == 0 && c.p % PAGE == 0 && FlagsOk(c.flags)
    && c.v + size <= TWO64 && c.p + size <= PHYS52
  }

  lemma FirstCallsOk(b: BootInfo)
    requires BootOk(b)
    ensures var goal := NeededAll(BootCalls(b));
      && CallOk(HeapCall(b), HEAP_SIZE, goal)
      && CallOk(KernelCall(b), b.kernelSize, goal)
      && Needed(IdentityCall().v, IdentityCall().n) <= goal
  {
    hide Needed, NeededAll, BootCalls, FlagsOk, PagesBetween;
    KernelDataFlags();
    FirstAreCalled(b);
    CallNeeds(b, HeapCall(b));
    CallNeeds(b, KernelCall(b));
    CallNeeds(b, IdentityCall());
  }

  lemma FirstAreCalled(b: BootInfo)
    requires b.heapAddr >= b.hhdm
    ensures HeapCall(b) in BootCalls(b) && KernelCall(b) in BootCalls(b) && IdentityCall() in BootCalls(b)
  {
    assert BootCalls(b)[0] == HeapCall(b);
    assert BootCalls(b)[1] == IdentityCall();
    assert BootCalls(b)[2] == KernelCall(b);
  }

  /** Tables the calls can need, counted from their lengths alone. */
  function TableBound(calls: seq<Mapping>): nat {
    if |calls| == 0 then 0
    else
      var n := calls[|calls| - 1].n;
      TableBound(calls[..|calls| - 1]) + (n / 512 + n / 0x4_0000 + n / 0x800_0000 + 6)
  }

  /** A caller can check from the lengths of the ranges that the heap will do. */
  lemma {:induction false} TablesBounded(calls: seq<Mapping>)
    ensures |NeededAll(calls)| <= TableBound(calls)
    decreases |calls|
  {
    if |calls| > 0 {
      var front, last := calls[..|calls| - 1], calls[|calls| - 1];
      TablesBounded(front);
      NeededCount(last.v, last.n);
      CardUnion(NeededAll(front), Needed(last.v, last.n));
    }
  }

  /** A fresh heap has room for any goal whose cost fits it. */
  lemma FreshHeapHasRoom(lo: nat, goal: set<Node>, have: set<Node>)
    requires |goal| * PAGE_COST <= HEAP_SIZE
    ensures Room(InitialCells(lo, lo + HEAP_SIZE), |goal - have|)
  {
    SubsetCard(goal - have, goal);
    PagesInOne(Cell(lo, HEAP_SIZE - HEADER, true));
  }

  lemma HeapAboveDirectMap(b: BootInfo)
    requires BootOk(b)
    ensures 0 < b.hhdm <= b.heapAddr && b.heapAddr + HEAP_SIZE < TWO64
    ensures b.heapAddr % 16 == 0 && HEAP_SIZE % 16 == 0
    ensures b.pml4 + PAGE <= b.heapAddr || b.heapAddr + HEAP_SIZE <= b.pml4
    ensures LayoutOk(b.heapAddr, b.heapAddr + HEAP_SIZE, b.pml4, b.hhdm)
  {
    hide Pages, Listed;
    PageIsWords(b.heapAddr);
  }

  lemma PageIsWords(a: nat)
    requires a % PAGE == 0
    ensures a % 16 == 0
  {
    RemainderIs(a, 16, 256 * (a / PAGE), 0);
  }

  /** `Paging::Init` and `heap_init`. */
  method Start(ram: Ram, b: BootInfo, ghost goal: set<Node>) returns (tables: PageTables)
    requires BootOk(b)
    requires |goal| * PAGE_COST <= HEAP_SIZE
    modifies ram
    ensures Reached(tables, [], goal)
    ensures tables.ram == ram && tables.hhdm == b.hhdm && tables.pml4 == b.pml4 && fresh(tables) && fresh(tables.heap)
  {
    hide Inv, Tree, TablesOwned, Walk, Room, InitialCells, BootOk, NeededAll, FlatAfter, LayoutOk, Reached;
    HeapAboveDirectMap(b);
    ClearPml4(ram, b.pml4);
    var heap := new KernelHeap(ram, HEAP_SIZE, b.heapAddr);
    tables := new PageTables(ram, heap, b.pml4, b.hhdm);
    ReachedAtStart(tables, goal);
  }

  lemma ReachedAtStart(t: PageTables, goal: set<Node>)
    requires t.Valid() && t.nodes.Keys == {ROOT} && (forall pn: PageNumber :: t.Entry(pn) == 0)
    requires t.heap.grants == {} && |goal| * PAGE_COST <= HEAP_SIZE
    requires t.heap.end == t.heap.start + HEAP_SIZE && t.heap.cells == InitialCells(t.heap.start, t.heap.end)
    ensures Reached(t, [], goal)
  {
    hide Inv, Tree, TablesOwned, Walk, Room, LayoutOk;
    FreshHeapHasRoom(t.heap.start, goal, t.nodes.Keys);
    NoCalls();
    assert |t.nodes.Keys| == 1;
  }

  lemma NoCalls()
    ensures NeededAll([]) == {} && forall q: PageNumber :: FlatAfter([], q) == 0
  {}

  /** The three calls before the memory-map loop. */
  method MapFirst(ram: Ram, b: BootInfo, ghost goal: set<Node>) returns (tables: PageTables)
    requires BootOk(b) && goal == NeededAll(BootCalls(b))
    requires |goal| * PAGE_COST <= HEAP_SIZE
    modifies ram
    ensures Reached(tables, FirstCalls(b), goal)
    ensures tables.ram == ram && tables.hhdm == b.hhdm && tables.pml4 == b.pml4 && fresh(tables) && fresh(tables.heap)
  {
    HeapAboveDirectMap(b);
    hide *;
    FirstCallsOk(b);
    FirstCallsAre(b);
    var h, i, k := HeapCall(b), IdentityCall(), KernelCall(b);
    tables := Start(ram, b, goal);
    MapNext(tables, h, HEAP_SIZE, [], goal);
    MapIdentity(tables, [] + [h], goal);
    MapNext(tables, k, b.kernelSize, [] + [h] + [i], goal);
  }

  lemma FirstCallsAre(b: BootInfo)
    requires b.heapAddr >= b.hhdm
    ensures FirstCalls(b) == [] + [HeapCall(b)] + [IdentityCall()] + [KernelCall(b)]
  {}

  /** Paging and heap set-up in `systemPL::Init`: afterwards the processor's view is exactly
      the last-writer-wins flat map of the calls, and the heap holds one page per table. */
  method Init(ram: Ram, b: BootInfo) returns (tables: PageTables)
    requires BootOk(b)
    requires |NeededAll(BootCalls(b))| * PAGE_COST <= HEAP_SIZE
    modifies ram
    ensures tables.Valid() && tables.ram == ram && tables.hhdm == b.hhdm && tables.pml4 == b.pml4
    ensures forall va: nat :: Translates(b, va, Translate(ram.words, b.hhdm, b.pml4, va))
    ensures forall q: PageNumber :: tables.Entry(q) == FlatAfter(BootCalls(b), q)
    ensures tables.nodes.Keys == NeededAll(BootCalls(b)) + {ROOT}
    ensures |tables.heap.grants| + 1 == |tables.nodes|
  {
    hide Reached, BootCalls, FlatAfter, EntryCalls, NeededAll, EntryMapping, FirstCalls;
    ghost var goal := NeededAll(BootCalls(b));
    tables := MapFirst(ram, b, goal);
    NoEntries(b);
    var i := 0;
    while i < |b.memmap|
      invariant 0 <= i <= |b.memmap|
      invariant Reached(tables, FirstCalls(b) + EntryCalls(b.hhdm, b.memmap[..i]), goal)
      invariant tables.ram == ram && tables.hhdm == b.hhdm && tables.pml4 == b.pml4
        && fresh(tables) && fresh(tables.heap)
    {
      var e := b.memmap[i];
      ghost var earlier := FirstCalls(b) + EntryCalls(b.hhdm, b.memmap[..i]);
      CallsInOrder(b, i);
      if Listed(e) {
        EntryCallOk(b, e);
        MapNext(tables, EntryMapping(b.hhdm, e), e.length, earlier, goal);
        assert earlier + [EntryMapping(b.hhdm, e)] == FirstCalls(b) + EntryCalls(b.hhdm, b.memmap[..i + 1]);
      } else {
        assert FirstCalls(b) + EntryCalls(b.hhdm, b.memmap[..i + 1]) == earlier;
      }
      i := i + 1;
    }
    AllEntries(b);
    ReachedMeans(tables, BootCalls(b), goal);
    AllTranslate(tables, b);
  }

  lemma AllTranslate(t: PageTables, b: BootInfo)
    requires BootOk(b) && t.Valid() && t.hhdm == b.hhdm && t.pml4 == b.pml4
    requires forall q: PageNumber :: t.Entry(q) == FlatAfter(BootCalls(b), q)
    ensures forall va: nat :: Translates(b, va, Translate(t.ram.words, b.hhdm, b.pml4, va))
  {
    assert b.heapAddr >= b.hhdm;
    hide BootOk, Inv, Tree, TablesOwned, Walk, Translate, Translates, FlatAfter, BootCalls, OfLeaf, PageOf, LayoutOk;
    forall va: nat ensures Translates(b, va, Translate(t.ram.words, b.hhdm, b.pml4, va)) {
      TranslateIsLeaf(t.ram.words, t.nodes, b.pml4, b.hhdm, va);
      assert t.Entry(PageOf(va)) == FlatAfter(BootCalls(b), PageOf(va));
      FlatTranslates(b, va);
    }
  }

  lemma NoEntries(b: BootInfo)
    requires b.heapAddr >= b.hhdm
    ensures FirstCalls(b) + EntryCalls(b.hhdm, b.memmap[..0]) == FirstCalls(b)
  {}

  lemma AllEntries(b: BootInfo)
    requires b.heapAddr >= b.hhdm
    ensures FirstCalls(b) + EntryCalls(b.hhdm, b.memmap[..|b.memmap|]) == BootCalls(b)
  {
    assert b.memmap[..|b.memmap|] == b.memmap;
  }

  lemma ReachedMeans(t: PageTables, calls: seq<Mapping>, goal: set<Node>)
    requires Reached(t, calls, goal)
    ensures t.Valid() && (forall q: PageNumber :: t.Entry(q) == FlatAfter(calls, q))
    ensures t.nodes.Keys == NeededAll(calls) + {ROOT} && |t.heap.grants| + 1 == |t.nodes|
  {}
}
