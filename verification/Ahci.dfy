/** The command table an AHCI port fills for one DMA transfer: scatter entries (PRDT) and the
    register FIS. The device's reading of the table follows AHCI 1.3.1 section 4.2.3.3 and the
    48-bit ATA commands. */
module Ahci {
  import opened Widths

  const TWO22: nat := 0x40_0000
  const TWO48: nat := 0x1_0000_0000_0000

  const CHUNK: nat := 8192
  const MAX_PRDT_SIZE: nat := 8

  /** The last reserved bytes of the command table lie where entry -1 would. */
  const BEFORE: nat := 1

  datatype Entry = Entry(base: U32, upper: U32, byteCount: nat, interrupt: bool)
  const NO_ENTRY: Entry := Entry(0, 0, 0, false)

  datatype Header = Header(fisLength: nat, write: bool, prefetchable: bool, clear: bool, prdLength: nat)

  datatype Fis = Fis(kind: nat, commandControl: nat, command: nat, device: nat,
                     lba0: nat, lba1: nat, lba2: nat, lba3: nat, lba4: nat, lba5: nat,
                     countLo: nat, countHi: nat)

  /** `static_cast<uint16_t>(q) + 1`, stored in 16 bits. */
  function Truncated(q: nat): nat {
    (q % TWO16 + 1) % TWO16
  }

  /** A request. `buffer` is a virtual address, `hhdm` the direct-map offset. */
  datatype Request = Request(write: bool, start: nat, count: U32, buffer: nat, sectorSize: nat,
                             hhdm: nat, wide: bool)
  {
    predicate Sane() {
      && start < TWO64
      && 1 <= sectorSize <= CHUNK
      && hhdm <= buffer && buffer + MAX_PRDT_SIZE * CHUNK <= TWO64
    }

    function PerEntry(): nat
      requires Sane()
      ensures PerEntry() >= 1
    {
      CHUNK / sectorSize
    }

    function PrdLength(): nat
      requires Sane()
    {
      Truncated((count - 1) % TWO32 / PerEntry())
    }

    predicate Accepted()
      requires Sane()
    {
      PrdLength() <= MAX_PRDT_SIZE
    }

    function Physical(): nat
      requires Sane()
    {
      buffer - hhdm
    }
  }

  // ----- what the device reads -----

  function Address(e: Entry): nat {
    e.base + TWO32 * e.upper
  }

  function Bytes(e: Entry): nat {
    e.byteCount + 1
  }

  /** The entries name consecutive chunks of memory from `at` on. */
  predicate Tiles(es: seq<Entry>, at: nat) {
    |es| == 0 || (Address(es[0]) == at && Tiles(es[1..], at + Bytes(es[0])))
  }

  function TotalBytes(es: seq<Entry>): nat {
    if |es| == 0 then 0 else Bytes(es[0]) + TotalBytes(es[1..])
  }

  function Lba(f: Fis): nat {
    f.lba0 + 0x100 * f.lba1 + 0x1_0000 * f.lba2 + 0x100_0000 * f.lba3 + 0x1_0000_0000 * f.lba4
    + 0x100_0000_0000 * f.lba5
  }

  /** A zero count field asks for 65536 sectors. */
  function Sectors(f: Fis): nat {
    var n := f.countLo + 0x100 * f.countHi;
    if n == 0 then TWO16 else n
  }

  /** What a command byte makes the device do. */
  datatype Direction = FromDevice | ToDevice | Other

  function DirectionOf(f: Fis): Direction {
    if f.command == 0x25 then FromDevice  // READ DMA EXT
    else if f.command == 0x35 then ToDevice  // WRITE DMA EXT
    else Other
  }

  /** A host-to-device register FIS that carries a command and addresses blocks by LBA. */
  predicate IsBlockCommand(f: Fis) {
    f.kind == 0x27 && f.commandControl == 1 && f.device / 0x40 % 2 == 1
  }

  /** The device, following the header, the announced entries and the FIS, moves exactly the requested
      sectors between the disk and the buffer, in the requested direction. */
  predicate Performs(h: Header, es: seq<Entry>, f: Fis, r: Request)
    requires r.Sane()
  {
    && IsBlockCommand(f)
    && DirectionOf(f) == (if r.write then ToDevice else FromDevice)
    && h.write == r.write && h.fisLength == 5 && h.prdLength == |es|
    && Tiles(es, r.buffer - r.hhdm)
    && TotalBytes(es) == r.count * r.sectorSize
    && (forall e :: e in es ==> 1 <= Bytes(e) <= 8192)
    && Lba(f) == r.start
    && Sectors(f) == r.count
  }

  /** Requests the driver can carry out: they fit eight entries, full entries hold whole sectors or one
      entry is enough, a 32-bit controller reaches the last chunk, and the LBA has 48 bits. */
  predicate Servable(r: Request)
    requires r.Sane()
  {
    var per := 8192 / r.sectorSize;
    && 1 <= r.count <= 8 * per
    && (8192 % r.sectorSize == 0 || r.count <= per)
    && (r.wide || r.buffer - r.hhdm + 8192 * ((r.count - 1) / per) < TWO32)
    && r.start < TWO48
  }

  // ----- what the driver writes -----

  function HeaderOf(r: Request): Header
    requires r.Sane()
  {
    Header(5, r.write, !r.write, true, r.PrdLength())
  }

  function Split(address: nat, wide: bool, byteCount: nat): Entry {
    Entry(address % TWO32, if wide then address / TWO32 % TWO32 else 0, byteCount % TWO22, true)
  }

  /** Sectors left for the last of n entries, and its size field. */
  function LastCount(r: Request, n: nat): nat
    requires r.Sane()
  {
    var left := (r.count - (n - 1) * r.PerEntry()) % TWO32;
    (left * r.sectorSize - 1) % TWO32
  }

  /** Entry i of a table of n. */
  function EntryAt(r: Request, n: nat, i: int): Entry
    requires r.Sane()
  {
    if n - 1 == i || (n == 0 && i == -1) then
      Split(r.Physical() + (if n == 0 then 0 else CHUNK * (n - 1)), r.wide,
            LastCount(r, if n == 0 then 1 else n))
    else if 0 <= i < n then
      Split(r.Physical() + CHUNK * i, r.wide, CHUNK - 1)
    else
      NO_ENTRY
  }

  /** The n entries the header announces. */
  function Entries(r: Request, n: nat): (es: seq<Entry>)
    requires r.Sane()
    ensures |es| == n
  {
    seq(n, i requires 0 <= i < n => EntryAt(r, n, i))
  }

  function FisOf(r: Request): Fis
    requires r.Sane()
  {
    var lo, hi := r.start % TWO32, r.start / TWO32;
    Fis(0x27, 1, if r.write then 0x35 else 0x25, 0x40,
        lo % 256, lo / 0x100 % 256, lo / 0x1_0000 % 256, lo / 0x100_0000 % 256, hi % 256, hi / 0x100 % 256,
        r.count % 256, r.count / 0x100 % 256)
  }

  // ----- reading back what was written -----

  /** Every entry names its 8192-byte chunk exactly. */
  predicate AddressesExact(r: Request, n: nat)
    requires r.Sane()
  {
    forall i {:trigger EntryAt(r, n, i)} :: 0 <= i < n ==> Address(EntryAt(r, n, i)) == r.Physical() + CHUNK * i
  }

  lemma SplitAddress(a: nat, wide: bool, byteCount: nat)
    requires a < TWO64
    ensures Address(Split(a, wide, byteCount)) == a <==> wide || a < TWO32
  {}

  /** A 32-bit controller reaches every chunk if and only if the last one starts below 4 GiB. */
  lemma AddressesExactIff(r: Request, n: nat)
    requires r.Sane() && 1 <= n <= MAX_PRDT_SIZE
    ensures AddressesExact(r, n) <==> r.wide || r.Physical() + CHUNK * (n - 1) < TWO32
  {
    forall i | 0 <= i < n
      ensures Address(EntryAt(r, n, i)) == r.Physical() + CHUNK * i <==> r.wide || r.Physical() + CHUNK * i < TWO32
    {
      EntryNames(r, n, i);
    }
    var last := EntryAt(r, n, n - 1);
  }

  lemma EntryNames(r: Request, n: nat, i: nat)
    requires r.Sane() && i < n <= MAX_PRDT_SIZE
    ensures Address(EntryAt(r, n, i)) == r.Physical() + CHUNK * i <==> r.wide || r.Physical() + CHUNK * i < TWO32
  {
    hide Split, Address, LastCount;
    SplitAddress(r.Physical() + CHUNK * i, r.wide, CHUNK - 1);
    SplitAddress(r.Physical() + CHUNK * i, r.wide, LastCount(r, n));
  }

  lemma ChunkBytes(r: Request, n: nat, i: nat)
    requires r.Sane() && i + 1 < n
    ensures Bytes(EntryAt(r, n, i)) == CHUNK
  {}

  /** Full chunks, then the last entry. */
  lemma {:induction false} TotalFrom(r: Request, n: nat, i: nat)
    requires r.Sane() && i < n
    ensures TotalBytes(Entries(r, n)[i..]) == CHUNK * (n - 1 - i) + Bytes(EntryAt(r, n, n - 1))
    decreases n - i
  {
    hide EntryAt;
    var es := Entries(r, n)[i..];
    assert es[0] == EntryAt(r, n, i) && es[1..] == Entries(r, n)[i + 1..];
    hide Entries;
    if i + 1 < n {
      ChunkBytes(r, n, i);
      TotalFrom(r, n, i + 1);
    }
  }

  lemma {:induction false} TilesFrom(r: Request, n: nat, i: nat)
    requires r.Sane() && i <= n
    ensures Tiles(Entries(r, n)[i..], r.Physical() + CHUNK * i) <==>
      forall j {:trigger EntryAt(r, n, j)} :: i <= j < n ==> Address(EntryAt(r, n, j)) == r.Physical() + CHUNK * j
    decreases n - i
  {
    hide EntryAt, Address;
    if i < n {
      var es := Entries(r, n)[i..];
      assert es[0] == EntryAt(r, n, i) && es[1..] == Entries(r, n)[i + 1..];
      hide Entries;
      if i + 1 < n {
        ChunkBytes(r, n, i);
        TilesFrom(r, n, i + 1);
      }
    }
  }

  // ----- when a request is described exactly -----

  /** The request is carried out exactly. */
  predicate Faithful(r: Request)
    requires r.Sane()
  {
    Performs(HeaderOf(r), Entries(r, r.PrdLength()), FisOf(r), r)
  }

  /** The count fits eight entries, before any truncation. */
  predicate Fits(r: Request)
    requires r.Sane()
  {
    1 <= r.count <= MAX_PRDT_SIZE * r.PerEntry()
  }

  lemma FullEntry(s: nat)
    requires 1 <= s <= CHUNK
    ensures 1 <= CHUNK / s && CHUNK / 2 < CHUNK / s * s <= CHUNK
    ensures CHUNK / s * s == CHUNK <==> CHUNK % s == 0
    ensures CHUNK / s <= CHUNK
  {
    assert CHUNK == CHUNK / s * s + CHUNK % s;
    AtLeastOnce(CHUNK / s, s);
  }

  lemma AtLeastOnce(q: nat, s: nat)
    requires q >= 1
    ensures q * s >= s && q * s >= q * 0
    ensures s >= 1 ==> q * s >= q
  {}

  lemma Quotient(c: nat, p: nat)
    requires p >= 1 && c >= 1
    ensures var q := (c - 1) / p; q * p < c <= q * p + p
  {
    var q := (c - 1) / p;
    assert c - 1 == q * p + (c - 1) % p;
  }

  lemma Bracket(c: nat, p: nat, q: nat, k: nat)
    requires q * p < c <= q * p + p && p >= 1
    ensures c <= k * p <==> q < k
  {
    if q < k {
      Scale(q + 1, k, p);
      assert (q + 1) * p == q * p + p;
    } else {
      Scale(k, q, p);
    }
  }

  lemma Scale(x: nat, y: nat, p: nat)
    requires x <= y
    ensures x * p <= y * p
  {
    assert y * p == x * p + (y - x) * p;
  }

  lemma TruncatedIs(q: nat)
    ensures q < MAX_PRDT_SIZE ==> Truncated(q) == q + 1
    ensures q >= MAX_PRDT_SIZE && Truncated(q) <= MAX_PRDT_SIZE ==> q >= 65535
  {}

  predicate Covers(n: nat, count: nat, p: nat) {
    1 <= n && (n - 1) * p < count <= n * p
  }

  /** Among accepted requests, those that fit are the ones whose entry count was not truncated. */
  lemma LengthOfFitting(r: Request)
    requires r.Sane() && r.count >= 1
    ensures r.Accepted() ==>
      if Fits(r) then Covers(r.PrdLength(), r.count, r.PerEntry()) else r.count > 65535 * r.PerEntry()
  {
    LengthIs(r);
    hide Request.PrdLength, Request.PerEntry, Truncated, Covers;
    if r.Accepted() {
      FittingLength(r.count, r.PerEntry());
    }
  }

  lemma LengthIs(r: Request)
    requires r.Sane() && r.count >= 1
    ensures r.PrdLength() == Truncated((r.count - 1) / r.PerEntry())
  {
    hide Truncated, Request.PerEntry;
    SmallMod(r.count - 1);
  }

  lemma FittingLength(c: nat, p: nat)
    requires c >= 1 && p >= 1 && Truncated((c - 1) / p) <= MAX_PRDT_SIZE
    ensures if c <= MAX_PRDT_SIZE * p then Covers(Truncated((c - 1) / p), c, p) else c > 65535 * p
  {
    hide Truncated;
    var q := (c - 1) / p;
    Quotient(c, p);
    TruncatedIs(q);
    Bracket(c, p, q, MAX_PRDT_SIZE);
    Bracket(c, p, q, 65535);
    Bracket(c, p, q, q + 1);
  }

  /** The last of n entries that cover the count holds the remaining sectors. */
  lemma LastEntry(r: Request, n: nat)
    requires r.Sane() && Covers(n, r.count, r.PerEntry())
    ensures Bytes(EntryAt(r, n, n - 1)) == (r.count - (n - 1) * r.PerEntry()) * r.sectorSize
    ensures 1 <= Bytes(EntryAt(r, n, n - 1)) <= CHUNK
  {
    hide Request.PerEntry, LastCount;
    assert Bytes(EntryAt(r, n, n - 1)) == LastCount(r, n) % TWO22 + 1;
    LastCountIs(r, n);
    FullEntry(r.sectorSize);
    PerEntryIs(r);
    hide EntryAt;
    LastBytes(n, r.count, r.PerEntry(), r.sectorSize);
  }

  lemma PerEntryIs(r: Request)
    requires r.Sane()
    ensures r.PerEntry() == CHUNK / r.sectorSize
  {}

  lemma LastBytes(n: nat, count: nat, p: nat, s: nat)
    requires Covers(n, count, p) && s >= 1 && p * s <= CHUNK && count < TWO32
    ensures var left := (count - (n - 1) * p) % TWO32;
      && (left * s - 1) % TWO32 % TWO22 + 1 == (count - (n - 1) * p) * s
      && 1 <= (count - (n - 1) * p) * s <= CHUNK
  {
    var left := count - (n - 1) * p;
    assert n * p == (n - 1) * p + p;
    Between(left, p, s);
    assert 0 <= (n - 1) * p;
    SmallMod(left);
    SmallMod(left * s - 1);
  }

  lemma Between(left: nat, p: nat, s: nat)
    requires 1 <= left <= p && s >= 1
    ensures 1 <= left * s <= p * s
  {
    assert (p - left) * s >= 0;
  }

  lemma TotalOfFitting(count: nat, n: nat, p: nat, s: nat)
    requires Covers(n, count, p) && p >= 1 && p * s <= CHUNK
    ensures CHUNK * (n - 1) + (count - (n - 1) * p) * s == count * s <==> p * s == CHUNK || count <= p
  {
    var m := n - 1;
    var left := count - m * p;
    Distribute(m, p, left, s);
    SameMultiple(m, p * s);
    if m > 0 {
      Scale(1, m, p);
    } else {
      assert n * p == p;
    }
  }

  lemma Distribute(m: nat, p: nat, left: nat, s: nat)
    ensures (m * p + left) * s == m * (p * s) + left * s
  {}

  lemma SameMultiple(m: nat, full: nat)
    requires full <= CHUNK
    ensures CHUNK * m == m * full <==> m == 0 || full == CHUNK
  {
    if m > 0 && full < CHUNK {
      Scale(1, m, CHUNK - full);
      assert m * (CHUNK - full) == CHUNK * m - m * full;
    }
  }

  /** A request that slipped past the size check asks for far more than the table describes. */
  lemma TooLarge(r: Request)
    requires r.Sane() && r.count >= 1
    ensures r.Accepted() && !Fits(r) ==> TotalBytes(Entries(r, r.PrdLength())) < r.count * r.sectorSize
  {
    hide Request.PerEntry, Request.PrdLength, Fits;
    LengthOfFitting(r);
    FullEntry(r.sectorSize);
    PerEntryIs(r);
    if r.Accepted() && !Fits(r) {
      AtLeast(r.count, r.PerEntry(), r.sectorSize);
      TotalAtMost(r, r.PrdLength());
    }
  }

  lemma TotalAtMost(r: Request, n: nat)
    requires r.Sane() && n <= MAX_PRDT_SIZE
    ensures TotalBytes(Entries(r, n)) <= CHUNK * 7 + TWO22
  {
    if n >= 1 {
      TotalFrom(r, n, 0);
      assert Entries(r, n)[0..] == Entries(r, n);
      assert Bytes(EntryAt(r, n, n - 1)) <= TWO22;
    } else {
      assert Entries(r, n) == [];
    }
  }

  lemma AtLeast(count: nat, p: nat, s: nat)
    requires count > 65535 * p && p * s > 4096
    ensures count * s > 65535 * 4096
  {
    Scale(65535 * p, count, s);
    assert 65535 * p * s == 65535 * (p * s);
  }

  lemma FisFields(r: Request)
    requires r.Sane()
    ensures Lba(FisOf(r)) == r.start <==> r.start < TWO48
    ensures Sectors(FisOf(r)) == r.count <==> 1 <= r.count <= TWO16
  {
    Lba48(r.start % TWO32, r.start / TWO32);
    TwoOctets(r.count);
  }

  lemma TwoOctets(x: nat)
    ensures x % 0x100 + 0x100 * (x / 0x100 % 0x100) == x % TWO16
  {}

  lemma Lba48(lo: nat, hi: nat)
    requires lo < TWO32 && hi < TWO32
    ensures lo % 256 + 0x100 * (lo / 0x100 % 256)
      + 0x1_0000 * (lo / 0x1_0000 % 256) + 0x100_0000 * (lo / 0x100_0000 % 256) == lo
    ensures hi % 256 + 0x100 * (hi / 0x100 % 256) == hi <==> hi < TWO16
  {}

  lemma FisCommand(r: Request)
    requires r.Sane()
    ensures IsBlockCommand(FisOf(r)) && DirectionOf(FisOf(r)) == (if r.write then ToDevice else FromDevice)
  {}

  lemma FisReads(f: Fis, r: Request)
    requires r.Sane() && f == FisOf(r)
    ensures IsBlockCommand(f) && DirectionOf(f) == (if r.write then ToDevice else FromDevice)
    ensures Lba(f) == r.start <==> r.start < TWO48
    ensures Sectors(f) == r.count <==> 1 <= r.count <= TWO16
  {
    FisFields(r);
    FisCommand(r);
    hide *;
  }

  /** An accepted request is carried out exactly if and only if it is servable. */
  lemma FaithfulIff(r: Request)
    requires r.Sane()
    ensures r.Accepted() ==> (Faithful(r) <==> Servable(r))
  {
    hide Request.PrdLength, Request.PerEntry, Tiles, TotalBytes, Lba, Sectors, FisOf, Entries, Covers,
      IsBlockCommand, DirectionOf;
    FisFields(r);
    FisCommand(r);
    PerEntryIs(r);
    if r.count >= 1 {
      TooLarge(r);
      LengthOfFitting(r);
      LengthIs(r);
    }
    if r.Accepted() && Fits(r) {
      FullEntry(r.sectorSize);
      CoveringTable(r, r.PrdLength());
      LastIndex(r);
    }
  }

  /** The last entry of a fitting request is the one that holds its last sector. */
  lemma LastIndex(r: Request)
    requires r.Sane() && Fits(r)
    ensures r.Accepted() && r.PrdLength() - 1 == (r.count - 1) / r.PerEntry()
  {
    hide Request.PrdLength, Request.PerEntry, Truncated;
    LengthIs(r);
    var q := (r.count - 1) / r.PerEntry();
    Quotient(r.count, r.PerEntry());
    Bracket(r.count, r.PerEntry(), q, MAX_PRDT_SIZE);
    TruncatedIs(q);
  }

  /** No servable request is refused. */
  lemma ServableAccepted(r: Request)
    requires r.Sane() && Servable(r)
    ensures r.Accepted()
  {
    PerEntryIs(r);
    LastIndex(r);
  }

  /** A table whose entries cover the count describes it exactly when full entries hold whole
      sectors, or one suffices, and the addresses fit. */
  lemma CoveringTable(r: Request, n: nat)
    requires r.Sane() && n <= MAX_PRDT_SIZE && Covers(n, r.count, r.PerEntry())
    ensures var es := Entries(r, n);
      && n >= 1
      && (Tiles(es, r.Physical()) <==> r.wide || r.Physical() + CHUNK * (n - 1) < TWO32)
      && (TotalBytes(es) == r.count * r.sectorSize <==> CHUNK % r.sectorSize == 0 || r.count <= r.PerEntry())
      && (forall e :: e in es ==> 1 <= Bytes(e) <= CHUNK)
  {
    hide Request.PerEntry, EntryAt, LastCount, Tiles, TotalBytes;
    assert n >= 1;
    LastEntry(r, n);
    TotalFrom(r, n, 0);
    TilesFrom(r, n, 0);
    AddressesExactIff(r, n);
    assert Entries(r, n)[0..] == Entries(r, n);
    FullEntry(r.sectorSize);
    PerEntryIs(r);
    TotalOfFitting(r.count, n, r.PerEntry(), r.sectorSize);
    hide Covers;
    forall e | e in Entries(r, n) ensures 1 <= Bytes(e) <= CHUNK {
      var i :| 0 <= i < n && e == EntryAt(r, n, i);
      if i + 1 < n {
        ChunkBytes(r, n, i);
      }
    }
  }

  /** The size check truncates: this request for 512 MiB and one sector is accepted
      with a single entry. */
  lemma HugeCountAccepted()
    ensures var r := Request(false, 0, 16 * TWO16 + 1, 0, 512, 0, true);
      r.Sane() && r.Accepted() && r.PrdLength() == 1 && !Faithful(r)
  {
    FaithfulIff(Request(false, 0, 16 * TWO16 + 1, 0, 512, 0, true));
  }

  /** A count of zero wraps: with 512-byte sectors it is accepted with no entry announced and
      one written before the table. */
  lemma ZeroCountAccepted(r: Request)
    requires r.Sane() && r.count == 0 && r.sectorSize == 512
    ensures r.Accepted() && r.PrdLength() == 0
    ensures Bytes(EntryAt(r, 0, -1)) == TWO22 && EntryAt(r, 0, -1).interrupt
    ensures !Faithful(r)
  {
    assert r.PerEntry() == 16;
    assert (r.count - 1) % TWO32 == 0xFFFF_FFFF;
    assert LastCount(r, 1) == 0xFFFF_FFFF;
    FaithfulIff(r);
  }

  // ----- the driver -----

  class CommandSlot {
    var header: Header
    /** prdt[i + BEFORE] is entry i. */
    const prdt: array<Entry>
    var fis: Fis

    predicate Valid()
      reads this
    {
      prdt.Length == MAX_PRDT_SIZE + BEFORE
    }

    constructor ()
      ensures Valid() && fresh(prdt)
    {
      header := Header(0, false, false, false, 0);
      prdt := new Entry[MAX_PRDT_SIZE + BEFORE](_ => NO_ENTRY);
      fis := Fis(0, 0, 0, 0, 0, 0, 0, 0, 0, 0, 0, 0);
    }

    /** `read` and `write` from the header to the FIS, once a slot is found. */
    method Prepare(r: Request) returns (accepted: bool)
      requires Valid() && r.Sane()
      modifies this, prdt
      ensures accepted == r.Accepted()
      ensures Servable(r) ==> accepted
      ensures accepted ==>
        && header.prdLength <= MAX_PRDT_SIZE
        && (Performs(header, prdt[BEFORE..BEFORE + header.prdLength], fis, r) <==> Servable(r))
      ensures header == Header(5, r.write, !r.write, true, r.PrdLength())
      ensures accepted ==> fis == FisOf(r)
      ensures accepted ==>
        prdt[..] == seq(MAX_PRDT_SIZE + BEFORE, k requires 0 <= k => EntryAt(r, r.PrdLength(), k - BEFORE))
      ensures accepted ==> prdt[BEFORE..BEFORE + r.PrdLength()] == Entries(r, r.PrdLength())
      ensures !accepted ==> prdt[..] == old(prdt[..]) && fis == old(fis)
    {
      hide EntryAt, FisOf, Entries, Truncated, Servable, Performs;
      if Servable(r) {
        ServableAccepted(r);
      }
      var perEntry := CHUNK / r.sectorSize;
      var n := ((r.count - 1) % TWO32 / perEntry % TWO16 + 1) % TWO16;
      LengthComputed(r);
      hide Request.PrdLength, Request.Physical;
      header := Header(5, r.write, !r.write, true, n);
      if n > MAX_PRDT_SIZE {
        return false;
      }
      Zero();
      FillEntries(r, perEntry, n);
      FillFis(r);
      Announced(r, n, prdt[..]);
      FaithfulIff(r);
      return true;
    }

    /** The scatter loop and the last entry. */
    method FillEntries(r: Request, perEntry: nat, n: nat)
      requires Valid() && r.Sane() && perEntry == r.PerEntry() && n <= MAX_PRDT_SIZE
      requires forall k :: 0 <= k < prdt.Length ==> prdt[k] == NO_ENTRY
      modifies prdt
      ensures forall k :: 0 <= k < prdt.Length ==> prdt[k] == EntryAt(r, n, k - BEFORE)
    {
      hide Split, LastCount, Request.PerEntry;
      var buffer, count := r.buffer, r.count as nat;
      var i := 0;
      while i < n - 1
        invariant 0 <= i && (n >= 1 ==> i <= n - 1) && (n == 0 ==> i == 0)
        invariant buffer == r.buffer + CHUNK * i
        invariant count == (r.count - i * perEntry) % TWO32
        invariant forall k :: 0 <= k < prdt.Length ==>
          prdt[k] == if BEFORE <= k < i + BEFORE then EntryAt(r, n, k - BEFORE) else NO_ENTRY
      {
        prdt[i + BEFORE] := Split(buffer - r.hhdm, r.wide, CHUNK - 1);
        buffer := buffer + CHUNK;
        CountDown(r.count, i, perEntry);
        count := (count - perEntry) % TWO32;
        i := i + 1;
      }
      LastCountIs(r, i + 1);
      assert EntryAt(r, n, n - 1) == Split(buffer - r.hhdm, r.wide, (count * r.sectorSize - 1) % TWO32);
      prdt[n - 1 + BEFORE] := Split(buffer - r.hhdm, r.wide, (count * r.sectorSize - 1) % TWO32);
    }

    /** The register FIS. */
    method FillFis(r: Request)
      requires r.Sane()
      modifies this`fis
      ensures fis == FisOf(r)
      ensures IsBlockCommand(fis) && DirectionOf(fis) == (if r.write then ToDevice else FromDevice)
      ensures Lba(fis) == r.start <==> r.start < TWO48
      ensures Sectors(fis) == r.count <==> 1 <= r.count <= TWO16
    {
      hide Lba, Sectors, IsBlockCommand, DirectionOf;
      var lo, hi := r.start % TWO32, r.start / TWO32 % TWO32;
      fis := Fis(0x27, 1, if r.write then 0x35 else 0x25, 0x40,
                 lo % 256, lo / 0x100 % 256, lo / 0x1_0000 % 256,
                 lo / 0x100_0000 % 256, hi % 256, hi / 0x100 % 256,
                 r.count % 256, r.count / 0x100 % 256);
      FisReads(fis, r);
    }

    method Zero()
      requires Valid()
      modifies prdt
      ensures forall k :: 0 <= k < prdt.Length ==> prdt[k] == NO_ENTRY
    {
      for k := 0 to prdt.Length
        invariant forall j :: 0 <= j < k ==> prdt[j] == NO_ENTRY
      {
        prdt[k] := NO_ENTRY;
      }
    }
  }

  lemma LengthComputed(r: Request)
    requires r.Sane()
    ensures r.PrdLength() == ((r.count - 1) % TWO32 / r.PerEntry() % TWO16 + 1) % TWO16
  {
    hide Request.PerEntry;
  }

  /** The first entries after the spare one are those the header announces. */
  lemma Announced(r: Request, n: nat, table: seq<Entry>)
    requires r.Sane() && n <= MAX_PRDT_SIZE && |table| == MAX_PRDT_SIZE + BEFORE
    requires forall k :: 0 <= k < |table| ==> table[k] == EntryAt(r, n, k - BEFORE)
    ensures table[BEFORE..BEFORE + n] == Entries(r, n)
    ensures table == seq(MAX_PRDT_SIZE + BEFORE, k requires 0 <= k => EntryAt(r, n, k - BEFORE))
  {
    hide EntryAt;
  }

  lemma CountDown(count: nat, i: nat, p: nat)
    ensures ((count - i * p) % TWO32 - p) % TWO32 == (count - (i + 1) * p) % TWO32
  {
    assert (i + 1) * p == i * p + p;
    WrapMinus(count - i * p, p);
  }

  lemma WrapMinus(a: int, p: int)
    ensures (a % TWO32 - p) % TWO32 == (a - p) % TWO32
  {}

  lemma LastCountIs(r: Request, n: nat)
    requires r.Sane() && n >= 1
    ensures LastCount(r, n) == ((r.count - (n - 1) * r.PerEntry()) % TWO32 * r.sectorSize - 1) % TWO32
  {}
}
