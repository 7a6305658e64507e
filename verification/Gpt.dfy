/** Validation of a GUID partition table header and its entry array (section 5.3.2 of the
    UEFI specification). */
module Gpt {
  import opened Crc
  import CrcPolynomial

  const HEADER_BYTES: nat := 92  // sizeof(gpt_header)
  const SIZE_AT: nat := 12
  const CHECKSUM_AT: nat := 16
  const LBA_AT: nat := 24
  const COUNT_AT: nat := 80
  const ENTRY_SIZE_AT: nat := 84
  const ENTRIES_CHECKSUM_AT: nat := 88

  /** "EFI PART". */
  const SIGNATURE: seq<Byte> := [0x45, 0x46, 0x49, 0x20, 0x50, 0x41, 0x52, 0x54]
  const LBA_ONE: seq<Byte> := [1, 0, 0, 0, 0, 0, 0, 0]

  /** A little-endian u32 field. */
  function Field(h: seq<Byte>, at: nat): bv32
    requires at + 4 <= |h|
  {
    Word32(h[at..at + 4])
  }

  function HeaderSize(h: seq<Byte>): nat
    requires |h| == HEADER_BYTES
  {
    Field(h, SIZE_AT) as nat
  }

  /** `header_copy` with its checksum field cleared. */
  function Cleared(h: seq<Byte>): seq<Byte>
    requires |h| == HEADER_BYTES
  {
    h[..CHECKSUM_AT] + [0, 0, 0, 0] + h[CHECKSUM_AT + 4..]
  }

  /** Headers whose own size field stays within the structure that is copied. */
  predicate Copied(h: seq<Byte>) {
    |h| == HEADER_BYTES && HeaderSize(h) <= HEADER_BYTES
  }

  predicate ChecksumMatches(h: seq<Byte>)
    requires Copied(h)
  {
    Crc32(Cleared(h)[..HeaderSize(h)]) == Field(h, CHECKSUM_AT)
  }

  /** What `validate_gpt` accepts. */
  predicate ValidHeader(h: seq<Byte>)
    requires Copied(h)
  {
    && h[..8] == SIGNATURE
    && ChecksumMatches(h)
    && h[LBA_AT..LBA_AT + 8] == LBA_ONE
  }

  /** `validate_gpt`. */
  method ValidateGpt(header: seq<Byte>) returns (ok: bool)
    requires Copied(header)
    ensures ok == ValidHeader(header)
  {
    hide Crc32, Word32;
    if header[..8] != SIGNATURE {
      return false;
    }
    var copy := header[..CHECKSUM_AT] + [0, 0, 0, 0] + header[CHECKSUM_AT + 4..];
    var computed := CrcPolynomial.ComputeCrc32(copy[..HeaderSize(header)]);
    if computed != Field(header, CHECKSUM_AT) {
      return false;
    }
    if header[LBA_AT..LBA_AT + 8] != LBA_ONE {
      return false;
    }
    return true;
  }

  /** g and h agree outside the four bytes from i. */
  predicate DifferWithin(h: seq<Byte>, g: seq<Byte>, i: nat)
  {
    |h| == |g| && forall j :: 0 <= j < |h| && !(i <= j < i + 4) ==> h[j] == g[j]
  }

  predicate SameChecksumField(h: seq<Byte>, g: seq<Byte>)
    requires |h| == |g| == HEADER_BYTES
  {
    h[CHECKSUM_AT..CHECKSUM_AT + 4] == g[CHECKSUM_AT..CHECKSUM_AT + 4]
  }

  /** Equal-length data that agree outside four bytes have equal CRCs only if equal. */
  lemma WindowDetected(a: seq<Byte>, b: seq<Byte>, i: nat)
    requires DifferWithin(a, b, i)
    ensures Crc32(a) == Crc32(b) <==> a == b
  {
    if i < |a| {
      var e := if i + 4 <= |a| then i + 4 else |a|;
      assert a == a[..i] + a[i..e] + a[e..];
      assert b == a[..i] + b[i..e] + a[e..];
      BurstDetected(a[..i], a[i..e], b[i..e], a[e..]);
    } else {
      assert a == b;
    }
  }

  /** A change of up to four consecutive bytes to a valid header, outside the size field and
      not straddling the checksum field, is accepted only if it lies beyond the bytes the
      header declares and leaves the checksum alone. */
  lemma HeaderBurstRejected(h: seq<Byte>, g: seq<Byte>, i: nat)
    requires Copied(h) && Copied(g) && ValidHeader(h) && DifferWithin(h, g, i)
    requires HeaderSize(g) == HeaderSize(h)
    requires SameChecksumField(h, g) || Cleared(h) == Cleared(g)
    ensures ChecksumMatches(g) <==>
      SameChecksumField(h, g) && Cleared(g)[..HeaderSize(h)] == Cleared(h)[..HeaderSize(h)]
    ensures ValidHeader(g) ==> SameChecksumField(h, g) && Cleared(g)[..HeaderSize(h)] == Cleared(h)[..HeaderSize(h)]
  {
    hide Crc32, Word32;
    Word32Injective(h[CHECKSUM_AT..CHECKSUM_AT + 4], g[CHECKSUM_AT..CHECKSUM_AT + 4]);
    if SameChecksumField(h, g) {
      var n := HeaderSize(h);
      assert DifferWithin(Cleared(h)[..n], Cleared(g)[..n], i);
      WindowDetected(Cleared(h)[..n], Cleared(g)[..n], i);
    }
  }

  // ----- the entry array -----

  /** `header->partition_entry_size * header->partition_entry_count` in 32 bits. */
  function ArraySize(h: seq<Byte>): nat
    requires |h| == HEADER_BYTES
  {
    (Field(h, ENTRY_SIZE_AT) as nat * Field(h, COUNT_AT) as nat) % 0x1_0000_0000
  }

  predicate ValidEntries(h: seq<Byte>, entries: seq<Byte>)
    requires |h| == HEADER_BYTES && ArraySize(h) <= |entries|
  {
    Crc32(entries[..ArraySize(h)]) == Field(h, ENTRIES_CHECKSUM_AT)
  }

  /** `validate_gpt_partition_entries`. */
  method ValidateEntries(header: seq<Byte>, entries: seq<Byte>) returns (ok: bool)
    requires |header| == HEADER_BYTES && ArraySize(header) <= |entries|
    ensures ok == ValidEntries(header, entries)
  {
    hide Crc32, Word32;
    var computed := CrcPolynomial.ComputeCrc32(entries[..ArraySize(header)]);
    return computed == Field(header, ENTRIES_CHECKSUM_AT);
  }

  /** Any change within four consecutive bytes of a valid entry array is rejected. */
  lemma EntriesBurstRejected(h: seq<Byte>, a: seq<Byte>, b: seq<Byte>, i: nat)
    requires |h| == HEADER_BYTES && ArraySize(h) <= |a| && ValidEntries(h, a) && DifferWithin(a, b, i)
    ensures ValidEntries(h, b) <==> a[..ArraySize(h)] == b[..ArraySize(h)]
  {
    hide Crc32, Word32;
    var n := ArraySize(h);
    assert DifferWithin(a[..n], b[..n], i);
    WindowDetected(a[..n], b[..n], i);
  }

  // ----- the packed structure -----

  /** `gpt_header`, its two byte arrays as they are. */
  datatype Header = Header(
    signature: seq<Byte>, revision: bv32, size: bv32, checksum: bv32, reserved: bv32,
    lba: bv64, lbaAlternate: bv64, firstUsable: bv64, lastUsable: bv64,
    guid: seq<Byte>, entriesLba: bv64, entryCount: bv32, entrySize: bv32, entriesChecksum: bv32)

  predicate Sized(h: Header) {
    |h.signature| == 8 && |h.guid| == 16
  }

  /** A 32-bit field in memory, lowest byte first. */
  function Bytes4(v: bv32): (s: seq<Byte>)
    ensures |s| == 4
  {
    [(v & 0xFF) as Byte, ((v >> 8) & 0xFF) as Byte, ((v >> 16) & 0xFF) as Byte, ((v >> 24) & 0xFF) as Byte]
  }

  function Low32(v: bv64): bv32 {
    (v & 0xFFFF_FFFF) as bv32
  }

  function High32(v: bv64): bv32 {
    (v >> 32) as bv32
  }

  function Bytes8(v: bv64): (s: seq<Byte>)
    ensures |s| == 8
  {
    Bytes4(Low32(v)) + Bytes4(High32(v))
  }

  function Front(h: Header): seq<Byte> {
    h.signature + Bytes4(h.revision) + Bytes4(h.size)
  }

  function Blocks(h: Header): seq<Byte> {
    Bytes4(h.reserved) + Bytes8(h.lba) + Bytes8(h.lbaAlternate) + Bytes8(h.firstUsable) + Bytes8(h.lastUsable)
  }

  function Table(h: Header): seq<Byte> {
    h.guid + Bytes8(h.entriesLba) + Bytes4(h.entryCount) + Bytes4(h.entrySize) + Bytes4(h.entriesChecksum)
  }

  /** The bytes of a packed header, field after field. */
  function Encode(h: Header): seq<Byte> {
    Front(h) + Bytes4(h.checksum) + (Blocks(h) + Table(h))
  }

  lemma WordOfBytes(v: bv32)
    ensures Word32(Bytes4(v)) == v
  {
    var s := Bytes4(v);
    assert Word32(s) == Word4(s[0], s[1], s[2], s[3]);
    hide Word32;
    WordOfParts(v);
  }

  lemma WordOfParts(v: bv32)
    ensures Word4((v & 0xFF) as Byte, ((v >> 8) & 0xFF) as Byte,
                  ((v >> 16) & 0xFF) as Byte, ((v >> 24) & 0xFF) as Byte) == v
  {}

  lemma LbaOne(v: bv64)
    ensures Bytes8(v) == LBA_ONE <==> v == 1
  {
    var low, high := Low32(v), High32(v);
    assert LBA_ONE == [1, 0, 0, 0] + [0, 0, 0, 0];
    BytesOfOne();
    WordOfBytes(low);
    WordOfBytes(high);
    Halves(v);
    hide Bytes4, Low32, High32, Word32;
    if Bytes8(v) == LBA_ONE {
      assert Bytes4(low) == Bytes8(v)[..4] == [1, 0, 0, 0];
      assert Bytes4(high) == Bytes8(v)[4..] == [0, 0, 0, 0];
      WordOfBytes(1);
      WordOfBytes(0);
    }
  }

  lemma BytesOfOne()
    ensures Bytes4(1) == [1, 0, 0, 0] && Bytes4(0) == [0, 0, 0, 0]
  {}

  lemma Halves(v: bv64)
    ensures Low32(v) == 1 && High32(v) == 0 <==> v == 1
  {}

  lemma FrontIs(h: Header)
    requires Sized(h)
    ensures |Front(h)| == 16 && Front(h)[..8] == h.signature && Front(h)[12..16] == Bytes4(h.size)
  {
    hide Bytes4;
  }

  lemma BlocksAre(h: Header)
    ensures |Blocks(h)| == 36 && Blocks(h)[4..12] == Bytes8(h.lba)
  {
    hide Bytes4, Bytes8;
  }

  lemma TableIs(h: Header)
    requires Sized(h)
    ensures |Table(h)| == 36
    ensures Table(h)[24..28] == Bytes4(h.entryCount) && Table(h)[28..32] == Bytes4(h.entrySize)
    ensures Table(h)[32..36] == Bytes4(h.entriesChecksum)
  {
    hide Bytes4, Bytes8;
  }

  /** A slice of one of four concatenated pieces. */
  lemma SliceOfFour(a: seq<Byte>, b: seq<Byte>, c: seq<Byte>, d: seq<Byte>, i: nat, j: nat)
    requires i <= j
    ensures var s := a + b + (c + d);
      && (j <= |a| ==> s[i..j] == a[i..j])
      && (j <= |c| ==> s[|a| + |b| + i..|a| + |b| + j] == c[i..j])
      && (j <= |d| ==> s[|a| + |b| + |c| + i..|a| + |b| + |c| + j] == d[i..j])
      && s[|a|..|a| + |b|] == b
      && s[..|a|] == a && s[|a| + |b|..] == c + d
  {}

  /** Where the fields lie. */
  lemma Layout(h: Header)
    requires Sized(h)
    ensures var b := Encode(h);
      && |b| == HEADER_BYTES
      && b[..8] == h.signature
      && b[SIZE_AT..SIZE_AT + 4] == Bytes4(h.size)
      && b[CHECKSUM_AT..CHECKSUM_AT + 4] == Bytes4(h.checksum)
      && b[LBA_AT..LBA_AT + 8] == Bytes8(h.lba)
      && b[COUNT_AT..COUNT_AT + 4] == Bytes4(h.entryCount)
      && b[ENTRY_SIZE_AT..ENTRY_SIZE_AT + 4] == Bytes4(h.entrySize)
      && b[ENTRIES_CHECKSUM_AT..ENTRIES_CHECKSUM_AT + 4] == Bytes4(h.entriesChecksum)
  {
    FrontIs(h);
    BlocksAre(h);
    TableIs(h);
    hide Bytes4, Bytes8, Front, Blocks, Table;
    var a, b, c, d := Front(h), Bytes4(h.checksum), Blocks(h), Table(h);
    SliceOfFour(a, b, c, d, 0, 8);
    SliceOfFour(a, b, c, d, 12, 16);
    SliceOfFour(a, b, c, d, 4, 12);
    SliceOfFour(a, b, c, d, 24, 28);
    SliceOfFour(a, b, c, d, 28, 32);
    SliceOfFour(a, b, c, d, 32, 36);
  }

  lemma ClearedEncoding(h: Header)
    requires Sized(h)
    ensures |Encode(h)| == HEADER_BYTES && Cleared(Encode(h)) == Encode(h.(checksum := 0))
  {
    Layout(h);
    FrontIs(h);
    BytesOfOne();
    hide Bytes4, Bytes8, Front, Table, Blocks;
    var g := h.(checksum := 0);
    SamePieces(h);
    SliceOfFour(Front(h), Bytes4(h.checksum), Blocks(h), Table(h), 0, 0);
    assert Encode(g) == Front(h) + [0, 0, 0, 0] + (Blocks(h) + Table(h));
  }

  lemma SamePieces(h: Header)
    ensures var g := h.(checksum := 0); Front(g) == Front(h) && Blocks(g) == Blocks(h) && Table(g) == Table(h)
  {}

  /** `memcmp(&header->signature, "EFI PART", 8)`, character by character. */
  predicate SaysEfiPart(s: seq<Byte>)
    requires |s| == 8
  {
    forall i :: 0 <= i < 8 ==> s[i] as int == "EFI PART"[i] as int
  }

  lemma SignatureIs(s: seq<Byte>)
    requires |s| == 8
    ensures s == SIGNATURE <==> SaysEfiPart(s)
  {}

  /** A header in memory is accepted exactly when its signature reads EFI PART, its checksum is
      the CRC of its first `header_size` bytes with the checksum zeroed, and it says it lies at
      block 1. */
  lemma HeaderAcceptedIff(h: Header)
    requires Sized(h) && h.size as nat <= HEADER_BYTES
    ensures Copied(Encode(h)) && |Encode(h.(checksum := 0))| == HEADER_BYTES
    ensures ValidHeader(Encode(h)) <==>
      && SaysEfiPart(h.signature)
      && CrcPolynomial.IsCrc(Encode(h.(checksum := 0))[..h.size as nat], h.checksum)
      && h.lba == 1
  {
    Layout(h);
    Layout(h.(checksum := 0));
    ClearedEncoding(h);
    WordOfBytes(h.size);
    WordOfBytes(h.checksum);
    LbaOne(h.lba);
    SignatureIs(h.signature);
    hide Encode, Bytes4, Bytes8, Word32, Crc32, CrcPolynomial.IsCrc, SaysEfiPart, Cleared;
    CrcPolynomial.CrcIsRemainder(Encode(h.(checksum := 0))[..h.size as nat], h.checksum);
  }

  /** The entry array is accepted exactly when the stored checksum is the CRC of its first
      size times count bytes, the product wrapping at 32 bits. */
  lemma EntriesAcceptedIff(h: Header, entries: seq<Byte>)
    requires Sized(h)
    requires (h.entrySize as nat * h.entryCount as nat) % 0x1_0000_0000 <= |entries|
    ensures |Encode(h)| == HEADER_BYTES && ArraySize(Encode(h)) <= |entries|
    ensures ValidEntries(Encode(h), entries) <==>
      CrcPolynomial.IsCrc(entries[..(h.entrySize as nat * h.entryCount as nat) % 0x1_0000_0000], h.entriesChecksum)
  {
    Layout(h);
    WordOfBytes(h.entryCount);
    WordOfBytes(h.entrySize);
    WordOfBytes(h.entriesChecksum);
    hide Encode, Bytes4, Bytes8, Word32, Crc32, CrcPolynomial.IsCrc;
    CrcPolynomial.CrcIsRemainder(entries[..ArraySize(Encode(h))], h.entriesChecksum);
  }
}
