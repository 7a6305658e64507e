/** Byte copies and fills. Addresses are indices into one memory, so regions may overlap. */
module MemCommon {
  import opened Widths

  type Bytes = seq<Octet>

  predicate InBounds(len: nat, dst: nat, src: nat, size: nat) {
    dst + size <= len && src + size <= len
  }

  /** What a copy should do: all bytes read before any is written. */
  function Moved(m: Bytes, dst: nat, src: nat, size: nat): Bytes
    requires InBounds(|m|, dst, src, size)
  {
    m[..dst] + m[src..src + size] + m[dst + size..]
  }

  // ----- memcpy as it runs -----

  /** One load and store of w bytes at offset i. */
  function Step(m: Bytes, dst: nat, src: nat, i: nat, w: nat): Bytes
    requires InBounds(|m|, dst, src, i + w)
  {
    m[..dst + i] + m[src + i..src + i + w] + m[dst + i + w..]
  }

  function Width(i: nat, size: nat): nat {
    if i + 8 < size then 8 else 1
  }

  /** The loops from offset i on: words while more than eight bytes remain, then bytes. */
  function Copied(m: Bytes, dst: nat, src: nat, i: nat, size: nat): Bytes
    requires InBounds(|m|, dst, src, size)
    decreases size - i
  {
    if i >= size then m
    else Copied(Step(m, dst, src, i, Width(i, size)), dst, src, i + Width(i, size), size)
  }

  /** No store reaches source bytes still to be read. */
  predicate ForwardSafe(dst: nat, src: nat, size: nat) {
    dst <= src || src + size <= dst
  }

  /** Offsets lo to hi of the destination hold the source as it was in m. */
  function Middle(m: Bytes, dst: nat, src: nat, lo: nat, hi: nat): Bytes
    requires InBounds(|m|, dst, src, hi) && lo <= hi
  {
    m[..dst + lo] + m[src + lo..src + hi] + m[dst + hi..]
  }

  lemma StepKeepsMiddle(m: Bytes, dst: nat, src: nat, i: nat, w: nat, size: nat)
    requires InBounds(|m|, dst, src, size) && i + w <= size && ForwardSafe(dst, src, size)
    ensures |Step(m, dst, src, i, w)| == |m|
    ensures Middle(Step(m, dst, src, i, w), dst, src, i + w, size) == Middle(m, dst, src, i, size)
  {
    var n := Step(m, dst, src, i, w);
    assert n[..dst + i + w] == m[..dst + i] + m[src + i..src + i + w];
    assert n[src + i + w..src + size] == m[src + i + w..src + size];
    assert n[dst + size..] == m[dst + size..];
  }

  lemma {:induction false} ForwardCopy(m: Bytes, dst: nat, src: nat, i: nat, size: nat)
    requires InBounds(|m|, dst, src, size) && i <= size && ForwardSafe(dst, src, size)
    ensures Copied(m, dst, src, i, size) == Middle(m, dst, src, i, size)
    decreases size - i
  {
    if i < size {
      var w := Width(i, size);
      StepKeepsMiddle(m, dst, src, i, w, size);
      hide Middle, Step;
      ForwardCopy(Step(m, dst, src, i, w), dst, src, i + w, size);
    } else {
      assert m == Middle(m, dst, src, i, size);
    }
  }

  /** Later stores leave earlier destination bytes alone. */
  lemma {:induction false} CopiedBelow(m: Bytes, dst: nat, src: nat, i: nat, size: nat, k: nat)
    requires InBounds(|m|, dst, src, size) && k < dst + i && k < |m|
    ensures |Copied(m, dst, src, i, size)| == |m| && Copied(m, dst, src, i, size)[k] == m[k]
    decreases size - i
  {
    if i < size {
      var w := Width(i, size);
      CopiedBelow(Step(m, dst, src, i, w), dst, src, i + w, size, k);
    }
  }

  /** Source offset c lies on destination offset e, already overwritten: the copy hands the
      overwritten byte on. */
  lemma {:induction false} StaleByte(m: Bytes, dst: nat, src: nat, i: nat, size: nat, c: nat, e: nat)
    requires InBounds(|m|, dst, src, size) && src + c == dst + e && e < i <= c < size
    ensures |Copied(m, dst, src, i, size)| == |m|
    ensures Copied(m, dst, src, i, size)[dst + c] == m[dst + e]
    decreases size - i
  {
    var w := Width(i, size);
    var n := Step(m, dst, src, i, w);
    if c < i + w {
      assert n[dst + c] == m[src + c];
      CopiedBelow(n, dst, src, i + w, size, dst + c);
    } else {
      StaleByte(n, dst, src, i + w, size, c, e);
    }
  }

  /** An overlap with the destination above the source corrupts some memory: a lone 1 is lost. */
  lemma OverlapCorrupts(len: nat, dst: nat, src: nat, size: nat) returns (m: Bytes)
    requires InBounds(len, dst, src, size) && src < dst < src + size
    ensures |m| == len && Copied(m, dst, src, 0, size) != Moved(m, dst, src, size)
  {
    var d := dst - src;
    var c := if d >= 8 || size <= 8 then d else 8;
    var e := c - d;
    m := seq(len, k => if k == src + c then 1 else 0);
    var w := Width(0, size);
    var n := Step(m, dst, src, 0, w);
    assert n[dst + e] == m[src + e] == 0;
    StaleByte(n, dst, src, w, size, c, e);
    assert Moved(m, dst, src, size)[dst + c] == m[src + c] == 1;
  }

  /** The copy is right for every memory exactly when the destination does not start inside
      the source after its first byte. */
  lemma MemcpyIff(len: nat, dst: nat, src: nat, size: nat)
    requires InBounds(len, dst, src, size)
    ensures (forall m: Bytes :: |m| == len ==> Copied(m, dst, src, 0, size) == Moved(m, dst, src, size))
      <==> ForwardSafe(dst, src, size)
  {
    if ForwardSafe(dst, src, size) {
      forall m: Bytes | |m| == len ensures Copied(m, dst, src, 0, size) == Moved(m, dst, src, size) {
        WholeCopy(m, dst, src, size);
      }
    } else {
      var m := OverlapCorrupts(len, dst, src, size);
    }
  }

  method Memcpy(mem: array<Octet>, dst: nat, src: nat, size: nat)
    requires InBounds(mem.Length, dst, src, size)
    modifies mem
    ensures mem[..] == Copied(old(mem[..]), dst, src, 0, size)
    ensures ForwardSafe(dst, src, size) ==> mem[..] == Moved(old(mem[..]), dst, src, size)
  {
    hide Moved, Step;
    ghost var m := mem[..];
    var i := 0;
    while i + 8 < size
      invariant i <= size
      invariant Copied(mem[..], dst, src, i, size) == Copied(m, dst, src, 0, size)
    {
      CopyWord(mem, dst, src, i, 8);
      i := i + 8;
    }
    while i < size
      invariant i <= size <= i + 8
      invariant Copied(mem[..], dst, src, i, size) == Copied(m, dst, src, 0, size)
    {
      CopyWord(mem, dst, src, i, 1);
      i := i + 1;
    }
    if ForwardSafe(dst, src, size) {
      WholeCopy(m, dst, src, size);
    }
  }

  lemma WholeCopy(m: Bytes, dst: nat, src: nat, size: nat)
    requires InBounds(|m|, dst, src, size) && ForwardSafe(dst, src, size)
    ensures Copied(m, dst, src, 0, size) == Moved(m, dst, src, size)
  {
    ForwardCopy(m, dst, src, 0, size);
  }

  /** One unaligned load and store of w bytes. */
  method CopyWord(mem: array<Octet>, dst: nat, src: nat, i: nat, w: nat)
    requires InBounds(mem.Length, dst, src, i + w)
    modifies mem
    ensures mem[..] == Step(old(mem[..]), dst, src, i, w)
  {
    forall j | 0 <= j < w {
      mem[dst + i + j] := mem[src + i + j];
    }
  }

  // ----- memmove -----

  /** `memmove` gives the simultaneous copy for every overlap. */
  method Memmove(mem: array<Octet>, dst: nat, src: nat, size: nat)
    requires InBounds(mem.Length, dst, src, size)
    modifies mem
    ensures mem[..] == Moved(old(mem[..]), dst, src, size)
  {
    hide Moved, Middle, Step;
    ghost var m := mem[..];
    if dst < src {
      NothingMoved(m, dst, src, 0);
      for i := 0 to size
        invariant mem[..] == Middle(m, dst, src, 0, i)
      {
        MoveUp(m, dst, src, i);
        CopyWord(mem, dst, src, i, 1);
      }
    } else {
      NothingMoved(m, dst, src, size);
      for i := size downto 0
        invariant mem[..] == Middle(m, dst, src, i, size)
      {
        MoveDown(m, dst, src, i, size);
        CopyWord(mem, dst, src, i, 1);
      }
    }
    AllMoved(m, dst, src, size);
  }

  lemma NothingMoved(m: Bytes, dst: nat, src: nat, i: nat)
    requires InBounds(|m|, dst, src, i)
    ensures Middle(m, dst, src, i, i) == m
  {}

  lemma AllMoved(m: Bytes, dst: nat, src: nat, size: nat)
    requires InBounds(|m|, dst, src, size)
    ensures Middle(m, dst, src, 0, size) == Moved(m, dst, src, size)
  {}

  lemma MoveUp(m: Bytes, dst: nat, src: nat, i: nat)
    requires InBounds(|m|, dst, src, i + 1) && dst < src
    ensures |Middle(m, dst, src, 0, i)| == |m|
    ensures Step(Middle(m, dst, src, 0, i), dst, src, i, 1) == Middle(m, dst, src, 0, i + 1)
  {
    var mid := Middle(m, dst, src, 0, i);
    assert mid[src + i] == m[src + i];
    assert mid[..dst + i] == m[..dst] + m[src..src + i];
    assert mid[dst + i + 1..] == m[dst + i + 1..];
    assert m[src..src + i + 1] == m[src..src + i] + [m[src + i]];
  }

  lemma MoveDown(m: Bytes, dst: nat, src: nat, i: nat, size: nat)
    requires InBounds(|m|, dst, src, size) && src <= dst && i < size
    ensures |Middle(m, dst, src, i + 1, size)| == |m|
    ensures Step(Middle(m, dst, src, i + 1, size), dst, src, i, 1) == Middle(m, dst, src, i, size)
  {
    var mid := Middle(m, dst, src, i + 1, size);
    assert mid[src + i] == m[src + i];
    assert mid[..dst + i] == m[..dst + i];
    assert mid[dst + i + 1..] == m[src + i + 1..src + size] + m[dst + size..];
    assert m[src + i..src + size] == [m[src + i]] + m[src + i + 1..src + size];
  }

  // ----- memset32 -----

  /** Byte j of a little-endian value. */
  function ByteOf(v: nat, j: nat): Octet {
    if j == 0 then v % 256 else ByteOf(v / 256, j - 1)
  }

  /** count copies of a 32-bit value. */
  function Fill32(value: U32, count: nat): Bytes {
    seq(4 * count, j requires 0 <= j => ByteOf(value, j % 4))
  }

  function LittleEndian(v: nat, n: nat): Bytes {
    seq(n, j requires 0 <= j => ByteOf(v, j))
  }

  /** A store of n bytes. */
  method StoreBytes(mem: array<Octet>, at: nat, v: nat, n: nat)
    requires at + n <= mem.Length
    modifies mem
    ensures mem[..] == old(mem[..at]) + LittleEndian(v, n) + old(mem[at + n..])
  {
    forall j | 0 <= j < n {
      mem[at + j] := ByteOf(v, j);
    }
  }

  lemma Peel(q: nat, low: nat, j: nat)
    ensures ByteOf(0x100 * q + low, 0) == ByteOf(low, 0)
    ensures ByteOf(0x100 * q + low, j + 1) == ByteOf(q + low / 0x100, j)
    ensures ByteOf(low, j + 1) == ByteOf(low / 0x100, j)
  {}

  /** The bytes of a value followed by itself. */
  lemma PairBytes(value: U32, j: nat)
    requires j < 8
    ensures ByteOf(value * 0x1_0000_0000 + value, j) == ByteOf(value, j % 4)
  {
    hide ByteOf;
    var b1, b2, b3 := value / 0x100, value / 0x100 / 0x100, value / 0x100 / 0x100 / 0x100;
    assert b3 / 0x100 == 0;
    Peel(value * 0x100_0000, value, if j > 0 then j - 1 else 0);
    Peel(value * 0x1_0000, b1, if j > 1 then j - 2 else 0);
    Peel(value * 0x100, b2, if j > 2 then j - 3 else 0);
    Peel(value, b3, if j > 3 then j - 4 else 0);
  }

  function Filled(m: Bytes, dst: nat, value: U32, count: nat): Bytes
    requires dst + 4 * count <= |m|
  {
    m[..dst] + Fill32(value, count) + m[dst + 4 * count..]
  }

  lemma FillPair(m: Bytes, dst: nat, value: U32, i: nat)
    requires dst + 4 * (i + 2) <= |m|
    ensures var n := Filled(m, dst, value, i);
      |n| == |m| && Filled(m, dst, value, i + 2) ==
      n[..dst + 4 * i] + LittleEndian(value * 0x1_0000_0000 + value, 8) + n[dst + 4 * i + 8..]
  {
    var n := Filled(m, dst, value, i);
    var pair := LittleEndian(value * 0x1_0000_0000 + value, 8);
    forall j: nat | j < 8 ensures pair[j] == ByteOf(value, j % 4) {
      PairBytes(value, j);
    }
    hide ByteOf;
    assert Fill32(value, i + 2) == Fill32(value, i) + pair;
    assert n[..dst + 4 * i] == m[..dst] + Fill32(value, i);
  }

  lemma FillOne(m: Bytes, dst: nat, value: U32, i: nat)
    requires dst + 4 * (i + 1) <= |m|
    ensures var n := Filled(m, dst, value, i);
      |n| == |m| && Filled(m, dst, value, i + 1) == n[..dst + 4 * i] + LittleEndian(value, 4) + n[dst + 4 * i + 4..]
  {
    hide ByteOf;
    var n := Filled(m, dst, value, i);
    assert Fill32(value, i + 1) == Fill32(value, i) + LittleEndian(value, 4);
    assert n[..dst + 4 * i] == m[..dst] + Fill32(value, i);
  }

  lemma FillNone(m: Bytes, dst: nat, value: U32)
    requires dst <= |m|
    ensures Filled(m, dst, value, 0) == m
  {}

  /** `memset32`: pairs as one 64-bit store, then a last single one. */
  method Memset32(mem: array<Octet>, dst: nat, value: U32, count: nat)
    requires dst + 4 * count <= mem.Length
    modifies mem
    ensures mem[..] == Filled(old(mem[..]), dst, value, count)
  {
    hide Filled, LittleEndian;
    ghost var m := mem[..];
    FillNone(m, dst, value);
    var v := value * 0x1_0000_0000 + value;
    var i := 0;
    while i + 2 <= count
      invariant i <= count
      invariant mem[..] == Filled(m, dst, value, i)
    {
      FillPair(m, dst, value, i);
      StoreBytes(mem, dst + 4 * i, v, 8);
      i := i + 2;
    }
    while i < count
      invariant i <= count
      invariant mem[..] == Filled(m, dst, value, i)
    {
      FillOne(m, dst, value, i);
      StoreBytes(mem, dst + 4 * i, value, 4);
      i := i + 1;
    }
  }
}
