/** The steps of the GPT code's CRC-32 as functions, and the algebra that makes it detect every
    change confined to four consecutive bytes. */
module Crc {

  type Byte = bv8
  const POLY: bv32 := 0xEDB8_8320
  const ONES: bv32 := 0xFFFF_FFFF

  /** Addition over GF(2); a named function so that proofs can treat it as an operation. */
  function Plus(a: bv32, b: bv32): bv32 {
    a ^ b
  }

  function Wide(b: Byte): bv32 {
    b as bv32
  }

  /** One bit: `(crc >> 1) ^ (POLY & -(crc & 1))`. */
  function Shift(c: bv32): bv32 {
    (c >> 1) ^ (POLY & (0 - (c & 1)))
  }

  function ShiftTimes(c: bv32, n: nat): bv32 {
    if n == 0 then c else Shift(ShiftTimes(c, n - 1))
  }

  function Feed(c: bv32, b: Byte): bv32 {
    ShiftTimes(Plus(c, Wide(b)), 8)
  }

  /** The register after feeding the data to an initial register. */
  function Register(c: bv32, data: seq<Byte>): bv32
    decreases |data|
  {
    if |data| == 0 then c else Register(Feed(c, data[0]), data[1..])
  }

  function Complement(c: bv32): bv32 {
    !c
  }

  function Crc32(data: seq<Byte>): bv32 {
    Complement(Register(ONES, data))
  }

  // ----- GF(2) algebra -----

  lemma PlusCommutes(a: bv32, b: bv32)
    ensures Plus(a, b) == Plus(b, a)
  {}

  lemma PlusAssociates(a: bv32, b: bv32, c: bv32)
    ensures Plus(a, Plus(b, c)) == Plus(Plus(a, b), c)
  {}

  lemma PlusExchange(a: bv32, b: bv32, c: bv32, d: bv32)
    ensures Plus(Plus(a, b), Plus(c, d)) == Plus(Plus(a, c), Plus(b, d))
  {
    hide Plus;
    PlusAssociates(Plus(a, b), c, d);
    PlusAssociates(a, b, c);
    PlusCommutes(b, c);
    PlusAssociates(a, c, b);
    PlusAssociates(Plus(a, c), b, d);
  }

  lemma PlusCancel(a: bv32, b: bv32, c: bv32)
    ensures Plus(a, c) == Plus(b, c) <==> a == b
    ensures Plus(c, a) == Plus(c, b) <==> a == b
  {}

  lemma LowBit(c: bv32)
    ensures c & 1 == 0 || c & 1 == 1
  {}

  lemma ShiftIs(c: bv32)
    ensures c & 1 == 0 ==> Shift(c) == c >> 1
    ensures c & 1 == 1 ==> Shift(c) == (c >> 1) ^ POLY
  {
    LowBit(c);
  }

  lemma XorHalves(a: bv32, b: bv32)
    ensures (a ^ b) >> 1 == (a >> 1) ^ (b >> 1)
    ensures (a ^ b) & 1 == (a & 1) ^ (b & 1)
  {}

  lemma XorWithPoly(x: bv32, y: bv32)
    ensures (x ^ POLY) ^ (y ^ POLY) == x ^ y
    ensures (x ^ POLY) ^ y == (x ^ y) ^ POLY
    ensures x ^ (y ^ POLY) == (x ^ y) ^ POLY
  {}

  lemma ShiftPlus(a: bv32, b: bv32)
    ensures Shift(Plus(a, b)) == Plus(Shift(a), Shift(b))
  {
    hide Shift;
    LowBit(a);
    LowBit(b);
    ShiftIs(a);
    ShiftIs(b);
    ShiftIs(a ^ b);
    XorHalves(a, b);
    XorWithPoly(a >> 1, b >> 1);
  }

  /** The top bit of the polynomial is set, so a shift loses nothing. */
  lemma ShiftInjective(a: bv32, b: bv32)
    ensures Shift(a) == Shift(b) <==> a == b
  {}

  lemma {:induction false} ShiftTimesPlus(a: bv32, b: bv32, n: nat)
    ensures ShiftTimes(Plus(a, b), n) == Plus(ShiftTimes(a, n), ShiftTimes(b, n))
    decreases n
  {
    hide Shift, Plus;
    if n > 0 {
      ShiftTimesPlus(a, b, n - 1);
      ShiftPlus(ShiftTimes(a, n - 1), ShiftTimes(b, n - 1));
    }
  }

  lemma {:induction false} ShiftTimesInjective(a: bv32, b: bv32, n: nat)
    ensures ShiftTimes(a, n) == ShiftTimes(b, n) <==> a == b
    decreases n
  {
    hide Shift;
    if n > 0 {
      ShiftTimesInjective(a, b, n - 1);
      ShiftInjective(ShiftTimes(a, n - 1), ShiftTimes(b, n - 1));
    }
  }

  // ----- affine over exclusive or -----

  /** Bytewise exclusive or of equally long data. */
  function Xor(a: seq<Byte>, b: seq<Byte>): seq<Byte>
    requires |a| == |b|
  {
    seq(|a|, i requires 0 <= i < |a| => a[i] ^ b[i])
  }

  lemma WideXor(a: Byte, b: Byte)
    ensures Wide(a ^ b) == Plus(Wide(a), Wide(b))
  {}

  lemma FeedPlus(c: bv32, d: bv32, a: Byte, b: Byte)
    ensures Feed(Plus(c, d), a ^ b) == Plus(Feed(c, a), Feed(d, b))
  {
    hide ShiftTimes, Plus, Wide;
    WideXor(a, b);
    PlusExchange(c, d, Wide(a), Wide(b));
    ShiftTimesPlus(Plus(c, Wide(a)), Plus(d, Wide(b)), 8);
  }

  /** Feeding is linear in the register and the data together. */
  lemma {:induction false} RegisterPlus(c: bv32, d: bv32, a: seq<Byte>, b: seq<Byte>)
    requires |a| == |b|
    ensures Register(Plus(c, d), Xor(a, b)) == Plus(Register(c, a), Register(d, b))
    decreases |a|
  {
    hide Feed, Plus;
    if |a| > 0 {
      FeedPlus(c, d, a[0], b[0]);
      assert Xor(a, b)[1..] == Xor(a[1..], b[1..]);
      RegisterPlus(Feed(c, a[0]), Feed(d, b[0]), a[1..], b[1..]);
    }
  }

  /** crc32 is affine over exclusive or on data of equal length. */
  lemma CrcAffine(a: seq<Byte>, b: seq<Byte>, c: seq<Byte>)
    requires |a| == |b| == |c|
    ensures Crc32(Xor(Xor(a, b), c)) == Plus(Plus(Crc32(a), Crc32(b)), Crc32(c))
  {
    RegisterOfThree(a, b, c);
    TripleNot(Register(ONES, a), Register(ONES, b), Register(ONES, c));
    hide Register, Xor, Plus, Complement;
  }

  lemma RegisterOfThree(a: seq<Byte>, b: seq<Byte>, c: seq<Byte>)
    requires |a| == |b| == |c|
    ensures Register(ONES, Xor(Xor(a, b), c)) == Plus(Plus(Register(ONES, a), Register(ONES, b)), Register(ONES, c))
  {
    ThreeOnes();
    hide Register, Plus;
    RegisterPlus(Plus(ONES, ONES), ONES, Xor(a, b), c);
    RegisterPlus(ONES, ONES, a, b);
  }

  lemma ThreeOnes()
    ensures Plus(Plus(ONES, ONES), ONES) == ONES
  {}

  lemma TripleNot(a: bv32, b: bv32, c: bv32)
    ensures Complement(Plus(Plus(a, b), c)) == Plus(Plus(Complement(a), Complement(b)), Complement(c))
  {}

  // ----- bursts -----

  lemma {:induction false} RegisterAppend(c: bv32, a: seq<Byte>, b: seq<Byte>)
    ensures Register(c, a + b) == Register(Register(c, a), b)
    decreases |a|
  {
    hide Feed;
    if |a| == 0 {
      assert a + b == b;
    } else {
      assert (a + b)[1..] == a[1..] + b;
      RegisterAppend(Feed(c, a[0]), a[1..], b);
    }
  }

  lemma FeedInjective(c: bv32, d: bv32, b: Byte)
    ensures Feed(c, b) == Feed(d, b) <==> c == d
  {
    hide ShiftTimes, Plus;
    ShiftTimesInjective(Plus(c, Wide(b)), Plus(d, Wide(b)), 8);
    PlusCancel(c, d, Wide(b));
  }

  /** Distinct registers stay distinct under the same data. */
  lemma {:induction false} RegisterInjective(c: bv32, d: bv32, a: seq<Byte>)
    ensures Register(c, a) == Register(d, a) <==> c == d
    decreases |a|
  {
    hide Feed;
    if |a| > 0 {
      FeedInjective(c, d, a[0]);
      RegisterInjective(Feed(c, a[0]), Feed(d, a[0]), a[1..]);
    }
  }

  lemma {:induction false} ShiftTimesAdd(c: bv32, m: nat, n: nat)
    ensures ShiftTimes(ShiftTimes(c, m), n) == ShiftTimes(c, m + n)
    decreases n
  {
    hide Shift;
    if n > 0 {
      ShiftTimesAdd(c, m, n - 1);
    }
  }

  function Up8(r: bv32): bv32 {
    r << 8
  }

  // One shift takes a word with k clear low bits one place down.
  lemma ShiftUp8(r: bv32)
    requires r & 0xFF00_0000 == 0
    ensures Shift(r << 8) == r << 7
  {
    ShiftIs(r << 8);
  }

  lemma ShiftUp7(r: bv32)
    requires r & 0xFF00_0000 == 0
    ensures Shift(r << 7) == r << 6
  {
    ShiftIs(r << 7);
  }

  lemma ShiftUp6(r: bv32)
    requires r & 0xFF00_0000 == 0
    ensures Shift(r << 6) == r << 5
  {
    ShiftIs(r << 6);
  }

  lemma ShiftUp5(r: bv32)
    requires r & 0xFF00_0000 == 0
    ensures Shift(r << 5) == r << 4
  {
    ShiftIs(r << 5);
  }

  lemma ShiftUp4(r: bv32)
    requires r & 0xFF00_0000 == 0
    ensures Shift(r << 4) == r << 3
  {
    ShiftIs(r << 4);
  }

  lemma ShiftUp3(r: bv32)
    requires r & 0xFF00_0000 == 0
    ensures Shift(r << 3) == r << 2
  {
    ShiftIs(r << 3);
  }

  lemma ShiftUp2(r: bv32)
    requires r & 0xFF00_0000 == 0
    ensures Shift(r << 2) == r << 1
  {
    ShiftIs(r << 2);
  }

  lemma ShiftUp1(r: bv32)
    requires r & 0xFF00_0000 == 0
    ensures Shift(r << 1) == r
  {
    ShiftIs(r << 1);
  }

  lemma EightShifts(x: bv32)
    ensures ShiftTimes(x, 8) == Shift(Shift(Shift(Shift(Shift(Shift(Shift(Shift(x))))))))
  {
    hide Shift;
    assert ShiftTimes(x, 1) == Shift(x);
    assert ShiftTimes(x, 3) == Shift(Shift(ShiftTimes(x, 1)));
    assert ShiftTimes(x, 5) == Shift(Shift(ShiftTimes(x, 3)));
    assert ShiftTimes(x, 7) == Shift(Shift(ShiftTimes(x, 5)));
  }

  /** Eight shifts of a word with a clear low byte only move it down. */
  lemma ShiftEight(r: bv32)
    requires r & 0xFF00_0000 == 0
    ensures ShiftTimes(Up8(r), 8) == r
  {
    hide Shift, ShiftTimes;
    EightShifts(Up8(r));
    ShiftUp8(r); ShiftUp7(r); ShiftUp6(r); ShiftUp5(r);
    ShiftUp4(r); ShiftUp3(r); ShiftUp2(r); ShiftUp1(r);
  }

  /** Feeding one byte to a register that still carries later bytes above it. */
  lemma FeedAhead(c: bv32, b: Byte, rest: bv32)
    requires rest & 0xFF00_0000 == 0
    ensures ShiftTimes(Plus(Plus(c, Wide(b)), Up8(rest)), 8) == Plus(Feed(c, b), rest)
  {
    ShiftEight(rest);
    hide Shift, Plus, Up8, Wide, ShiftTimes;
    ShiftTimesPlus(Plus(c, Wide(b)), Up8(rest), 8);
  }

  /** Four bytes as a little-endian word. */
  function Word32(w: seq<Byte>): bv32
    requires |w| == 4
  {
    Plus(Wide(w[0]), Up8(Plus(Wide(w[1]), Up8(Plus(Wide(w[2]), Up8(Wide(w[3])))))))
  }

  function Word4(a: Byte, b: Byte, c: Byte, d: Byte): bv32 {
    Plus(Wide(a), Up8(Plus(Wide(b), Up8(Plus(Wide(c), Up8(Wide(d)))))))
  }

  lemma BytesOfWord(a: Byte, b: Byte, c: Byte, d: Byte, e: Byte, f: Byte, g: Byte, h: Byte)
    requires Word4(a, b, c, d) == Word4(e, f, g, h)
    ensures a == e && b == f && c == g && d == h
  {}

  lemma Word32Injective(v: seq<Byte>, w: seq<Byte>)
    requires |v| == |w| == 4
    ensures Word32(v) == Word32(w) <==> v == w
  {
    assert Word32(v) == Word4(v[0], v[1], v[2], v[3]);
    assert Word32(w) == Word4(w[0], w[1], w[2], w[3]);
    hide Word32, Word4;
    if Word32(v) == Word32(w) {
      BytesOfWord(v[0], v[1], v[2], v[3], w[0], w[1], w[2], w[3]);
    }
  }

  lemma SmallWords(b: Byte, c: Byte, d: Byte)
    ensures Wide(d) & 0xFF00_0000 == 0
    ensures (Wide(c) ^ Up8(Wide(d))) & 0xFF00_0000 == 0
    ensures (Wide(b) ^ Up8(Wide(c) ^ Up8(Wide(d)))) & 0xFF00_0000 == 0
  {}

  /** Four bytes fed one by one are 32 shifts of the register plus their word. */
  lemma FourBytes(r: bv32, w: seq<Byte>)
    requires |w| == 4
    ensures Register(r, w) == ShiftTimes(Plus(r, Word32(w)), 32)
  {
    var t3 := Wide(w[3]);
    var t2 := Plus(Wide(w[2]), Up8(t3));
    var t1 := Plus(Wide(w[1]), Up8(t2));
    SmallWords(w[1], w[2], w[3]);
    assert Word32(w) == Plus(Wide(w[0]), Up8(t1));
    hide Shift, Plus, Up8, Wide, ShiftTimes, Word32;
    var r0 := Feed(r, w[0]);
    var r1 := Feed(r0, w[1]);
    var r2 := Feed(r1, w[2]);
    PlusAssociates(r, Wide(w[0]), Up8(t1));
    FeedAhead(r, w[0], t1);
    PlusAssociates(r0, Wide(w[1]), Up8(t2));
    FeedAhead(r0, w[1], t2);
    PlusAssociates(r1, Wide(w[2]), Up8(t3));
    FeedAhead(r1, w[2], t3);
    var x := Plus(r, Word32(w));
    ShiftTimesAdd(x, 8, 8);
    ShiftTimesAdd(x, 16, 8);
    ShiftTimesAdd(x, 24, 8);
    RegisterOfFour(r, w);
  }

  lemma RegisterOfFour(r: bv32, w: seq<Byte>)
    requires |w| == 4
    ensures Register(r, w) == Feed(Feed(Feed(Feed(r, w[0]), w[1]), w[2]), w[3])
  {
    hide Feed;
    var r0 := Feed(r, w[0]);
    var r1 := Feed(r0, w[1]);
    var r2 := Feed(r1, w[2]);
    assert w[1..][1..] == w[2..] && w[2..][1..] == w[3..] && w[3..][1..] == [];
    assert Register(r2, w[3..]) == Feed(r2, w[3]);
    assert Register(r1, w[2..]) == Register(r2, w[3..]);
    assert Register(r0, w[1..]) == Register(r1, w[2..]);
  }

  /** Two messages that differ only within four consecutive bytes have different CRCs. */
  lemma BurstDetected(before: seq<Byte>, v: seq<Byte>, w: seq<Byte>, after: seq<Byte>)
    requires |v| == |w| <= 4
    ensures Crc32(before + v + after) == Crc32(before + w + after) <==> v == w
  {
    var pad: seq<Byte> := seq(4 - |v|, i => 0);
    var r := Register(ONES, before);
    RegisterAppend(ONES, before + v, after);
    RegisterAppend(ONES, before, v);
    RegisterAppend(ONES, before + w, after);
    RegisterAppend(ONES, before, w);
    RegisterAppend(r, v, pad);
    RegisterAppend(r, w, pad);
    FourBytes(r, v + pad);
    FourBytes(r, w + pad);
    RegisterInjective(Register(r, v), Register(r, w), after);
    RegisterInjective(Register(r, v), Register(r, w), pad);
    hide Register, ShiftTimes, Plus, Word32, Complement;
    ShiftTimesInjective(Plus(r, Word32(v + pad)), Plus(r, Word32(w + pad)), 32);
    PlusCancel(Word32(v + pad), Word32(w + pad), r);
    Word32Injective(v + pad, w + pad);
    assert v == (v + pad)[..|v|] && w == (w + pad)[..|w|];
    NotInjective(Register(ONES, before + v + after), Register(ONES, before + w + after));
  }

  lemma NotInjective(a: bv32, b: bv32)
    ensures Complement(a) == Complement(b) <==> a == b
  {
    DoubleNot(a);
    DoubleNot(b);
    hide Complement;
  }

  lemma DoubleNot(a: bv32)
    ensures Complement(Complement(a)) == a
  {}
}
