/** What the CRC-32 of a message is: the remainder of polynomial division, bit-reflected, with the
    all-ones start and the final complement. */
module CrcPolynomial {
  import opened Crc
  import opened Polynomials

  // ----- the definition -----

  function Half(c: bv32): bv32 {
    c >> 1
  }

  predicate Low(c: bv32) {
    c & 1 == 1
  }

  predicate BitAt(c: bv32, i: nat) {
    if i == 0 then Low(c) else BitAt(Half(c), i - 1)
  }

  predicate InRegister(c: bv32, e: nat) {
    e < 32 && BitAt(c, 31 - e)
  }

  /** A register read with its lowest bit as the coefficient of x^31. */
  function RegisterPoly(c: bv32): Poly {
    set e: nat | e < 32 && InRegister(c, e)
  }

  predicate InByte(b: Byte, e: nat) {
    e < 8 && BitAt(Wide(b), 7 - e)
  }

  /** A byte's bits, lowest first, from the coefficient of x^7 down. */
  function BytePoly(b: Byte): Poly {
    set e: nat | e < 8 && InByte(b, e)
  }

  /** The bytes' bits in the order they are sent. */
  function MessagePoly(data: seq<Byte>): Poly {
    if |data| == 0 then {}
    else Add(Times(MessagePoly(data[..|data| - 1]), 8), BytePoly(data[|data| - 1]))
  }

  /** x^(n - 1) + ... + x + 1. */
  function Ones(n: nat): Poly {
    if n == 0 then {} else Ones(n - 1) + {n - 1}
  }

  function AllOnes(): Poly {
    Ones(32)
  }

  /** The message times x^32 with its first 32 bits complemented. */
  function Dividend(data: seq<Byte>): Poly {
    Add(Times(MessagePoly(data), 32), Times(AllOnes(), 8 * |data|))
  }

  /** crc is the complement of the remainder of the dividend by the generator. */
  ghost predicate IsCrc(data: seq<Byte>, crc: bv32) {
    IsRemainder(Dividend(data), Add(RegisterPoly(crc), AllOnes()))
  }

  // ----- bits -----

  lemma HalfPlus(a: bv32, b: bv32)
    ensures Half(Plus(a, b)) == Plus(Half(a), Half(b))
    ensures Low(Plus(a, b)) <==> Low(a) != Low(b)
  {}

  lemma {:induction false} BitPlus(a: bv32, b: bv32, i: nat)
    ensures BitAt(Plus(a, b), i) <==> BitAt(a, i) != BitAt(b, i)
    decreases i
  {
    hide Half, Low, Plus;
    HalfPlus(a, b);
    if i > 0 {
      BitPlus(Half(a), Half(b), i - 1);
    }
  }

  function Quarter(c: bv32): bv32 {
    c >> 4
  }

  function Nibble(c: bv32): seq<bool> {
    [c & 1 != 0, c & 2 != 0, c & 4 != 0, c & 8 != 0]
  }

  lemma QuarterIs(c: bv32)
    ensures Half(Half(Half(Half(c)))) == Quarter(c)
    ensures Nibble(c) == [Low(c), Low(Half(c)), Low(Half(Half(c))), Low(Half(Half(Half(c))))]
  {}

  lemma BitUnder4(c: bv32, i: nat)
    ensures BitAt(c, i + 4) == BitAt(Quarter(c), i)
    ensures Nibble(c) == [BitAt(c, 0), BitAt(c, 1), BitAt(c, 2), BitAt(c, 3)]
  {
    QuarterIs(c);
    hide Half, Low, Quarter, Nibble;
    var d := Half(c);
    var e := Half(d);
    assert BitAt(c, i + 4) == BitAt(d, i + 3) == BitAt(e, i + 2) == BitAt(Half(e), i + 1) == BitAt(Half(Half(e)), i);
    assert BitAt(c, 1) == BitAt(d, 0);
    assert BitAt(c, 2) == BitAt(d, 1) == BitAt(e, 0);
    assert BitAt(c, 3) == BitAt(d, 2) == BitAt(e, 1) == BitAt(Half(e), 0);
  }

  lemma {:induction false} BitOfZero(i: nat)
    ensures !BitAt(0, i)
    decreases i
  {
    ZeroHalf();
    hide Half, Low;
    if i > 0 {
      BitOfZero(i - 1);
    }
  }

  lemma ZeroHalf()
    ensures Half(0) == 0 && !Low(0)
  {}

  function Quarters(c: bv32, n: nat): bv32 {
    if n == 0 then c else Quarter(Quarters(c, n - 1))
  }

  lemma {:induction false} BitUnder(c: bv32, n: nat, i: nat)
    ensures BitAt(c, 4 * n + i) == BitAt(Quarters(c, n), i)
    decreases n
  {
    hide BitAt, Quarter, Nibble;
    if n > 0 {
      BitUnder(c, n - 1, i + 4);
      BitUnder4(Quarters(c, n - 1), i);
    }
  }

  lemma AllQuarters(c: bv32)
    ensures Quarter(Quarter(Quarter(Quarter(Quarter(Quarter(Quarter(Quarter(c)))))))) == 0
  {}

  lemma EightQuarters(c: bv32)
    ensures Quarters(c, 8) == 0
  {
    AllQuarters(c);
    hide Quarter;
    assert Quarters(c, 1) == Quarter(Quarters(c, 0));
    assert Quarters(c, 3) == Quarter(Quarter(Quarters(c, 1)));
    assert Quarters(c, 5) == Quarter(Quarter(Quarters(c, 3)));
    assert Quarters(c, 7) == Quarter(Quarter(Quarters(c, 5)));
  }

  /** Nothing lies above bit 31. */
  lemma BitAbove(c: bv32)
    ensures !BitAt(c, 32)
  {
    BitUnder(c, 8, 0);
    EightQuarters(c);
    BitOfZero(0);
  }

  lemma ByteQuarters(b: Byte)
    ensures Quarter(Quarter(Wide(b))) == 0
  {}

  /** Nor above bit 7 of a byte. */
  lemma BitAboveByte(b: Byte, i: nat)
    requires i >= 8
    ensures !BitAt(Wide(b), i)
  {
    ByteQuarters(b);
    hide BitAt, Quarter, Nibble, Wide;
    BitUnder4(Wide(b), i - 4);
    BitUnder4(Quarter(Wide(b)), i - 8);
    BitOfZero(i - 8);
  }

  // ----- the constants -----

  lemma PolyQuarters()
    ensures Quarter(0xEDB8_8320) == 0x0EDB_8832
    ensures Quarter(0x0EDB_8832) == 0x00ED_B883
    ensures Quarter(0x00ED_B883) == 0x000E_DB88
    ensures Quarter(0x000E_DB88) == 0x0000_EDB8
    ensures Quarter(0x0000_EDB8) == 0x0000_0EDB
    ensures Quarter(0x0000_0EDB) == 0x0000_00ED
    ensures Quarter(0x0000_00ED) == 0x0000_000E
  {}

  lemma PolyNibbles()
    ensures Nibble(0xEDB8_8320) == [false, false, false, false]
    ensures Nibble(0x0EDB_8832) == [false, true, false, false]
    ensures Nibble(0x00ED_B883) == [true, true, false, false]
    ensures Nibble(0x000E_DB88) == [false, false, false, true]
    ensures Nibble(0x0000_EDB8) == [false, false, false, true]
    ensures Nibble(0x0000_0EDB) == [true, true, false, true]
    ensures Nibble(0x0000_00ED) == [true, false, true, true]
    ensures Nibble(0x0000_000E) == [false, true, true, true]
  {}

  lemma PolyNibble(k: nat)
    requires k < 8
    ensures Nibble(Quarters(POLY, k)) == [
      [false, false, false, false],
      [false, true, false, false],
      [true, true, false, false],
      [false, false, false, true],
      [false, false, false, true],
      [true, true, false, true],
      [true, false, true, true],
      [false, true, true, true]][k]
  {
    PolyQuarters();
    PolyNibbles();
    hide Quarter, Nibble;
    assert Quarters(POLY, 1) == 0x0EDB_8832;
    assert Quarters(POLY, 2) == 0x00ED_B883;
    assert Quarters(POLY, 3) == 0x000E_DB88;
    assert Quarters(POLY, 4) == 0x0000_EDB8;
    assert Quarters(POLY, 5) == 0x0000_0EDB;
    assert Quarters(POLY, 6) == 0x0000_00ED;
  }

  /** The polynomial constant holds the generator's coefficients below x^32, reflected. */
  lemma PolyIs(e: nat)
    requires e < 32
    ensures BitAt(POLY, 31 - e) <==> e in GENERATOR
  {
    var k, j := (31 - e) / 4, (31 - e) % 4;
    PolyNibble(k);
    BitUnder(POLY, k, j);
    BitUnder4(Quarters(POLY, k), 0);
    hide BitAt, Quarters, Nibble;
  }

  lemma OnesQuarters()
    ensures Quarter(0xFFFF_FFFF) == 0x0FFF_FFFF && Quarter(0x0FFF_FFFF) == 0x00FF_FFFF
    ensures Quarter(0x00FF_FFFF) == 0x000F_FFFF && Quarter(0x000F_FFFF) == 0x0000_FFFF
    ensures Quarter(0x0000_FFFF) == 0x0000_0FFF && Quarter(0x0000_0FFF) == 0x0000_00FF
    ensures Quarter(0x0000_00FF) == 0x0000_000F
  {}

  lemma OnesNibbles()
    ensures Nibble(0xFFFF_FFFF) == Nibble(0x0FFF_FFFF) == Nibble(0x00FF_FFFF) == [true, true, true, true]
    ensures Nibble(0x000F_FFFF) == Nibble(0x0000_FFFF) == Nibble(0x0000_0FFF) == [true, true, true, true]
    ensures Nibble(0x0000_00FF) == Nibble(0x0000_000F) == [true, true, true, true]
  {}

  lemma OnesAre(i: nat)
    requires i < 32
    ensures BitAt(ONES, i)
  {
    OnesQuarters();
    OnesNibbles();
    hide BitAt, Quarter, Nibble;
    var k, j := i / 4, i % 4;
    BitUnder(ONES, k, j);
    BitUnder4(Quarters(ONES, k), 0);
    assert Quarters(ONES, 1) == 0x0FFF_FFFF;
    assert Quarters(ONES, 2) == 0x00FF_FFFF;
    assert Quarters(ONES, 3) == 0x000F_FFFF;
    assert Quarters(ONES, 4) == 0x0000_FFFF;
    assert Quarters(ONES, 5) == 0x0000_0FFF;
    assert Quarters(ONES, 6) == 0x0000_00FF;
    assert Nibble(Quarters(ONES, k)) == [true, true, true, true];
  }

  // ----- registers as polynomials -----

  lemma InRegisterPoly(c: bv32, e: nat)
    ensures e in RegisterPoly(c) <==> e < 32 && BitAt(c, 31 - e)
  {}

  lemma {:induction false} InOnes(n: nat, e: nat)
    ensures e in Ones(n) <==> e < n
    decreases n
  {
    if n > 0 {
      InOnes(n - 1, e);
    }
  }

  lemma OnesPoly()
    ensures RegisterPoly(ONES) == AllOnes()
  {
    hide BitAt, RegisterPoly, Ones;
    forall e: nat ensures e in RegisterPoly(ONES) <==> e in AllOnes() {
      InRegisterPoly(ONES, e);
      InOnes(32, e);
      if e < 32 {
        OnesAre(31 - e);
      }
    }
  }

  lemma PlusPoly(a: bv32, b: bv32)
    ensures RegisterPoly(Plus(a, b)) == Add(RegisterPoly(a), RegisterPoly(b))
  {
    hide BitAt, RegisterPoly, Plus;
    forall e: nat ensures e in RegisterPoly(Plus(a, b)) <==> e in Add(RegisterPoly(a), RegisterPoly(b)) {
      InRegisterPoly(Plus(a, b), e);
      InRegisterPoly(a, e);
      InRegisterPoly(b, e);
      if e < 32 {
        BitPlus(a, b, 31 - e);
      }
    }
  }

  lemma ComplementIs(c: bv32)
    ensures Complement(c) == Plus(c, ONES)
  {}

  lemma ComplementPoly(c: bv32)
    ensures RegisterPoly(Complement(c)) == Add(RegisterPoly(c), AllOnes())
  {
    ComplementIs(c);
    PlusPoly(c, ONES);
    OnesPoly();
    hide RegisterPoly;
  }

  lemma InBytePoly(b: Byte, e: nat)
    ensures e in BytePoly(b) <==> e < 8 && BitAt(Wide(b), 7 - e)
  {}

  lemma WidePoly(b: Byte)
    ensures RegisterPoly(Wide(b)) == Times(BytePoly(b), 24)
  {
    hide BitAt, RegisterPoly, BytePoly, Wide, Times;
    forall e: nat ensures e in RegisterPoly(Wide(b)) <==> e in Times(BytePoly(b), 24) {
      InRegisterPoly(Wide(b), e);
      InTimes(BytePoly(b), 24, e);
      if e >= 24 {
        InBytePoly(b, e - 24);
      } else {
        BitAboveByte(b, 31 - e);
      }
    }
  }

  // ----- a shift is a multiplication by x -----

  lemma ShiftParts(c: bv32)
    ensures Shift(c) == if Low(c) then Plus(Half(c), POLY) else Half(c)
  {
    hide Shift;
    LowBit(c);
    ShiftIs(c);
  }

  /** Multiplying by x and taking the generator out when x^32 appears. */
  lemma ShiftPoly(c: bv32)
    ensures Times(RegisterPoly(c), 1) == Add(RegisterPoly(Shift(c)), if Low(c) then GENERATOR else {})
  {
    ShiftParts(c);
    hide Half, Low, Shift, Plus, RegisterPoly, Times;
    forall e: nat
      ensures e in Times(RegisterPoly(c), 1) <==>
        e in Add(RegisterPoly(Shift(c)), if Low(c) then GENERATOR else {})
    {
      InTimes(RegisterPoly(c), 1, e);
      InRegisterPoly(Shift(c), e);
      if e > 0 {
        InRegisterPoly(c, e - 1);
      } else {
        BitAbove(c);
      }
      if e < 32 {
        PolyIs(e);
        BitPlus(Half(c), POLY, 31 - e);
        assert BitAt(c, 32 - e) == BitAt(Half(c), 31 - e);
      }
    }
  }

  lemma ShiftCongruent(c: bv32)
    ensures Congruent(Times(RegisterPoly(c), 1), RegisterPoly(Shift(c)))
  {
    ShiftPoly(c);
    hide RegisterPoly, Times, Shift, Low;
    var g := if Low(c) then GENERATOR else {};
    var q := [Low(c)];
    MultipleNext([], Low(c));
    EmptyMultiple();
    TimesNothing(1);
    assert [] + q == q;
    assert Multiple(q) == g;
    assert Add(Add(RegisterPoly(Shift(c)), g), RegisterPoly(Shift(c))) == g;
  }

  lemma {:induction false} ShiftTimesCongruent(c: bv32, n: nat)
    ensures Congruent(Times(RegisterPoly(c), n), RegisterPoly(ShiftTimes(c, n)))
    decreases n
  {
    hide RegisterPoly, Times, Shift, Congruent;
    var p := RegisterPoly(c);
    if n == 0 {
      TimesZero(p);
      CongruentSelf(p);
    } else {
      var d := ShiftTimes(c, n - 1);
      ShiftTimesCongruent(c, n - 1);
      CongruentTimes(Times(p, n - 1), RegisterPoly(d), 1);
      TimesTimes(p, n - 1, 1);
      ShiftCongruent(d);
      CongruentTransitive(Times(p, n), Times(RegisterPoly(d), 1), RegisterPoly(Shift(d)));
    }
  }

  /** Feeding a byte appends its eight coefficients. */
  lemma FeedCongruent(c: bv32, b: Byte)
    ensures Congruent(Add(Times(RegisterPoly(c), 8), Times(BytePoly(b), 32)), RegisterPoly(Feed(c, b)))
  {
    hide RegisterPoly, BytePoly, Times, ShiftTimes, Plus, Wide, Congruent;
    PlusPoly(c, Wide(b));
    WidePoly(b);
    TimesAdd(RegisterPoly(c), Times(BytePoly(b), 24), 8);
    TimesTimes(BytePoly(b), 24, 8);
    ShiftTimesCongruent(Plus(c, Wide(b)), 8);
  }

  // ----- the whole message -----

  lemma AppendPoly(m: Poly, b: Poly, ones: Poly, n: nat)
    ensures Add(Times(Add(Times(m, 8), b), 32), Times(ones, n + 8))
         == Add(Times(Add(Times(m, 32), Times(ones, n)), 8), Times(b, 32))
  {
    hide Times, Add;
    TimesAdd(Times(m, 8), b, 32);
    TimesTimes(m, 8, 32);
    TimesTimes(m, 32, 8);
    TimesAdd(Times(m, 32), Times(ones, n), 8);
    TimesTimes(ones, n, 8);
    SwapLast(Times(m, 40), Times(b, 32), Times(ones, n + 8));
  }

  lemma SwapLast(a: Poly, b: Poly, c: Poly)
    ensures Add(Add(a, b), c) == Add(Add(a, c), b)
  {}

  lemma MessageNext(data: seq<Byte>, b: Byte)
    ensures MessagePoly(data + [b]) == Add(Times(MessagePoly(data), 8), BytePoly(b))
  {
    assert (data + [b])[..|data|] == data;
    hide BytePoly, Times, Add;
  }

  lemma DividendNext(data: seq<Byte>, b: Byte)
    ensures Dividend(data + [b]) == Add(Times(Dividend(data), 8), Times(BytePoly(b), 32))
  {
    MessageNext(data, b);
    hide BytePoly, Times, Add, MessagePoly, AllOnes, Ones;
    AppendPoly(MessagePoly(data), BytePoly(b), AllOnes(), 8 * |data|);
    assert 8 * |data + [b]| == 8 * |data| + 8;
  }

  lemma DividendEmpty()
    ensures Dividend([]) == AllOnes()
  {
    TimesNothing(32);
    TimesZero(AllOnes());
  }

  lemma FeedLast(c: bv32, data: seq<Byte>, b: Byte)
    ensures Register(c, data + [b]) == Feed(Register(c, data), b)
  {
    RegisterAppend(c, data, [b]);
    hide Feed;
    var r := Register(c, data);
    assert [b][1..] == [];
    assert Register(r, [b]) == Register(Feed(r, b), []);
  }

  /** The register is the dividend modulo the generator. */
  lemma {:induction false} RegisterCongruent(data: seq<Byte>)
    ensures Congruent(Dividend(data), RegisterPoly(Register(ONES, data)))
    decreases |data|
  {
    hide Dividend, RegisterPoly, BytePoly, Times, Congruent, Feed;
    if |data| == 0 {
      assert data == [];
      DividendEmpty();
      OnesPoly();
      CongruentSelf(AllOnes());
    } else {
      var front, b := data[..|data| - 1], data[|data| - 1];
      assert data == front + [b];
      hide Register, Add;
      RegisterCongruent(front);
      DividendNext(front, b);
      FeedLast(ONES, front, b);
      var c := Register(ONES, front);
      CongruentTimes(Dividend(front), RegisterPoly(c), 8);
      CongruentAdd(Times(Dividend(front), 8), Times(RegisterPoly(c), 8), Times(BytePoly(b), 32));
      FeedCongruent(c, b);
      CongruentTransitive(Dividend(data),
                          Add(Times(RegisterPoly(c), 8), Times(BytePoly(b), 32)), RegisterPoly(Feed(c, b)));
    }
  }

  lemma NoBits(c: bv32)
    requires Quarter(c) == 0 && Nibble(c) == [false, false, false, false]
    ensures c == 0
  {}

  lemma {:induction false} ZeroBits(c: bv32, n: nat)
    requires Quarters(c, n) == 0
    requires forall i: nat :: i < 32 ==> !BitAt(c, i)
    requires n <= 8
    ensures c == 0
    decreases n
  {
    hide BitAt, Quarter, Nibble;
    if n > 0 {
      var d := Quarters(c, n - 1);
      BitUnder4(d, 0);
      BitUnder(c, n - 1, 0);
      BitUnder(c, n - 1, 1);
      BitUnder(c, n - 1, 2);
      BitUnder(c, n - 1, 3);
      NoBits(d);
      ZeroBits(c, n - 1);
    }
  }

  lemma PlusZero(a: bv32, b: bv32)
    ensures Plus(a, b) == 0 <==> a == b
  {}

  /** Equal polynomials are equal registers. */
  lemma SameBits(a: bv32, b: bv32)
    requires RegisterPoly(a) == RegisterPoly(b)
    ensures a == b
  {
    var d := Plus(a, b);
    hide BitAt, RegisterPoly, Plus;
    forall i: nat | i < 32 ensures !BitAt(d, i) {
      BitPlus(a, b, i);
      InRegisterPoly(a, 31 - i);
      InRegisterPoly(b, 31 - i);
      assert 31 - (31 - i) == i;
    }
    EightQuarters(d);
    ZeroBits(d, 8);
    PlusZero(a, b);
  }

  /** A word is the CRC of a message exactly when it is what the loop computes. */
  lemma CrcIsRemainder(data: seq<Byte>, crc: bv32)
    ensures IsCrc(data, crc) <==> crc == Crc32(data)
  {
    hide Dividend, RegisterPoly, Congruent, Register, Complement;
    var c := Register(ONES, data);
    RegisterCongruent(data);
    ComplementPoly(c);
    assert Add(Add(RegisterPoly(c), AllOnes()), AllOnes()) == RegisterPoly(c);
    forall e | e in RegisterPoly(c) ensures e < 32 {
      InRegisterPoly(c, e);
    }
    if IsCrc(data, crc) {
      var r := Add(RegisterPoly(crc), AllOnes());
      RemainderUnique(Dividend(data), r, RegisterPoly(c));
      assert Add(r, AllOnes()) == RegisterPoly(crc);
      SameBits(crc, Crc32(data));
    }
  }

  // ----- the loop -----

  /** `crc32`. */
  method ComputeCrc32(data: seq<Byte>) returns (r: bv32)
    ensures r == Crc32(data)
    ensures IsCrc(data, r)
  {
    hide Shift, Plus, Wide, IsCrc;
    var i := 0;
    var crc := ONES;
    while i < |data|
      invariant 0 <= i <= |data|
      invariant Register(crc, data[i..]) == Register(ONES, data)
    {
      ghost var start := crc;
      crc := Plus(crc, Wide(data[i]));
      ghost var mixed := crc;
      var j: int := 7;
      while j >= 0
        invariant -1 <= j <= 7
        invariant crc == ShiftTimes(mixed, 7 - j)
      {
        crc := Shift(crc);
        j := j - 1;
      }
      assert crc == Feed(start, data[i]);
      assert data[i..][1..] == data[i + 1..];
      i := i + 1;
    }
    assert data[i..] == [];
    r := Complement(crc);
    CrcIsRemainder(data, r);
  }

  // ----- a published value -----

  lemma FeedsOfDigits()
    ensures Feed(0xFFFF_FFFF, 0x31) == 0x7C23_1048
    ensures Feed(0x7C23_1048, 0x32) == 0xB0AC_BB32
    ensures Feed(0xB0AC_BB32, 0x33) == 0x77B7_9C2D
    ensures Feed(0x77B7_9C2D, 0x34) == 0x641C_1F5C
    ensures Feed(0x641C_1F5C, 0x35) == 0x340A_C5E3
    ensures Feed(0x340A_C5E3, 0x36) == 0xF68D_2C9E
    ensures Feed(0xF68D_2C9E, 0x37) == 0xAFFC_9660
    ensures Feed(0xAFFC_9660, 0x38) == 0x651F_2550
    ensures Feed(0x651F_2550, 0x39) == 0x340B_C6D9
  {
    forall x: bv32 ensures ShiftTimes(x, 8) == Shift(Shift(Shift(Shift(Shift(Shift(Shift(Shift(x)))))))) {
      EightShifts(x);
    }
    hide ShiftTimes;
  }

  /** The check value every CRC-32 catalogue lists: that of the ASCII digits 1 to 9. */
  lemma CheckValue()
    ensures Crc32([0x31, 0x32, 0x33, 0x34, 0x35, 0x36, 0x37, 0x38, 0x39]) == 0xCBF4_3926
  {
    FeedsOfDigits();
    hide Feed;
    var data: seq<Byte> := [0x31, 0x32, 0x33, 0x34, 0x35, 0x36, 0x37, 0x38, 0x39];
    assert data[1..][1..] == data[2..];
    assert data[2..][1..] == data[3..];
    assert data[3..][1..] == data[4..];
    assert data[4..][1..] == data[5..];
    assert data[5..][1..] == data[6..];
    assert data[6..][1..] == data[7..];
    assert data[7..][1..] == data[8..];
    assert data[8..][1..] == data[9..];
    assert Register(0x651F_2550, data[8..]) == 0x340B_C6D9;
    assert Register(0xAFFC_9660, data[7..]) == 0x340B_C6D9;
    assert Register(0xF68D_2C9E, data[6..]) == 0x340B_C6D9;
    assert Register(0x340A_C5E3, data[5..]) == 0x340B_C6D9;
    assert Register(0x641C_1F5C, data[4..]) == 0x340B_C6D9;
    assert Register(0x77B7_9C2D, data[3..]) == 0x340B_C6D9;
    assert Register(0xB0AC_BB32, data[2..]) == 0x340B_C6D9;
    assert Register(0x7C23_1048, data[1..]) == 0x340B_C6D9;
    assert Register(0xFFFF_FFFF, data[0..]) == 0x340B_C6D9;
    assert data[0..] == data;
  }
}
