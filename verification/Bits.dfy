/** Unsigned machine words as naturals, with the C++ bit operators defined bit by bit and
    the arithmetic they amount to proved about those definitions. */
module Bits {
  import opened Widths

  function Pow2(k: nat): (r: nat)
    ensures r >= 1
  {
    if k == 0 then 1 else 2 * Pow2(k - 1)
  }

  ghost predicate IsPow2(x: nat) {
    exists k: nat :: x == Pow2(k)
  }

  /** Bitwise `x & y`. */
  function And(x: nat, y: nat): (r: nat)
    ensures r <= x
  {
    if x == 0 || y == 0 then 0
    else 2 * And(x / 2, y / 2) + (if x % 2 == 1 && y % 2 == 1 then 1 else 0)
  }

  /** Bitwise `x | y`. */
  function Or(x: nat, y: nat): nat
    decreases x + y
  {
    if x == 0 then y
    else if y == 0 then x
    else 2 * Or(x / 2, y / 2) + (if x % 2 == 1 || y % 2 == 1 then 1 else 0)
  }

  /** Bitwise `~x` on 64 bits. */
  function Not64(x: Word): Word {
    TWO64 - 1 - x
  }

  lemma Pow2Of64()
    ensures Pow2(64) == TWO64
    ensures Pow2(52) == 0x10_0000_0000_0000
    ensures Pow2(12) == 4096
    ensures Pow2(4) == 16
    ensures Pow2(3) == 8
  {
    assert Pow2(12) == 4096;
    assert Pow2(24) == 4096 * 4096;
    assert Pow2(36) == 4096 * 4096 * 4096;
    assert Pow2(48) == 4096 * 4096 * 4096 * 4096;
    assert Pow2(60) == 4096 * 4096 * 4096 * 4096 * 4096;
  }

  lemma {:induction false} Pow2Monotone(j: nat, k: nat)
    requires j <= k
    ensures Pow2(j) <= Pow2(k)
    ensures j < k ==> 2 * Pow2(j) <= Pow2(k)
    decreases k
  {
    if j < k {
      Pow2Monotone(j, k - 1);
    }
  }

  /** Halving both sides of a remainder by an even divisor. */
  lemma HalfMod(x: nat, d: nat)
    requires d > 0
    ensures x % (2 * d) == 2 * ((x / 2) % d) + x % 2
  {
    var h := x / 2;
    var q := h / d;
    assert h == d * q + h % d;
    var r := 2 * (h % d) + x % 2;
    assert x == (2 * d) * q + r;
    RemainderIs(x, 2 * d, q, r);
  }

  lemma MulAtLeast(d: int, e: int)
    requires d >= 0
    ensures e >= 1 ==> d * e >= d
    ensures e <= -1 ==> d * e <= -d
  {
    if e >= 1 {
      assert d * e == d * (e - 1) + d;
    } else if e <= -1 {
      assert d * e == d * (e + 1) - d;
      assert d * (e + 1) == -(d * (-e - 1));
    }
  }

  lemma RemainderIs(x: nat, d: nat, q: nat, r: nat)
    requires d > 0 && r < d && x == d * q + r
    ensures x / d == q && x % d == r
  {
    var e := q - x / d;
    assert d * e == d * q - d * (x / d);
    MulAtLeast(d, e);
  }

  /** The number the low k bits of x make. */
  function LowBits(x: nat, k: nat): nat {
    if k == 0 then 0 else 2 * LowBits(x / 2, k - 1) + x % 2
  }

  lemma {:induction false} LowBitsIs(x: nat, k: nat)
    ensures LowBits(x, k) == x % Pow2(k)
    decreases k
  {
    if k > 0 {
      LowBitsIs(x / 2, k - 1);
      HalfMod(x, Pow2(k - 1));
    }
  }

  lemma {:induction false} LowBitsAll(x: nat, k: nat)
    requires x < Pow2(k)
    ensures LowBits(x, k) == x
    decreases k
  {
    if k > 0 {
      LowBitsAll(x / 2, k - 1);
    }
  }

  lemma {:induction false} AndLowBits(x: nat, k: nat)
    ensures And(x, Pow2(k) - 1) == LowBits(x, k)
    decreases k
  {
    if k > 0 {
      AndLowBits(x / 2, k - 1);
      assert (Pow2(k) - 1) / 2 == Pow2(k - 1) - 1;
    }
  }

  lemma {:induction false} AndHighBits(x: nat, k: nat, w: nat)
    requires k <= w && x < Pow2(w)
    ensures Pow2(k) <= Pow2(w) && And(x, Pow2(w) - Pow2(k)) == x - LowBits(x, k)
    decreases k
  {
    Pow2Monotone(k, w);
    if k == 0 {
      hide And;
      AndLowBits(x, w);
      LowBitsAll(x, w);
    } else {
      AndHighBits(x / 2, k - 1, w - 1);
      assert (Pow2(w) - Pow2(k)) / 2 == Pow2(w - 1) - Pow2(k - 1);
    }
  }

  /** `x & (2^k - 1)` keeps the low k bits. */
  lemma AndLowOnes(x: nat, k: nat)
    ensures And(x, Pow2(k) - 1) == x % Pow2(k)
  {
    hide *;
    AndLowBits(x, k);
    LowBitsIs(x, k);
  }

  /** `x & (2^w - 2^k)` clears the low k bits of a w-bit number. */
  lemma AndHighOnes(x: nat, k: nat, w: nat)
    requires k <= w && x < Pow2(w)
    ensures Pow2(k) <= Pow2(w) && And(x, Pow2(w) - Pow2(k)) == x - x % Pow2(k)
  {
    hide *;
    AndHighBits(x, k, w);
    LowBitsIs(x, k);
  }

  lemma Pow2Double(k: nat)
    requires k > 0
    ensures Pow2(k) == 2 * Pow2(k - 1)
  {}

  /** The mask idiom `x & ~(b - 1)` rounds down to a multiple of a power of two b. */
  lemma AlignDown(x: Word, b: nat)
    requires IsPow2(b) && b <= TWO64
    ensures And(x, Not64(b - 1)) == x - x % b
  {
    var k: nat :| b == Pow2(k);
    Pow2Of64();
    if k > 64 { Pow2Monotone(64, k); }
    assert Not64(b - 1) == Pow2(64) - b;
    hide *;
    AndHighOnes(x, k, 64);
  }

  lemma AndSelf(x: nat)
    ensures And(x, x) == x
  {}

  /** The test `b & (b - 1)` is zero exactly for powers of two. */
  lemma {:induction false} PowerOfTwoTest(b: nat)
    requires b > 0
    ensures And(b, b - 1) == 0 <==> IsPow2(b)
  {
    if b == 1 {
      assert Pow2(0) == 1;
    } else if b % 2 == 0 {
      hide IsPow2;
      PowerOfTwoTest(b / 2);
      EvenTest(b);
    } else {
      hide IsPow2;
      OddTest(b);
    }
  }

  lemma EvenTest(b: nat)
    requires b > 0 && b % 2 == 0
    ensures And(b, b - 1) == 0 <==> And(b / 2, b / 2 - 1) == 0
    ensures IsPow2(b) <==> IsPow2(b / 2)
  {
    assert (b - 1) / 2 == b / 2 - 1;
    assert And(b, b - 1) == 2 * And(b / 2, (b - 1) / 2);
    hide And;
    if IsPow2(b / 2) {
      var k: nat :| b / 2 == Pow2(k);
      assert b == Pow2(k + 1);
    }
    if IsPow2(b) {
      var k: nat :| b == Pow2(k);
      assert b / 2 == Pow2(k - 1);
    }
  }

  lemma OddTest(b: nat)
    requires b > 1 && b % 2 == 1
    ensures And(b, b - 1) != 0 && !IsPow2(b)
  {
    AndSelf(b / 2);
    assert (b - 1) / 2 == b / 2;
    assert And(b, b - 1) == 2 * And(b / 2, b / 2);
    hide And;
    forall k: nat ensures b != Pow2(k) {
      if k > 0 {
        Pow2Double(k);
      }
    }
  }

  /** Or-ing a number below 2^k into a multiple of 2^k is addition. */
  lemma {:induction false} OrDisjoint(x: nat, y: nat, k: nat)
    requires x % Pow2(k) == 0 && y < Pow2(k)
    ensures Or(x, y) == x + y
    decreases k
  {
    if k > 0 && x > 0 && y > 0 {
      HalfMod(x, Pow2(k - 1));
      OrDisjoint(x / 2, y / 2, k - 1);
    }
  }

  lemma {:induction false} OrCommutes(x: nat, y: nat)
    ensures Or(x, y) == Or(y, x)
    decreases x + y
  {
    if x > 0 && y > 0 {
      OrCommutes(x / 2, y / 2);
    }
  }

  /** A power of two divides every larger power of two. */
  lemma {:induction false} Pow2Divides(j: nat, k: nat)
    requires j <= k
    ensures Pow2(k) % Pow2(j) == 0
    ensures Pow2(k) == Pow2(j) * Pow2(k - j)
    decreases k - j
  {
    if j < k {
      Pow2Divides(j, k - 1);
      var q := Pow2(k - 1 - j);
      assert Pow2(k) == Pow2(j) * (2 * q) by {
        assert 2 * (Pow2(j) * q) == Pow2(j) * (2 * q);
      }
      RemainderIs(Pow2(k), Pow2(j), 2 * q, 0);
    } else {
      RemainderIs(Pow2(k), Pow2(j), 1, 0);
    }
  }

  lemma MultipleTransitive(x: nat, a: nat, b: nat)
    requires a > 0 && b > 0 && x % b == 0 && b % a == 0
    ensures x % a == 0
  {
    var q, p := x / b, b / a;
    assert x == b * q && b == a * p;
    assert x == a * (p * q) by { assert (a * p) * q == a * (p * q); }
    RemainderIs(x, a, p * q, 0);
  }
}
