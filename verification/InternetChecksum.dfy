/** The Internet checksum (RFC 1071) as the network code computes it: a 32-bit sum of
    little-endian 16-bit words, folded to 16 bits and complemented. */
module InternetChecksum {
  import opened Widths

  /** Longest message whose 32-bit sum cannot overflow. */
  const MAX_BYTES: nat := 131074

  /** Sum of the words, an odd last byte counting as a low byte. */
  function WordSum(d: seq<Octet>): nat
    decreases |d|
  {
    if |d| == 0 then 0
    else if |d| == 1 then d[0]
    else d[0] + 256 * d[1] + WordSum(d[2..])
  }

  function FoldOnce(s: nat): nat {
    s % 0x1_0000 + s / 0x1_0000
  }

  /** The folding loop. */
  function Fold(s: nat): U16
    decreases s
  {
    if s < 0x1_0000 then s else Fold(FoldOnce(s))
  }

  /** `checksum`, with the sum kept in 32 bits. */
  function Checksum(d: seq<Octet>): U16 {
    0xFFFF - Fold(WordSum(d) % TWO32)
  }

  // ----- the sum -----

  lemma {:induction false} SumBound(d: seq<Octet>)
    ensures WordSum(d) <= 0xFFFF * ((|d| + 1) / 2)
    ensures |d| % 2 == 1 ==> WordSum(d) <= 0xFFFF * (|d| / 2) + 0xFF
    decreases |d|
  {
    if |d| > 1 {
      SumBound(d[2..]);
      SumStep(d);
      hide WordSum;
      assert d[0] + 256 * (d[1] as nat) <= 0xFFFF;
    }
  }

  lemma {:induction false} SumOfOnes(d: seq<Octet>)
    requires forall i :: 0 <= i < |d| ==> d[i] == 0xFF
    ensures WordSum(d) == 0xFFFF * (|d| / 2) + (if |d| % 2 == 1 then 0xFF else 0)
    decreases |d|
  {
    if |d| > 1 {
      SumOfOnes(d[2..]);
    }
  }

  /** The 32-bit sum of messages of length n is exact for all of them if and only if n is at
      most 131074. */
  lemma NoOverflowIff(n: nat)
    ensures n <= MAX_BYTES <==> forall d: seq<Octet> :: |d| == n ==> WordSum(d) < TWO32
  {
    if n <= MAX_BYTES {
      forall d: seq<Octet> | |d| == n ensures WordSum(d) < TWO32 {
        SumBound(d);
      }
    } else {
      var d: seq<Octet> := seq(n, i => 0xFF);
      SumOfOnes(d);
      assert WordSum(d) >= TWO32;
    }
  }

  /** Sums over a split at an even offset add. */
  lemma {:induction false} SumAppend(a: seq<Octet>, b: seq<Octet>)
    requires |a| % 2 == 0
    ensures WordSum(a + b) == WordSum(a) + WordSum(b)
    decreases |a|
  {
    if |a| == 0 {
      assert a + b == b;
    } else {
      SumAppend(a[2..], b);
      assert (a + b)[2..] == a[2..] + b;
    }
  }

  /** Exchanging two even-length pieces at even offsets leaves the sum alone. */
  lemma SumExchange(a: seq<Octet>, x: seq<Octet>, y: seq<Octet>, b: seq<Octet>)
    requires |a| % 2 == 0 && |x| % 2 == 0 && |y| % 2 == 0
    ensures WordSum(a + x + y + b) == WordSum(a + y + x + b)
  {
    hide WordSum;
    SumAppend(a + x + y, b);
    SumAppend(a + x, y);
    SumAppend(a, x);
    SumAppend(a + y + x, b);
    SumAppend(a + y, x);
    SumAppend(a, y);
  }

  // ----- folding -----

  lemma FoldOnceKeeps(s: nat)
    ensures FoldOnce(s) % 0xFFFF == s % 0xFFFF
    ensures s == 0 <==> FoldOnce(s) == 0
    ensures s >= 0x1_0000 ==> FoldOnce(s) < s
  {
    var q := s / 0x1_0000;
    assert s == FoldOnce(s) + 0xFFFF * q;
    assert (FoldOnce(s) + 0xFFFF * q) % 0xFFFF == FoldOnce(s) % 0xFFFF;
  }

  /** Folding keeps the residue modulo 65535, and only zero folds to zero. */
  lemma {:induction false} FoldKeeps(s: nat)
    ensures Fold(s) % 0xFFFF == s % 0xFFFF
    ensures Fold(s) == 0 <==> s == 0
    decreases s
  {
    if s >= 0x1_0000 {
      FoldOnceKeeps(s);
      FoldKeeps(FoldOnce(s));
    }
  }

  /** A 32-bit sum needs at most two rounds. */
  lemma TwoRounds(s: nat)
    requires s < TWO32
    ensures FoldOnce(FoldOnce(s)) < 0x1_0000
    ensures Fold(s) == s || Fold(s) == FoldOnce(s) || Fold(s) == FoldOnce(FoldOnce(s))
  {}

  /** A sum and the complement of its fold together fold to all ones. */
  lemma ComplementFolds(s: nat)
    ensures Fold(s + (0xFFFF - Fold(s))) == 0xFFFF
  {
    hide Fold;
    var f := Fold(s);
    var t := s + (0xFFFF - f);
    FoldKeeps(s);
    FoldKeeps(t);
    SameResidue(s, f);
    FoldedMultiple(Fold(t));
  }

  lemma SameResidue(s: nat, f: nat)
    requires f <= 0xFFFF && f % 0xFFFF == s % 0xFFFF
    ensures (s + (0xFFFF - f)) % 0xFFFF == 0
    ensures s == 0 <==> s + (0xFFFF - f) == 0xFFFF - f
  {}

  lemma FoldedMultiple(f: U16)
    requires f % 0xFFFF == 0 && f != 0
    ensures f == 0xFFFF
  {}

  // ----- storing the checksum -----

  /** Store a 16-bit value little-endian. */
  function PutWord(d: seq<Octet>, at: nat, v: U16): seq<Octet>
    requires at + 2 <= |d|
  {
    d[at := v % 256][at + 1 := v / 256]
  }

  lemma SumAfterPut(d: seq<Octet>, at: nat, v: U16)
    requires at + 2 <= |d| && at % 2 == 0 && d[at] == 0 && d[at + 1] == 0
    ensures WordSum(PutWord(d, at, v)) == WordSum(d) + v
  {
    PutParts(d, at, v);
    PutParts(d, at, 0);
    hide *;
    SumOfParts(d[..at], Pair(0), d[at + 2..]);
    SumOfParts(d[..at], Pair(v), d[at + 2..]);
    SumOfPair(0);
    SumOfPair(v);
  }

  /** The two bytes of a 16-bit value. */
  function Pair(v: U16): (s: seq<Octet>)
    ensures |s| == 2
  {
    [v % 256, v / 256]
  }

  lemma PutParts(d: seq<Octet>, at: nat, v: U16)
    requires at + 2 <= |d|
    ensures PutWord(d, at, v) == d[..at] + Pair(v) + d[at + 2..]
    ensures d[at] == 0 && d[at + 1] == 0 ==> PutWord(d, at, 0) == d
  {
    hide WordSum;
  }

  lemma SumOfParts(a: seq<Octet>, m: seq<Octet>, b: seq<Octet>)
    requires |a| % 2 == 0 && |m| % 2 == 0
    ensures WordSum(a + m + b) == WordSum(a) + WordSum(m) + WordSum(b)
  {
    hide WordSum;
    SumAppend(a + m, b);
    SumAppend(a, m);
  }

  lemma SumOfPair(v: U16)
    ensures WordSum(Pair(v)) == v
  {
    assert Pair(v)[2..] == [];
  }

  /** A checksum stored in its zeroed aligned field makes the recomputed checksum zero. */
  lemma StoredChecksumVerifies(d: seq<Octet>, at: nat)
    requires |d| <= MAX_BYTES && at + 2 <= |d| && at % 2 == 0 && d[at] == 0 && d[at + 1] == 0
    ensures Checksum(PutWord(d, at, Checksum(d))) == 0
  {
    ChecksumIs(d);
    ChecksumIs(PutWord(d, at, Checksum(d)));
    SumAfterPut(d, at, Checksum(d));
    hide WordSum, Fold, Checksum, PutWord;
    ComplementFolds(WordSum(d));
  }

  /** Up to the bound the 32-bit wrap-around never shows. */
  lemma ChecksumIs(d: seq<Octet>)
    requires |d| <= MAX_BYTES
    ensures Checksum(d) == 0xFFFF - Fold(WordSum(d))
  {
    hide WordSum, Fold;
    SumBound(d);
    SmallMod(WordSum(d));
  }

  // ----- what RFC 1071 asks for -----

  /** The bytes read as one big-endian number. */
  function Number(d: seq<Octet>): nat
    decreases |d|
  {
    if |d| == 0 then 0 else 256 * Number(d[..|d| - 1]) + d[|d| - 1]
  }

  function Padded(d: seq<Octet>): seq<Octet> {
    if |d| % 2 == 1 then d + [0] else d
  }

  /** The big-endian value of a 16-bit field stored little-endian. */
  function Wire(c: U16): U16 {
    256 * (c % 256) + c / 256
  }

  /** The one's complement of the one's complement sum of the message's big-endian words, a
      message of odd length padded with a zero: added to it the message is a multiple of 65535,
      and all ones stands for an all-zero message only. */
  predicate IsInternetChecksum(d: seq<Octet>, w: U16) {
    && (Number(Padded(d)) + w) % 0xFFFF == 0
    && (w == 0xFFFF <==> Number(Padded(d)) == 0)
  }

  lemma SumOfPadded(d: seq<Octet>)
    ensures WordSum(Padded(d)) == WordSum(d)
  {
    if |d| % 2 == 1 {
      var n := |d| - 1;
      SumAppend(d[..n], [d[n]]);
      SumAppend(d[..n], [d[n], 0]);
      assert d == d[..n] + [d[n]] && d + [0] == d[..n] + [d[n], 0];
      SumOfOne(d[n]);
      SumOfTwo(d[n], 0);
    }
  }

  lemma SumOfTwo(x: Octet, y: Octet)
    ensures WordSum([x, y]) == x + 256 * y
  {
    assert [x, y][2..] == [];
  }

  lemma NumberOfTwo(d: seq<Octet>, x: Octet, y: Octet)
    ensures Number(d + [x, y]) == 0x1_0000 * Number(d) + 256 * x + y
  {
    var s := d + [x, y];
    assert s[..|s| - 1] == d + [x] && (d + [x])[..|d|] == d;
  }

  /** Exchanging the bytes of every word multiplies the sum by 256 modulo 65535. */
  lemma {:induction false} NumberIs(d: seq<Octet>) returns (k: int)
    requires |d| % 2 == 0
    ensures Number(d) == 256 * WordSum(d) + 0xFFFF * k
    ensures Number(d) == 0 <==> WordSum(d) == 0
    decreases |d|
  {
    if |d| == 0 {
      k := 0;
    } else {
      var n := |d| - 2;
      var front, x, y := d[..n], d[n], d[n + 1];
      assert d == front + [x, y];
      hide Number, WordSum;
      var k0 := NumberIs(front);
      NumberOfTwo(front, x, y);
      SumAppend(front, [x, y]);
      SumOfTwo(x, y);
      k := k0 + Number(front) - y;
    }
  }

  lemma WireIs(c: U16)
    ensures Wire(c) + 0xFFFF * (c / 256) == 256 * c
    ensures Wire(c) == 0xFFFF <==> c == 0xFFFF
  {}

  lemma ResidueShift(a: int, k: int)
    ensures (a + 0xFFFF * k) % 0xFFFF == a % 0xFFFF
  {}

  lemma NoResidue(k: int)
    ensures (0xFFFF * k) % 0xFFFF == 0
  {
    ResidueShift(0, k);
  }

  lemma ChecksumFits(d: seq<Octet>)
    requires |d| <= MAX_BYTES
    ensures IsInternetChecksum(d, Wire(Checksum(d)))
  {
    var p, s, c := Padded(d), WordSum(d), Checksum(d);
    SumOfPadded(d);
    ChecksumIs(d);
    FoldKeeps(s);
    hide Number, WordSum, Fold, Padded, Checksum;
    var f := Fold(s);
    assert |p| % 2 == 0 by { PaddedEven(d); }
    var k := NumberIs(p);
    WireIs(c);
    var m := s / 0xFFFF - f / 0xFFFF;
    assert s == f + 0xFFFF * m;
    var total := 256 * (1 + m) + k - c / 256;
    assert Number(p) + Wire(c) == 0xFFFF * total;
    NoResidue(total);
  }

  lemma PaddedEven(d: seq<Octet>)
    ensures |Padded(d)| % 2 == 0
  {}

  lemma SameWire(c: U16, e: U16)
    ensures Wire(c) == Wire(e) <==> c == e
  {
    assert Wire(Wire(c)) == c && Wire(Wire(e)) == e;
  }

  lemma SameResidues(n: nat, v: U16, w: U16)
    requires (n + v) % 0xFFFF == 0 && (n + w) % 0xFFFF == 0 && (v == 0xFFFF <==> w == 0xFFFF)
    ensures v == w
  {
    var a, b := (n + v) / 0xFFFF, (n + w) / 0xFFFF;
    assert v - w == 0xFFFF * (a - b);
  }

  /** On messages whose sum cannot overflow, the stored bytes are the checksum of RFC 1071 and
      no other value is. */
  lemma ChecksumIff(d: seq<Octet>, c: U16)
    requires |d| <= MAX_BYTES
    ensures IsInternetChecksum(d, Wire(c)) <==> c == Checksum(d)
  {
    ChecksumFits(d);
    if IsInternetChecksum(d, Wire(c)) {
      hide Number, Padded, Checksum, Wire;
      SameResidues(Number(Padded(d)), Wire(c), Wire(Checksum(d)));
      SameWire(c, Checksum(d));
    }
  }

  /** The recomputed checksum of a message is zero exactly when the message, read as a number,
      is a nonzero multiple of 65535. */
  lemma VerifiesIff(d: seq<Octet>)
    requires |d| <= MAX_BYTES
    ensures Checksum(d) == 0 <==> Number(Padded(d)) % 0xFFFF == 0 && Number(Padded(d)) != 0
  {
    ChecksumIff(d, 0);
    assert Wire(0) == 0;
    hide Number, Padded, Checksum, Wire;
  }

  // ----- the loop -----

  /** `checksum(&data[from], len)`; a negative length sums nothing. */
  method ComputeChecksum(data: array<Octet>, from: nat, len: int) returns (c: U16)
    requires len > 0 ==> from + len <= data.Length
    ensures c == Checksum(if len > 0 then data[from..from + len] else [])
    ensures len <= MAX_BYTES ==> IsInternetChecksum(if len > 0 then data[from..from + len] else [], Wire(c))
  {
    hide Fold, WordSum, IsInternetChecksum, Wire, Pending;
    ghost var d := if len > 0 then data[from..from + len] else [];
    var sum: nat := 0;
    var left := len;
    var ptr := from;
    PendingAll(d);
    while left > 1
      invariant from <= ptr
      invariant len > 0 ==> 0 <= left && ptr + left == from + len <= data.Length
      invariant len <= 0 ==> left == len
      invariant Pending(sum, if left > 0 then data[ptr..ptr + left] else [], d)
    {
      var low: nat, high: nat := data[ptr], data[ptr + 1];
      var word := low + 256 * high;
      NextWord(sum, data[ptr..ptr + left], d);
      assert data[ptr..ptr + left][2..] == data[ptr + 2..ptr + left];
      sum := (sum + word) % TWO32;
      ptr := ptr + 2;
      left := left - 2;
      assert left == 0 ==> data[ptr..ptr + left] == [];
    }
    if left == 1 {
      assert data[ptr..ptr + 1] == [data[ptr]];
      LastByte(sum, data[ptr], d);
      sum := (sum + data[ptr]) % TWO32;
    }
    PendingNone(sum, d);
    ghost var total := sum;
    while sum >= 0x1_0000
      invariant Fold(sum) == Fold(total)
      decreases sum
    {
      FoldOnceKeeps(sum);
      FoldStep(sum);
      sum := sum % 0x1_0000 + sum / 0x1_0000;
    }
    FoldStep(sum);
    c := 0xFFFF - sum;
    if len <= MAX_BYTES {
      ChecksumFits(d);
    }
  }

  /** The 32-bit sum so far and the rest of the message make up the sum of the whole. */
  ghost predicate Pending(sum: nat, rest: seq<Octet>, whole: seq<Octet>) {
    sum < TWO32 && (sum + WordSum(rest)) % TWO32 == WordSum(whole) % TWO32
  }

  lemma PendingAll(d: seq<Octet>)
    ensures Pending(0, d, d)
  {}

  lemma PendingNone(sum: nat, d: seq<Octet>)
    requires Pending(sum, [], d)
    ensures sum == WordSum(d) % TWO32
  {}

  lemma NextWord(sum: nat, rest: seq<Octet>, d: seq<Octet>)
    requires Pending(sum, rest, d) && |rest| >= 2
    ensures var low: nat, high: nat := rest[0], rest[1];
      Pending((sum + (low + 256 * high)) % TWO32, rest[2..], d)
  {
    SumStep(rest);
    hide WordSum;
    var low: nat, high: nat := rest[0], rest[1];
    WrapAdd(sum, low + 256 * high, WordSum(rest[2..]));
  }

  lemma LastByte(sum: nat, x: Octet, d: seq<Octet>)
    requires Pending(sum, [x], d)
    ensures Pending((sum + x) % TWO32, [], d)
  {
    SumOfOne(x);
    NothingToSum();
    hide WordSum;
    WrapAdd(sum, x, 0);
  }

  lemma NothingToSum()
    ensures WordSum([]) == 0
  {}

  lemma SumOfOne(x: Octet)
    ensures WordSum([x]) == x
  {}

  lemma SumStep(d: seq<Octet>)
    requires |d| >= 2
    ensures WordSum(d) == d[0] + 256 * d[1] + WordSum(d[2..])
  {}

  lemma FoldStep(s: nat)
    ensures Fold(s) == if s < 0x1_0000 then s else Fold(FoldOnce(s))
  {}

  lemma WrapAdd(s: nat, w: nat, rest: nat)
    ensures ((s + w) % TWO32 + rest) % TWO32 == (s + (w + rest)) % TWO32
  {}
}
