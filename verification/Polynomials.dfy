/** Polynomials over GF(2) as the sets of their exponents, and division by the CRC-32 generator. */
module Polynomials {

  type Poly = set<nat>

  /** x^32 + x^26 + x^23 + x^22 + x^16 + x^12 + x^11 + x^10 + x^8 + x^7 + x^5 + x^4 + x^2 + x + 1. */
  const GENERATOR: Poly := {32, 26, 23, 22, 16, 12, 11, 10, 8, 7, 5, 4, 2, 1, 0}

  function Add(a: Poly, b: Poly): Poly {
    (a - b) + (b - a)
  }

  /** The product with x^k. */
  function Times(p: Poly, k: nat): Poly {
    set e | e in p :: e + k
  }

  /** The product of the generator with a quotient given by its coefficients, highest first. */
  function Multiple(q: seq<bool>): Poly {
    if |q| == 0 then {}
    else Add(Times(Multiple(q[..|q| - 1]), 1), if q[|q| - 1] then GENERATOR else {})
  }

  ghost predicate Congruent(a: Poly, b: Poly) {
    exists q :: Add(a, b) == Multiple(q)
  }

  /** r has degree below 32 and differs from m by a multiple of the generator. */
  ghost predicate IsRemainder(m: Poly, r: Poly) {
    (forall e :: e in r ==> e < 32) && Congruent(m, r)
  }

  // ----- arithmetic -----

  lemma InTimes(p: Poly, k: nat, x: nat)
    ensures x in Times(p, k) <==> x >= k && x - k in p
  {
    if x >= k && x - k in p {
      assert (x - k) + k == x;
    }
  }

  lemma TimesAdd(a: Poly, b: Poly, k: nat)
    ensures Times(Add(a, b), k) == Add(Times(a, k), Times(b, k))
  {
    hide Times;
    forall x: nat ensures x in Times(Add(a, b), k) <==> x in Add(Times(a, k), Times(b, k)) {
      InTimes(Add(a, b), k, x);
      InTimes(a, k, x);
      InTimes(b, k, x);
    }
  }

  lemma TimesTimes(p: Poly, j: nat, k: nat)
    ensures Times(Times(p, j), k) == Times(p, j + k)
  {
    hide Times;
    forall x: nat ensures x in Times(Times(p, j), k) <==> x in Times(p, j + k) {
      InTimes(Times(p, j), k, x);
      if x >= k {
        InTimes(p, j, x - k);
      }
      InTimes(p, j + k, x);
    }
  }

  lemma TimesZero(p: Poly)
    ensures Times(p, 0) == p
  {
    hide Times;
    forall x: nat ensures x in Times(p, 0) <==> x in p {
      InTimes(p, 0, x);
    }
  }

  lemma TimesNothing(k: nat)
    ensures Times({}, k) == {}
  {}

  lemma AddExchanges(a: Poly, b: Poly, c: Poly, d: Poly)
    ensures Add(Add(a, b), Add(c, d)) == Add(Add(a, c), Add(b, d))
  {}

  // ----- multiples of the generator -----

  lemma MultipleNext(q: seq<bool>, b: bool)
    ensures Multiple(q + [b]) == Add(Times(Multiple(q), 1), if b then GENERATOR else {})
  {
    assert (q + [b])[..|q|] == q;
  }

  lemma {:induction false} MultiplePadded(q: seq<bool>)
    ensures Multiple([false] + q) == Multiple(q)
    decreases |q|
  {
    hide Add, Times;
    if |q| == 0 {
      assert [false] + q == [] + [false];
      MultipleNext([], false);
      TimesNothing(1);
      NoChange();
    } else {
      var front, last := q[..|q| - 1], q[|q| - 1];
      assert [false] + q == ([false] + front) + [last];
      MultipleNext([false] + front, last);
      MultiplePadded(front);
    }
  }

  lemma NoChange()
    ensures Add({}, {}) == {}
  {}

  function Padded(q: seq<bool>, n: nat): seq<bool> {
    if n == 0 then q else [false] + Padded(q, n - 1)
  }

  lemma {:induction false} PaddedSame(q: seq<bool>, n: nat)
    ensures |Padded(q, n)| == |q| + n && Multiple(Padded(q, n)) == Multiple(q)
    decreases n
  {
    hide Multiple;
    if n > 0 {
      PaddedSame(q, n - 1);
      MultiplePadded(Padded(q, n - 1));
    }
  }

  function Sum(p: seq<bool>, q: seq<bool>): seq<bool>
    requires |p| == |q|
  {
    seq(|p|, i requires 0 <= i < |p| => p[i] != q[i])
  }

  lemma {:induction false} MultipleSum(p: seq<bool>, q: seq<bool>)
    requires |p| == |q|
    ensures Multiple(Sum(p, q)) == Add(Multiple(p), Multiple(q))
    decreases |p|
  {
    hide Times, Add;
    if |p| == 0 {
      NoChange();
    } else {
      var n := |p| - 1;
      MultipleSum(p[..n], q[..n]);
      assert Sum(p, q)[..n] == Sum(p[..n], q[..n]);
      var a, b := Times(Multiple(p[..n]), 1), Times(Multiple(q[..n]), 1);
      var c, d := if p[n] then GENERATOR else {}, if q[n] then GENERATOR else {};
      TimesAdd(Multiple(p[..n]), Multiple(q[..n]), 1);
      AddExchanges(a, b, c, d);
      TermSum(p[n], q[n]);
    }
  }

  lemma TermSum(p: bool, q: bool)
    ensures Add(if p then GENERATOR else {}, if q then GENERATOR else {}) == if p != q then GENERATOR else {}
  {}

  lemma MultiplesAdd(p: seq<bool>, q: seq<bool>) returns (s: seq<bool>)
    ensures Multiple(s) == Add(Multiple(p), Multiple(q))
  {
    PaddedSame(p, |q|);
    PaddedSame(q, |p|);
    s := Sum(Padded(p, |q|), Padded(q, |p|));
    MultipleSum(Padded(p, |q|), Padded(q, |p|));
  }

  // ----- congruence -----

  lemma CongruentSelf(a: Poly)
    ensures Congruent(a, a)
  {
    assert Add(a, a) == Multiple([]);
  }

  lemma CongruentTransitive(a: Poly, b: Poly, c: Poly)
    requires Congruent(a, b) && Congruent(b, c)
    ensures Congruent(a, c)
  {
    var p :| Add(a, b) == Multiple(p);
    var q :| Add(b, c) == Multiple(q);
    var s := MultiplesAdd(p, q);
    assert Add(Add(a, b), Add(b, c)) == Add(a, c);
  }

  lemma CongruentAdd(a: Poly, b: Poly, c: Poly)
    requires Congruent(a, b)
    ensures Congruent(Add(a, c), Add(b, c))
  {
    var q :| Add(a, b) == Multiple(q);
    assert Add(Add(a, c), Add(b, c)) == Add(a, b);
  }

  lemma {:induction false} CongruentTimes(a: Poly, b: Poly, k: nat)
    requires Congruent(a, b)
    ensures Congruent(Times(a, k), Times(b, k))
    decreases k
  {
    hide Times, Add;
    if k == 0 {
      TimesZero(a);
      TimesZero(b);
    } else {
      CongruentTimes(a, b, k - 1);
      var c, d := Times(a, k - 1), Times(b, k - 1);
      var q :| Add(c, d) == Multiple(q);
      TimesAdd(c, d, 1);
      TimesTimes(a, k - 1, 1);
      TimesTimes(b, k - 1, 1);
      MultipleNext(q, false);
      AddNothing(Times(Multiple(q), 1));
    }
  }

  lemma AddNothing(a: Poly)
    ensures Add(a, {}) == a
  {}

  // ----- the remainder is unique -----

  /** A multiple with a nonzero quotient has degree at least 32. */
  lemma {:induction false} LeadingTerm(q: seq<bool>)
    requires |q| > 0 && q[0]
    ensures |q| + 31 in Multiple(q)
    ensures forall e :: e in Multiple(q) ==> e < |q| + 32
    decreases |q|
  {
    var n := |q| - 1;
    var front, last := q[..n], q[n];
    assert q == front + [last];
    MultipleNext(front, last);
    GeneratorDegree();
    hide Multiple, Times;
    if n == 0 {
      EmptyMultiple();
      TimesNothing(1);
    } else {
      LeadingTerm(front);
      InTimes(Multiple(front), 1, n + 32);
      forall e | e in Multiple(q) ensures e < |q| + 32 {
        InTimes(Multiple(front), 1, e);
      }
    }
  }

  lemma GeneratorDegree()
    ensures 32 in GENERATOR && forall e :: e in GENERATOR ==> e <= 32
  {}

  lemma EmptyMultiple()
    ensures Multiple([]) == {}
  {}

  lemma {:induction false} SmallMultiple(q: seq<bool>)
    requires forall e :: e in Multiple(q) ==> e < 32
    ensures Multiple(q) == {}
    decreases |q|
  {
    if |q| > 0 {
      if q[0] {
        LeadingTerm(q);
      } else {
        assert q == [false] + q[1..];
        MultiplePadded(q[1..]);
        SmallMultiple(q[1..]);
      }
    }
  }

  lemma RemainderUnique(m: Poly, r: Poly, s: Poly)
    requires IsRemainder(m, r) && IsRemainder(m, s)
    ensures r == s
  {
    var p :| Add(m, r) == Multiple(p);
    var q :| Add(m, s) == Multiple(q);
    var d := MultiplesAdd(p, q);
    assert Add(Add(m, r), Add(m, s)) == Add(r, s);
    SmallMultiple(d);
    assert Add(r, s) == {};
  }
}
