/** The address arithmetic of `malloc_align` and `malloc_boundry`. */
module Alignment {
  import opened Widths
  import opened Bits

  const ALIGN_HEADER: nat := 8

  /** `(base + align - 1) & ~(align - 1)`. */
  function AlignUp(base: nat, align: nat): Word
    requires align > 0 && base + align - 1 < TWO64
  {
    And(base + align - 1, Not64(align - 1))
  }

  /** `x & ~(b - 1)`: where the b-byte window holding x begins. */
  function WindowStart(x: Word, b: nat): Word
    requires 0 < b <= TWO64
  {
    And(x, Not64(b - 1))
  }

  lemma WindowStartIs(x: Word, b: nat)
    requires IsPow2(b) && b <= TWO64
    ensures WindowStart(x, b) == x - x % b
  {
    AlignDown(x, b);
  }

  /** Two powers of two: the smaller divides the larger. */
  lemma Pow2Comparable(a: nat, b: nat)
    requires IsPow2(a) && IsPow2(b) && a <= b
    ensures a > 0 && b % a == 0
  {
    var j: nat :| a == Pow2(j);
    var k: nat :| b == Pow2(k);
    if j <= k { Pow2Divides(j, k); } else { Pow2Monotone(k, j); }
  }

  lemma EightIsPow2()
    ensures IsPow2(8) && IsPow2(1)
  {
    assert 8 == Pow2(3);
    assert 1 == Pow2(0);
  }

  lemma DownIsMultiple(x: nat, b: nat)
    requires b > 0
    ensures (x - x % b) % b == 0
    ensures x - b < x - x % b <= x
  {
    RemainderIs(x - x % b, b, x / b, 0);
  }

  lemma AlignUpIs(base: nat, align: nat)
    requires IsPow2(align) && base + align - 1 < TWO64 && base % 8 == 0
    ensures AlignUp(base, align) % align == 0
    ensures AlignUp(base, align) % 8 == 0
    ensures base <= AlignUp(base, align) < base + align
  {
    hide And;
    var x := base + align - 1;
    AlignDown(x, align);
    DownIsMultiple(x, align);
    EightIsPow2();
    if align >= 8 {
      Pow2Comparable(8, align);
      MultipleTransitive(AlignUp(base, align), 8, align);
    } else {
      Pow2Comparable(align, 8);
      MultipleTransitive(base, align, 8);
      UpOfMultiple(base, align);
    }
  }

  lemma UpOfMultiple(base: nat, d: nat)
    requires d > 0 && base % d == 0
    ensures (base + d - 1) - (base + d - 1) % d == base
  {
    RemainderIs(base + d - 1, d, base / d, d - 1);
  }

  /** A range of s + 1 bytes from a stays in a's window exactly when its offset leaves room. */
  lemma SameWindow(a: nat, s: nat, b: nat)
    requires b > 0
    ensures a - a % b == (a + s) - (a + s) % b <==> a % b + s < b
    ensures a / b == (a + s) / b <==> a % b + s < b
  {
    assert a == b * (a / b) + a % b;
    assert a + s == b * ((a + s) / b) + (a + s) % b;
    if a % b + s < b {
      RemainderIs(a + s, b, a / b, a % b + s);
    } else {
      MulAtLeast(b, (a + s) / b - a / b);
      assert b * ((a + s) / b - a / b) == b * ((a + s) / b) - b * (a / b);
    }
  }

  /** The next window begins at a - a % b + b. */
  lemma NextWindow(a: nat, b: nat)
    requires b > 0
    ensures (a + b) - (a + b) % b == a - a % b + b
    ensures (a - a % b + b) % b == 0
  {
    assert a == b * (a / b) + a % b;
    assert a + b == b * (a / b + 1) + a % b by { assert b * (a / b + 1) == b * (a / b) + b; }
    RemainderIs(a + b, b, a / b + 1, a % b);
    RemainderIs(a - a % b + b, b, a / b + 1, 0);
  }

  /** Outcome of placing `size` bytes in a raw block: an address, or the error printed. */
  datatype Placement = Placed(ptr: Word) | Error(number: nat)

  /** The placement arithmetic of `malloc_boundry` inside raw block [raw, raw + total). */
  function Place(raw: nat, size: nat, align: nat, boundary: nat, total: nat): Placement
    requires align > 0 && boundary <= TWO64
    requires raw + ALIGN_HEADER + align + boundary + size < TWO64
  {
    var aligned := AlignUp(raw + ALIGN_HEADER, align);
    var moved := boundary > 0 && WindowStart(aligned, boundary) != WindowStart(LastByte(aligned, size), boundary);
    var placed := if moved then Shift(aligned, boundary) else aligned;
    if moved && WindowStart(placed, boundary) != WindowStart(LastByte(placed, size), boundary) then Error(4)
    else if placed + size > raw + total then Error(5)
    else Placed(placed)
  }

  /** `aligned + size - 1` in 64-bit arithmetic. */
  function LastByte(aligned: Word, size: nat): Word {
    (aligned + size + TWO64 - 1) % TWO64
  }

  /** `(aligned + boundry) & ~(boundry - 1)`. */
  function Shift(aligned: Word, boundary: nat): Word
    requires 0 < boundary <= TWO64
  {
    WindowStart((aligned + boundary) % TWO64, boundary)
  }

  lemma LastByteIs(aligned: Word, size: nat)
    requires aligned > 0 && aligned + size < TWO64
    ensures LastByte(aligned, size) == aligned + size - 1
  {
    RemainderIs(aligned + size + TWO64 - 1, TWO64, 1, aligned + size - 1);
  }

  lemma ShiftIs(aligned: Word, b: nat)
    requires IsPow2(b) && aligned + b < TWO64
    ensures Shift(aligned, b) == aligned - aligned % b + b
    ensures Shift(aligned, b) % b == 0
  {
    RemainderIs(aligned + b, TWO64, 0, aligned + b);
    WindowStartIs(aligned + b, b);
    NextWindow(aligned, b);
  }

  /** When the first position crosses a window though the size fits one, moving keeps the
      alignment: the boundary then exceeds both the alignment and the word size. */
  lemma MovedStaysAligned(aligned: nat, align: nat, b: nat, moved: nat)
    requires IsPow2(align) && IsPow2(b) && aligned % align == 0 && aligned % 8 == 0
    requires aligned % b != 0 && moved % b == 0
    ensures moved % align == 0 && moved % 8 == 0
  {
    EightIsPow2();
    if b <= align {
      Pow2Comparable(b, align);
      MultipleTransitive(aligned, b, align);
    } else {
      Pow2Comparable(align, b);
      MultipleTransitive(moved, align, b);
    }
    if b <= 8 {
      Pow2Comparable(b, 8);
      MultipleTransitive(aligned, b, 8);
    } else {
      Pow2Comparable(8, b);
      MultipleTransitive(moved, 8, b);
    }
  }

  /** A placed block is aligned, clear of the header word, inside the raw block and inside
      one boundary window. */
  ghost predicate WellPlaced(p: nat, raw: nat, size: nat, align: nat, boundary: nat, total: nat)
    requires align > 0
  {
    && p % align == 0 && p % 8 == 0
    && raw + ALIGN_HEADER <= p && p + size <= raw + total
    && (boundary > 0 && size > 0 ==> p / boundary == (p + size - 1) / boundary)
  }

  /** The first aligned address in the raw block is the start of a boundary window. */
  predicate StartsWindow(raw: nat, align: nat, boundary: nat) {
    && align > 0 && boundary > 0
    && raw + ALIGN_HEADER + align - 1 < TWO64
    && AlignUp(raw + ALIGN_HEADER, align) % boundary == 0
  }

  /** Placement fails exactly when a nonempty request exceeds the boundary (or an empty one
      starts on a window edge); error 5 cannot happen; otherwise the block is well placed. */
  lemma PlaceResult(raw: nat, size: nat, align: nat, boundary: nat)
    requires raw % 16 == 0 && IsPow2(align) && (boundary == 0 || IsPow2(boundary)) && boundary <= TWO64
    requires raw + ALIGN_HEADER + align + boundary + size < TWO64
    ensures var total := size + align + boundary + ALIGN_HEADER;
      var r := Place(raw, size, align, boundary, total);
      && (r.Placed? ==> WellPlaced(r.ptr, raw, size, align, boundary, total))
      && (r.Error? ==> r.number == 4)
      && (boundary == 0 ==> r.Placed?)
      && (boundary > 0 && size > 0 ==> (r.Error? <==> size > boundary))
      && (boundary > 0 && size == 0 ==> (r.Error? <==> StartsWindow(raw, align, boundary)))
  {
    Pow2Comparable(align, align);
    hide *;
    if boundary == 0 {
      PlaceUnbounded(raw, size, align);
    } else if size > 0 {
      PlaceBytes(raw, size, align, boundary);
    } else {
      PlaceNothing(raw, align, boundary);
    }
  }

  /** The first aligned address serves any request that no boundary restricts. */
  lemma FirstPlaced(raw: nat, size: nat, align: nat, b: nat, total: nat)
    requires raw % 16 == 0 && IsPow2(align) && raw + ALIGN_HEADER + align < TWO64
    requires total >= size + align + ALIGN_HEADER && (size == 0 || b == 0)
    ensures align > 0
    ensures raw + ALIGN_HEADER <= AlignUp(raw + ALIGN_HEADER, align) < raw + ALIGN_HEADER + align
    ensures WellPlaced(AlignUp(raw + ALIGN_HEADER, align), raw, size, align, b, total)
  {
    hide *;
    AlignUpFirst(raw, align);
    FirstIsPlaced(AlignUp(raw + ALIGN_HEADER, align), raw, size, align, b, total);
  }

  lemma FirstIsPlaced(aligned: Word, raw: nat, size: nat, align: nat, b: nat, total: nat)
    requires FirstPosition(aligned, raw, align)
    requires total >= size + align + ALIGN_HEADER && (size == 0 || b == 0)
    ensures align > 0 && raw + ALIGN_HEADER <= aligned < raw + ALIGN_HEADER + align
    ensures WellPlaced(aligned, raw, size, align, b, total)
  {}

  lemma PlaceUnbounded(raw: nat, size: nat, align: nat)
    requires raw % 16 == 0 && IsPow2(align) && raw + ALIGN_HEADER + align + size < TWO64
    ensures align > 0
    ensures var r := Place(raw, size, align, 0, size + align + ALIGN_HEADER);
      r.Placed? && WellPlaced(r.ptr, raw, size, align, 0, size + align + ALIGN_HEADER)
  {
    hide AlignUp, WindowStart, LastByte, Shift, IsPow2, WellPlaced;
    FirstPlaced(raw, size, align, 0, size + align + ALIGN_HEADER);
  }

  lemma PlaceBytes(raw: nat, size: nat, align: nat, b: nat)
    requires raw % 16 == 0 && IsPow2(align) && IsPow2(b) && size > 0 && b <= TWO64
    requires raw + ALIGN_HEADER + align + b + size < TWO64
    ensures align > 0
    ensures var total := size + align + b + ALIGN_HEADER;
      var r := Place(raw, size, align, b, total);
      && (r.Placed? ==> WellPlaced(r.ptr, raw, size, align, b, total))
      && (r.Error? ==> r.number == 4)
      && (r.Error? <==> size > b)
  {
    hide AlignUp, WindowStart, LastByte, Shift, IsPow2, WellPlaced;
    FirstNonempty(raw, size, align, b);
  }

  /** An aligned address less than one alignment above the room for the header word. */
  predicate FirstPosition(aligned: Word, raw: nat, align: nat) {
    && align > 0
    && raw + ALIGN_HEADER <= aligned < raw + ALIGN_HEADER + align
    && aligned % align == 0 && aligned % 8 == 0
  }

  lemma AlignUpFirst(raw: nat, align: nat)
    requires raw % 16 == 0 && IsPow2(align) && raw + ALIGN_HEADER + align < TWO64
    ensures align > 0 && FirstPosition(AlignUp(raw + ALIGN_HEADER, align), raw, align)
  {
    Pow2Comparable(align, align);
    hide AlignUp, IsPow2;
    AlignUpIs(raw + ALIGN_HEADER, align);
  }

  lemma FirstNonempty(raw: nat, size: nat, align: nat, b: nat)
    requires raw % 16 == 0 && IsPow2(align) && IsPow2(b) && size > 0 && b <= TWO64
    requires raw + ALIGN_HEADER + align + b + size < TWO64
    ensures align > 0 && b > 0
    ensures NonemptyOutcome(AlignUp(raw + ALIGN_HEADER, align), raw, size, align, b)
  {
    Pow2Comparable(align, align);
    Pow2Comparable(b, b);
    hide *;
    AlignUpFirst(raw, align);
    NonemptyFrom(AlignUp(raw + ALIGN_HEADER, align), raw, size, align, b);
  }

  /** The placement of a nonempty request from this first position fails exactly when it exceeds
      the boundary, and is good otherwise. */
  ghost predicate NonemptyOutcome(aligned: Word, raw: nat, size: nat, align: nat, b: nat)
    requires align > 0 && 0 < b <= TWO64
  {
    var p := if WindowStart(aligned, b) != WindowStart(LastByte(aligned, size), b) then Shift(aligned, b) else aligned;
    && (WindowStart(p, b) != WindowStart(LastByte(p, size), b) <==> size > b)
    && p + size <= raw + size + align + b + ALIGN_HEADER
    && (size <= b ==> WellPlaced(p, raw, size, align, b, size + align + b + ALIGN_HEADER))
  }

  lemma NonemptyFrom(aligned: Word, raw: nat, size: nat, align: nat, b: nat)
    requires IsPow2(align) && IsPow2(b) && size > 0 && b <= TWO64
    requires FirstPosition(aligned, raw, align)
    requires raw + ALIGN_HEADER + align + b + size < TWO64
    ensures align > 0 && b > 0 && NonemptyOutcome(aligned, raw, size, align, b)
  {
    Pow2Comparable(align, align);
    Pow2Comparable(b, b);
    hide WindowStart, LastByte, Shift, IsPow2, WellPlaced;
    PlaceNonempty(aligned, raw, size, align, b);
  }

  lemma PlaceNothing(raw: nat, align: nat, b: nat)
    requires raw % 16 == 0 && IsPow2(align) && IsPow2(b) && b <= TWO64
    requires raw + ALIGN_HEADER + align + b < TWO64
    ensures align > 0
    ensures var total := align + b + ALIGN_HEADER;
      var r := Place(raw, 0, align, b, total);
      && (r.Placed? ==> WellPlaced(r.ptr, raw, 0, align, b, total))
      && (r.Error? ==> r.number == 4)
      && (r.Error? <==> StartsWindow(raw, align, b))
  {
    Pow2Comparable(b, b);
    hide AlignUp, WindowStart, LastByte, Shift, IsPow2, WellPlaced;
    FirstPlaced(raw, 0, align, b, align + b + ALIGN_HEADER);
    PlaceEmpty(AlignUp(raw + ALIGN_HEADER, align), b);
  }

  /** An empty request is refused whenever the boundary is no coarser than the alignment, the
      word alignment of every block included. */
  lemma EmptyRefused(raw: nat, align: nat, boundary: nat)
    requires raw % 16 == 0 && IsPow2(align) && IsPow2(boundary) && boundary <= TWO64
    requires raw + ALIGN_HEADER + align + boundary < TWO64
    requires boundary <= align || boundary <= 8
    ensures align > 0 && boundary > 0
    ensures Place(raw, 0, align, boundary, align + boundary + ALIGN_HEADER) == Error(4)
  {
    hide AlignUp, Place, IsPow2;
    EightIsPow2();
    PlaceResult(raw, 0, align, boundary);
    FirstStartsWindow(raw, align, boundary);
  }

  lemma FirstStartsWindow(raw: nat, align: nat, boundary: nat)
    requires raw % 16 == 0 && IsPow2(align) && IsPow2(boundary)
    requires raw + ALIGN_HEADER + align < TWO64
    requires boundary <= align || boundary <= 8
    ensures StartsWindow(raw, align, boundary)
  {
    hide AlignUp, IsPow2;
    Pow2Comparable(align, align);
    var aligned := AlignUp(raw + ALIGN_HEADER, align);
    AlignUpIs(raw + ALIGN_HEADER, align);
    EightIsPow2();
    var coarse := if boundary <= align then align else 8;
    Pow2Comparable(boundary, coarse);
    Pow2Comparable(boundary, boundary);
    MultipleTransitive(aligned, boundary, coarse);
  }

  /** One such request: no byte, alignment 1, boundary 8, in the raw block at 16. */
  lemma EmptyRefusedAt16()
    ensures Place(16, 0, 1, 8, 17) == Error(4)
  {
    EightIsPow2();
    EmptyRefused(16, 1, 8);
  }

  lemma PlaceNonempty(aligned: Word, raw: nat, size: nat, align: nat, b: nat)
    requires IsPow2(align) && IsPow2(b) && size > 0 && b <= TWO64
    requires raw + ALIGN_HEADER <= aligned < raw + ALIGN_HEADER + align
    requires aligned % align == 0 && aligned % 8 == 0
    requires raw + ALIGN_HEADER + align + b + size < TWO64
    ensures var crosses := WindowStart(aligned, b) != WindowStart(LastByte(aligned, size), b);
      var p := if crosses then Shift(aligned, b) else aligned;
      && (crosses <==> aligned % b + size > b)
      && (WindowStart(p, b) != WindowStart(LastByte(p, size), b) <==> size > b)
      && p + size <= raw + size + align + b + ALIGN_HEADER
      && (size <= b ==> WellPlaced(p, raw, size, align, b, size + align + b + ALIGN_HEADER))
  {
    hide WindowStart, LastByte, Shift;
    CrossesIff(aligned, size, b);
    ShiftIs(aligned, b);
    var p := if aligned % b + size > b then Shift(aligned, b) else aligned;
    CrossesIff(p, size, b);
    SameWindow(p, size - 1, b);
    if aligned % b + size > b && size <= b {
      MovedStaysAligned(aligned, align, b, p);
    }
  }

  lemma CrossesIff(a: Word, size: nat, b: nat)
    requires IsPow2(b) && b <= TWO64 && a > 0 && size > 0 && a + size < TWO64
    ensures WindowStart(a, b) != WindowStart(LastByte(a, size), b) <==> a % b + size > b
  {
    hide WindowStart, LastByte;
    LastByteIs(a, size);
    WindowStartIs(a, b);
    WindowStartIs(a + size - 1, b);
    SameWindow(a, size - 1, b);
  }

  lemma PlaceEmpty(aligned: Word, b: nat)
    requires IsPow2(b) && aligned > 0 && aligned + b < TWO64
    ensures WindowStart(aligned, b) != WindowStart(LastByte(aligned, 0), b) <==> aligned % b == 0
    ensures WindowStart(Shift(aligned, b), b) != WindowStart(LastByte(Shift(aligned, b), 0), b)
  {
    ShiftIs(aligned, b);
    EmptyCrosses(aligned, b);
    EmptyCrosses(Shift(aligned, b), b);
  }

  lemma EmptyCrosses(a: Word, b: nat)
    requires IsPow2(b) && b <= TWO64 && a > 0
    ensures WindowStart(a, b) != WindowStart(LastByte(a, 0), b) <==> a % b == 0
  {
    LastByteIs(a, 0);
    WindowStartIs(a, b);
    WindowStartIs(a - 1, b);
    SameWindow(a - 1, 1, b);
    PredecessorMod(a, b);
  }

  lemma PredecessorMod(a: nat, b: nat)
    requires a > 0 && b > 0
    ensures (a - 1) % b + 1 < b <==> a % b != 0
  {
    assert a == b * (a / b) + a % b;
    if a % b == 0 {
      assert b * (a / b - 1) == b * (a / b) - b;
      MulAtLeast(b, a / b);
      RemainderIs(a - 1, b, a / b - 1, b - 1);
    } else {
      RemainderIs(a - 1, b, a / b, a % b - 1);
    }
  }

  /** The alignment and boundary code of `malloc_boundry`; an error number, or zero. */
  method PlaceIn(raw: nat, size: nat, align: nat, boundary: nat, total: nat) returns (aligned: Word, error: nat)
    requires align > 0 && boundary <= TWO64
    requires raw + ALIGN_HEADER + align + boundary + size < TWO64
    ensures error == 0 ==> Place(raw, size, align, boundary, total) == Placed(aligned)
    ensures error != 0 ==> Place(raw, size, align, boundary, total) == Error(error)
  {
    hide AlignUp, WindowStart, LastByte, Shift;
    var base := raw + ALIGN_HEADER;
    aligned := AlignUp(base, align);
    if boundary != 0 {
      var startBlock := WindowStart(aligned, boundary);
      var endBlock := WindowStart(LastByte(aligned, size), boundary);
      if startBlock != endBlock {
        aligned := Shift(aligned, boundary);
        endBlock := WindowStart(LastByte(aligned, size), boundary);
        if WindowStart(aligned, boundary) != endBlock {
          return aligned, 4;
        }
      }
    }
    if aligned + size > raw + total {
      return aligned, 5;
    }
    return aligned, 0;
  }
}
