/** Transfer request blocks: 16-byte ring entries whose control word carries a cycle bit. */
module Trbs {
  import opened Widths
  import opened Bits

  datatype Trb = Trb(parameter: nat, status: nat, control: nat)

  type Bit = b: nat | b < 2

  const ZERO: Trb := Trb(0, 0, 0)
  const TRB_BYTES: nat := 16
  const TYPE_LINK: nat := 6
  const TYPE_SHIFT: nat := 1024  // 1 << 10
  const TOGGLE_CYCLE: nat := 2

  function CycleOf(t: Trb): Bit {
    t.control % 2
  }

  /** `trb->cycle_bit = c`. */
  function WithCycle(t: Trb, c: Bit): Trb {
    t.(control := t.control - t.control % 2 + c)
  }

  /** What a TRB says besides its cycle bit, which is the lowest bit of the control word. */
  datatype Content = Content(parameter: nat, status: nat, upper: nat)

  function ContentOf(t: Trb): Content {
    Content(t.parameter, t.status, t.control / 2)
  }

  predicate IsLink(t: Trb) {
    (t.control / TYPE_SHIFT) % 64 == TYPE_LINK
  }

  predicate Toggles(t: Trb) {
    (t.control / TOGGLE_CYCLE) % 2 == 1
  }

  /** Slot k places after `from`, at most one lap on. */
  function SlotOf(from: nat, k: nat, n: nat): int {
    if from + k < n then from + k else from + k - n
  }

  function Flip(b: Bit): Bit {
    1 - b
  }

  /** `(TYPE_LINK << TYPE_SHIFT) | TC | cycle`. */
  function LinkControl(c: Bit): nat {
    Or(Or(TYPE_LINK * TYPE_SHIFT, TOGGLE_CYCLE), c)
  }

  lemma LinkControlIs(c: Bit)
    ensures LinkControl(c) == 6146 + c
    ensures forall t: Trb :: t.control == LinkControl(c) ==> IsLink(t) && Toggles(t) && CycleOf(t) == c
  {
    Pow2Of1024();
    OrDisjoint(6144, 2, 10);
    OrDisjoint(6146, c, 1);
  }

  lemma Pow2Of1024()
    ensures Pow2(10) == 1024 && Pow2(1) == 2
  {
    assert Pow2(5) == 32;
  }

  /** Setting the cycle bit sets that bit and keeps every other. */
  lemma CycleSet(t: Trb, c: Bit)
    ensures var u := WithCycle(t, c);
      && u.parameter == t.parameter && u.status == t.status
      && u.control / 2 == t.control / 2 && u.control % 2 == c
    ensures CycleOf(WithCycle(t, c)) == c && ContentOf(WithCycle(t, c)) == ContentOf(t)
    ensures IsLink(WithCycle(t, c)) == IsLink(t)
  {
    var k := t.control / 2;
    assert t.control == 2 * k + t.control % 2;
    assert WithCycle(t, c).control == 2 * k + c;
    assert (2 * k + c) / 1024 == k / 512 == t.control / 1024;
  }
}
