/** The xHCI event ring: the controller produces, the driver consumes, and ERDP tells the
    controller how far the driver has come (section 4.9.4 of the xHCI 1.2 specification). */
module EventRing {
  import opened Widths
  import opened Bits
  import opened Trbs

  /** Ring slots, controller's enqueue index and cycle bit, driver's dequeue index and cycle
      bit, the slot last written to ERDP, and both histories. */
  datatype Sys = Sys(trbs: seq<Trb>, enq: nat, pcs: Bit, deq: nat, ccs: Bit, erdp: nat,
                     produced: seq<Content>, delivered: seq<Content>)

  /** Cycle bit a consumer at `from` with cycle state c expects k places on. */
  function Expected(from: nat, k: nat, n: nat, c: Bit): Bit {
    if from + k < n then c else Flip(c)
  }

  function Dist(a: nat, b: nat, n: nat): int {
    if b >= a then b - a else b + n - a
  }

  function Next(a: nat, n: nat): nat {
    if a + 1 == n then 0 else a + 1
  }

  function Undelivered(s: Sys): int {
    |s.produced| - |s.delivered|
  }

  function Init(n: nat): Sys
    requires n >= 2
  {
    Sys(seq(n, i => ZERO), 0, 1, 0, 1, 0, [], [])
  }

  ghost predicate Inv(s: Sys) {
    var n := |s.trbs|;
    && s.enq < n && s.deq < n && s.erdp < n
    && (forall j :: 0 <= j < n ==> CycleOf(s.trbs[j]) == if j < s.enq then s.pcs else Flip(s.pcs))
    && s.delivered <= s.produced
    && (if s.ccs == s.pcs then s.deq <= s.enq && Undelivered(s) == s.enq - s.deq
        else s.enq < s.deq && Undelivered(s) == s.enq + n - s.deq)
    && Dist(s.erdp, s.deq, n) + Undelivered(s) == Dist(s.erdp, s.enq, n)
    && (forall i :: 0 <= i < Undelivered(s) ==> ContentOf(s.trbs[SlotOf(s.deq, i, n)]) == s.produced[|s.delivered| + i])
  }

  /** The controller holds back when one more event would meet ERDP. */
  predicate MayProduce(s: Sys) {
    Next(s.enq, |s.trbs|) != s.erdp
  }

  function Produce(s: Sys, e: Trb): Sys
    requires s.enq < |s.trbs|
  {
    s.(trbs := s.trbs[s.enq := WithCycle(e, s.pcs)],
       enq := Next(s.enq, |s.trbs|),
       pcs := if s.enq + 1 == |s.trbs| then Flip(s.pcs) else s.pcs,
       produced := s.produced + [ContentOf(e)])
  }

  /** `has_unprocessed_events`. */
  predicate HasEvent(s: Sys)
    requires s.deq < |s.trbs|
  {
    CycleOf(s.trbs[s.deq]) == s.ccs
  }

  /** `_dequeue_trb`. */
  function Dequeue(s: Sys): Sys
    requires s.deq < |s.trbs|
  {
    if !HasEvent(s) then s
    else
      s.(deq := Next(s.deq, |s.trbs|),
         ccs := if s.deq + 1 == |s.trbs| then Flip(s.ccs) else s.ccs,
         delivered := s.delivered + [ContentOf(s.trbs[s.deq])])
  }

  /** `_update_erdp`. */
  function UpdateErdp(s: Sys): Sys {
    s.(erdp := s.deq)
  }

  lemma InitInv(n: nat)
    requires n >= 2
    ensures Inv(Init(n))
  {}

  lemma HasEventIffUndelivered(s: Sys)
    requires Inv(s)
    ensures HasEvent(s) <==> Undelivered(s) > 0
  {}

  lemma ProduceKeeps(s: Sys, e: Trb)
    requires Inv(s) && MayProduce(s)
    ensures Inv(Produce(s, e))
  {
    var n := |s.trbs|;
    var u := Produce(s, e);
    CycleSet(e, s.pcs);
    assert SlotOf(s.deq, Undelivered(s), n) == s.enq;
    forall i | 0 <= i < Undelivered(u) ensures ContentOf(u.trbs[SlotOf(u.deq, i, n)]) == u.produced[|u.delivered| + i] {
      if i < Undelivered(s) {
        assert SlotOf(s.deq, i, n) != s.enq;
      }
    }
  }

  lemma DequeueKeeps(s: Sys)
    requires Inv(s)
    ensures Inv(Dequeue(s))
    ensures Dequeue(s).produced == s.produced && s.delivered <= Dequeue(s).delivered
  {
    var n := |s.trbs|;
    var u := Dequeue(s);
    if HasEvent(s) {
      assert ContentOf(s.trbs[SlotOf(s.deq, 0, n)]) == s.produced[|s.delivered|];
      forall i | 0 <= i < Undelivered(u)
        ensures ContentOf(u.trbs[SlotOf(u.deq, i, n)]) == u.produced[|u.delivered| + i]
      {
        assert SlotOf(s.deq, i + 1, n) == SlotOf(u.deq, i, n);
      }
    }
  }

  lemma UpdateKeeps(s: Sys)
    requires Inv(s)
    ensures Inv(UpdateErdp(s))
  {}

  // ----- any interleaving -----

  datatype Event = Controller(trb: Trb) | DriverDequeue | DriverErdp

  ghost predicate Allowed(s: Sys, e: Event) {
    e.Controller? ==> MayProduce(s)
  }

  function Step(s: Sys, e: Event): Sys
    requires s.enq < |s.trbs| && s.deq < |s.trbs|
  {
    match e
    case Controller(t) => Produce(s, t)
    case DriverDequeue => Dequeue(s)
    case DriverErdp => UpdateErdp(s)
  }

  lemma StepKeeps(s: Sys, e: Event)
    requires Inv(s) && Allowed(s, e)
    ensures Inv(Step(s, e))
    ensures Step(s, e).produced == s.produced + (if e.Controller? then [ContentOf(e.trb)] else [])
    ensures s.delivered <= Step(s, e).delivered
  {
    match e
    case Controller(t) => ProduceKeeps(s, t);
    case DriverDequeue => DequeueKeeps(s); assert s.produced + [] == s.produced;
    case DriverErdp => UpdateKeeps(s); assert s.produced + [] == s.produced;
  }

  ghost predicate Paced(s: Sys, events: seq<Event>)
    requires Inv(s)
    decreases |events|
  {
    if |events| == 0 then true
    else
      && Allowed(s, events[0])
      && (StepKeeps(s, events[0]);
          Paced(Step(s, events[0]), events[1..]))
  }

  ghost function Run(s: Sys, events: seq<Event>): Sys
    requires Inv(s) && Paced(s, events)
    ensures Inv(Run(s, events))
    decreases |events|
  {
    if |events| == 0 then s
    else
      StepKeeps(s, events[0]);
      Run(Step(s, events[0]), events[1..])
  }

  ghost function ProducedBy(events: seq<Event>): seq<Content> {
    if |events| == 0 then []
    else (if events[0].Controller? then [ContentOf(events[0].trb)] else []) + ProducedBy(events[1..])
  }

  lemma RunUnfolds(s: Sys, events: seq<Event>)
    requires Inv(s) && Paced(s, events) && |events| > 0
    ensures Inv(Step(s, events[0])) && Paced(Step(s, events[0]), events[1..])
    ensures Run(s, events) == Run(Step(s, events[0]), events[1..])
  {
    StepKeeps(s, events[0]);
  }

  lemma InvShape(s: Sys)
    requires Inv(s)
    ensures s.enq < |s.trbs| && s.deq < |s.trbs| && s.delivered <= s.produced
  {}

  lemma {:induction false} RunProduces(s: Sys, events: seq<Event>)
    requires Inv(s) && Paced(s, events)
    ensures Run(s, events).produced == s.produced + ProducedBy(events)
    decreases |events|
  {
    hide Inv, ContentOf, MayProduce;
    if |events| == 0 {
      assert s.produced + [] == s.produced;
    } else {
      InvShape(s);
      StepKeeps(s, events[0]);
      RunUnfolds(s, events);
      hide Run, Paced, Step, Allowed;
      RunProduces(Step(s, events[0]), events[1..]);
      var one := if events[0].Controller? then [ContentOf(events[0].trb)] else [];
      assert (s.produced + one) + ProducedBy(events[1..]) == s.produced + (one + ProducedBy(events[1..]));
    }
  }

  /** Each event the controller produces is delivered once and in order, across wraps; the
      driver sees no event exactly when it has delivered them all. */
  lemma RunDelivers(s: Sys, events: seq<Event>)
    requires Inv(s) && Paced(s, events)
    ensures var u := Run(s, events);
      && Inv(u)
      && u.produced == s.produced + ProducedBy(events)
      && u.delivered <= s.produced + ProducedBy(events)
      && (!HasEvent(u) <==> u.delivered == s.produced + ProducedBy(events))
  {
    RunProduces(s, events);
    HasEventIffUndelivered(Run(s, events));
    hide Run, Paced, ProducedBy;
  }

  // ----- one dequeue_events call -----

  /** No step of the run writes ERDP. */
  predicate ErdpUntouched(events: seq<Event>) {
    forall i :: 0 <= i < |events| ==> !events[i].DriverErdp?
  }

  /** Even if the controller keeps producing while a call loops, the call ends: ERDP is not
      moved before the loop is over, so at most a ring's worth of events can arrive. */
  lemma {:induction false} CallIsBounded(s: Sys, events: seq<Event>)
    requires Inv(s) && Paced(s, events) && ErdpUntouched(events)
    ensures |Run(s, events).delivered| - |s.delivered| <= |s.trbs| - 1 - Dist(s.erdp, s.deq, |s.trbs|)
    decreases |events|
  {
    if |events| == 0 {
    } else {
      StepKeeps(s, events[0]);
      RunUnfolds(s, events);
      assert !events[0].DriverErdp?;
      StepDistance(s, events[0]);
      hide Inv, Run, Paced, Step, Dist, Allowed;
      assert ErdpUntouched(events[1..]) by {
        assert forall i :: 0 <= i < |events[1..]| ==> events[1..][i] == events[i + 1];
      }
      CallIsBounded(Step(s, events[0]), events[1..]);
    }
  }

  lemma StepDistance(s: Sys, e: Event)
    requires Inv(s) && Allowed(s, e) && !e.DriverErdp?
    ensures |Step(s, e).trbs| == |s.trbs|
    ensures Dist(Step(s, e).erdp, Step(s, e).deq, |s.trbs|) - |Step(s, e).delivered| ==
      Dist(s.erdp, s.deq, |s.trbs|) - |s.delivered|
    ensures Dist(s.erdp, s.deq, |s.trbs|) < |s.trbs|
  {}

  /** On a ring the controller leaves alone, k events in a row carry the expected cycle bits
      and the next slot does not: that k is the number of undelivered events. */
  lemma CallTakesAllUndelivered(s: Sys, k: nat)
    requires Inv(s) && k <= |s.trbs|
    requires forall i :: 0 <= i < k ==>
      CycleOf(s.trbs[SlotOf(s.deq, i, |s.trbs|)]) == Expected(s.deq, i, |s.trbs|, s.ccs)
    requires k < |s.trbs| ==> CycleOf(s.trbs[SlotOf(s.deq, k, |s.trbs|)]) != Expected(s.deq, k, |s.trbs|, s.ccs)
    ensures k == Undelivered(s)
  {
    assert SlotOf(s.deq, Undelivered(s), |s.trbs|) == s.enq;
    MarkedUndelivered(s, if k < Undelivered(s) then k else Undelivered(s));
  }

  /** Place i carries the expected cycle bit if and only if an undelivered event is there. */
  lemma MarkedUndelivered(s: Sys, i: nat)
    requires Inv(s) && i <= Undelivered(s)
    ensures 0 <= SlotOf(s.deq, i, |s.trbs|) < |s.trbs|
    ensures CycleOf(s.trbs[SlotOf(s.deq, i, |s.trbs|)]) == Expected(s.deq, i, |s.trbs|, s.ccs) <==> i < Undelivered(s)
  {}

  /** The state after a call on a ring the controller leaves alone: everything delivered. */
  function Emptied(s: Sys): Sys {
    s.(deq := s.enq, ccs := s.pcs, erdp := s.enq, delivered := s.produced)
  }

  /** The driver's steps in one call that takes k events. */
  function CallEvents(k: nat): seq<Event> {
    if k == 0 then [DriverErdp] else [DriverDequeue] + CallEvents(k - 1)
  }

  /** Taking every undelivered event and then writing ERDP is a run, and it empties the ring. */
  lemma {:induction false} CallEmpties(s: Sys, k: nat)
    requires Inv(s) && k == Undelivered(s)
    ensures Paced(s, CallEvents(k)) && Run(s, CallEvents(k)) == Emptied(s) && Inv(Emptied(s))
    decreases k
  {
    var events := CallEvents(k);
    StepKeeps(s, events[0]);
    HasEventIffUndelivered(s);
    if k == 0 {
      assert s.delivered == s.produced;
      assert events[1..] == [];
    } else {
      assert events[1..] == CallEvents(k - 1);
      assert Emptied(Dequeue(s)) == Emptied(s);
      CallEmpties(Dequeue(s), k - 1);
    }
  }

  // ----- the ERDP register -----

  const EHB: nat := 8  // Event Handler Busy, bit 3

  /** What the controller reads back: the address bits, 63 to 4. */
  function Decoded(erdp: Word): nat {
    erdp - erdp % 16
  }

  /** Setting EHB does not disturb the dequeue address. */
  lemma ErdpDecodes(base: nat, slot: nat)
    requires base % 64 == 0 && base + 16 * slot + EHB < TWO64
    ensures Or(base + 16 * slot, EHB) == base + 16 * slot + EHB
    ensures Decoded(Or(base + 16 * slot, EHB)) == base + 16 * slot
    ensures Decoded(base + 16 * slot) == base + 16 * slot
  {
    var q := 4 * (base / 64) + slot;
    assert base + 16 * slot == 16 * q;
    Pow2Of64();
    RemainderIs(16 * q, 16, q, 0);
    RemainderIs(16 * q + EHB, 16, q, EHB);
    hide Or, Pow2;
    OrDisjoint(16 * q, EHB, 4);
  }

  // ----- the driver class -----

  class InterrupterRegs {
    var erdp: Word

    constructor ()
      ensures erdp == 0
    {
      erdp := 0;
    }
  }

  class XhciEventRing {
    const trbs: array<Trb>
    const regs: InterrupterRegs
    const physicalBase: nat
    var dequeuePtr: nat
    var rcsBit: Bit

    ghost predicate Valid()
      reads this
    {
      && dequeuePtr < trbs.Length
      && physicalBase % 64 == 0
      && physicalBase + 16 * trbs.Length + EHB < TWO64
    }

    /** The constructor; the segment is aligned to 64 bytes by its allocation. */
    constructor (maxTrbs: nat, interrupter: InterrupterRegs, base: nat)
      requires maxTrbs > 0 && base % 64 == 0 && base + 16 * maxTrbs + EHB < TWO64
      modifies interrupter
      ensures Valid() && regs == interrupter && physicalBase == base && fresh(trbs)
      ensures trbs[..] == seq(maxTrbs, i => ZERO) && dequeuePtr == 0 && rcsBit == 1
      ensures regs.erdp == base
      ensures maxTrbs >= 2 ==> Matches(Init(maxTrbs))
    {
      regs := interrupter;
      trbs := new Trb[maxTrbs](i => ZERO);
      physicalBase := base;
      rcsBit := 1;
      dequeuePtr := 0;
      new;
      UpdateErdpRegister();
    }

    /** The ring and the driver's half of s are this object's state, and the controller reads the
        slot s.erdp from the register. */
    ghost predicate Matches(s: Sys)
      reads this, trbs, regs
    {
      && s.trbs == trbs[..] && s.deq == dequeuePtr && s.ccs == rcsBit
      && Decoded(regs.erdp) == physicalBase + 16 * s.erdp
    }

    predicate HasUnprocessedEvents()
      requires Valid()
      reads this, trbs
    {
      CycleOf(trbs[dequeuePtr]) == rcsBit
    }

    method UpdateErdpRegister()
      requires Valid()
      modifies regs
      ensures regs.erdp == physicalBase + 16 * dequeuePtr
    {
      regs.erdp := physicalBase + dequeuePtr * TRB_BYTES;
    }

    /** A slot, or -1 for the null pointer. */
    method DequeueTrb() returns (slot: int)
      requires Valid()
      modifies this
      ensures Valid()
      ensures !old(HasUnprocessedEvents()) ==> slot == -1 && dequeuePtr == old(dequeuePtr) && rcsBit == old(rcsBit)
      ensures old(HasUnprocessedEvents()) ==>
        && slot == old(dequeuePtr)
        && dequeuePtr == Next(old(dequeuePtr), trbs.Length)
        && rcsBit == if old(dequeuePtr) + 1 == trbs.Length then Flip(old(rcsBit)) else old(rcsBit)
    {
      if CycleOf(trbs[dequeuePtr]) != rcsBit {
        return -1;
      }
      slot := dequeuePtr;
      dequeuePtr := dequeuePtr + 1;
      if dequeuePtr == trbs.Length {
        dequeuePtr := 0;
        rcsBit := Flip(rcsBit);
      }
    }

    /** The loop of `dequeue_events` on a ring that does not change during the call. */
    method TakeEvents() returns (slots: seq<nat>)
      requires Valid()
      modifies this
      ensures Valid()
      ensures IsRun(trbs[..], old(dequeuePtr), old(rcsBit), slots)
      ensures CycleOf(trbs[dequeuePtr]) != rcsBit
      ensures dequeuePtr == SlotOf(old(dequeuePtr), |slots|, trbs.Length)
      ensures rcsBit == Expected(old(dequeuePtr), |slots|, trbs.Length, old(rcsBit))
    {
      slots := [];
      ghost var d, c, n := dequeuePtr, rcsBit, trbs.Length;
      while HasUnprocessedEvents()
        invariant Valid() && IsRun(trbs[..], d, c, slots)
        invariant |slots| > 0 ==> CycleOf(trbs[d]) == c
        invariant dequeuePtr == SlotOf(d, |slots|, n) && rcsBit == Expected(d, |slots|, n, c)
        decreases n - |slots|
      {
        var slot := DequeueTrb();
        if slot == -1 {
          break;
        }
        slots := slots + [slot];
      }
    }

    /** `dequeue_events` on such a ring: the slots returned are the longest run of expected cycle
        bits, at most one lap, and ERDP follows. When a controller that keeps the protocol fills
        the ring, they hold exactly the undelivered events, in order. */
    method DequeueEvents(ghost s: Sys) returns (slots: seq<nat>)
      requires Valid()
      modifies this, regs
      ensures Valid()
      ensures IsRun(trbs[..], old(dequeuePtr), old(rcsBit), slots)
      ensures CycleOf(trbs[dequeuePtr]) != rcsBit
      ensures dequeuePtr == SlotOf(old(dequeuePtr), |slots|, trbs.Length)
      ensures rcsBit == Expected(old(dequeuePtr), |slots|, trbs.Length, old(rcsBit))
      ensures Decoded(regs.erdp) - physicalBase == 16 * dequeuePtr && regs.erdp % 16 == 8
      ensures Inv(s) && old(Matches(s)) ==>
        && Holds(s.trbs, slots, s.produced[|s.delivered|..])
        && Matches(Emptied(s)) && Inv(Emptied(s))
    {
      hide Or, And, Inv;
      slots := TakeEvents();
      if Inv(s) && old(Matches(s)) {
        InvShape(s);
        RunIsUndelivered(s, slots);
      }
      UpdateErdpRegister();
      ErdpDecodes(physicalBase, dequeuePtr);
      var erdp := regs.erdp;
      erdp := Or(erdp, EHB);
      regs.erdp := erdp;
    }
  }

  /** The slots from `from` on, at most one lap, all with the cycle bit expected there. */
  predicate IsRun(ring: seq<Trb>, from: nat, c: Bit, slots: seq<nat>) {
    && |slots| <= |ring|
    && forall i :: 0 <= i < |slots| ==>
      && slots[i] == SlotOf(from, i, |ring|) < |ring|
      && CycleOf(ring[slots[i]]) == Expected(from, i, |ring|, c)
  }

  /** The slots hold these events, in this order. */
  predicate Holds(ring: seq<Trb>, slots: seq<nat>, events: seq<Content>) {
    && |slots| == |events|
    && forall i :: 0 <= i < |slots| ==> slots[i] < |ring| && ContentOf(ring[slots[i]]) == events[i]
  }

  /** The longest run of expected cycle bits holds exactly the undelivered events, and the
      controller stands past it. */
  lemma RunIsUndelivered(s: Sys, slots: seq<nat>)
    requires Inv(s) && IsRun(s.trbs, s.deq, s.ccs, slots)
    requires var next := SlotOf(s.deq, |slots|, |s.trbs|);
      0 <= next < |s.trbs| && CycleOf(s.trbs[next]) != Expected(s.deq, |slots|, |s.trbs|, s.ccs)
    ensures Holds(s.trbs, slots, s.produced[|s.delivered|..])
    ensures SlotOf(s.deq, |slots|, |s.trbs|) == s.enq && Expected(s.deq, |slots|, |s.trbs|, s.ccs) == s.pcs
    ensures Inv(Emptied(s))
  {
    CallTakesAllUndelivered(s, |slots|);
    CallEmpties(s, |slots|);
    EndsAtEnqueue(s);
  }

  /** Past the undelivered events stands the controller. */
  lemma EndsAtEnqueue(s: Sys)
    requires Inv(s)
    ensures SlotOf(s.deq, Undelivered(s), |s.trbs|) == s.enq
    ensures Expected(s.deq, Undelivered(s), |s.trbs|, s.ccs) == s.pcs
  {}
}
