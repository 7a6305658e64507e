/** The xHCI command and transfer rings: a cycle-bit producer shared with the controller
    (sections 4.9.2 and 4.9.3 of the xHCI 1.2 specification). Both classes of the driver
    have the same `enqueue`. */
module ProducerRing {
  import opened Widths
  import opened Bits
  import opened Trbs

  /** The driver's half: slots, enqueue index, producer cycle bit. The last slot is a Link. */
  datatype Ring = Ring(trbs: seq<Trb>, enq: nat, pcs: Bit, base: nat)

  /** Index of the Link slot. */
  function LinkSlot(r: Ring): nat
    requires |r.trbs| >= 1
  {
    |r.trbs| - 1
  }

  /** At least one data slot before a Link that leads back to the base. In the middle of the
      enqueue that wraps, the enqueue index stands on the Link slot. */
  predicate Wired(r: Ring) {
    && |r.trbs| >= 2
    && r.enq <= LinkSlot(r)
    && var link := r.trbs[LinkSlot(r)];
       IsLink(link) && Toggles(link) && link.parameter == r.base
  }

  /** No enqueue is under way. */
  predicate Shaped(r: Ring) {
    Wired(r) && r.enq < LinkSlot(r)
  }

  function InitialRing(n: nat, base: nat): Ring
    requires n >= 2
  {
    Ring(seq(n - 1, i => ZERO) + [Trb(base, 0, LinkControl(1))], 0, 1, base)
  }

  /** The first store of `enqueue`: the TRB with the driver's cycle bit, and the index moves on. */
  function StoreTrb(r: Ring, t: Trb): Ring
    requires Shaped(r)
  {
    r.(trbs := r.trbs[r.enq := WithCycle(t, r.pcs)], enq := r.enq + 1)
  }

  /** The second, when the index has reached the Link: hand the Link over and wrap. */
  function Relink(r: Ring): Ring
    requires Wired(r) && r.enq == LinkSlot(r)
  {
    var n := LinkSlot(r);
    Ring(r.trbs[n := r.trbs[n].(control := LinkControl(r.pcs))], 0, Flip(r.pcs), r.base)
  }

  function Enqueue(r: Ring, t: Trb): Ring
    requires Shaped(r)
  {
    var m := StoreTrb(r, t);
    if m.enq == LinkSlot(m) then Relink(m) else m
  }

  lemma EnqueueShaped(r: Ring, t: Trb)
    requires Shaped(r)
    ensures Shaped(Enqueue(r, t)) && |Enqueue(r, t).trbs| == |r.trbs| && Enqueue(r, t).base == r.base
  {
    LinkControlIs(r.pcs);
  }

  // ----- the two parties -----

  /** Driver ring, controller position and cycle state, and both histories. */
  datatype Sys = Sys(ring: Ring, deq: nat, ccs: Bit, sent: seq<Content>, got: seq<Content>)

  function Init(n: nat, base: nat): Sys
    requires n >= 2
  {
    Sys(InitialRing(n, base), 0, 1, [], [])
  }

  /** Slot the controller reads next holds a TRB it owns. */
  predicate Ready(s: Sys)
    requires s.deq < |s.ring.trbs|
  {
    CycleOf(s.ring.trbs[s.deq]) == s.ccs
  }

  /** One controller step: stop on a foreign cycle bit, follow a Link, or consume a TRB. */
  function Consume(s: Sys): Sys
    requires s.deq < |s.ring.trbs|
  {
    var t := s.ring.trbs[s.deq];
    if CycleOf(t) != s.ccs then s
    else if IsLink(t) then
      s.(deq := if t.parameter >= s.ring.base then (t.parameter - s.ring.base) / TRB_BYTES else 0,
         ccs := if Toggles(t) then Flip(s.ccs) else s.ccs)
    else
      s.(deq := s.deq + 1, got := s.got + [ContentOf(t)])
  }

  function Store(s: Sys, t: Trb): Sys
    requires Shaped(s.ring)
  {
    s.(ring := StoreTrb(s.ring, t), sent := s.sent + [ContentOf(t)])
  }

  function HandOver(s: Sys): Sys
    requires Wired(s.ring) && s.ring.enq == LinkSlot(s.ring)
  {
    s.(ring := Relink(s.ring))
  }

  /** A whole enqueue with no controller step inside it. */
  function Produce(s: Sys, t: Trb): Sys
    requires Shaped(s.ring)
  {
    s.(ring := Enqueue(s.ring, t), sent := s.sent + [ContentOf(t)])
  }

  function Pending(s: Sys): int {
    |s.sent| - |s.got|
  }

  /** The one-ring-ahead bound. A controller still parked on the Link leaves one slot less. */
  predicate HasRoom(s: Sys)
    requires Wired(s.ring)
  {
    Pending(s) < if s.deq == LinkSlot(s.ring) then LinkSlot(s.ring) - 1 else LinkSlot(s.ring)
  }

  /** Data slots below the enqueue index carry the driver's cycle bit and the others the opposite
      one. The controller is in the driver's lap, or a lap behind with the Link handed over; or,
      in the first lap only, it has followed the Link before the driver has wrapped. */
  ghost predicate Inv(s: Sys) {
    && Wired(s.ring)
    && var n := LinkSlot(s.ring);
    && s.deq <= n
    && s.got <= s.sent
    && (forall j :: 0 <= j < n ==>
          !IsLink(s.ring.trbs[j]) && CycleOf(s.ring.trbs[j]) == if j < s.ring.enq then s.ring.pcs else Flip(s.ring.pcs))
    && (if s.ccs == s.ring.pcs then s.deq <= s.ring.enq && Pending(s) == s.ring.enq - s.deq
        else if s.ring.enq == n then s.deq == 0 && Pending(s) == 0
        else s.ring.enq <= s.deq && Pending(s) == s.ring.enq + n - s.deq && CycleOf(s.ring.trbs[n]) == s.ccs)
    && (forall i :: 0 <= i < Pending(s) ==> ContentOf(s.ring.trbs[SlotOf(s.deq, i, n)]) == s.sent[|s.got| + i])
  }

  lemma InitInv(n: nat, base: nat)
    requires n >= 2
    ensures Inv(Init(n, base))
    ensures CycleOf(Init(n, base).ring.trbs[n - 1]) == Init(n, base).ring.pcs
  {
    LinkControlIs(1);
  }

  lemma ConsumeKeeps(s: Sys)
    requires Inv(s)
    ensures Inv(Consume(s))
    ensures Consume(s).ring == s.ring && Consume(s).sent == s.sent
  {
    var n := LinkSlot(s.ring);
    var u := Consume(s);
    if Ready(s) {
      if s.deq == n {
        assert u.deq == 0 && u.ccs == Flip(s.ccs);
        forall i | 0 <= i < Pending(u) ensures ContentOf(u.ring.trbs[SlotOf(u.deq, i, n)]) == u.sent[|u.got| + i] {
          assert SlotOf(s.deq, i, n) == i;
        }
      } else {
        assert ContentOf(s.ring.trbs[SlotOf(s.deq, 0, n)]) == s.sent[|s.got|];
        forall i | 0 <= i < Pending(u) ensures ContentOf(u.ring.trbs[SlotOf(u.deq, i, n)]) == u.sent[|u.got| + i] {
          assert SlotOf(s.deq, i + 1, n) == SlotOf(u.deq, i, n);
        }
      }
    }
  }

  lemma StoreKeeps(s: Sys, t: Trb)
    requires Inv(s) && Shaped(s.ring) && HasRoom(s) && !IsLink(t)
    ensures Inv(Store(s, t))
  {
    var n := LinkSlot(s.ring);
    var u := Store(s, t);
    CycleSet(t, s.ring.pcs);
    assert SlotOf(s.deq, Pending(s), n) == s.ring.enq;
    forall i | 0 <= i < Pending(u) ensures ContentOf(u.ring.trbs[SlotOf(u.deq, i, n)]) == u.sent[|u.got| + i] {
      if i < Pending(s) {
        assert SlotOf(s.deq, i, n) != s.ring.enq && SlotOf(s.deq, i, n) < n;
        assert u.ring.trbs[SlotOf(s.deq, i, n)] == s.ring.trbs[SlotOf(s.deq, i, n)];
      }
    }
  }

  lemma HandOverKeeps(s: Sys)
    requires Inv(s) && s.ring.enq == LinkSlot(s.ring)
    ensures Inv(HandOver(s)) && Shaped(HandOver(s).ring)
  {
    var n := LinkSlot(s.ring);
    var u := HandOver(s);
    LinkControlIs(s.ring.pcs);
    forall i | 0 <= i < Pending(u) ensures ContentOf(u.ring.trbs[SlotOf(u.deq, i, n)]) == u.sent[|u.got| + i] {
      assert SlotOf(s.deq, i, n) < n;
    }
  }

  lemma ProduceKeeps(s: Sys, t: Trb)
    requires Inv(s) && Shaped(s.ring) && HasRoom(s) && !IsLink(t)
    ensures Inv(Produce(s, t))
  {
    StoreKeeps(s, t);
    var m := Store(s, t);
    if m.ring.enq == LinkSlot(m.ring) {
      HandOverKeeps(m);
    }
  }

  /** Where the driver's next store goes, seen from the controller: the enqueue index in its own
      lap; with the wrap under way, a Link not yet handed over, or slot 0 beyond it. */
  predicate AtEnqueuePoint(s: Sys)
    requires Wired(s.ring)
  {
    var n := LinkSlot(s.ring);
    if s.ring.enq < n then s.deq == s.ring.enq && s.ccs == s.ring.pcs
    else if s.ccs == s.ring.pcs then s.deq == n && CycleOf(s.ring.trbs[n]) != s.ring.pcs
    else s.deq == 0
  }

  /** The controller stops exactly at the enqueue point, with everything consumed. */
  lemma StopsAtEnqueuePoint(s: Sys)
    requires Inv(s)
    ensures !Ready(s) <==> AtEnqueuePoint(s)
    ensures !Ready(s) ==> s.got == s.sent
  {}

  // ----- any interleaving -----

  /** Either store of an enqueue, or a controller step. */
  datatype Event = DriverStore(trb: Trb) | DriverRelink | Controller

  /** The driver sends data TRBs, never runs more than one ring ahead, and hands the Link over
      before the next store. */
  ghost predicate Allowed(s: Sys, e: Event)
    requires Wired(s.ring)
  {
    match e
    case DriverStore(t) => Shaped(s.ring) && HasRoom(s) && !IsLink(t)
    case DriverRelink => s.ring.enq == LinkSlot(s.ring)
    case Controller => true
  }

  ghost function Step(s: Sys, e: Event): Sys
    requires Wired(s.ring) && s.deq < |s.ring.trbs| && Allowed(s, e)
  {
    match e
    case DriverStore(t) => Store(s, t)
    case DriverRelink => HandOver(s)
    case Controller => Consume(s)
  }

  ghost predicate Paced(s: Sys, events: seq<Event>)
    requires Inv(s)
    decreases |events|
  {
    if |events| == 0 then true
    else
      && Allowed(s, events[0])
      && (StepKeeps(s, events[0]);
          Paced(Step(s, events[0]), events[1..]))
  }

  lemma StepKeeps(s: Sys, e: Event)
    requires Inv(s) && Allowed(s, e)
    ensures Inv(Step(s, e))
  {
    match e
    case DriverStore(t) => StoreKeeps(s, t);
    case DriverRelink => HandOverKeeps(s);
    case Controller => ConsumeKeeps(s);
  }

  ghost function Run(s: Sys, events: seq<Event>): Sys
    requires Inv(s) && Paced(s, events)
    decreases |events|
  {
    if |events| == 0 then s
    else
      StepKeeps(s, events[0]);
      Run(Step(s, events[0]), events[1..])
  }

  ghost function SentBy(e: Event): seq<Content> {
    if e.DriverStore? then [ContentOf(e.trb)] else []
  }

  /** The TRBs the driver enqueues in a run. */
  ghost function Enqueued(events: seq<Event>): seq<Content> {
    if |events| == 0 then []
    else SentBy(events[0]) + Enqueued(events[1..])
  }

  lemma {:induction false} RunKeeps(s: Sys, events: seq<Event>)
    requires Inv(s) && Paced(s, events)
    ensures Inv(Run(s, events))
    decreases |events|
  {
    hide Inv, Wired, Allowed;
    if |events| > 0 {
      InvShape(s);
      RunUnfolds(s, events);
      hide Run, Paced, Step;
      RunKeeps(Step(s, events[0]), events[1..]);
    }
  }

  lemma {:induction false} RunSends(s: Sys, events: seq<Event>)
    requires Inv(s) && Paced(s, events)
    ensures Run(s, events).sent == s.sent + Enqueued(events)
    decreases |events|
  {
    hide Inv, Wired, Allowed, ContentOf;
    if |events| == 0 {
      assert s.sent + [] == s.sent;
    } else {
      InvShape(s);
      RunUnfolds(s, events);
      StepHistory(s, events[0]);
      hide Run, Paced, Step;
      RunSends(Step(s, events[0]), events[1..]);
      assert (s.sent + SentBy(events[0])) + Enqueued(events[1..]) ==
        s.sent + (SentBy(events[0]) + Enqueued(events[1..]));
    }
  }

  lemma {:induction false} RunConsumes(s: Sys, events: seq<Event>)
    requires Inv(s) && Paced(s, events)
    ensures s.got <= Run(s, events).got
    decreases |events|
  {
    hide Inv, Wired, Allowed;
    if |events| > 0 {
      InvShape(s);
      RunUnfolds(s, events);
      StepHistory(s, events[0]);
      hide Run, Paced, Step;
      RunConsumes(Step(s, events[0]), events[1..]);
      PrefixTransitive(s.got, Step(s, events[0]).got, Run(Step(s, events[0]), events[1..]).got);
    }
  }

  lemma InvShape(s: Sys)
    requires Inv(s)
    ensures Wired(s.ring) && s.deq < |s.ring.trbs|
  {}

  lemma RunUnfolds(s: Sys, events: seq<Event>)
    requires Inv(s) && Paced(s, events) && |events| > 0
    ensures Allowed(s, events[0])
    ensures Inv(Step(s, events[0])) && Paced(Step(s, events[0]), events[1..])
    ensures Run(s, events) == Run(Step(s, events[0]), events[1..])
  {
    StepKeeps(s, events[0]);
  }

  /** Over any interleaving of the driver's stores with controller steps and any number of laps:
      what the controller has consumed is a prefix of what was enqueued, once each and in order,
      and it stops only when it has consumed everything, standing at the enqueue point. */
  lemma RunDelivers(s: Sys, events: seq<Event>)
    requires Inv(s) && Paced(s, events)
    ensures var u := Run(s, events);
      && Inv(u)
      && u.sent == s.sent + Enqueued(events)
      && s.got <= u.got <= u.sent
      && (!Ready(u) <==> AtEnqueuePoint(u))
      && (!Ready(u) ==> u.got == s.sent + Enqueued(events))
  {
    RunKeeps(s, events);
    RunSends(s, events);
    RunConsumes(s, events);
    StopsAtEnqueuePoint(Run(s, events));
    InvPrefix(Run(s, events));
    hide Run, Paced, Enqueued;
  }

  lemma InvPrefix(s: Sys)
    requires Inv(s)
    ensures s.got <= s.sent
  {}

  lemma PrefixTransitive(a: seq<Content>, b: seq<Content>, c: seq<Content>)
    requires a <= b <= c
    ensures a <= c
  {}

  lemma StepHistory(s: Sys, e: Event)
    requires Inv(s) && Allowed(s, e)
    ensures Step(s, e).sent == s.sent + SentBy(e)
    ensures s.got <= Step(s, e).got
  {}

  /** The two steps of one `enqueue`; the second only when it wraps. */
  function EnqueueEvents(r: Ring, t: Trb): seq<Event>
    requires Shaped(r)
  {
    [DriverStore(t)] + if r.enq + 1 == LinkSlot(r) then [DriverRelink] else []
  }

  /** An enqueue with nothing in between is the run of its own steps. */
  lemma EnqueueIsItsSteps(s: Sys, t: Trb)
    requires Inv(s) && Shaped(s.ring) && HasRoom(s) && !IsLink(t)
    ensures Paced(s, EnqueueEvents(s.ring, t))
    ensures Run(s, EnqueueEvents(s.ring, t)) == Produce(s, t)
  {
    StoreKeeps(s, t);
    var events := EnqueueEvents(s.ring, t);
    var m := Store(s, t);
    hide Inv;
    if s.ring.enq + 1 == LinkSlot(s.ring) {
      assert events[1..] == [DriverRelink];
      HandOverKeeps(m);
      assert events[1..][1..] == [];
      assert Run(m, events[1..]) == HandOver(m);
    } else {
      assert events[1..] == [];
      assert Run(m, events[1..]) == m;
    }
  }

  /** The controller can pass the Link while the driver is still in the enqueue that wraps: when
      the Link already carries the controller's cycle bit, as in the first lap, two controller
      steps between the two stores take the TRB and follow the Link. */
  lemma LinkFollowedEarly(s: Sys, t: Trb)
    requires Inv(s) && Shaped(s.ring) && HasRoom(s) && !IsLink(t)
    requires s.ring.enq + 1 == LinkSlot(s.ring) && s.deq == s.ring.enq && s.ccs == s.ring.pcs
    requires CycleOf(s.ring.trbs[LinkSlot(s.ring)]) == s.ring.pcs
    ensures var a := Store(s, t);
      && Inv(a)
      && var b := Consume(a);
      && Inv(b)
      && var u := Consume(b);
      && Inv(u) && u.ring.enq == LinkSlot(u.ring) && u.deq == 0 && u.ccs != u.ring.pcs
      && u.got == s.got + [ContentOf(t)] == u.sent
  {
    CycleSet(t, s.ring.pcs);
    StoreKeeps(s, t);
    ConsumeKeeps(Store(s, t));
    ConsumeKeeps(Consume(Store(s, t)));
  }

  ghost function ConsumeTimes(s: Sys, k: nat): Sys
    requires Inv(s)
    ensures Inv(ConsumeTimes(s, k))
    decreases k
  {
    if k == 0 then s
    else
      ConsumeKeeps(s);
      ConsumeTimes(Consume(s), k - 1)
  }

  /** Whether the Link lies between the controller and the enqueue point; with the wrap under way
      it may already have been followed. */
  function LinksAhead(s: Sys): nat
    requires Wired(s.ring)
  {
    if (s.ccs == s.ring.pcs) == Shaped(s.ring) then 0 else 1
  }

  /** Left alone, the controller consumes everything: one step per TRB and at most one
      for a Link ahead. */
  lemma {:induction false} Drains(s: Sys, k: nat)
    requires Inv(s) && k >= Pending(s) + LinksAhead(s)
    ensures ConsumeTimes(s, k).got == s.sent && !Ready(ConsumeTimes(s, k))
    decreases k
  {
    StopsAtEnqueuePoint(s);
    if !Ready(s) {
      StaysStopped(s, k);
    } else if k > 0 {
      ConsumeKeeps(s);
      Drains(Consume(s), k - 1);
    }
  }

  lemma {:induction false} StaysStopped(s: Sys, k: nat)
    requires Inv(s) && !Ready(s)
    ensures ConsumeTimes(s, k) == s
    decreases k
  {
    if k > 0 {
      StaysStopped(s, k - 1);
    }
  }

  /** The bound is exact: an enqueue without room strands the controller on a foreign cycle
      bit although commands are outstanding. */
  lemma OverrunStrands(s: Sys, t: Trb)
    requires Inv(s) && Shaped(s.ring) && !IsLink(t)
    ensures HasRoom(s) <==> (Ready(Produce(s, t)) || Produce(s, t).got == Produce(s, t).sent)
  {
    CycleSet(t, s.ring.pcs);
    LinkControlIs(s.ring.pcs);
    if HasRoom(s) {
      ProduceKeeps(s, t);
      StopsAtEnqueuePoint(Produce(s, t));
    }
  }

  // ----- can_enqueue -----

  /** `can_enqueue(n)`: slots left before the Link. */
  predicate CanEnqueue(r: Ring, n: nat)
    requires Shaped(r)
  {
    var usable := |r.trbs| - 1;
    n <= if r.enq < usable then usable - r.enq else 0
  }

  function EnqueueAll(r: Ring, ts: seq<Trb>): Ring
    requires Shaped(r)
    decreases |ts|
  {
    if |ts| == 0 then r
    else
      EnqueueShaped(r, ts[0]);
      EnqueueAll(Enqueue(r, ts[0]), ts[1..])
  }

  /** can_enqueue(n) promises that the next n enqueues fill n consecutive slots with one
      cycle bit, leave every other data slot alone and keep the Link slot a Link. */
  lemma {:induction false} BatchIsContiguous(r: Ring, ts: seq<Trb>)
    requires Shaped(r) && CanEnqueue(r, |ts|)
    ensures var u := EnqueueAll(r, ts);
      && Shaped(u) && |u.trbs| == |r.trbs|
      && (forall i :: 0 <= i < |ts| ==>
            ContentOf(u.trbs[r.enq + i]) == ContentOf(ts[i]) && u.trbs[r.enq + i].control % 2 == r.pcs)
      && (forall j :: 0 <= j < LinkSlot(r) && !(r.enq <= j < r.enq + |ts|) ==> u.trbs[j] == r.trbs[j])
      && u.trbs[LinkSlot(r)].parameter == r.trbs[LinkSlot(r)].parameter
      && (if r.enq + |ts| == LinkSlot(r) then u.enq == 0 && u.pcs == Flip(r.pcs)
          else u.enq == r.enq + |ts| && u.pcs == r.pcs)
    decreases |ts|
  {
    if |ts| > 0 {
      var m := Enqueue(r, ts[0]);
      EnqueueShaped(r, ts[0]);
      CycleSet(ts[0], r.pcs);
      hide WithCycle, LinkControl, ContentOf, IsLink, Toggles;
      if |ts| > 1 {
        BatchIsContiguous(m, ts[1..]);
        assert forall i :: 1 <= i < |ts| ==> ts[i] == ts[1..][i - 1];
        forall i | 0 <= i < |ts|
          ensures ContentOf(EnqueueAll(r, ts).trbs[r.enq + i]) == ContentOf(ts[i])
          ensures EnqueueAll(r, ts).trbs[r.enq + i].control % 2 == r.pcs
        {
          if i > 0 {
            assert ContentOf(EnqueueAll(m, ts[1..]).trbs[m.enq + (i - 1)]) == ContentOf(ts[1..][i - 1]);
          }
        }
      } else {
        assert EnqueueAll(m, ts[1..]) == m;
      }
    }
  }

  /** can_enqueue(n) refuses exactly the batches that would wrap before their last TRB. */
  lemma RefusedBatchWraps(r: Ring, ts: seq<Trb>)
    requires Shaped(r)
    ensures CanEnqueue(r, |ts|) <==> |ts| <= |r.trbs| - 1 - r.enq
    ensures !CanEnqueue(r, |ts|) ==>
      var k := |r.trbs| - 1 - r.enq;
      k < |ts| && EnqueueAll(r, ts[..k]).enq == 0
  {
    if !CanEnqueue(r, |ts|) {
      BatchIsContiguous(r, ts[..|r.trbs| - 1 - r.enq]);
    }
  }

  // ----- the driver class -----

  class XhciRing {
    const trbs: array<Trb>
    const physicalBase: nat
    var enqueuePtr: nat
    var rcsBit: Bit

    function Model(): Ring
      reads this, trbs
    {
      Ring(trbs[..], enqueuePtr, rcsBit, physicalBase)
    }

    /** The constructor of the command ring, and `init` of the transfer ring. */
    constructor (maxTrbs: nat, base: nat)
      requires maxTrbs >= 2
      ensures Model() == InitialRing(maxTrbs, base) && fresh(trbs)
      ensures trbs.Length == maxTrbs && enqueuePtr == 0 && rcsBit == 1 && physicalBase == base
      ensures forall i :: 0 <= i < maxTrbs - 1 ==> trbs[i] == Trb(0, 0, 0)
      ensures trbs[maxTrbs - 1] == Trb(base, 0, 6 * 1024 + 2 + 1)
    {
      LinkControlIs(1);
      trbs := new Trb[maxTrbs](i => ZERO);
      physicalBase := base;
      enqueuePtr := 0;
      rcsBit := 1;
      new;
      trbs[maxTrbs - 1] := trbs[maxTrbs - 1].(parameter := base);
      trbs[maxTrbs - 1] := trbs[maxTrbs - 1].(control := LinkControl(rcsBit));
    }

    /** `enqueue`: one controller-visible store, and a second when it wraps. */
    method EnqueueTrb(trb: Trb) returns (written: Trb)
      requires Shaped(Model())
      modifies this, trbs
      ensures Model() == Enqueue(old(Model()), trb)
      ensures
        && written.parameter == trb.parameter && written.status == trb.status
        && written.control / 2 == trb.control / 2 && written.control % 2 == old(rcsBit)
        && trbs[old(enqueuePtr)] == written
      ensures
        if old(enqueuePtr) + 2 == trbs.Length then
          && trbs[old(enqueuePtr) + 1] == old(trbs[enqueuePtr + 1]).(control := 6 * 1024 + 2 + old(rcsBit))
          && enqueuePtr == 0 && rcsBit == 1 - old(rcsBit)
        else
          enqueuePtr == old(enqueuePtr) + 1 && rcsBit == old(rcsBit)
      ensures forall i :: 0 <= i < trbs.Length - 1 && i != old(enqueuePtr) ==> trbs[i] == old(trbs[i])
      ensures old(enqueuePtr) + 2 != trbs.Length ==> trbs[trbs.Length - 1] == old(trbs[trbs.Length - 1])
    {
      CycleSet(trb, rcsBit);
      LinkControlIs(rcsBit);
      hide LinkControl;
      written := WithCycle(trb, rcsBit);
      StoreSlot(written, trb);
      if enqueuePtr == trbs.Length - 1 {
        RelinkRing();
      }
    }

    /** `can_enqueue`. */
    predicate CanEnqueueTrbs(n: nat)
      requires trbs.Length >= 2
      reads this
      ensures CanEnqueueTrbs(n) <==> n == 0 || enqueuePtr + n <= trbs.Length - 1
    {
      var usable := trbs.Length - 1;
      var available := if enqueuePtr < usable then usable - enqueuePtr else 0;
      n <= available
    }

    method StoreSlot(written: Trb, ghost trb: Trb)
      requires Shaped(Model()) && written == WithCycle(trb, rcsBit)
      modifies this, trbs
      ensures Model() == StoreTrb(old(Model()), trb)
    {
      trbs[enqueuePtr] := written;
      enqueuePtr := enqueuePtr + 1;
    }

    method RelinkRing()
      requires Wired(Model()) && Model().enq == LinkSlot(Model())
      modifies this, trbs
      ensures Model() == Relink(old(Model()))
    {
      trbs[trbs.Length - 1] := trbs[trbs.Length - 1].(control := LinkControl(rcsBit));
      enqueuePtr := 0;
      rcsBit := Flip(rcsBit);
    }
  }
}
