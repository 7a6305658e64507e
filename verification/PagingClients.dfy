/** Page tables under other clients: any heap call or client write that leaves the table
    pages' own grants alone leaves every translation alone. */
module PagingClients {
  import opened Widths
  import opened Bits
  import opened Memory
  import opened HeapModel
  import opened HeapLayout
  import opened HeapGrants
  import opened HeapSteps
  import opened PageModel
  import opened Paging
  import Processor
  import PageTranslation

  /** g backs one of the tables. */
  ghost predicate TableGrant(nodes: Nodes, g: Grant) {
    g.hidden && g.size == PAGE && exists k :: k in nodes && nodes[k] == g.ptr
  }

  /** The event neither frees nor writes a table page. */
  ghost predicate SparesTables(e: Event, grants: set<Grant>, nodes: Nodes) {
    match e
    case DidMalloc(_, _) => true
    case DidFree(p) => forall g :: g in grants && TableGrant(nodes, g) ==> g.raw != p
    case DidStore(g, _, _) => !TableGrant(nodes, g)
    case DidHide(_, _) => true
  }

  /** The heap is sound and the tables in it form a tree of granted pages. */
  ghost predicate Sound(s: HeapState, lo: nat, hi: nat, nodes: Nodes, pml4: nat, hhdm: nat) {
    && Inv(s, lo, hi) && LayoutOk(lo, hi, pml4, hhdm)
    && Tree(s.mem, nodes, pml4, hhdm) && TablesOwned(nodes, s.grants)
  }

  /** A word stored inside another grant is in no table page. */
  lemma StoreMissesTables(s: HeapState, lo: nat, hi: nat, nodes: Nodes, pml4: nat, hhdm: nat, g: Grant, a: nat, v: int)
    requires Sound(s, lo, hi, nodes, pml4, hhdm)
    requires g in s.grants && !TableGrant(nodes, g) && g.raw <= a < g.ptr + g.size
    ensures SameTables(s.mem, s.mem[a := v], nodes)
  {
    hide EntriesOk, InPage;
    var c :| c in Used(s.cells) && Backs(s.mem, c, g);
    UsedDisjoint(s.cells, lo, hi, c, c);
    forall k: Node, x: int | k in nodes && InPage(nodes[k], x) ensures x != a {
      if k.level == 4 {
        RootMisses(lo, hi, pml4, hhdm, x);
      } else {
        var h :| h in s.grants && h.hidden && h.ptr == nodes[k] && h.size == PAGE;
        assert TableGrant(nodes, h);
        GrantsDisjoint(s.mem, s.cells, lo, hi, s.grants, g, h);
        PageRange(nodes[k], x);
        GrantAboveRaw(s, g);
        GrantAboveRaw(s, h);
      }
    }
  }

  lemma GrantAboveRaw(s: HeapState, g: Grant)
    requires GrantsOk(s.mem, s.cells, s.grants) && g in s.grants
    ensures g.raw <= g.ptr
  {
    assert GrantOk(s.mem, s.cells, g);
  }

  lemma PageRange(t: nat, x: int)
    requires InPage(t, x)
    ensures t <= x < t + PAGE
  {}

  lemma RootMisses(lo: nat, hi: nat, pml4: nat, hhdm: nat, x: int)
    requires LayoutOk(lo, hi, pml4, hhdm) && InPage(pml4, x)
    ensures x < lo || hi <= x
  {}

  lemma OwnedAfterSwap(nodes: Nodes, gs: set<Grant>, g: Grant, h: Grant)
    requires TablesOwned(nodes, gs) && !g.hidden
    ensures TablesOwned(nodes, Swapped(gs, g, h))
  {
    forall k | k in nodes && k.level < 4 ensures OwnedPage(Swapped(gs, g, h), nodes[k]) {
      var x :| x in gs && x.hidden && x.ptr == nodes[k] && x.size == PAGE;
      assert x in Swapped(gs, g, h);
    }
  }

  lemma OwnedAfterFree(nodes: Nodes, gs: set<Grant>, p: nat)
    requires TablesOwned(nodes, gs)
    requires forall g :: g in gs && TableGrant(nodes, g) ==> g.raw != p
    ensures TablesOwned(nodes, Without(gs, p))
  {
    forall k | k in nodes && k.level < 4 ensures OwnedPage(Without(gs, p), nodes[k]) {
      var x :| x in gs && x.hidden && x.ptr == nodes[k] && x.size == PAGE;
      assert TableGrant(nodes, x);
      assert x in Without(gs, p);
    }
  }

  lemma KeptMeansSame(s: HeapState, t: HeapState, lo: nat, hi: nat, nodes: Nodes, pml4: nat, hhdm: nat)
    requires Sound(s, lo, hi, nodes, pml4, hhdm) && PreservesClients(s.mem, t.mem, s.cells, lo, hi)
    ensures SameTables(s.mem, t.mem, nodes)
  {
    hide InPage, Kept, Inv, EntriesOk, NodesOk;
    TablePagesAreKept(s, lo, hi, nodes, pml4, hhdm);
  }

  /** Other clients' steps keep the tree and every translation. */
  lemma OtherStepKeepsTables(s: HeapState, e: Event, t: HeapState, lo: nat, hi: nat, nodes: Nodes, pml4: nat, hhdm: nat)
    requires Sound(s, lo, hi, nodes, pml4, hhdm)
    requires Step(s, e, t, lo, hi) && SparesTables(e, s.grants, nodes)
    ensures Sound(t, lo, hi, nodes, pml4, hhdm)
    ensures forall pn: PageNumber :: Walk(t.mem, hhdm, pml4, pn) == Walk(s.mem, hhdm, pml4, pn)
  {
    hide Inv, Tree, TablesOwned, Walk, Leaf, SameTables, LayoutOk, PreservesClients, AllocAt, Release, Swapped,
      Without, TableGrant;
    StepKeeps(s, e, t, lo, hi);
    TablesAfter(s, e, t, lo, hi, nodes, pml4, hhdm);
    TreeFrame(s.mem, t.mem, nodes, pml4, hhdm);
    EntriesAreLeaves(s.mem, nodes, pml4, hhdm);
    EntriesAreLeaves(t.mem, nodes, pml4, hhdm);
  }

  lemma TablesAfter(s: HeapState, e: Event, t: HeapState, lo: nat, hi: nat, nodes: Nodes, pml4: nat, hhdm: nat)
    requires Sound(s, lo, hi, nodes, pml4, hhdm)
    requires Step(s, e, t, lo, hi) && SparesTables(e, s.grants, nodes)
    ensures SameTables(s.mem, t.mem, nodes) && TablesOwned(nodes, t.grants)
  {
    hide Inv, Tree, TablesOwned, LayoutOk, PreservesClients, AllocAt, Release, Swapped, Without, TableGrant, Represents;
    match e
    case DidMalloc(size, p) =>
      if p != 0 {
        KeptMeansSame(s, t, lo, hi, nodes, pml4, hhdm);
        OwnedGrow(nodes, s.grants, Grant(p, GrantedBytes(size), p, false));
      }
    case DidFree(p) =>
      if p != 0 {
        KeptMeansSame(s, t, lo, hi, nodes, pml4, hhdm);
        OwnedAfterFree(nodes, s.grants, p);
      }
    case DidStore(g, a, v) =>
      InvGrants(s, lo, hi);
      GrantAboveRaw(s, g);
      StoreMissesTables(s, lo, hi, nodes, pml4, hhdm, g, a, v);
    case DidHide(g, h) =>
      NotHiddenNotTable(nodes, g);
      StoreMissesTables(s, lo, hi, nodes, pml4, hhdm, g, h.ptr - 8, g.raw);
      OwnedAfterSwap(nodes, s.grants, g, h);
  }

  lemma InvGrants(s: HeapState, lo: nat, hi: nat)
    requires Inv(s, lo, hi)
    ensures GrantsOk(s.mem, s.cells, s.grants)
  {}

  lemma NotHiddenNotTable(nodes: Nodes, g: Grant)
    requires !g.hidden
    ensures !TableGrant(nodes, g)
  {}

  /** Over any run of such steps: the tables stay a tree disjoint from every other live
      block, and every translation stays what it was. */
  lemma {:induction false} OtherRunKeepsTables(states: seq<HeapState>, events: seq<Event>, lo: nat, hi: nat,
                                               nodes: Nodes, pml4: nat, hhdm: nat, n: nat)
    requires IsRun(states, events, lo, hi) && n < |states|
    requires Sound(states[0], lo, hi, nodes, pml4, hhdm)
    requires forall i :: 0 <= i < |events| ==> SparesTables(events[i], states[i].grants, nodes)
    ensures Sound(states[n], lo, hi, nodes, pml4, hhdm)
    ensures forall pn: PageNumber :: Walk(states[n].mem, hhdm, pml4, pn) == Walk(states[0].mem, hhdm, pml4, pn)
    decreases n
  {
    if n > 0 {
      hide Sound, Step, SparesTables, Walk;
      OtherRunKeepsTables(states, events, lo, hi, nodes, pml4, hhdm, n - 1);
      OtherStepKeepsTables(states[n - 1], events[n - 1], states[n], lo, hi, nodes, pml4, hhdm);
    }
  }

  /** So every address translates, for the processor, as it did before the run. */
  lemma OtherRunKeepsTranslations(states: seq<HeapState>, events: seq<Event>, lo: nat, hi: nat,
                                  nodes: Nodes, pml4: nat, hhdm: nat, n: nat, va: nat)
    requires IsRun(states, events, lo, hi) && n < |states|
    requires Sound(states[0], lo, hi, nodes, pml4, hhdm)
    requires forall i :: 0 <= i < |events| ==> SparesTables(events[i], states[i].grants, nodes)
    ensures Processor.Translate(states[n].mem, hhdm, pml4, va) == Processor.Translate(states[0].mem, hhdm, pml4, va)
  {
    OtherRunKeepsTables(states, events, lo, hi, nodes, pml4, hhdm, n);
    SoundTree(states[0], lo, hi, nodes, pml4, hhdm);
    SoundTree(states[n], lo, hi, nodes, pml4, hhdm);
    hide *;
    PageTranslation.TranslateIsLeaf(states[0].mem, nodes, pml4, hhdm, va);
    PageTranslation.TranslateIsLeaf(states[n].mem, nodes, pml4, hhdm, va);
  }

  lemma SoundTree(s: HeapState, lo: nat, hi: nat, nodes: Nodes, pml4: nat, hhdm: nat)
    requires Sound(s, lo, hi, nodes, pml4, hhdm)
    ensures Tree(s.mem, nodes, pml4, hhdm)
  {}

  /** No two tables, and no table and other grant, share a byte. */
  lemma TablesAreDisjoint(s: HeapState, lo: nat, hi: nat, nodes: Nodes, pml4: nat, hhdm: nat, k: Node, g: Grant)
    requires Sound(s, lo, hi, nodes, pml4, hhdm) && k in nodes && k.level < 4
    requires g in s.grants && (g.ptr != nodes[k] || g.size != PAGE || !g.hidden)
    ensures nodes[k] + PAGE <= g.raw || g.ptr + g.size <= nodes[k]
    ensures lo <= nodes[k] && nodes[k] + PAGE <= hi
    ensures forall j :: j in nodes && j != k ==> nodes[j] + PAGE <= nodes[k] || nodes[k] + PAGE <= nodes[j]
  {
    hide EntriesOk, InPage;
    var h :| h in s.grants && h.hidden && h.ptr == nodes[k] && h.size == PAGE;
    GrantsDisjoint(s.mem, s.cells, lo, hi, s.grants, h, g);
    GrantAboveRaw(s, h);
    forall j | j in nodes && j != k ensures nodes[j] + PAGE <= nodes[k] || nodes[k] + PAGE <= nodes[j] {
      assert nodes[j] % PAGE == 0 && nodes[k] % PAGE == 0 && nodes[j] != nodes[k];
      PagesFarApart(nodes[j], nodes[k]);
    }
  }
}
