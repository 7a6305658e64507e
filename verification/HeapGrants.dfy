/** The pointers the heap has handed out, each with the block that backs it. An aligned
    pointer carries its raw pointer in the word just below it (AlignHeader). */
module HeapGrants {
  import opened Widths
  import opened Bits
  import opened Memory
  import opened HeapModel
  import opened HeapLayout

  datatype Grant = Grant(ptr: nat, size: nat, raw: nat, hidden: bool)

  /** Block c backs grant g, and the hidden word, if any, still names the block. */
  ghost predicate Backs(m: Words, c: Cell, g: Grant) {
    && c.Payload() == g.raw
    && g.ptr + g.size <= c.End()
    && (if g.hidden
        then g.raw + 8 <= g.ptr && g.ptr % 8 == 0 && At(m, g.ptr - 8) == g.raw
        else g.ptr == g.raw)
  }

  ghost predicate GrantOk(m: Words, cs: seq<Cell>, g: Grant) {
    exists c :: c in Used(cs) && Backs(m, c, g)
  }

  ghost predicate Granted(gs: set<Grant>, raw: nat) {
    exists g :: g in gs && g.raw == raw
  }

  ghost predicate DistinctRaws(gs: set<Grant>) {
    forall g, h :: g in gs && h in gs && g.raw == h.raw ==> g == h
  }

  /** Every grant is backed by a used block of its own, and every used block backs one. */
  ghost predicate GrantsOk(m: Words, cs: seq<Cell>, gs: set<Grant>) {
    && (forall g :: g in gs ==> GrantOk(m, cs, g))
    && DistinctRaws(gs)
    && (forall c :: c in Used(cs) ==> Granted(gs, c.Payload()))
  }

  /** A client may store words that start inside its own grant. */
  predicate MayWrite(g: Grant, a: int) {
    a % 8 == 0 && g.ptr <= a < g.ptr + g.size
  }

  ghost function Without(gs: set<Grant>, raw: nat): set<Grant> {
    set g | g in gs && g.raw != raw
  }

  /** A request whose rounding wraps is granted no bytes. */
  function GrantedBytes(size: Word): nat {
    if size <= TWO64 - 16 then size else 0
  }

  lemma GrantSurvives(m: Words, m': Words, cs: seq<Cell>, cs': seq<Cell>, lo: nat, hi: nat, g: Grant)
    requires Tiles(cs, lo, hi)
    requires GrantOk(m, cs, g) && PreservesClients(m, m', cs, lo, hi)
    requires forall c :: c in Used(cs) && c.Payload() == g.raw ==> c in Used(cs')
    ensures GrantOk(m', cs', g)
  {
    var c :| c in Used(cs) && Backs(m, c, g);
    if g.hidden {
      assert c.Payload() <= g.ptr - 8 < c.End();
      assert Kept(cs, lo, hi, g.ptr - 8);
    }
    assert Backs(m', c, g);
  }

  lemma UsedDisjoint(cs: seq<Cell>, lo: nat, hi: nat, c: Cell, d: Cell)
    requires Tiles(cs, lo, hi) && c in Used(cs) && d in Used(cs)
    ensures c == d || c.End() <= d.addr || d.End() <= c.addr
    ensures lo <= c.addr && c.End() <= hi && c.addr % 16 == 0 && c.size % 16 == 0
  {
    TilesOrdered(cs, lo, hi);
    var i :| 0 <= i < |cs| && cs[i] == c;
    var j :| 0 <= j < |cs| && cs[j] == d;
  }

  /** One more used block c and one more grant for it. */
  lemma GrantsGrow(m: Words, m': Words, cs: seq<Cell>, cs': seq<Cell>, lo: nat, hi: nat,
      c: Cell, gs: set<Grant>, added: Grant)
    requires Tiles(cs, lo, hi) && GrantsOk(m, cs, gs)
    requires PreservesClients(m, m', cs, lo, hi)
    requires Used(cs') == Used(cs) + {c} && Backs(m', c, added)
    requires forall d :: d in Used(cs) ==> d.addr != c.addr
    ensures GrantsOk(m', cs', gs + {added})
    ensures forall g :: g in gs ==> g.raw != added.raw
  {
    forall g | g in gs ensures GrantOk(m', cs', g) && g.raw != added.raw {
      GrantSurvives(m, m', cs, cs', lo, hi, g);
      var d :| d in Used(cs) && Backs(m, d, g);
      assert d.addr != c.addr;
    }
    assert added in gs + {added};
    forall d | d in Used(cs') ensures Granted(gs + {added}, d.Payload()) {
      if d != c {
        GrantedMore(gs, gs + {added}, d.Payload());
      }
    }
  }

  lemma GrantedMore(gs: set<Grant>, hs: set<Grant>, raw: nat)
    requires Granted(gs, raw)
    requires forall g :: g in gs && g.raw == raw ==> Granted(hs, raw) || g in hs
    ensures Granted(hs, raw)
  {}

  lemma AllocGrants(m: Words, m': Words, cs: seq<Cell>, lo: nat, hi: nat, k: nat, n: nat, gs: set<Grant>, size: nat)
    requires Tiles(cs, lo, hi) && GrantsOk(m, cs, gs) && k < |cs| && Fits(cs[k], n) && size <= n
    requires PreservesClients(m, m', cs, lo, hi)
    ensures var p := cs[k].Payload();
      GrantsOk(m', AllocAt(cs, k, n), gs + {Grant(p, size, p, false)})
    ensures forall g :: g in gs ==> g.raw != cs[k].Payload()
  {
    AllocAtUsed(cs, lo, hi, k, n);
    var p := cs[k].Payload();
    GrantsGrow(m, m', cs, AllocAt(cs, k, n), lo, hi, Taken(cs[k], n), gs, Grant(p, size, p, false));
  }

  lemma FreeGrants(m: Words, m': Words, cs: seq<Cell>, cs': seq<Cell>, lo: nat, hi: nat, k: nat, gs: set<Grant>)
    requires Tiles(cs, lo, hi) && GrantsOk(m, cs, gs) && k < |cs| && !cs[k].free
    requires Used(cs') == Used(cs) - {cs[k]}
    requires PreservesClients(m, m', cs, lo, hi)
    ensures GrantsOk(m', cs', Without(gs, cs[k].Payload()))
  {
    forall g | g in gs && g.raw != cs[k].Payload() ensures GrantOk(m', cs', g) {
      GrantSurvives(m, m', cs, cs', lo, hi, g);
    }
    forall c | c in Used(cs') ensures Granted(Without(gs, cs[k].Payload()), c.Payload()) {
      UsedDisjoint(cs, lo, hi, c, cs[k]);
      GrantedMore(gs, Without(gs, cs[k].Payload()), c.Payload());
    }
  }

  /** Storing in a block that backs one grant leaves the hidden words of all others. */
  lemma OtherGrantSurvivesStore(m: Words, cs: seq<Cell>, lo: nat, hi: nat, h: Grant, c: Cell, a: int, v: int)
    requires Tiles(cs, lo, hi) && GrantOk(m, cs, h) && c in Used(cs) && h.raw != c.Payload()
    requires c.Payload() <= a < c.End()
    ensures GrantOk(m[a := v], cs, h)
  {
    var d :| d in Used(cs) && Backs(m, d, h);
    UsedDisjoint(cs, lo, hi, c, d);
    assert Backs(m[a := v], d, h);
  }

  lemma StoreKeepsHeaders(m: Words, cs: seq<Cell>, lo: nat, hi: nat, c: Cell, a: int, v: int)
    requires Tiles(cs, lo, hi) && Represents(m, cs) && c in Used(cs) && c.Payload() <= a < c.End()
    ensures Represents(m[a := v], cs)
  {
    HeadersAreNotKept(cs, lo, hi);
    assert Kept(cs, lo, hi, a);
    RepresentsFrame(m, m[a := v], cs);
  }

  /** Client writes confined to a live grant disturb neither headers nor hidden pointers. */
  lemma ClientStore(m: Words, cs: seq<Cell>, lo: nat, hi: nat, gs: set<Grant>, g: Grant, a: int, v: int)
    requires Tiles(cs, lo, hi) && Represents(m, cs) && GrantsOk(m, cs, gs) && g in gs && MayWrite(g, a)
    ensures Represents(m[a := v], cs) && GrantsOk(m[a := v], cs, gs)
  {
    var c :| c in Used(cs) && Backs(m, c, g);
    StoreKeepsHeaders(m, cs, lo, hi, c, a, v);
    forall h | h in gs ensures GrantOk(m[a := v], cs, h) {
      if h == g {
        assert Backs(m[a := v], c, g);
      } else {
        OtherGrantSurvivesStore(m, cs, lo, hi, h, c, a, v);
      }
    }
  }

  /** Swapping a grant for another with the same raw pointer. */
  ghost function Swapped(gs: set<Grant>, g: Grant, h: Grant): set<Grant> {
    gs - {g} + {h}
  }

  lemma SwapKeepsRaws(gs: set<Grant>, g: Grant, h: Grant)
    requires DistinctRaws(gs) && g in gs && h.raw == g.raw
    ensures DistinctRaws(Swapped(gs, g, h))
    ensures forall x :: x in Swapped(gs, g, h) ==> x == h || (x in gs && x.raw != g.raw)
    ensures forall raw :: Granted(gs, raw) ==> Granted(Swapped(gs, g, h), raw)
  {
    forall raw | Granted(gs, raw) ensures Granted(Swapped(gs, g, h), raw) {
      var x :| x in gs && x.raw == raw;
      if x == g { assert h in Swapped(gs, g, h); } else { assert x in Swapped(gs, g, h); }
    }
  }

  /** Writing the AlignHeader turns a raw grant into an aligned one. */
  lemma HideRaw(m: Words, cs: seq<Cell>, lo: nat, hi: nat, gs: set<Grant>, g: Grant, aligned: Grant)
    requires Tiles(cs, lo, hi) && Represents(m, cs) && GrantsOk(m, cs, gs) && g in gs && !g.hidden
    requires aligned.hidden && aligned.raw == g.raw && g.raw < TWO64
    requires g.raw + 8 <= aligned.ptr && aligned.ptr % 8 == 0 && aligned.ptr + aligned.size <= g.ptr + g.size
    ensures var m' := m[aligned.ptr - 8 := g.raw];
      Represents(m', cs) && GrantsOk(m', cs, Swapped(gs, g, aligned))
  {
    var a := aligned.ptr - 8;
    var m' := m[a := g.raw];
    var c :| c in Used(cs) && Backs(m, c, g);
    StoreKeepsHeaders(m, cs, lo, hi, c, a, g.raw);
    SwapKeepsRaws(gs, g, aligned);
    forall h | h in Swapped(gs, g, aligned) ensures GrantOk(m', cs, h) {
      if h == aligned {
        assert Backs(m', c, aligned);
      } else {
        OtherGrantSurvivesStore(m, cs, lo, hi, h, c, a, g.raw);
      }
    }
  }

  /** Grants of distinct blocks never overlap, hidden word included. */
  lemma GrantsDisjoint(m: Words, cs: seq<Cell>, lo: nat, hi: nat, gs: set<Grant>, g: Grant, h: Grant)
    requires Tiles(cs, lo, hi) && GrantsOk(m, cs, gs) && g in gs && h in gs && g != h
    ensures g.ptr + g.size <= h.raw || h.ptr + h.size <= g.raw
    ensures lo <= g.raw && g.ptr + g.size <= hi
  {
    var c :| c in Used(cs) && Backs(m, c, g);
    var d :| d in Used(cs) && Backs(m, d, h);
    UsedDisjoint(cs, lo, hi, c, d);
  }
}
