/** Whole address spaces: destroying one (pintos/threads/mmu.c) and copying one on fork
    (pintos/userprog/process.c, pintos/threads/mmu.c). */
module AddressSpaces {
  import opened Mmu
  import opened Wrappers

  // ----- what an address space owns ---------------------------------------------

  predicate InRange(i: nat, j: nat, k: nat) { i < 512 && j < 512 && k < 512 }

  /** The mapped frames belong to this address space alone: they are allocated, differ from each other and
      are not tables. */
  ghost predicate Owned(mem: Memory, t: Tables) {
    && (forall i, j, k {:trigger Leaf(mem, t, i, j, k)} | InRange(i, j, k) && Leaf(mem, t, i, j, k).p ::
         Leaf(mem, t, i, j, k).frame in mem && Leaf(mem, t, i, j, k).frame !in t.Values)
    && (forall i, j, k, i', j', k' {:trigger Leaf(mem, t, i, j, k), Leaf(mem, t, i', j', k')} |
         InRange(i, j, k) && InRange(i', j', k') && Leaf(mem, t, i, j, k).p && Leaf(mem, t, i', j', k').p
         && Leaf(mem, t, i, j, k).frame == Leaf(mem, t, i', j', k').frame :: i == i' && j == j' && k == k')
  }

  /** The frames mapped by the first k entries of table (i, j). */
  ghost function PtPages(mem: Memory, t: Tables, i: nat, j: nat, k: nat): set<nat> {
    if k == 0 then {}
    else PtPages(mem, t, i, j, k - 1) + (if Leaf(mem, t, i, j, k - 1).p then {Leaf(mem, t, i, j, k - 1).frame} else {})
  }

  /** All pages below the first j entries of directory i. */
  ghost function DirPages(mem: Memory, t: Tables, i: nat, j: nat): set<nat> {
    if j == 0 then {}
    else DirPages(mem, t, i, j - 1) + (if Table(i, j - 1) in t
                                       then PtPages(mem, t, i, j - 1, 512) + {t[Table(i, j - 1)]} else {})
  }

  /** All pages below the first i entries of the page-directory-pointer table. */
  ghost function PdptPages(mem: Memory, t: Tables, i: nat): set<nat> {
    if i == 0 then {}
    else PdptPages(mem, t, i - 1) + (if Dir(i - 1) in t then DirPages(mem, t, i - 1, 512) + {t[Dir(i - 1)]} else {})
  }

  /** Every page of an address space. */
  ghost function Footprint(mem: Memory, t: Tables): set<nat>
    requires Root in t
  {
    {t[Root]} + (if Pdpt in t then PdptPages(mem, t, 512) + {t[Pdpt]} else {})
  }

  // ----- who is in there ----------------------------------------------------------

  lemma {:induction false} PtMember(mem: Memory, t: Tables, i: nat, j: nat, k: nat)
    requires k <= 512
    ensures forall f | f in PtPages(mem, t, i, j, k) ::
              exists k': nat :: k' < k && Leaf(mem, t, i, j, k').p && Leaf(mem, t, i, j, k').frame == f
    ensures forall k': nat {:trigger Leaf(mem, t, i, j, k')} | k' < k && Leaf(mem, t, i, j, k').p ::
              Leaf(mem, t, i, j, k').frame in PtPages(mem, t, i, j, k)
  {
    if k > 0 {
      PtMember(mem, t, i, j, k - 1);
    }
  }

  ghost predicate LeafUnder(mem: Memory, t: Tables, i: nat, j: nat, f: nat) {
    exists k: nat :: k < 512 && Leaf(mem, t, i, j, k).p && Leaf(mem, t, i, j, k).frame == f
  }

  lemma {:induction false} DirMember(mem: Memory, t: Tables, i: nat, j: nat)
    requires j <= 512
    ensures forall f | f in DirPages(mem, t, i, j) ::
              exists j': nat :: j' < j && Table(i, j') in t && (t[Table(i, j')] == f || LeafUnder(mem, t, i, j', f))
    ensures forall j': nat {:trigger Table(i, j')} | j' < j && Table(i, j') in t ::
              PtPages(mem, t, i, j', 512) + {t[Table(i, j')]} <= DirPages(mem, t, i, j)
  {
    if j > 0 {
      DirMember(mem, t, i, j - 1);
      PtMember(mem, t, i, j - 1, 512);
    }
  }

  ghost predicate PageUnder(mem: Memory, t: Tables, i: nat, f: nat) {
    exists j: nat :: j < 512 && Table(i, j) in t && (t[Table(i, j)] == f || LeafUnder(mem, t, i, j, f))
  }

  lemma {:induction false} PdptMember(mem: Memory, t: Tables, i: nat)
    requires i <= 512
    ensures forall f | f in PdptPages(mem, t, i) :: exists i': nat ::
                                                      i' < i && Dir(i') in t
                                                        && (t[Dir(i')] == f || PageUnder(mem, t, i', f))
    ensures forall i': nat {:trigger Dir(i')} | i' < i && Dir(i') in t ::
              DirPages(mem, t, i', 512) + {t[Dir(i')]} <= PdptPages(mem, t, i)
  {
    if i > 0 {
      PdptMember(mem, t, i - 1);
      DirMember(mem, t, i - 1, 512);
    }
  }

  /** The footprint is the tables and the mapped frames. */
  lemma FootprintIs(mem: Memory, t: Tables)
    requires Shape(t)
    ensures t.Values <= Footprint(mem, t)
    ensures forall i, j, k {:trigger Leaf(mem, t, i, j, k)} | InRange(i, j, k) && Leaf(mem, t, i, j, k).p ::
              Leaf(mem, t, i, j, k).frame in Footprint(mem, t)
    ensures forall f | f in Footprint(mem, t) :: f in t.Values
              || exists i: nat, j: nat, k: nat :: InRange(i, j, k) && Leaf(mem, t, i, j, k).p
                                                  && Leaf(mem, t, i, j, k).frame == f
  {
    PdptMember(mem, t, 512);
    forall f | f in t.Values ensures f in Footprint(mem, t) {
      var p :| p in t && t[p] == f;
      if p.Table? { DirMember(mem, t, p.i, 512); assert Dir(p.i) in t; }
    }
    forall i, j, k | InRange(i, j, k) && Leaf(mem, t, i, j, k).p
      ensures Leaf(mem, t, i, j, k).frame in Footprint(mem, t)
    {
      assert Table(i, j) in t && Dir(i) in t;
      PtMember(mem, t, i, j, 512);
      DirMember(mem, t, i, 512);
    }
  }

  // ----- destroying ---------------------------------------------------------------

  /** An entry's page has not been freed yet when its turn comes. */
  lemma {:induction false} PtFresh(m0: Memory, t: Tables, i: nat, j: nat, k: nat)
    requires Tree(m0, t) && Owned(m0, t) && Table(i, j) in t && k < 512
    ensures var pt, e := t[Table(i, j)], m0[t[Table(i, j)]][k];
            && e == Leaf(m0, t, i, j, k) && pt !in PtPages(m0, t, i, j, k)
            && (e.p ==> e.frame in m0 && e.frame !in PtPages(m0, t, i, j, k) && e.frame in PtPages(m0, t, i, j, 512))
  {
    PtMember(m0, t, i, j, k);
    PtMember(m0, t, i, j, 512);
    forall f | f in PtPages(m0, t, i, j, k)
      ensures f !in t.Values && (Leaf(m0, t, i, j, k).p ==> f != Leaf(m0, t, i, j, k).frame)
    {
      var k': nat :| k' < k && Leaf(m0, t, i, j, k').p && Leaf(m0, t, i, j, k').frame == f;
    }
  }

  lemma LeafUnderOwned(m0: Memory, t: Tables, i: nat, j: nat, f: nat)
    requires Owned(m0, t) && i < 512 && j < 512 && LeafUnder(m0, t, i, j, f)
    ensures f in m0 && f !in t.Values
    ensures forall i', j' | i' < 512 && j' < 512 && LeafUnder(m0, t, i', j', f) :: i' == i && j' == j
  {
  }

  lemma {:induction false} DirFresh(m0: Memory, t: Tables, i: nat, j: nat)
    requires Tree(m0, t) && Owned(m0, t) && Dir(i) in t && j < 512
    ensures Links(m0[t[Dir(i)]][j], t, Table(i, j)) && t[Dir(i)] !in DirPages(m0, t, i, j)
    ensures Table(i, j) in t ==> var now := PtPages(m0, t, i, j, 512) + {t[Table(i, j)]};
              now !! DirPages(m0, t, i, j) && now <= DirPages(m0, t, i, 512)
                && t[Table(i, j)] !in PtPages(m0, t, i, j, 512)
  {
    DirMember(m0, t, i, j);
    DirMember(m0, t, i, 512);
    PtMember(m0, t, i, j, 512);
    forall f | f in DirPages(m0, t, i, j)
      ensures f != t[Dir(i)] && !LeafUnder(m0, t, i, j, f) && (Table(i, j) in t ==> f != t[Table(i, j)])
    {
      var j': nat :| j' < j && Table(i, j') in t && (t[Table(i, j')] == f || LeafUnder(m0, t, i, j', f));
      if LeafUnder(m0, t, i, j', f) {
        LeafUnderOwned(m0, t, i, j', f);
      } else if LeafUnder(m0, t, i, j, f) {
        LeafUnderOwned(m0, t, i, j, f);
      }
    }
    forall f | f in PtPages(m0, t, i, j, 512) ensures LeafUnder(m0, t, i, j, f) && f !in t.Values {
      LeafUnderOwned(m0, t, i, j, f);
    }
  }

  lemma PageUnderOwned(m0: Memory, t: Tables, i: nat, i': nat, f: nat)
    requires Tree(m0, t) && Owned(m0, t) && i < 512 && i' < 512 && PageUnder(m0, t, i, f) && PageUnder(m0, t, i', f)
    ensures i == i'
  {
    var j: nat :| j < 512 && Table(i, j) in t && (t[Table(i, j)] == f || LeafUnder(m0, t, i, j, f));
    var j': nat :| j' < 512 && Table(i', j') in t && (t[Table(i', j')] == f || LeafUnder(m0, t, i', j', f));
    if LeafUnder(m0, t, i, j, f) {
      LeafUnderOwned(m0, t, i, j, f);
    } else if LeafUnder(m0, t, i', j', f) {
      LeafUnderOwned(m0, t, i', j', f);
    }
  }

  lemma PageUnderNoDir(m0: Memory, t: Tables, i: nat, f: nat)
    requires Tree(m0, t) && Owned(m0, t) && i < 512 && PageUnder(m0, t, i, f)
    ensures f in m0 && f != t[Root] && (Pdpt in t ==> f != t[Pdpt]) && forall i' | Dir(i') in t :: f != t[Dir(i')]
  {
    var j: nat :| j < 512 && Table(i, j) in t && (t[Table(i, j)] == f || LeafUnder(m0, t, i, j, f));
    if LeafUnder(m0, t, i, j, f) {
      LeafUnderOwned(m0, t, i, j, f);
    }
  }

  lemma {:induction false} PdptFresh(m0: Memory, t: Tables, i: nat)
    requires Tree(m0, t) && Owned(m0, t) && Pdpt in t && i < 512
    ensures Links(m0[t[Pdpt]][i], t, Dir(i)) && t[Pdpt] !in PdptPages(m0, t, i)
    ensures Dir(i) in t ==> var now := DirPages(m0, t, i, 512) + {t[Dir(i)]};
              now !! PdptPages(m0, t, i) && t[Dir(i)] !in DirPages(m0, t, i, 512) && t[Pdpt] !in now
  {
    PdptMember(m0, t, i);
    DirMember(m0, t, i, 512);
    forall f | f in PdptPages(m0, t, i)
      ensures f != t[Pdpt] && !PageUnder(m0, t, i, f) && (Dir(i) in t ==> f != t[Dir(i)])
    {
      var i': nat :| i' < i && Dir(i') in t && (t[Dir(i')] == f || PageUnder(m0, t, i', f));
      if PageUnder(m0, t, i', f) {
        PageUnderNoDir(m0, t, i', f);
        if PageUnder(m0, t, i, f) { PageUnderOwned(m0, t, i, i', f); }
      } else if PageUnder(m0, t, i, f) {
        PageUnderNoDir(m0, t, i, f);
      }
    }
    forall f | f in DirPages(m0, t, i, 512)
      ensures PageUnder(m0, t, i, f) && f != t[Pdpt] && (Dir(i) in t ==> f != t[Dir(i)])
    {
      PageUnderNoDir(m0, t, i, f);
    }
  }

  /** The pages in gone, and no others, have gone back from memory m0 to the allocator. */
  ghost predicate Freed(m: Machine, m0: Memory, free0: set<nat>, gone: set<nat>)
    reads m
  {
    m.Ok() && m.mem == m0 - gone && m.free == free0 + gone
  }

  method PtDestroy(m: Machine, pt: nat, ghost m0: Memory, ghost free0: set<nat>, ghost t: Tables, ghost gone: set<nat>,
                   ghost i: nat, ghost j: nat)
    requires Freed(m, m0, free0, gone) && Tree(m0, t) && Owned(m0, t)
    requires Table(i, j) in t && t[Table(i, j)] == pt && pt !in gone
    requires gone !! PtPages(m0, t, i, j, 512)
    modifies m
    ensures Freed(m, m0, free0, gone + PtPages(m0, t, i, j, 512) + {pt})
  {
    var k := 0;
    while k < 512
      invariant 0 <= k <= 512
      invariant Freed(m, m0, free0, gone + PtPages(m0, t, i, j, k))
    {
      PtFresh(m0, t, i, j, k);
      var pte := m.mem[pt][k];
      if pte.p {
        m.PallocFreePage(pte.frame);
      }
      k := k + 1;
    }
    PtNotItself(m0, t, i, j);
    m.PallocFreePage(pt);
  }

  lemma PtNotItself(m0: Memory, t: Tables, i: nat, j: nat)
    requires Tree(m0, t) && Owned(m0, t) && Table(i, j) in t
    ensures t[Table(i, j)] !in PtPages(m0, t, i, j, 512)
  {
    DirFresh(m0, t, i, j);
  }

  method PgdirDestroy(m: Machine, pd: nat, ghost m0: Memory, ghost free0: set<nat>, ghost t: Tables,
                      ghost gone: set<nat>, ghost i: nat)
    requires Freed(m, m0, free0, gone) && Tree(m0, t) && Owned(m0, t)
    requires Dir(i) in t && t[Dir(i)] == pd && pd !in gone && pd !in DirPages(m0, t, i, 512)
    requires gone !! DirPages(m0, t, i, 512)
    modifies m
    ensures Freed(m, m0, free0, gone + DirPages(m0, t, i, 512) + {pd})
  {
    var j := 0;
    while j < 512
      invariant 0 <= j <= 512
      invariant Freed(m, m0, free0, gone + DirPages(m0, t, i, j))
    {
      DirFresh(m0, t, i, j);
      var pte := m.mem[pd][j];
      if pte.p {
        ghost var before := gone + DirPages(m0, t, i, j);
        PtDestroy(m, pte.frame, m0, free0, t, before, i, j);
        assert before + PtPages(m0, t, i, j, 512) + {pte.frame} == gone + DirPages(m0, t, i, j + 1);
      }
      j := j + 1;
    }
    m.PallocFreePage(pd);
  }

  method PdpeDestroy(m: Machine, pdpe: nat, ghost m0: Memory, ghost free0: set<nat>, ghost t: Tables)
    requires Freed(m, m0, free0, {}) && Tree(m0, t) && Owned(m0, t)
    requires Pdpt in t && t[Pdpt] == pdpe && pdpe !in PdptPages(m0, t, 512)
    modifies m
    ensures Freed(m, m0, free0, PdptPages(m0, t, 512) + {pdpe})
  {
    var i := 0;
    while i < 512
      invariant 0 <= i <= 512
      invariant Freed(m, m0, free0, PdptPages(m0, t, i))
    {
      PdptFresh(m0, t, i);
      var pde := m.mem[pdpe][i];
      if pde.p {
        ghost var before := PdptPages(m0, t, i);
        PgdirDestroy(m, pde.frame, m0, free0, t, before, i);
        assert before + DirPages(m0, t, i, 512) + {pde.frame} == PdptPages(m0, t, i + 1);
      }
      i := i + 1;
    }
    m.PallocFreePage(pdpe);
  }

  /** Destroys an address space: exactly its pages go back to the allocator, each freed once. */
  method Pml4Destroy(m: Machine, pml4: nat, ghost t: Tables)
    requires m.Ok() && Tree(m.mem, t) && Owned(m.mem, t) && t[Root] == pml4
    modifies m
    ensures Freed(m, old(m.mem), old(m.free), old(Footprint(m.mem, t)))
  {
    ghost var m0, free0 := m.mem, m.free;
    RootApart(m0, t);
    assert m0 - {} == m0;
    var pdpe := m.mem[pml4][0];
    if pdpe.p {
      PdpeDestroy(m, pdpe.frame, m0, free0, t);
    }
    m.PallocFreePage(pml4);
  }

  lemma RootApart(m0: Memory, t: Tables)
    requires Tree(m0, t) && Owned(m0, t)
    ensures t[Root] !in PdptPages(m0, t, 512) && (Pdpt in t ==> t[Pdpt] !in PdptPages(m0, t, 512) && t[Pdpt] != t[Root])
  {
    PdptMember(m0, t, 512);
    forall f | f in PdptPages(m0, t, 512) ensures f != t[Root] && (Pdpt in t ==> f != t[Pdpt]) {
      var i': nat :| i' < 512 && Dir(i') in t && (t[Dir(i')] == f || PageUnder(m0, t, i', f));
      if PageUnder(m0, t, i', f) { PageUnderNoDir(m0, t, i', f); }
    }
  }

  // ----- reading back -----------------------------------------------------------------

  /** After a page has been mapped, looking up an address in it finds the frame; every other address is found as
      before. */
  method SetThenGet(m: Machine, pml4: nat, upage: nat, kpage: nat, rw: bool, uaddr: nat, calm: bool,
                    ghost t: Tables)
    returns (ok: bool, page: Option<(nat, nat)>, ghost t': Tables)
    requires m.Ok() && Tree(m.mem, t) && t[Root] == pml4 && upage < 0x80_0000_0000 && PageOffset(upage) == 0
             && uaddr < 0x80_0000_0000
    modifies m
    ensures calm ==> (ok <==> |old(m.free)| >= Missing(t, Pdpe(upage), Pdx(upage)))
    ensures ok && uaddr - PageOffset(uaddr) == upage ==> page == Some((kpage, PageOffset(uaddr)))
    ensures !ok || uaddr - PageOffset(uaddr) != upage ==>
              page == match old(Lookup(m.mem, t, Pdpe(uaddr), Pdx(uaddr), Ptx(uaddr)))
                      case None => None
                      case Some(e) => Some((e.frame, PageOffset(uaddr)))
  {
    SamePageSameIndices(upage, uaddr);
    ghost var refused;
    ok, t', refused := m.Pml4SetPage(pml4, upage, kpage, rw, calm, t);
    page := m.Pml4GetPage(pml4, uaddr, t');
  }
}
