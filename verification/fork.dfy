/** Copying an address space on fork (pintos/userprog/process.c): pml4_for_each walks the parent's tables
    (pintos/threads/mmu.c) and duplicate_pte copies one page at a time into the child's. */
module Fork {
  import opened Mmu
  import opened AddressSpaces
  import opened Wrappers

  // ----- the order of the walk ----------------------------------------------------

  /** The addresses of the present pages among the first k entries of table (i, j), in order. */
  ghost function PtVisits(mem: Memory, t: Tables, i: nat, j: nat, k: nat): seq<nat> {
    if k == 0 then []
    else PtVisits(mem, t, i, j, k - 1) + (if Leaf(mem, t, i, j, k - 1).p then [BuildVa(i, j, k - 1)] else [])
  }

  ghost function DirVisits(mem: Memory, t: Tables, i: nat, j: nat): seq<nat> {
    if j == 0 then []
    else DirVisits(mem, t, i, j - 1) + (if Table(i, j - 1) in t then PtVisits(mem, t, i, j - 1, 512) else [])
  }

  ghost function BelowEntry(mem: Memory, t: Tables, i: nat): seq<nat> {
    if Dir(i) in t then DirVisits(mem, t, i, 512) else []
  }

  /** What pml4_for_each calls its function on. */
  ghost function Visits(mem: Memory, t: Tables, i: nat): seq<nat> {
    if i == 0 then []
    else Visits(mem, t, i - 1) + BelowEntry(mem, t, i - 1)
  }

  predicate Ascending(s: seq<nat>) { forall a, b | 0 <= a < b < |s| :: s[a] < s[b] }

  /** s lists, in ascending order, exactly the mapped page addresses from lo up to hi. */
  ghost predicate Lists(mem: Memory, t: Tables, s: seq<nat>, lo: nat, hi: nat) {
    && Ascending(s)
    && (forall va | va in s :: lo <= va < hi && PageOffset(va) == 0 && Leaf(mem, t, Pdpe(va), Pdx(va), Ptx(va)).p)
    && (forall i, j, k {:trigger Leaf(mem, t, i, j, k)} |
          InRange(i, j, k) && lo <= BuildVa(i, j, k) < hi && Leaf(mem, t, i, j, k).p :: BuildVa(i, j, k) in s)
  }

  lemma ListsConcat(mem: Memory, t: Tables, s: seq<nat>, s': seq<nat>, lo: nat, mid: nat, hi: nat)
    requires lo <= mid <= hi && Lists(mem, t, s, lo, mid) && Lists(mem, t, s', mid, hi)
    ensures Lists(mem, t, s + s', lo, hi)
  {
    forall a, b | 0 <= a < b < |s + s'| ensures (s + s')[a] < (s + s')[b] {
      if b >= |s| {
        assert (s + s')[b] == s'[b - |s|] && s'[b - |s|] in s';
        if a >= |s| { assert (s + s')[a] == s'[a - |s|]; } else { assert (s + s')[a] == s[a] && s[a] in s; }
      }
    }
  }

  lemma {:induction false} PtVisitsList(mem: Memory, t: Tables, i: nat, j: nat, k: nat)
    requires i < 512 && j < 512 && k <= 512
    ensures Lists(mem, t, PtVisits(mem, t, i, j, k), BuildVa(i, j, 0), BuildVa(i, j, k))
  {
    if k > 0 {
      PtVisitsList(mem, t, i, j, k - 1);
      var last := if Leaf(mem, t, i, j, k - 1).p then [BuildVa(i, j, k - 1)] else [];
      BuildSplits(i, j, k - 1);
      OnePageLists(mem, t, i, j, k - 1, last);
      ListsConcat(mem, t, PtVisits(mem, t, i, j, k - 1), last, BuildVa(i, j, 0), BuildVa(i, j, k - 1),
                  BuildVa(i, j, k));
    }
  }

  lemma {:induction false} OnePageLists(mem: Memory, t: Tables, i: nat, j: nat, k: nat, s: seq<nat>)
    requires InRange(i, j, k) && s == if Leaf(mem, t, i, j, k).p then [BuildVa(i, j, k)] else []
    ensures Lists(mem, t, s, BuildVa(i, j, k), BuildVa(i, j, k + 1))
  {
    BuildSplits(i, j, k);
    forall i', j', k' | InRange(i', j', k') && BuildVa(i, j, k) <= BuildVa(i', j', k') < BuildVa(i, j, k + 1)
      ensures i' == i && j' == j && k' == k
    {
      BuildSplits(i', j', k');
    }
  }

  lemma {:induction false} DirVisitsList(mem: Memory, t: Tables, i: nat, j: nat)
    requires i < 512 && j <= 512
    ensures Lists(mem, t, DirVisits(mem, t, i, j), BuildVa(i, 0, 0), BuildVa(i, j, 0))
  {
    if j > 0 {
      var lo, mid, hi := BuildVa(i, 0, 0), BuildVa(i, j - 1, 0), BuildVa(i, j, 0);
      DirVisitsList(mem, t, i, j - 1);
      var last := if Table(i, j - 1) in t then PtVisits(mem, t, i, j - 1, 512) else [];
      if Table(i, j - 1) in t {
        PtVisitsList(mem, t, i, j - 1, 512);
      } else {
        forall i', j', k' | InRange(i', j', k') && mid <= BuildVa(i', j', k') < hi ensures i' == i && j' == j - 1 {}
      }
      ListsConcat(mem, t, DirVisits(mem, t, i, j - 1), last, lo, mid, hi);
    }
  }

  lemma {:induction false} NoDirEmpty(mem: Memory, t: Tables, i: nat)
    requires Shape(t) && i < 512 && Dir(i) !in t
    ensures Lists(mem, t, [], BuildVa(i, 0, 0), BuildVa(i + 1, 0, 0))
  {
    forall i', j', k' | InRange(i', j', k') && BuildVa(i, 0, 0) <= BuildVa(i', j', k') < BuildVa(i + 1, 0, 0)
      ensures i' == i && Table(i', j') !in t {}
  }

  lemma OneDirLists(mem: Memory, t: Tables, i: nat, lo: nat, hi: nat, s: seq<nat>)
    requires Shape(t) && i < 512 && lo == BuildVa(i, 0, 0) && hi == BuildVa(i + 1, 0, 0) && s == BelowEntry(mem, t, i)
    ensures lo <= hi && Lists(mem, t, s, lo, hi)
  {
    if Dir(i) in t {
      DirVisitsList(mem, t, i, 512);
      assert BuildVa(i, 512, 0) == BuildVa(i + 1, 0, 0);
    } else {
      NoDirEmpty(mem, t, i);
    }
  }

  /** pml4_for_each visits each present page once, in ascending order, with its address rebuilt exactly. */
  lemma {:induction false} VisitsEachPageOnce(mem: Memory, t: Tables, i: nat, hi: nat, s: seq<nat>)
    requires Shape(t) && i <= 512 && hi == BuildVa(i, 0, 0) && s == Visits(mem, t, i)
    ensures Lists(mem, t, s, 0, hi)
  {
    if i > 0 {
      var mid := BuildVa(i - 1, 0, 0);
      var before, below := Visits(mem, t, i - 1), BelowEntry(mem, t, i - 1);
      VisitsEachPageOnce(mem, t, i - 1, mid, before);
      OneDirLists(mem, t, i - 1, mid, hi, below);
      ListsConcat(mem, t, before, below, 0, mid, hi);
    }
  }

  // ----- the copy in progress -------------------------------------------------------

  /** The parent: its mapped frames are allocated pages. */
  ghost predicate Parent(mem0: Memory, free0: set<nat>, tp: Tables) {
    && free0 !! mem0.Keys && (forall f {:trigger mem0[f]} | f in mem0 :: |mem0[f]| == 512)
    && Tree(mem0, tp)
    && (forall i, j, k {:trigger Leaf(mem0, tp, i, j, k)} | InRange(i, j, k) && Leaf(mem0, tp, i, j, k).p ::
          Leaf(mem0, tp, i, j, k).frame in mem0)
  }

  /** A process may fork and exit after it has run: the marks that the CPU leaves in its entries change neither what
      fork needs of a parent nor what it owns. */
  lemma MarkedParent(mem: Memory, free: set<nat>, t: Tables, at: Path, idx: nat, flag: Flag)
    requires Parent(mem, free, t) && at in t && idx < 512 && mem[t[at]][idx].p
    ensures var mem' := mem[t[at] := mem[t[at]][idx := WithFlag(mem[t[at]][idx], flag, true)]];
            Parent(mem', free, t) && (Owned(mem, t) ==> Owned(mem', t))
  {
    var mem' := mem[t[at] := mem[t[at]][idx := WithFlag(mem[t[at]][idx], flag, true)]];
    Touched(mem, t, at, idx, flag);
    forall i, j, k ensures Leaf(mem', t, i, j, k).p == Leaf(mem, t, i, j, k).p
      ensures Leaf(mem, t, i, j, k).p ==> Leaf(mem', t, i, j, k).frame == Leaf(mem, t, i, j, k).frame
    {
      assert Lookup(mem', t, i, j, k) == Lookup(mem, t, i, j, k);
    }
  }

  /** Two roots share the kernel's tables. */
  predicate SharesKernel(root: Page, base: Page) {
    |root| == |base| && forall n {:trigger root[n]} | 1 <= n < |root| :: root[n] == base[n]
  }

  /** The child, grown out of memory mem0 and the free pages free0: its pages, and only its pages, have been
      taken from the allocator, everything that was there before is as it was, and it shares the kernel's tables. */
  ghost predicate Child(m: Machine, mem0: Memory, free0: set<nat>, tc: Tables)
    reads m
  {
    m.Ok() && ChildIs(m.mem, m.free, m.base, mem0, free0, tc)
  }

  ghost predicate ChildIs(mem: Memory, free: set<nat>, base: nat, mem0: Memory, free0: set<nat>, tc: Tables) {
    && Tree(mem, tc) && Owned(mem, tc)
    && Footprint(mem, tc) <= free0
    && mem.Keys == mem0.Keys + Footprint(mem, tc)
    && free == free0 - Footprint(mem, tc)
    && (forall f {:trigger mem[f]} | f in mem0 :: mem[f] == mem0[f])
    && base in mem0 && SharesKernel(mem[tc[Root]], mem0[base])
  }

  /** Page (i, j, k) of the child is a copy of the parent's: open to users, with the same permission and bytes, in
      another frame. */
  ghost predicate SamePage(mem0: Memory, tp: Tables, mem: Memory, tc: Tables, i: nat, j: nat, k: nat) {
    var a, b := Leaf(mem0, tp, i, j, k), Leaf(mem, tc, i, j, k);
    && a.p == b.p
    && (a.p ==> && b.u && a.w == b.w && b.frame !in mem0 && a.frame in mem0 && b.frame in mem
                && mem[b.frame] == mem0[a.frame])
  }

  /** Page (i, j, k) comes before page (bi, bj, bk) in the walk. */
  predicate Before(i: nat, j: nat, k: nat, bi: nat, bj: nat, bk: nat) {
    i < bi || (i == bi && (j < bj || (j == bj && k < bk)))
  }

  /** The child's pages before the bound are copies of the parent's, and it has no others. */
  ghost predicate CopiedUpTo(mem0: Memory, tp: Tables, mem: Memory, tc: Tables, bi: nat, bj: nat, bk: nat) {
    forall i, j, k {:trigger Leaf(mem0, tp, i, j, k)} {:trigger Leaf(mem, tc, i, j, k)} | InRange(i, j, k) ::
      if Before(i, j, k, bi, bj, bk) then SamePage(mem0, tp, mem, tc, i, j, k) else !Leaf(mem, tc, i, j, k).p
  }

  ghost predicate Copying(m: Machine, mem0: Memory, free0: set<nat>, tp: Tables, tc: Tables, bi: nat, bj: nat, bk: nat)
    reads m
  {
    Parent(mem0, free0, tp) && Child(m, mem0, free0, tc) && CopiedUpTo(mem0, tp, m.mem, tc, bi, bj, bk)
  }

  /** Stretches of pages that the parent does not map need no copying. */
  lemma NothingToCopy(mem0: Memory, tp: Tables, mem: Memory, tc: Tables, bi: nat, bj: nat, bk: nat, ci: nat, cj: nat,
                      ck: nat)
    requires CopiedUpTo(mem0, tp, mem, tc, bi, bj, bk)
    requires forall i, j, k {:trigger Before(i, j, k, bi, bj, bk)} | InRange(i, j, k) && Before(i, j, k, bi, bj, bk) ::
               Before(i, j, k, ci, cj, ck)
    requires forall i, j, k {:trigger Leaf(mem0, tp, i, j, k)} |
               InRange(i, j, k) && !Before(i, j, k, bi, bj, bk) && Before(i, j, k, ci, cj, ck) ::
                   !Leaf(mem0, tp, i, j, k).p
    ensures CopiedUpTo(mem0, tp, mem, tc, ci, cj, ck)
  {
    forall i, j, k | InRange(i, j, k)
      ensures if Before(i, j, k, ci, cj, ck) then SamePage(mem0, tp, mem, tc, i, j, k) else !Leaf(mem, tc, i, j, k).p
    {
      var a := Leaf(mem0, tp, i, j, k);
    }
  }

  /** The parent's tree is still there while the child grows. */
  lemma ParentKept(mem0: Memory, free0: set<nat>, tp: Tables, mem: Memory)
    requires Parent(mem0, free0, tp) && mem0.Keys <= mem.Keys
             && forall f {:trigger mem[f]} | f in mem0 :: mem[f] == mem0[f]
    ensures Tree(mem, tp)
    ensures forall i, j, k {:trigger Leaf(mem0, tp, i, j, k)} {:trigger Leaf(mem, tp, i, j, k)} ::
              Leaf(mem, tp, i, j, k) == Leaf(mem0, tp, i, j, k)
  {
  }

  /** Mapping one more page adds that page and the new tables to the footprint. */
  lemma FootprintGrows(mem: Memory, tc: Tables, mem': Memory, tc': Tables, i: nat, j: nat, k: nat, e: Word)
    requires Shape(tc) && Shape(tc') && InRange(i, j, k) && e.p && !Leaf(mem, tc, i, j, k).p
    requires forall p | p in tc :: p in tc' && tc'[p] == tc[p]
    requires forall i', j', k' {:trigger Leaf(mem', tc', i', j', k')} ::
               Leaf(mem', tc', i', j', k') == if i' == i && j' == j && k' == k then e else Leaf(mem, tc, i', j', k')
    ensures Footprint(mem', tc') == Footprint(mem, tc) + tc'.Values + {e.frame}
  {
    FootprintIs(mem, tc);
    FootprintIs(mem', tc');
    forall f | f in tc.Values ensures f in tc'.Values {
      var p :| p in tc && tc[p] == f;
      assert tc'[p] == f;
    }
    forall f | f in Footprint(mem, tc) ensures f in Footprint(mem', tc') {
      if f !in tc.Values {
        var i', j', k' :| InRange(i', j', k') && Leaf(mem, tc, i', j', k').p && Leaf(mem, tc, i', j', k').frame == f;
        assert Leaf(mem', tc', i', j', k') == Leaf(mem, tc, i', j', k');
      }
    }
    forall f | f in Footprint(mem', tc') ensures f in Footprint(mem, tc) + tc'.Values + {e.frame} {
      if f !in tc'.Values {
        var i', j', k' :| InRange(i', j', k') && Leaf(mem', tc', i', j', k').p
          && Leaf(mem', tc', i', j', k').frame == f;
      }
    }
    assert Leaf(mem', tc', i, j, k) == e;
  }

  // ----- one page -------------------------------------------------------------------

  /** A copied frame f has been mapped at (i, j, k) of the child, which was tc in memory mem1 and is tc' in
      memory mem; tables may have been added on the way. */
  ghost predicate Mapped(mem1: Memory, tc: Tables, free1: set<nat>, f: nat, contents: Page, rw: bool, mem: Memory,
                         tc': Tables, free: set<nat>, i: nat, j: nat, k: nat) {
    && InRange(i, j, k) && f in free1 && free1 !! mem1.Keys && Tree(mem1, tc) && !Leaf(mem1, tc, i, j, k).p
    && Extended(mem1[f := contents], tc, free1 - {f}, mem, tc', free)
    && (forall i', j', k' {:trigger Leaf(mem, tc', i', j', k')} {:trigger Leaf(mem1, tc, i', j', k')} ::
         Leaf(mem, tc', i', j', k') == if i' == i && j' == j && k' == k then MakeEntry(f, rw)
           else Leaf(mem1, tc, i', j', k'))
  }

  lemma MappedPages(mem1: Memory, tc: Tables, free1: set<nat>, f: nat, contents: Page, rw: bool, mem: Memory,
                    tc': Tables, free: set<nat>, i: nat, j: nat, k: nat)
    requires Mapped(mem1, tc, free1, f, contents, rw, mem, tc', free, i, j, k)
    ensures f !in tc'.Values && f in mem && mem[f] == contents
    ensures forall g | g in tc'.Values :: g in tc.Values || g in free1 - {f}
    ensures forall g | g in tc.Values :: g in tc'.Values && g in mem1
    ensures forall g {:trigger mem[g]} | g in mem1 && g !in tc.Values :: g in mem && mem[g] == mem1[g]
  {
    forall g | g in tc.Values ensures g in mem1 { var p :| p in tc && tc[p] == g; }
    forall g | g in tc'.Values ensures g in tc.Values || g in free1 - {f} { var p :| p in tc' && tc'[p] == g; }
    forall g | g in tc.Values ensures g in tc'.Values { var p :| p in tc && tc[p] == g; assert tc'[p] == g; }
  }

  lemma MappedOwned(mem1: Memory, tc: Tables, free1: set<nat>, f: nat, contents: Page, rw: bool, mem: Memory,
                    tc': Tables, free: set<nat>, i: nat, j: nat, k: nat)
    requires Mapped(mem1, tc, free1, f, contents, rw, mem, tc', free, i, j, k) && Owned(mem1, tc)
    ensures Owned(mem, tc')
  {
    MappedPages(mem1, tc, free1, f, contents, rw, mem, tc', free, i, j, k);
  }

  lemma MappedCopied(mem0: Memory, tp: Tables, mem1: Memory, tc: Tables, free1: set<nat>, f: nat, contents: Page,
                     rw: bool, mem: Memory, tc': Tables, free: set<nat>, i: nat, j: nat, k: nat)
    requires Mapped(mem1, tc, free1, f, contents, rw, mem, tc', free, i, j, k) && Owned(mem1, tc)
    requires CopiedUpTo(mem0, tp, mem1, tc, i, j, k) && f !in mem0
    requires var a := Leaf(mem0, tp, i, j, k); a.p && a.frame in mem0 && contents == mem0[a.frame] && rw == a.w
    ensures CopiedUpTo(mem0, tp, mem, tc', i, j, k + 1)
  {
    MappedPages(mem1, tc, free1, f, contents, rw, mem, tc', free, i, j, k);
    forall i', j', k' | InRange(i', j', k')
      ensures if Before(i', j', k', i, j, k + 1) then SamePage(mem0, tp, mem, tc', i', j', k')
              else !Leaf(mem, tc', i', j', k').p
    {
      var a, b := Leaf(mem0, tp, i', j', k'), Leaf(mem1, tc, i', j', k');
    }
  }

  lemma MappedAccounts(mem0: Memory, free0: set<nat>, mem1: Memory, tc: Tables, free1: set<nat>, f: nat, contents: Page,
                       rw: bool, mem: Memory, tc': Tables, free: set<nat>, i: nat, j: nat, k: nat)
    requires Mapped(mem1, tc, free1, f, contents, rw, mem, tc', free, i, j, k)
    requires free0 !! mem0.Keys && Footprint(mem1, tc) <= free0
    requires mem1.Keys == mem0.Keys + Footprint(mem1, tc) && free1 == free0 - Footprint(mem1, tc)
    requires forall g {:trigger mem1[g]} | g in mem0 :: mem1[g] == mem0[g]
    ensures Footprint(mem, tc') <= free0 && mem.Keys == mem0.Keys + Footprint(mem, tc')
            && free == free0 - Footprint(mem, tc')
    ensures forall g {:trigger mem[g]} | g in mem0 :: mem[g] == mem0[g]
  {
    MappedPages(mem1, tc, free1, f, contents, rw, mem, tc', free, i, j, k);
    assert tc.Values <= Footprint(mem1, tc) by { FootprintIs(mem1, tc); }
    assert Footprint(mem, tc') == Footprint(mem1, tc) + tc'.Values + {f} by {
      FootprintGrows(mem1, tc, mem, tc', i, j, k, MakeEntry(f, rw));
    }
    Accounts(mem0.Keys, free0, Footprint(mem1, tc), tc.Values, free1, f, tc'.Values, mem.Keys, free,
             Footprint(mem, tc'));
  }

  /** The sets behind it: pages in use, free pages, footprint and tables, before and after. */
  lemma {:induction false} Accounts(used0: set<nat>, free0: set<nat>, pages: set<nat>, tables: set<nat>,
                                    free1: set<nat>, f: nat, tables': set<nat>, used: set<nat>, free: set<nat>,
                                    pages': set<nat>)
    requires pages <= free0 && free1 == free0 - pages && f in free1 && tables <= pages
    requires tables' <= tables + free1 && pages' == pages + tables' + {f}
    requires used == used0 + pages + {f} + tables' && free == free1 - {f} - tables'
    ensures pages' <= free0 && used == used0 + pages' && free == free0 - pages'
  {
  }

  lemma WriteTwice(mem: Memory, f: nat, a: Page, b: Page)
    ensures mem[f := a][f := b] == mem[f := b]
  {
  }

  /** duplicate_pte: copies one present page of the parent into the child. When memory runs out the child
      is as it was. */
  method DuplicatePte(m: Machine, pte: Word, va: nat, parent: nat, child: nat, calm: bool, ghost i: nat, ghost j: nat,
                      ghost k: nat, ghost mem0: Memory, ghost free0: set<nat>, ghost tp: Tables, ghost tc: Tables)
    returns (ok: bool, ghost tc': Tables, ghost refused: bool)
    requires InRange(i, j, k) && va == BuildVa(i, j, k) && pte.p && pte == Leaf(mem0, tp, i, j, k)
    requires Copying(m, mem0, free0, tp, tc, i, j, k) && tp[Root] == parent && tc[Root] == child
    modifies m
    ensures ok ==> Copying(m, mem0, free0, tp, tc', i, j, k + 1)
    ensures (ok <==> !refused) && (calm && refused ==> |m.free| < 4)
    ensures !ok ==> tc' == tc && m.mem == old(m.mem) && m.free == old(m.free)
    ensures Root in tc' && tc'[Root] == child
  {
    ghost var mem1, free1 := m.mem, m.free;
    BuildSplits(i, j, k);
    tc' := tc;
    ParentKept(mem0, free0, tp, m.mem);
    var parentPage := m.Pml4GetPage(parent, va, tp);
    if parentPage.None? {
      return false, tc, false;
    }
    var newPage := m.PallocGetPage(false, calm);
    if newPage.None? {
      return false, tc, true;
    }
    var f := newPage.value;
    assert parentPage.value.0 == pte.frame && f !in mem1 && m.mem[pte.frame] == mem1[pte.frame] == mem0[pte.frame];
    WriteTwice(mem1, f, m.mem[f], mem0[pte.frame]);
    m.mem := m.mem[f := m.mem[parentPage.value.0]];
    ok, tc', refused := MapCopy(m, f, pte.w, va, child, calm, tc, mem1, free1, mem0[pte.frame]);
    if ok {
      Copied(mem0, free0, m.base, tp, mem1, free1, tc, f, m.mem, m.free, tc', i, j, k);
    }
  }

  /** Maps the new page f, or frees it when there is no memory for its tables. */
  method MapCopy(m: Machine, f: nat, rw: bool, va: nat, child: nat, calm: bool, ghost tc: Tables, ghost mem1: Memory,
                 ghost free1: set<nat>, ghost contents: Page)
    returns (ok: bool, ghost tc': Tables, ghost refused: bool)
    requires va < 0x80_0000_0000 && PageOffset(va) == 0 && InRange(Pdpe(va), Pdx(va), Ptx(va))
    requires Tree(mem1, tc) && tc[Root] == child && !Leaf(mem1, tc, Pdpe(va), Pdx(va), Ptx(va)).p
    requires m.Ok() && f in free1 && free1 !! mem1.Keys && m.mem == mem1[f := contents] && m.free == free1 - {f}
    modifies m
    ensures m.Ok()
    ensures ok ==> Mapped(mem1, tc, free1, f, contents, rw, m.mem, tc', m.free, Pdpe(va), Pdx(va), Ptx(va))
    ensures (ok <==> !refused) && (calm && refused ==> |m.free| < 4)
    ensures !ok ==> tc' == tc && m.mem == mem1 && m.free == free1
    ensures Root in tc' && tc'[Root] == child
  {
    SameTree(mem1, tc, f, contents);
    ok, tc', refused := m.Pml4SetPage(child, va, f, rw, calm, tc);
    if !ok {
      m.PallocFreePage(f);
      assert m.mem == mem1 && m.free == free1;
    }
  }

  lemma Copied(mem0: Memory, free0: set<nat>, base: nat, tp: Tables, mem1: Memory, free1: set<nat>, tc: Tables, f: nat,
               mem: Memory, free: set<nat>, tc': Tables, i: nat, j: nat, k: nat)
    requires Leaf(mem0, tp, i, j, k).p && Leaf(mem0, tp, i, j, k).frame in mem0
    requires Mapped(mem1, tc, free1, f, mem0[Leaf(mem0, tp, i, j, k).frame], Leaf(mem0, tp, i, j, k).w, mem, tc', free,
                    i, j, k)
    requires ChildIs(mem1, free1, base, mem0, free0, tc) && CopiedUpTo(mem0, tp, mem1, tc, i, j, k)
             && free0 !! mem0.Keys
    ensures ChildIs(mem, free, base, mem0, free0, tc') && CopiedUpTo(mem0, tp, mem, tc', i, j, k + 1)
  {
    var a := Leaf(mem0, tp, i, j, k);
    MappedOwned(mem1, tc, free1, f, mem0[a.frame], a.w, mem, tc', free, i, j, k);
    MappedCopied(mem0, tp, mem1, tc, free1, f, mem0[a.frame], a.w, mem, tc', free, i, j, k);
    MappedAccounts(mem0, free0, mem1, tc, free1, f, mem0[a.frame], a.w, mem, tc', free, i, j, k);
    MappedKernel(mem1, tc, free1, f, mem0[a.frame], a.w, mem, tc', free, i, j, k);
  }

  lemma MappedKernel(mem1: Memory, tc: Tables, free1: set<nat>, f: nat, contents: Page, rw: bool, mem: Memory,
                     tc': Tables, free: set<nat>, i: nat, j: nat, k: nat)
    requires Mapped(mem1, tc, free1, f, contents, rw, mem, tc', free, i, j, k)
    ensures SharesKernel(mem[tc'[Root]], mem1[tc[Root]])
  {
    assert tc'[Root] == tc[Root] != f;
  }

  /** A page that is not in the tree may come and go. */
  lemma SameTree(mem: Memory, t: Tables, f: nat, contents: Page)
    requires Tree(mem, t) && f !in mem
    ensures Tree(mem[f := contents], t)
    ensures forall i, j, k {:trigger Leaf(mem, t, i, j, k)} {:trigger Leaf(mem[f := contents], t, i, j, k)} ::
              Leaf(mem[f := contents], t, i, j, k) == Leaf(mem, t, i, j, k)
  {
    forall p | p in t ensures t[p] != f {}
  }

  // ----- the walk over the parent ---------------------------------------------------

  /** What the walk over a table of the parent reads. */
  lemma PtEntry(mem0: Memory, free0: set<nat>, tp: Tables, mem: Memory, i: nat, j: nat, k: nat)
    requires Parent(mem0, free0, tp) && Table(i, j) in tp && k < 512
    requires mem0.Keys <= mem.Keys && forall f {:trigger mem[f]} | f in mem0 :: mem[f] == mem0[f]
    ensures var pt := tp[Table(i, j)]; pt in mem && k < |mem[pt]| && mem[pt][k] == Leaf(mem0, tp, i, j, k)
  {
  }

  lemma SeenPage(mem: Memory, t: Tables, i: nat, j: nat, k: nat, seen: seq<nat>, before: seq<nat>, now: seq<nat>)
    requires before == seen + PtVisits(mem, t, i, j, k)
    requires now == if Leaf(mem, t, i, j, k).p then before + [BuildVa(i, j, k)] else before
    ensures now == seen + PtVisits(mem, t, i, j, k + 1)
  {
  }

  method PtForEach(m: Machine, pt: nat, parent: nat, child: nat, i: nat, j: nat, seen: seq<nat>, calm: bool,
                   ghost mem0: Memory, ghost free0: set<nat>, ghost tp: Tables, ghost tc: Tables)
    returns (ok: bool, seen': seq<nat>, ghost tc': Tables, ghost refused: bool)
    requires i < 512 && j < 512 && Table(i, j) in tp && tp[Table(i, j)] == pt
    requires Copying(m, mem0, free0, tp, tc, i, j, 0) && tp[Root] == parent && tc[Root] == child
    modifies m
    ensures Child(m, mem0, free0, tc') && tc'[Root] == child && (ok <==> !refused)
    ensures calm && refused ==> |m.free| < 4
    ensures ok ==> Copying(m, mem0, free0, tp, tc', i, j + 1, 0) && seen' == seen + PtVisits(mem0, tp, i, j, 512)
  {
    var k := 0;
    tc', seen' := tc, seen;
    while k < 512
      invariant 0 <= k <= 512
      invariant Copying(m, mem0, free0, tp, tc', i, j, k) && tc'[Root] == child
      invariant seen' == seen + PtVisits(mem0, tp, i, j, k)
    {
      PtEntry(mem0, free0, tp, m.mem, i, j, k);
      ghost var before := seen';
      var pte := m.mem[pt][k];
      if pte.p {
        var va := BuildVa(i, j, k);
        ok, tc', refused := DuplicatePte(m, pte, va, parent, child, calm, i, j, k, mem0, free0, tp, tc');
        if !ok {
          return;
        }
        seen' := seen' + [va];
      } else {
        OneAbsent(mem0, tp, m.mem, tc', i, j, k);
      }
      SeenPage(mem0, tp, i, j, k, seen, before, seen');
      k := k + 1;
    }
    ok, refused := true, false;
    Carry(mem0, tp, m.mem, tc', i, j, 512, i, j + 1, 0);
  }

  lemma OneAbsent(mem0: Memory, tp: Tables, mem: Memory, tc: Tables, i: nat, j: nat, k: nat)
    requires InRange(i, j, k) && CopiedUpTo(mem0, tp, mem, tc, i, j, k) && !Leaf(mem0, tp, i, j, k).p
    ensures CopiedUpTo(mem0, tp, mem, tc, i, j, k + 1)
  {
    forall i', j', k' | InRange(i', j', k') && !Before(i', j', k', i, j, k) && Before(i', j', k', i, j, k + 1)
      ensures !Leaf(mem0, tp, i', j', k').p
    {
      assert i' == i && j' == j && k' == k;
    }
    NothingToCopy(mem0, tp, mem, tc, i, j, k, i, j, k + 1);
  }

  /** What the walk over a directory of the parent reads. */
  lemma DirEntry(mem0: Memory, free0: set<nat>, tp: Tables, mem: Memory, i: nat, j: nat)
    requires Parent(mem0, free0, tp) && Dir(i) in tp && j < 512
    requires mem0.Keys <= mem.Keys && forall f {:trigger mem[f]} | f in mem0 :: mem[f] == mem0[f]
    ensures var pd := tp[Dir(i)]; pd in mem && j < |mem[pd]| && Links(mem[pd][j], tp, Table(i, j))
  {
  }

  lemma PdptEntry(mem0: Memory, free0: set<nat>, tp: Tables, mem: Memory, i: nat)
    requires Parent(mem0, free0, tp) && Pdpt in tp && i < 512
    requires mem0.Keys <= mem.Keys && forall f {:trigger mem[f]} | f in mem0 :: mem[f] == mem0[f]
    ensures var pdp := tp[Pdpt]; pdp in mem && i < |mem[pdp]| && Links(mem[pdp][i], tp, Dir(i))
  {
  }

  lemma SeenTable(mem: Memory, t: Tables, i: nat, j: nat, seen: seq<nat>, before: seq<nat>, now: seq<nat>)
    requires before == seen + DirVisits(mem, t, i, j)
    requires now == if Table(i, j) in t then before + PtVisits(mem, t, i, j, 512) else before
    ensures now == seen + DirVisits(mem, t, i, j + 1)
  {
  }

  method PgdirForEach(m: Machine, pd: nat, parent: nat, child: nat, i: nat, seen: seq<nat>, calm: bool,
                      ghost mem0: Memory, ghost free0: set<nat>, ghost tp: Tables, ghost tc: Tables)
    returns (ok: bool, seen': seq<nat>, ghost tc': Tables, ghost refused: bool)
    requires i < 512 && Dir(i) in tp && tp[Dir(i)] == pd
    requires Copying(m, mem0, free0, tp, tc, i, 0, 0) && tp[Root] == parent && tc[Root] == child
    modifies m
    ensures Child(m, mem0, free0, tc') && tc'[Root] == child && (ok <==> !refused)
    ensures calm && refused ==> |m.free| < 4
    ensures ok ==> Copying(m, mem0, free0, tp, tc', i + 1, 0, 0) && seen' == seen + DirVisits(mem0, tp, i, 512)
  {
    var j := 0;
    tc', seen' := tc, seen;
    while j < 512
      invariant 0 <= j <= 512
      invariant Copying(m, mem0, free0, tp, tc', i, j, 0) && tc'[Root] == child
      invariant seen' == seen + DirVisits(mem0, tp, i, j)
    {
      DirEntry(mem0, free0, tp, m.mem, i, j);
      ghost var before := seen';
      var pte := m.mem[pd][j];
      if pte.p {
        ok, seen', tc', refused := PtForEach(m, pte.frame, parent, child, i, j, seen', calm, mem0, free0, tp, tc');
        if !ok {
          return;
        }
      } else {
        NoTable(mem0, tp, m.mem, tc', i, j);
      }
      SeenTable(mem0, tp, i, j, seen, before, seen');
      j := j + 1;
    }
    ok, refused := true, false;
    Carry(mem0, tp, m.mem, tc', i, 512, 0, i + 1, 0, 0);
  }

  /** The end of a table is the start of the next one. */
  lemma Carry(mem0: Memory, tp: Tables, mem: Memory, tc: Tables, bi: nat, bj: nat, bk: nat, ci: nat, cj: nat, ck: nat)
    requires CopiedUpTo(mem0, tp, mem, tc, bi, bj, bk)
    requires (bk == 512 && ci == bi && cj == bj + 1 && ck == 0)
             || (bk == 0 && bj == 512 && ci == bi + 1 && cj == 0 && ck == 0)
    ensures CopiedUpTo(mem0, tp, mem, tc, ci, cj, ck)
  {
    forall i, j, k | InRange(i, j, k) ensures Before(i, j, k, bi, bj, bk) <==> Before(i, j, k, ci, cj, ck) {}
    NothingToCopy(mem0, tp, mem, tc, bi, bj, bk, ci, cj, ck);
  }

  lemma NoTable(mem0: Memory, tp: Tables, mem: Memory, tc: Tables, i: nat, j: nat)
    requires i < 512 && j < 512 && Table(i, j) !in tp && CopiedUpTo(mem0, tp, mem, tc, i, j, 0)
    ensures CopiedUpTo(mem0, tp, mem, tc, i, j + 1, 0)
  {
    forall i', j', k' | InRange(i', j', k') && !Before(i', j', k', i, j, 0) && Before(i', j', k', i, j + 1, 0)
      ensures !Leaf(mem0, tp, i', j', k').p
    {
      assert i' == i && j' == j;
    }
    NothingToCopy(mem0, tp, mem, tc, i, j, 0, i, j + 1, 0);
  }

  method PdpForEach(m: Machine, pdp: nat, parent: nat, child: nat, calm: bool, ghost mem0: Memory,
                    ghost free0: set<nat>, ghost tp: Tables, ghost tc: Tables)
    returns (ok: bool, seen: seq<nat>, ghost tc': Tables, ghost refused: bool)
    requires Pdpt in tp && tp[Pdpt] == pdp
    requires Copying(m, mem0, free0, tp, tc, 0, 0, 0) && tp[Root] == parent && tc[Root] == child
    modifies m
    ensures Child(m, mem0, free0, tc') && tc'[Root] == child && (ok <==> !refused)
    ensures calm && refused ==> |m.free| < 4
    ensures ok ==> Copying(m, mem0, free0, tp, tc', 512, 0, 0) && seen == Visits(mem0, tp, 512)
  {
    var i := 0;
    tc', seen := tc, [];
    while i < 512
      invariant 0 <= i <= 512
      invariant Copying(m, mem0, free0, tp, tc', i, 0, 0) && tc'[Root] == child
      invariant seen == Visits(mem0, tp, i)
    {
      PdptEntry(mem0, free0, tp, m.mem, i);
      var pde := m.mem[pdp][i];
      if pde.p {
        ok, seen, tc', refused := PgdirForEach(m, pde.frame, parent, child, i, seen, calm, mem0, free0, tp, tc');
        if !ok {
          return;
        }
      } else {
        NoDir(mem0, tp, m.mem, tc', i);
      }
      i := i + 1;
    }
    ok, refused := true, false;
  }

  lemma NoDir(mem0: Memory, tp: Tables, mem: Memory, tc: Tables, i: nat)
    requires Shape(tp) && i < 512 && Dir(i) !in tp && CopiedUpTo(mem0, tp, mem, tc, i, 0, 0)
    ensures CopiedUpTo(mem0, tp, mem, tc, i + 1, 0, 0)
  {
    forall i', j', k' | InRange(i', j', k') && !Before(i', j', k', i, 0, 0) && Before(i', j', k', i + 1, 0, 0)
      ensures !Leaf(mem0, tp, i', j', k').p
    {
      assert i' == i && Table(i', j') !in tp;
    }
    NothingToCopy(mem0, tp, mem, tc, i, 0, 0, i + 1, 0, 0);
  }

  lemma {:induction false} NothingToVisit(mem: Memory, t: Tables, i: nat)
    requires Shape(t) && Pdpt !in t
    ensures Visits(mem, t, i) == []
  {
    if i > 0 {
      NothingToVisit(mem, t, i - 1);
    }
  }

  method Pml4ForEach(m: Machine, parent: nat, child: nat, calm: bool, ghost mem0: Memory, ghost free0: set<nat>,
                     ghost tp: Tables, ghost tc: Tables)
    returns (ok: bool, seen: seq<nat>, ghost tc': Tables, ghost refused: bool)
    requires Copying(m, mem0, free0, tp, tc, 0, 0, 0) && tp[Root] == parent && tc[Root] == child
    modifies m
    ensures Child(m, mem0, free0, tc') && tc'[Root] == child && (ok <==> !refused)
    ensures calm && refused ==> |m.free| < 4
    ensures ok ==> Copying(m, mem0, free0, tp, tc', 512, 0, 0) && seen == Visits(mem0, tp, 512)
  {
    var pdpe := m.mem[parent][0];
    assert Links(pdpe, tp, Pdpt);
    if pdpe.p {
      ok, seen, tc', refused := PdpForEach(m, pdpe.frame, parent, child, calm, mem0, free0, tp, tc);
    } else {
      forall i, j, k | InRange(i, j, k) ensures !Leaf(mem0, tp, i, j, k).p { assert Table(i, j) !in tp; }
      NothingToCopy(mem0, tp, m.mem, tc, 0, 0, 0, 512, 0, 0);
      NothingToVisit(mem0, tp, 512);
      ok, seen, tc', refused := true, [], tc, false;
    }
  }

  // ----- fork ---------------------------------------------------------------------------

  /** pml4_create: a copy of the kernel's tables, whose entry 0 is empty. */
  method Pml4Create(m: Machine, calm: bool) returns (pml4: Option<nat>, ghost t: Tables)
    requires m.Ok() && m.base in m.mem && m.mem[m.base][0] == ZERO
    modifies m
    ensures calm ==> (pml4.None? <==> old(m.free) == {})
    ensures pml4.None? ==> m.Ok() && m.mem == old(m.mem) && m.free == old(m.free)
    ensures pml4.Some? ==> t == map[Root := pml4.value] && Child(m, old(m.mem), old(m.free), t)
    ensures pml4.Some? ==> forall i, j, k {:trigger Leaf(m.mem, t, i, j, k)} :: !Leaf(m.mem, t, i, j, k).p
  {
    ghost var mem0, free0 := m.mem, m.free;
    t := map[];
    pml4 := m.PallocGetPage(false, calm);
    if pml4.Some? {
      m.mem := m.mem[pml4.value := m.mem[m.base]];
      t := map[Root := pml4.value];
      assert t[Root] in t.Values;
      assert t.Values == {pml4.value};
      assert Footprint(m.mem, t) == {pml4.value};
    }
  }

  /** Where user code gets at a page of the parent, it gets at an equal page of the child, in a frame that was free,
      with the same permission; and it gets at no page that the parent has not mapped. */
  ghost predicate SameAccess(mem0: Memory, parent: nat, tp: Tables, mem: Memory, child: nat) {
    forall va {:trigger UserAccess(mem, child, va)} {:trigger UserAccess(mem0, parent, va)} |
      0 <= va < 0x80_0000_0000 ::
      var a, b := UserAccess(mem0, parent, va), UserAccess(mem, child, va);
      && (a.Some? ==> && b.Some? && b.value.write == a.value.write && b.value.frame !in mem0 && b.value.frame in mem
                      && a.value.frame in mem0 && mem[b.value.frame] == mem0[a.value.frame])
      && (b.Some? ==> Leaf(mem0, tp, Pdpe(va), Pdx(va), Ptx(va)).p)
  }

  lemma CopiedAccess(mem0: Memory, tp: Tables, mem: Memory, tc: Tables)
    requires Tree(mem0, tp) && Tree(mem, tc) && CopiedUpTo(mem0, tp, mem, tc, 512, 0, 0)
    ensures SameAccess(mem0, tp[Root], tp, mem, tc[Root])
  {
    forall va | 0 <= va < 0x80_0000_0000
      ensures var a, b := UserAccess(mem0, tp[Root], va), UserAccess(mem, tc[Root], va);
              && (a.Some? ==> && b.Some? && b.value.write == a.value.write && b.value.frame !in mem0
                              && b.value.frame in mem && a.value.frame in mem0
                              && mem[b.value.frame] == mem0[a.value.frame])
              && (b.Some? ==> Leaf(mem0, tp, Pdpe(va), Pdx(va), Ptx(va)).p)
    {
      UserAccessIs(mem0, tp, va);
      UserAccessIs(mem, tc, va);
      var i, j, k := Pdpe(va), Pdx(va), Ptx(va);
      assert InRange(i, j, k) && Before(i, j, k, 512, 0, 0);
      var a := Leaf(mem0, tp, i, j, k);
    }
  }

  /** The address-space part of __do_fork: the child is absent, a partial copy, or (ok) a full one. */
  method ForkCopy(m: Machine, parent: nat, calm: bool, ghost tp: Tables)
    returns (child: Option<nat>, ok: bool, seen: seq<nat>, ghost tc: Tables, ghost refused: bool)
    requires Parent(m.mem, m.free, tp) && tp[Root] == parent && m.base in m.mem && m.mem[m.base][0] == ZERO
    modifies m
    ensures (ok <==> !refused) && (calm && refused ==> |m.free| < 4)
    ensures child.None? ==> !ok && m.Ok() && m.mem == old(m.mem) && m.free == old(m.free)
    ensures child.Some? ==> Child(m, old(m.mem), old(m.free), tc) && tc[Root] == child.value
    ensures ok ==> child.Some? && CopiedUpTo(old(m.mem), tp, m.mem, tc, 512, 0, 0)
    ensures ok ==> SameAccess(old(m.mem), parent, tp, m.mem, child.value)
    ensures ok ==> Lists(old(m.mem), tp, seen, 0, 0x80_0000_0000)
  {
    ghost var mem0, free0 := m.mem, m.free;
    ok, seen, refused := false, [], true;
    child, tc := Pml4Create(m, calm);
    if child.Some? {
      ok, seen, tc, refused := Pml4ForEach(m, parent, child.value, calm, mem0, free0, tp, tc);
      VisitsEachPageOnce(mem0, tp, 512, 0x80_0000_0000, Visits(mem0, tp, 512));
      if ok { CopiedAccess(mem0, tp, m.mem, tc); }
    }
  }

  /** A fork, successful or not, followed by the child's exit leaves memory and the page pool as they were. */
  method ForkThenExit(m: Machine, parent: nat, calm: bool, ghost tp: Tables)
    requires Parent(m.mem, m.free, tp) && tp[Root] == parent && m.base in m.mem && m.mem[m.base][0] == ZERO
    modifies m
    ensures m.mem == old(m.mem) && m.free == old(m.free)
  {
    ghost var mem0, free0 := m.mem, m.free;
    ghost var tc, refused;
    var child, ok, seen;
    child, ok, seen, tc, refused := ForkCopy(m, parent, calm, tp);
    if child.Some? {
      ghost var pages := Footprint(m.mem, tc);
      Pml4Destroy(m, child.value, tc);
      assert m.mem == mem0 by {
        assert m.mem.Keys == mem0.Keys;
      }
      assert m.free == free0;
    }
  }
}
