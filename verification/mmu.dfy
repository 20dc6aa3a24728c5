/** Four-level page tables built in place (pintos/threads/mmu.c), for user addresses below 2^39.

    A page is a frame number; the kernel address of frame f is KERN_BASE + 4096 * f and plays no further
    role. A page holds 512 words of 64 bits. Addresses from 2^39 up belong to the kernel's shared tables
    (root entries from 1 on) and are not part of this model. */
module Mmu {
  import opened Wrappers

  // ----- entries and addresses -------------------------------------------------

  /** A 64-bit word as page-table code reads it: bits 12 and up, the other low bits, and the flags D (dirty),
      A (accessed), U, W and P. */
  datatype Word = Word(frame: nat, rest: nat, d: bool, a: bool, u: bool, w: bool, p: bool)

  const ZERO: Word := Word(0, 0, false, false, false, false, false)

  /** vtop (page) | PTE_P | PTE_U, with PTE_W if rw. */
  function MakeEntry(frame: nat, rw: bool): Word { Word(frame, 0, false, false, true, rw, true) }

  /** The two flags that pml4_set_dirty and pml4_set_accessed change, and the CPU sets. */
  datatype Flag = Dirty | Accessed

  /** Setting a flag is *pte |= flag. Clearing it is *pte &= ~(uint32_t) flag: that mask is 0 in bits 32 to 63, so
      the frame number is cut down to 20 bits. */
  function WithFlag(e: Word, flag: Flag, on: bool): Word {
    var e' := if on then e else e.(frame := e.frame % 0x10_0000);
    if flag.Dirty? then e'.(d := on) else e'.(a := on)
  }

  type Page = seq<Word>
  type Memory = map<nat, Page>

  // The index fields of an address below 2^39.
  function Pdpe(va: nat): nat { va / 0x4000_0000 % 512 }
  function Pdx(va: nat): nat { va / 0x20_0000 % 512 }
  function Ptx(va: nat): nat { va / 0x1000 % 512 }
  function PageOffset(va: nat): nat { va % 4096 }

  /** The address that pml4_for_each rebuilds from the indices. */
  function BuildVa(i: nat, j: nat, k: nat): nat { i * 0x4000_0000 + j * 0x20_0000 + k * 0x1000 }

  lemma BuildSplits(i: nat, j: nat, k: nat)
    requires i < 512 && j < 512 && k < 512
    ensures var va := BuildVa(i, j, k);
            Pdpe(va) == i && Pdx(va) == j && Ptx(va) == k && PageOffset(va) == 0 && va < 0x80_0000_0000
  {
    var va := BuildVa(i, j, k);
    assert va / 0x1000 == i * 0x4_0000 + j * 0x200 + k;
    assert va / 0x20_0000 == i * 0x200 + j;
    assert va / 0x4000_0000 == i;
  }

  /** Splitting an address and rebuilding it loses only the page offset. */
  lemma SplitBuilds(va: nat)
    requires va < 0x80_0000_0000
    ensures va == BuildVa(Pdpe(va), Pdx(va), Ptx(va)) + PageOffset(va)
  {
    assert va / 0x4000_0000 < 512;
    assert va / 0x20_0000 == 512 * (va / 0x4000_0000) + va / 0x20_0000 % 512 by { DivTwice(va, 0x20_0000); }
    assert va / 0x1000 == 512 * (va / 0x20_0000) + va / 0x1000 % 512 by { DivTwice2(va); }
  }

  lemma DivTwice(va: nat, unit: nat)
    requires unit == 0x20_0000
    ensures va / 0x20_0000 / 512 == va / 0x4000_0000
  {
  }

  lemma DivTwice2(va: nat)
    ensures va / 0x1000 / 512 == va / 0x20_0000
  {
  }

  // ----- the tree --------------------------------------------------------------

  /** The tables of one address space, by the path that leads to them. */
  datatype Path = Root | Pdpt | Dir(i: nat) | Table(i: nat, j: nat)

  type Tables = map<Path, nat>

  /** A directory-level entry is 0 or leads to its table and lets users in, to read and to write. What else is in a
      present one, such as the accessed bit that the CPU sets in each entry it translates through, is free. */
  predicate Links(w: Word, t: Tables, child: Path) {
    if child in t then w.p && w.u && w.w && w.frame == t[child] else w == ZERO
  }

  ghost predicate Shape(t: Tables) {
    && Root in t
    && (forall i {:trigger Dir(i)} | Dir(i) in t :: i < 512 && Pdpt in t)
    && (forall i, j {:trigger Table(i, j)} | Table(i, j) in t :: i < 512 && j < 512 && Dir(i) in t)
    && (forall p, q {:trigger t[p], t[q]} | p in t && q in t && p != q :: t[p] != t[q])
  }

  /** The pages in memory are linked up as t says. */
  ghost predicate Tree(mem: Memory, t: Tables) {
    && Shape(t)
    && (forall p {:trigger t[p]} | p in t :: t[p] in mem && |mem[t[p]]| == 512)
    && Links(mem[t[Root]][0], t, Pdpt)
    && (Pdpt in t ==> forall i {:trigger Dir(i)} | 0 <= i < 512 :: Links(mem[t[Pdpt]][i], t, Dir(i)))
    && (forall i, j {:trigger Table(i, j)} | 0 <= j < 512 && Dir(i) in t :: Links(mem[t[Dir(i)]][j], t, Table(i, j)))
  }

  /** The page-table entry of virtual page (i, j, k). */
  function Leaf(mem: Memory, t: Tables, i: nat, j: nat, k: nat): Word {
    if Table(i, j) in t && t[Table(i, j)] in mem && k < |mem[t[Table(i, j)]]| then mem[t[Table(i, j)]][k] else ZERO
  }

  datatype Mapping = Mapping(frame: nat, writable: bool)

  /** The abstract map of an address space: virtual page to frame and write permission. */
  function Lookup(mem: Memory, t: Tables, i: nat, j: nat, k: nat): Option<Mapping> {
    var e := Leaf(mem, t, i, j, k);
    if e.p then Some(Mapping(e.frame, e.w)) else None
  }

  /** How many tables have to be added before page (i, j, _) has an entry. */
  function Missing(t: Tables, i: nat, j: nat): nat {
    if Table(i, j) in t then 0 else if Dir(i) in t then 1 else if Pdpt in t then 2 else 3
  }

  /** One table more, one free page fewer. */
  lemma {:induction false} OneMissingLess(t: Tables, child: Path, f: nat, free: set<nat>, i: nat, j: nat)
    requires Shape(t) && f in free && child !in t && ((child == Dir(i) && Pdpt in t) || child == Pdpt)
    ensures Missing(t, i, j) > 1 && Missing(t[child := f], i, j) == Missing(t, i, j) - 1
    ensures |free - {f}| == |free| - 1
  {
  }

  // ----- what the CPU makes of it ------------------------------------------------

  /** What user code gets at: a frame, perhaps for writing too. */
  datatype Access = Access(frame: nat, write: bool)

  function EntryAt(mem: Memory, page: nat, idx: nat): Word {
    if page in mem && idx < |mem[page]| then mem[page][idx] else ZERO
  }

  /** The CPU's translation of an address for user code: four entries, from the root on, each picked by nine bits of
      the address, must be present and open to users; writing takes the W bit of all four. */
  function UserAccess(mem: Memory, root: nat, va: nat): Option<Access> {
    var e4 := EntryAt(mem, root, va / 0x80_0000_0000 % 512);
    var e3 := EntryAt(mem, e4.frame, va / 0x4000_0000 % 512);
    var e2 := EntryAt(mem, e3.frame, va / 0x20_0000 % 512);
    var e1 := EntryAt(mem, e2.frame, va / 0x1000 % 512);
    if e4.p && e4.u && e3.p && e3.u && e2.p && e2.u && e1.p && e1.u then
      Some(Access(e1.frame, e4.w && e3.w && e2.w && e1.w))
    else None
  }

  /** The CPU finds the leaf entry of the tree. */
  lemma UserAccessIs(mem: Memory, t: Tables, va: nat)
    requires Tree(mem, t) && va < 0x80_0000_0000
    ensures var e := Leaf(mem, t, Pdpe(va), Pdx(va), Ptx(va));
            UserAccess(mem, t[Root], va) == if e.p && e.u then Some(Access(e.frame, e.w)) else None
  {
    var i, j := Pdpe(va), Pdx(va);
    assert va / 0x80_0000_0000 % 512 == 0;
    if Pdpt in t {
      assert Links(mem[t[Pdpt]][i], t, Dir(i));
      if Dir(i) in t {
        assert Links(mem[t[Dir(i)]][j], t, Table(i, j));
      }
    }
  }

  /** User code's access to one page is now as given, and to all other pages as before. */
  ghost predicate AccessIs(mem0: Memory, mem: Memory, root: nat, upage: nat, access: Option<Access>) {
    forall va {:trigger UserAccess(mem, root, va)} | 0 <= va < 0x80_0000_0000 ::
      UserAccess(mem, root, va) == if va - va % 4096 == upage then access else UserAccess(mem0, root, va)
  }

  lemma SamePageSameIndices(upage: nat, uaddr: nat)
    requires upage < 0x80_0000_0000 && PageOffset(upage) == 0 && uaddr < 0x80_0000_0000
    ensures uaddr - PageOffset(uaddr) == upage <==> Pdpe(uaddr) == Pdpe(upage) && Pdx(uaddr) == Pdx(upage)
                                                    && Ptx(uaddr) == Ptx(upage)
  {
    SplitBuilds(upage);
    SplitBuilds(uaddr);
    var i, j, k := Pdpe(upage), Pdx(upage), Ptx(upage);
    if uaddr - PageOffset(uaddr) == upage {
      BuildSplits(Pdpe(uaddr), Pdx(uaddr), Ptx(uaddr));
      BuildSplits(i, j, k);
    }
  }

  /** One leaf entry has changed: so has the access to its page, and to no other. */
  lemma LeafAccess(mem0: Memory, t0: Tables, mem: Memory, t: Tables, upage: nat, e: Word)
    requires Tree(mem0, t0) && Tree(mem, t) && t[Root] == t0[Root] && upage < 0x80_0000_0000 && PageOffset(upage) == 0
    requires forall i, j, k {:trigger Leaf(mem, t, i, j, k)} ::
               Leaf(mem, t, i, j, k) == if i == Pdpe(upage) && j == Pdx(upage) && k == Ptx(upage) then e
                 else Leaf(mem0, t0, i, j, k)
    ensures AccessIs(mem0, mem, t[Root], upage, if e.p && e.u then Some(Access(e.frame, e.w)) else None)
  {
    forall va | 0 <= va < 0x80_0000_0000
      ensures UserAccess(mem, t[Root], va) == if va - va % 4096 != upage then UserAccess(mem0, t0[Root], va)
                                              else if e.p && e.u then Some(Access(e.frame, e.w)) else None
    {
      SamePageSameIndices(upage, va);
      UserAccessIs(mem0, t0, va);
      UserAccessIs(mem, t, va);
    }
  }

  /** The kernel's part of a root table is as it was. */
  ghost predicate KernelKept(mem0: Memory, mem: Memory, root: nat) {
    root in mem0 && root in mem && |mem[root]| == |mem0[root]|
    && forall n {:trigger mem[root][n]} | 1 <= n < |mem0[root]| :: mem[root][n] == mem0[root][n]
  }

  /** The tables of t0 are still there, any new ones come from the free pages, and no page but tables has changed, nor
      has the kernel's part of the root. */
  ghost predicate Extended(mem0: Memory, t0: Tables, free0: set<nat>, mem: Memory, t: Tables, free: set<nat>) {
    && Tree(mem, t)
    && (forall p {:trigger t[p]} {:trigger t0[p]} | p in t0 :: p in t && t[p] == t0[p])
    && (forall p {:trigger t[p]} | p in t && p !in t0 :: t[p] in free0)
    && free == free0 - t.Values
    && mem.Keys == mem0.Keys + t.Values
    && (forall f {:trigger mem[f]} | f in mem0 && f !in t0.Values :: mem[f] == mem0[f])
    && KernelKept(mem0, mem, t[Root])
  }

  /** Adding tables: what a walk that creates tables may do to memory. */
  ghost predicate Grown(mem0: Memory, t0: Tables, free0: set<nat>, mem: Memory, t: Tables, free: set<nat>) {
    && Extended(mem0, t0, free0, mem, t, free)
    && (forall i, j, k {:trigger Leaf(mem, t, i, j, k)} :: Leaf(mem, t, i, j, k) == Leaf(mem0, t0, i, j, k))
  }

  lemma GrownTransitive(mem0: Memory, t0: Tables, free0: set<nat>, mem1: Memory, t1: Tables, free1: set<nat>,
                        mem: Memory, t: Tables, free: set<nat>)
    requires Grown(mem0, t0, free0, mem1, t1, free1) && Grown(mem1, t1, free1, mem, t, free)
    requires free0 !! mem0.Keys
    ensures Grown(mem0, t0, free0, mem, t, free)
  {
    forall p | p in t && p !in t0 ensures t[p] in free0 {
      if p in t1 { assert t1[p] in free0; }
    }
    assert t0.Values <= t1.Values <= t.Values by {
      forall f | f in t0.Values ensures f in t1.Values { var p :| p in t0 && t0[p] == f; assert p in t1; }
      forall f | f in t1.Values ensures f in t.Values { var p :| p in t1 && t1[p] == f; assert p in t; }
    }
    forall f | f in mem0 && f !in t0.Values ensures mem[f] == mem0[f] {
      forall p | p in t1 ensures t1[p] != f {
        if p in t0 { assert t1[p] == t0[p]; } else { assert t1[p] in free0; }
      }
      assert mem1[f] == mem0[f];
    }
    forall i, j, k ensures Leaf(mem, t, i, j, k) == Leaf(mem0, t0, i, j, k) {
      assert Leaf(mem1, t1, i, j, k) == Leaf(mem0, t0, i, j, k);
    }
  }

  function ZeroPage(): (z: Page)
    ensures |z| == 512 && forall k | 0 <= k < 512 :: z[k] == ZERO
  {
    seq(512, _ => ZERO)
  }

  /** Linking a zeroed page f in as the table at path child, whose parent is the table at path parent. */
  function Linked(mem: Memory, t: Tables, parent: Path, idx: nat, f: nat): Memory
    requires parent in t && t[parent] in mem && idx < |mem[t[parent]]|
  {
    mem[f := ZeroPage()][t[parent] := mem[t[parent]][idx := MakeEntry(f, true)]]
  }

  ghost predicate ChildOf(child: Path, parent: Path, idx: nat) {
    && idx < 512
    && (parent == Root ==> child == Pdpt && idx == 0)
    && (parent == Pdpt ==> child == Dir(idx))
    && (parent.Dir? ==> child == Table(parent.i, idx))
    && !parent.Table?
  }

  lemma LinkGrows(mem: Memory, t: Tables, free: set<nat>, parent: Path, child: Path, idx: nat, f: nat)
    requires Tree(mem, t) && parent in t && child !in t && ChildOf(child, parent, idx)
    requires f in free && free !! mem.Keys
    ensures Grown(mem, t, free, Linked(mem, t, parent, idx, f), t[child := f], free - {f})
  {
    var mem', t' := Linked(mem, t, parent, idx, f), t[child := f];
    forall p | p in t ensures t[p] in mem && t[p] != f {}
    ValuesAfterUpdate(t, child, f);
    LinkShape(mem, t, parent, child, idx, f);
    forall i, j, k ensures Leaf(mem', t', i, j, k) == Leaf(mem, t, i, j, k) {
      if Table(i, j) in t { assert t[Table(i, j)] != t[parent]; }
    }
  }

  lemma ValuesAfterUpdate(t: Tables, child: Path, f: nat)
    requires child !in t
    ensures t[child := f].Values == t.Values + {f}
  {
    var t' := t[child := f];
    assert t'[child] == f;
    forall g | g in t.Values ensures g in t'.Values { var p :| p in t && t[p] == g; assert t'[p] == g; }
  }

  lemma LinkShape(mem: Memory, t: Tables, parent: Path, child: Path, idx: nat, f: nat)
    requires Tree(mem, t) && parent in t && child !in t && ChildOf(child, parent, idx)
    requires f !in mem
    ensures Tree(Linked(mem, t, parent, idx, f), t[child := f])
  {
    var mem', t' := Linked(mem, t, parent, idx, f), t[child := f];
    forall p | p in t ensures t[p] in mem && t[p] != f {}
    assert Shape(t');
  }

  lemma GrownReflexive(mem: Memory, t: Tables, free: set<nat>)
    requires Tree(mem, t) && free !! mem.Keys
    ensures Grown(mem, t, free, mem, t, free)
  {
    forall f | f in t.Values ensures f in mem { var p :| p in t && t[p] == f; }
  }

  /** Overwriting one page-table entry changes that entry and nothing else. */
  lemma WriteLeaf(mem: Memory, t: Tables, i: nat, j: nat, k: nat, e: Word)
    requires Tree(mem, t) && Table(i, j) in t && k < 512
    ensures var f := t[Table(i, j)]; f in mem && k < |mem[f]|
    ensures var f := t[Table(i, j)]; var mem' := mem[f := mem[f][k := e]];
            && Tree(mem', t)
            && (forall i', j', k' {:trigger Leaf(mem', t, i', j', k')} ::
                 Leaf(mem', t, i', j', k') == if i' == i && j' == j && k' == k then e else Leaf(mem, t, i', j', k'))
  {
    var f := t[Table(i, j)];
    var mem' := mem[f := mem[f][k := e]];
    forall p | p in t && p != Table(i, j) ensures t[p] != f && mem'[t[p]] == mem[t[p]] {}
  }

  /** The CPU marks the entries it translates through, at every level, as accessed, and those of pages it writes to
      as dirty: the tree, all mappings and what users get at stay. */
  lemma Touched(mem: Memory, t: Tables, at: Path, idx: nat, flag: Flag)
    requires Tree(mem, t) && at in t && idx < 512 && mem[t[at]][idx].p
    ensures var mem' := mem[t[at] := mem[t[at]][idx := WithFlag(mem[t[at]][idx], flag, true)]];
            && Tree(mem', t)
            && (forall i, j, k {:trigger Lookup(mem', t, i, j, k)} ::
                 Lookup(mem', t, i, j, k) == Lookup(mem, t, i, j, k))
            && (forall va | 0 <= va < 0x80_0000_0000 :: UserAccess(mem', t[Root], va) == UserAccess(mem, t[Root], va))
  {
    var mem' := mem[t[at] := mem[t[at]][idx := WithFlag(mem[t[at]][idx], flag, true)]];
    TouchedLeaves(mem, t, at, idx, flag, mem');
    forall va | 0 <= va < 0x80_0000_0000 ensures UserAccess(mem', t[Root], va) == UserAccess(mem, t[Root], va) {
      UserAccessIs(mem, t, va);
      UserAccessIs(mem', t, va);
      var e := Leaf(mem', t, Pdpe(va), Pdx(va), Ptx(va));
    }
  }

  lemma TouchedLeaves(mem: Memory, t: Tables, at: Path, idx: nat, flag: Flag, mem': Memory)
    requires Tree(mem, t) && at in t && idx < 512 && mem[t[at]][idx].p
    requires mem' == mem[t[at] := mem[t[at]][idx := WithFlag(mem[t[at]][idx], flag, true)]]
    ensures Tree(mem', t)
    ensures forall i, j, k {:trigger Leaf(mem', t, i, j, k)} ::
              var e, e' := Leaf(mem, t, i, j, k), Leaf(mem', t, i, j, k);
              e'.frame == e.frame && e'.p == e.p && e'.u == e.u && e'.w == e.w
  {
    forall p | p in t && p != at ensures t[p] != t[at] && mem'[t[p]] == mem[t[p]] {}
  }

  /** A page mapped to the frame at 4 GB: once a flag of its entry has been cleared it is mapped to frame 0. */
  lemma HighFrameLost(mem: Memory, t: Tables, i: nat, j: nat, k: nat, flag: Flag)
    requires Tree(mem, t) && Table(i, j) in t && k < 512 && Leaf(mem, t, i, j, k) == MakeEntry(0x10_0000, true)
    ensures var f := t[Table(i, j)]; f in mem && k < |mem[f]|
    ensures var f := t[Table(i, j)]; var mem' := mem[f := mem[f][k := WithFlag(mem[f][k], flag, false)]];
            && Tree(mem', t) && Lookup(mem, t, i, j, k) == Some(Mapping(0x10_0000, true))
            && Lookup(mem', t, i, j, k) == Some(Mapping(0, true))
  {
    WriteLeaf(mem, t, i, j, k, WithFlag(Leaf(mem, t, i, j, k), flag, false));
  }

  /** Where a page-table entry lives: the C code's uint64_t pointer into a page. */
  datatype Ref = Ref(frame: nat, idx: nat)

  /** Freeing the page just linked in and clearing the entry restores memory exactly. */
  lemma RollBack(mem: Memory, t: Tables, parent: Path, child: Path, idx: nat, f: nat)
    requires Tree(mem, t) && parent in t && child !in t && ChildOf(child, parent, idx) && f !in mem
    ensures var linked := Linked(mem, t, parent, idx, f); t[parent] in linked - {f} && idx < |linked[t[parent]]|
    ensures var linked := Linked(mem, t, parent, idx, f);
            (linked - {f})[t[parent] := (linked - {f})[t[parent]][idx := ZERO]] == mem
  {
    assert mem[t[parent]][idx] == ZERO;
    assert mem[t[parent]][idx := MakeEntry(f, true)][idx := ZERO] == mem[t[parent]];
  }

  class Machine {
    /** The contents of the allocated pages. */
    var mem: Memory
    /** The pages the page allocator has to give. */
    var free: set<nat>
    /** base_pml4: the root of the kernel's own tables. */
    const base: nat

    ghost predicate Ok()
      reads this
    {
      free !! mem.Keys && forall f {:trigger mem[f]} | f in mem :: |mem[f]| == 512
    }

    /** palloc_get_page: in a calm call it fails only when there is no page, otherwise it may fail at any time; without
        PAL_ZERO the contents are whatever they were. */
    method PallocGetPage(zero: bool, calm: bool) returns (page: Option<nat>)
      requires Ok()
      modifies this
      ensures Ok()
      ensures page.None? ==> mem == old(mem) && free == old(free)
      ensures calm ==> (page.None? <==> old(free) == {})
      ensures page.Some? ==> page.value in old(free) && free == old(free) - {page.value}
                             && mem.Keys == old(mem).Keys + {page.value}
                                && mem == old(mem)[page.value := mem[page.value]]
      ensures page.Some? && zero ==> mem[page.value] == ZeroPage()
    {
      var fail: bool := *;
      if (fail && !calm) || free == {} {
        return None;
      }
      var f :| f in free;
      var contents: Page := ZeroPage();
      if !zero {
        var junk: Page :| |junk| == 512 && |junk| == |ZeroPage()|;
        contents := junk;
      }
      free := free - {f};
      mem := mem[f := contents];
      return Some(f);
    }

    /** palloc_free_page asserts that the page is allocated. */
    method PallocFreePage(page: nat)
      requires Ok() && page in mem
      modifies this
      ensures Ok() && mem == old(mem) - {page} && free == old(free) + {page}
    {
      mem := mem - {page};
      free := free + {page};
    }

    /** The part of a walk that adds a missing table: a zeroed page, linked in. */
    method LinkTable(page: nat, idx: nat, calm: bool, ghost t: Tables, ghost parent: Path, ghost child: Path)
      returns (f: Option<nat>, ghost t': Tables)
      requires Ok() && Tree(mem, t) && parent in t && t[parent] == page && child !in t && ChildOf(child, parent, idx)
      modifies this
      ensures Ok() && (calm ==> (f.None? <==> old(free) == {}))
      ensures f.None? ==> mem == old(mem) && free == old(free) && t' == t
      ensures f.Some? ==> && f.value in old(free) && t' == t[child := f.value] && free == old(free) - {f.value}
                          && mem == Linked(old(mem), t, parent, idx, f.value)
                          && Grown(old(mem), t, old(free), mem, t', free)
    {
      t' := t;
      f := PallocGetPage(true, calm);
      if f.Some? {
        LinkGrows(old(mem), t, old(free), parent, child, idx, f.value);
        mem := mem[page := mem[page][idx := MakeEntry(f.value, true)]];
        t' := t[child := f.value];
      }
    }

    /** The part of a walk that takes the table it added out again. */
    method UnlinkTable(page: nat, idx: nat, ghost mem0: Memory, ghost free0: set<nat>, ghost t: Tables,
                       ghost parent: Path, ghost child: Path, ghost f: nat)
      requires Ok() && Tree(mem0, t) && parent in t && t[parent] == page && child !in t && ChildOf(child, parent, idx)
      requires f in free0 && f !in mem0 && mem == Linked(mem0, t, parent, idx, f) && free == free0 - {f}
      modifies this
      ensures mem == mem0 && free == free0
    {
      RollBack(mem0, t, parent, child, idx, f);
      PallocFreePage(mem[page][idx].frame);
      mem := mem[page := mem[page][idx := ZERO]];
    }

    method PgdirWalk(pd: nat, va: nat, create: bool, calm: bool, ghost t: Tables)
      returns (pte: Option<Ref>, ghost t': Tables, ghost refused: bool)
      requires Ok() && Tree(mem, t) && Dir(Pdpe(va)) in t && t[Dir(Pdpe(va))] == pd
      modifies this
      ensures Ok()
      ensures pte.None? || !create ==> mem == old(mem) && free == old(free) && t' == t
      ensures pte.None? <==> if create then refused else Table(Pdpe(va), Pdx(va)) !in t
      ensures refused ==> create && Table(Pdpe(va), Pdx(va)) !in t
      ensures calm ==> (refused <==> create && |old(free)| < Missing(t, Pdpe(va), Pdx(va)))
      ensures pte.Some? ==> Grown(old(mem), t, old(free), mem, t', free)
      ensures pte.Some? ==> Table(Pdpe(va), Pdx(va)) in t' && pte.value == Ref(t'[Table(Pdpe(va), Pdx(va))], Ptx(va))
    {
      var idx := Pdx(va);
      t' := t;
      GrownReflexive(mem, t, free);
      ghost var child := Table(Pdpe(va), idx);
      assert Links(mem[pd][idx], t, child);
      if !mem[pd][idx].p {
        if !create {
          return None, t, false;
        }
        var newPage;
        newPage, t' := LinkTable(pd, idx, calm, t, Dir(Pdpe(va)), child);
        if newPage.None? {
          return None, t, true;
        }
      }
      return Some(Ref(mem[pd][idx].frame, Ptx(va))), t', false;
    }

    method PdpeWalk(pdpe: nat, va: nat, create: bool, calm: bool, ghost t: Tables)
      returns (pte: Option<Ref>, ghost t': Tables, ghost refused: bool)
      requires Ok() && Tree(mem, t) && Pdpt in t && t[Pdpt] == pdpe
      modifies this
      ensures Ok()
      ensures pte.None? || !create ==> mem == old(mem) && free == old(free) && t' == t
      ensures pte.None? <==> if create then refused else Table(Pdpe(va), Pdx(va)) !in t
      ensures refused ==> create && Table(Pdpe(va), Pdx(va)) !in t
      ensures calm ==> (refused <==> create && |old(free)| < Missing(t, Pdpe(va), Pdx(va)))
      ensures pte.Some? ==> Grown(old(mem), t, old(free), mem, t', free)
      ensures pte.Some? ==> Table(Pdpe(va), Pdx(va)) in t' && pte.value == Ref(t'[Table(Pdpe(va), Pdx(va))], Ptx(va))
    {
      var idx := Pdpe(va);
      var linkedHere := false;
      t' := t;
      ghost var f := 0;
      assert Links(mem[pdpe][idx], t, Dir(idx));
      if !mem[pdpe][idx].p {
        if !create {
          return None, t, false;
        }
        var newPage;
        newPage, t' := LinkTable(pdpe, idx, calm, t, Pdpt, Dir(idx));
        if newPage.None? {
          return None, t, true;
        }
        f, linkedHere := newPage.value, true;
        OneMissingLess(t, Dir(idx), f, old(free), Pdpe(va), Pdx(va));
      }
      ghost var mem1, t1, free1 := mem, t', free;
      pte, t', refused := PgdirWalk(mem[pdpe][idx].frame, va, create, calm, t');
      if pte.None? && linkedHere {
        UnlinkTable(pdpe, idx, old(mem), old(free), t, Pdpt, Dir(idx), f);
        t' := t;
      } else if linkedHere {
        GrownTransitive(old(mem), t, old(free), mem1, t1, free1, mem, t', free);
      }
    }

    method Pml4eWalk(pml4: nat, va: nat, create: bool, calm: bool, ghost t: Tables)
      returns (pte: Option<Ref>, ghost t': Tables, ghost refused: bool)
      requires Ok() && Tree(mem, t) && t[Root] == pml4 && va < 0x80_0000_0000
      modifies this
      ensures Ok()
      ensures pte.None? || !create ==> mem == old(mem) && free == old(free) && t' == t
      ensures pte.None? <==> if create then refused else Table(Pdpe(va), Pdx(va)) !in t
      ensures refused ==> create && Table(Pdpe(va), Pdx(va)) !in t
      ensures calm ==> (refused <==> create && |old(free)| < Missing(t, Pdpe(va), Pdx(va)))
      ensures pte.Some? ==> Grown(old(mem), t, old(free), mem, t', free)
      ensures pte.Some? ==> Table(Pdpe(va), Pdx(va)) in t' && pte.value == Ref(t'[Table(Pdpe(va), Pdx(va))], Ptx(va))
    {
      var idx := va / 0x80_0000_0000 % 512;
      var linkedHere := false;
      t' := t;
      ghost var f := 0;
      if !mem[pml4][idx].p {
        if !create {
          return None, t, false;
        }
        var newPage;
        newPage, t' := LinkTable(pml4, idx, calm, t, Root, Pdpt);
        if newPage.None? {
          return None, t, true;
        }
        f, linkedHere := newPage.value, true;
        OneMissingLess(t, Pdpt, f, old(free), Pdpe(va), Pdx(va));
      }
      ghost var mem1, t1, free1 := mem, t', free;
      pte, t', refused := PdpeWalk(mem[pml4][idx].frame, va, create, calm, t');
      if pte.None? && linkedHere {
        UnlinkTable(pml4, idx, old(mem), old(free), t, Root, Pdpt, f);
        t' := t;
      } else if linkedHere {
        GrownTransitive(old(mem), t, old(free), mem1, t1, free1, mem, t', free);
      }
    }

    /** Maps the page of a user address to a frame, for users to read, and to write if rw; fails exactly when the page
        allocator has no page for a missing table, and then changes nothing. */
    method Pml4SetPage(pml4: nat, upage: nat, kpage: nat, rw: bool, calm: bool, ghost t: Tables)
      returns (ok: bool, ghost t': Tables, ghost refused: bool)
      requires Ok() && Tree(mem, t) && t[Root] == pml4 && upage < 0x80_0000_0000 && PageOffset(upage) == 0
      modifies this
      ensures Ok() && (ok <==> !refused) && (refused ==> Table(Pdpe(upage), Pdx(upage)) !in t)
      ensures calm ==> (refused <==> |old(free)| < Missing(t, Pdpe(upage), Pdx(upage)))
      ensures !ok ==> mem == old(mem) && free == old(free) && t' == t
      ensures ok ==> Extended(old(mem), t, old(free), mem, t', free)
      ensures ok ==> forall i, j, k {:trigger Leaf(mem, t', i, j, k)} ::
                Leaf(mem, t', i, j, k) == if i == Pdpe(upage) && j == Pdx(upage) && k == Ptx(upage)
                                          then MakeEntry(kpage, rw)
                                          else Leaf(old(mem), t, i, j, k)
      ensures ok ==> AccessIs(old(mem), mem, pml4, upage, Some(Access(kpage, rw)))
    {
      var pte;
      pte, t', refused := Pml4eWalk(pml4, upage, true, calm, t);
      if pte.Some? {
        var r := pte.value;
        WriteLeaf(mem, t', Pdpe(upage), Pdx(upage), Ptx(upage), MakeEntry(kpage, rw));
        mem := mem[r.frame := mem[r.frame][r.idx := MakeEntry(kpage, rw)]];
        LeafAccess(old(mem), t, mem, t', upage, MakeEntry(kpage, rw));
      }
      ok := pte.Some?;
    }

    /** The frame and offset a user address is mapped to. */
    method Pml4GetPage(pml4: nat, uaddr: nat, ghost t: Tables) returns (page: Option<(nat, nat)>)
      requires Ok() && Tree(mem, t) && t[Root] == pml4 && uaddr < 0x80_0000_0000
      modifies this
      ensures Ok() && mem == old(mem) && free == old(free)
      ensures page == match Lookup(mem, t, Pdpe(uaddr), Pdx(uaddr), Ptx(uaddr))
                      case None => None
                      case Some(m) => Some((m.frame, PageOffset(uaddr)))
      ensures var a := UserAccess(mem, pml4, uaddr); a.Some? ==> page == Some((a.value.frame, uaddr % 4096))
    {
      UserAccessIs(mem, t, uaddr);
      ghost var t', refused;
      var pte;
      pte, t', refused := Pml4eWalk(pml4, uaddr, false, true, t);
      if pte.Some? && mem[pte.value.frame][pte.value.idx].p {
        return Some((mem[pte.value.frame][pte.value.idx].frame, PageOffset(uaddr)));
      }
      return None;
    }

    /** Marks a user page "not present"; the other bits of its entry stay. */
    method Pml4ClearPage(pml4: nat, upage: nat, ghost t: Tables)
      requires Ok() && Tree(mem, t) && t[Root] == pml4 && upage < 0x80_0000_0000 && PageOffset(upage) == 0
      modifies this
      ensures Ok() && Tree(mem, t) && free == old(free) && mem.Keys == old(mem).Keys
      ensures forall f | f in mem && f !in t.Values :: mem[f] == old(mem)[f]
      ensures forall i, j, k {:trigger Leaf(mem, t, i, j, k)} ::
                var e := Leaf(old(mem), t, i, j, k);
                Leaf(mem, t, i, j, k) == if i == Pdpe(upage) && j == Pdx(upage) && k == Ptx(upage) then e.(p := false)
                  else e
      ensures AccessIs(old(mem), mem, pml4, upage, None)
    {
      ghost var t', refused;
      var pte;
      pte, t', refused := Pml4eWalk(pml4, upage, false, true, t);
      if pte.Some? {
        var r := pte.value;
        if mem[r.frame][r.idx].p {
          WriteLeaf(mem, t, Pdpe(upage), Pdx(upage), Ptx(upage), mem[r.frame][r.idx].(p := false));
          mem := mem[r.frame := mem[r.frame][r.idx := mem[r.frame][r.idx].(p := false)]];
        }
      }
      LeafAccess(old(mem), t, mem, t, upage, Leaf(old(mem), t, Pdpe(upage), Pdx(upage), Ptx(upage)).(p := false));
    }

    /** pml4_set_dirty and pml4_set_accessed: all other pages keep their entries, and the page its mapping, iff the
        flag is set or the page lies below 4 GB. */
    method Pml4SetFlag(pml4: nat, vpage: nat, flag: Flag, on: bool, ghost t: Tables)
      requires Ok() && Tree(mem, t) && t[Root] == pml4 && vpage < 0x80_0000_0000
      modifies this
      ensures Ok() && Tree(mem, t) && free == old(free) && mem.Keys == old(mem).Keys
      ensures forall f | f in mem && f !in t.Values :: mem[f] == old(mem)[f]
      ensures forall i, j, k {:trigger Leaf(mem, t, i, j, k)} ::
                Leaf(mem, t, i, j, k) == if i == Pdpe(vpage) && j == Pdx(vpage) && k == Ptx(vpage) && Table(i, j) in t
                  then WithFlag(Leaf(old(mem), t, i, j, k), flag, on)
                                         else Leaf(old(mem), t, i, j, k)
      ensures var i, j, k := Pdpe(vpage), Pdx(vpage), Ptx(vpage);
              var e0, e := Leaf(old(mem), t, i, j, k), Leaf(mem, t, i, j, k);
              && (Table(i, j) in t ==> e.d == (if flag.Dirty? then on else e0.d)
                                       && e.a == (if flag.Accessed? then on else e0.a))
              && e.(frame := e0.frame, d := e0.d, a := e0.a) == e0
      ensures var e := Leaf(old(mem), t, Pdpe(vpage), Pdx(vpage), Ptx(vpage));
              (forall i, j, k {:trigger Lookup(mem, t, i, j, k)} ::
                Lookup(mem, t, i, j, k) == Lookup(old(mem), t, i, j, k))
              <==> !e.p || on || e.frame < 0x10_0000
    {
      ghost var t', refused;
      var pte;
      pte, t', refused := Pml4eWalk(pml4, vpage, false, true, t);
      ghost var i, j, k := Pdpe(vpage), Pdx(vpage), Ptx(vpage);
      assert Lookup(mem, t, i, j, k) == Lookup(old(mem), t, i, j, k);
      if pte.Some? {
        var r := pte.value;
        var e := mem[r.frame][r.idx];
        WriteLeaf(mem, t, i, j, k, WithFlag(e, flag, on));
        mem := mem[r.frame := mem[r.frame][r.idx := WithFlag(e, flag, on)]];
        assert Lookup(mem, t, i, j, k) == Lookup(old(mem), t, i, j, k) <==> !e.p || on || e.frame < 0x10_0000;
      }
    }

    /** pml4_is_dirty and pml4_is_accessed. */
    method Pml4IsFlag(pml4: nat, vpage: nat, flag: Flag, ghost t: Tables) returns (on: bool)
      requires Ok() && Tree(mem, t) && t[Root] == pml4 && vpage < 0x80_0000_0000
      modifies this
      ensures Ok() && mem == old(mem) && free == old(free)
      ensures var e := Leaf(mem, t, Pdpe(vpage), Pdx(vpage), Ptx(vpage)); on == if flag.Dirty? then e.d else e.a
    {
      ghost var t', refused;
      var pte;
      pte, t', refused := Pml4eWalk(pml4, vpage, false, true, t);
      on := false;
      if pte.Some? {
        var e := mem[pte.value.frame][pte.value.idx];
        on := if flag.Dirty? then e.d else e.a;
      }
    }
  }
}
