/** The kernel's malloc and free (pintos/threads/malloc.c): size-class arenas over a page pool.

    A call is one step: the descriptor lock serialises calls on one size class. An address is a page number
    and an offset. Block contents are not modelled. */
module Malloc {
  import opened Wrappers

  /** An address, as pg_round_down and pg_ofs split it. */
  datatype Addr = Addr(page: nat, ofs: nat)

  datatype Desc = Desc(blockSize: nat, perArena: nat, freeList: seq<Addr>)

  /** An arena header: of a page of equal blocks, or (desc NULL) of a big block of pages. */
  datatype Arena = Small(desc: nat, freeCnt: nat) | Big(pages: nat)

  type Arenas = map<nat, Arena>

  // ----- the size classes ---------------------------------------------------------

  const CLASSES := 7

  function Size(d: nat): nat {
    if d == 0 then 16 else if d == 1 then 32 else if d == 2 then 64 else if d == 3 then 128
    else if d == 4 then 256 else if d == 5 then 512 else 1024
  }

  function Per(d: nat): nat {
    if d == 0 then 254 else if d == 1 then 127 else if d == 2 then 63 else if d == 3 then 31
    else if d == 4 then 15 else if d == 5 then 7 else 3
  }

  /** idx * Size(d). */
  function Scaled(d: nat, idx: nat): nat {
    if d == 0 then 16 * idx else if d == 1 then 32 * idx else if d == 2 then 64 * idx else if d == 3 then 128 * idx
    else if d == 4 then 256 * idx else if d == 5 then 512 * idx else 1024 * idx
  }

  /** arena_to_block. */
  function BlockAt(page: nat, d: nat, idx: nat): Addr {
    Addr(page, 24 + Scaled(d, idx))
  }

  /** Blocks lie one after the other behind the header, and end inside the page. */
  lemma Layout(d: nat, idx: nat, idx': nat)
    requires d < 7 && idx < Per(d) && idx' < Per(d)
    ensures 24 + Scaled(d, idx) + Size(d) <= 4096
    ensures idx < idx' ==> Scaled(d, idx) + Size(d) <= Scaled(d, idx')
    ensures Scaled(d, idx) == Scaled(d, idx') ==> idx == idx'
  {
  }

  /** block_to_arena's alignment assertion holds of every block. */
  lemma BlockAligned(d: nat, idx: nat)
    requires d < 7
    ensures Scaled(d, idx) % Size(d) == 0
  {
  }

  // ----- sequences without repetition ---------------------------------------------

  predicate NoDup(s: seq<Addr>) { forall i, j | 0 <= i < j < |s| :: s[i] != s[j] }

  /** The list s with the elements of gone unlinked. */
  function Without(s: seq<Addr>, gone: set<Addr>): (r: seq<Addr>)
    ensures forall x :: x in r <==> x in s && x !in gone
  {
    if s == [] then [] else if s[0] in gone then Without(s[1..], gone) else [s[0]] + Without(s[1..], gone)
  }

  lemma {:induction false} WithoutNoDup(s: seq<Addr>, gone: set<Addr>)
    requires NoDup(s)
    ensures NoDup(Without(s, gone))
  {
    if s != [] {
      WithoutNoDup(s[1..], gone);
      assert s[0] !in s[1..];
    }
  }

  lemma {:induction false} WithoutTwice(s: seq<Addr>, a: set<Addr>, b: set<Addr>)
    ensures Without(Without(s, a), b) == Without(s, a + b)
  {
    if s != [] {
      WithoutTwice(s[1..], a, b);
    }
  }

  lemma {:induction false} WithoutNone(s: seq<Addr>)
    ensures Without(s, {}) == s
  {
    if s != [] {
      WithoutNone(s[1..]);
    }
  }

  /** The first n blocks of an arena, in order. */
  function Blocks(page: nat, d: nat, n: nat): (s: seq<Addr>)
    ensures |s| == n && forall i | 0 <= i < n :: s[i] == BlockAt(page, d, i)
  {
    if n == 0 then [] else Blocks(page, d, n - 1) + [BlockAt(page, d, n - 1)]
  }

  function BlockSet(page: nat, d: nat, n: nat): (s: set<Addr>)
    ensures forall b :: b in s <==> exists i: nat :: i < n && b == BlockAt(page, d, i)
  {
    if n == 0 then {} else BlockSet(page, d, n - 1) + {BlockAt(page, d, n - 1)}
  }

  // ----- the invariants -------------------------------------------------------------

  ghost predicate DescsOk(descs: seq<Desc>) {
    && |descs| == CLASSES
    && forall d | 0 <= d < CLASSES :: descs[d].blockSize == Size(d) && descs[d].perArena == Per(d)
                                      && NoDup(descs[d].freeList)
  }

  ghost predicate InArena(b: Addr, d: nat) {
    exists idx: nat :: idx < Per(d) && b == BlockAt(b.page, d, idx)
  }

  /** Each free list is exactly the blocks of its arenas that nobody holds. */
  ghost predicate BlocksOk(descs: seq<Desc>, arenas: Arenas, live: set<Addr>)
    requires |descs| == CLASSES
  {
    && (forall p {:trigger arenas[p]} | p in arenas && arenas[p].Small? :: arenas[p].desc < CLASSES)
    && (forall d, b {:trigger b in descs[d].freeList} | 0 <= d < CLASSES ::
         b in descs[d].freeList <==> b.page in arenas && arenas[b.page].Small? && arenas[b.page].desc == d
                                     && InArena(b, d) && b !in live)
  }

  /** What is handed out is a block of an arena, and a big block is in use for as long as it exists. */
  ghost predicate LiveOk(arenas: Arenas, live: set<Addr>) {
    && (forall b | b in live :: b.page in arenas && if arenas[b.page].Small? then InArena(b, arenas[b.page].desc)
                                else b.ofs == 24)
    && (forall p {:trigger arenas[p]} | p in arenas && arenas[p].Big? :: Addr(p, 24) in live)
  }

  /** How many of the first n blocks of an arena nobody holds. */
  ghost function FreeIn(live: set<Addr>, page: nat, d: nat, n: nat): nat {
    if n == 0 then 0 else FreeIn(live, page, d, n - 1) + (if BlockAt(page, d, n - 1) in live then 0 else 1)
  }

  /** free_cnt counts the free blocks, and no arena is entirely free. */
  ghost predicate CountsOk(arenas: Arenas, live: set<Addr>) {
    forall p {:trigger arenas[p]} | p in arenas && arenas[p].Small? ::
      arenas[p].freeCnt == FreeIn(live, p, arenas[p].desc, Per(arenas[p].desc))
        && arenas[p].freeCnt < Per(arenas[p].desc)
  }

  predicate InSpan(q: nat, p: nat, a: Arena) {
    p <= q < p + match a case Small(_, _) => 1 case Big(n) => n
  }

  /** A pool page is free or belongs to exactly one arena, namely owner[q]. */
  ghost predicate PagesOk(pool: set<nat>, free: set<nat>, arenas: Arenas, owner: map<nat, nat>) {
    && free <= pool
    && owner.Keys == pool - free
    && (forall q {:trigger owner[q]} | q in owner :: owner[q] in arenas && InSpan(q, owner[q], arenas[owner[q]]))
    && (forall p, q {:trigger InSpan(q, p, arenas[p])} | p in arenas && InSpan(q, p, arenas[p]) ::
          q in owner && owner[q] == p)
    && (forall p {:trigger arenas[p]} | p in arenas :: InSpan(p, p, arenas[p]))
  }

  /** The bytes a block has room for. */
  function Room(arenas: Arenas, b: Addr): nat {
    if b.page !in arenas then 0
    else match arenas[b.page] case Small(d, _) => Size(d) case Big(n) => if n == 0 then 0 else 4096 * n - 24
  }

  function Start(b: Addr): nat { 4096 * b.page + b.ofs }

  // ----- consequences of the invariants ------------------------------------------------

  /** Blocks in use at the same time do not overlap, nor do they reach the header of an arena. */
  lemma LiveDisjoint(descs: seq<Desc>, pool: set<nat>, free: set<nat>, arenas: Arenas, owner: map<nat, nat>,
                     live: set<Addr>, b: Addr, c: Addr)
    requires |descs| == CLASSES && BlocksOk(descs, arenas, live) && LiveOk(arenas, live)
             && PagesOk(pool, free, arenas, owner)
    requires b in live && c in live && b != c
    ensures Start(b) + Room(arenas, b) <= Start(c) || Start(c) + Room(arenas, c) <= Start(b)
    ensures b.ofs >= 24 && forall q | q !in owner || owner[q] != b.page ::
                             Start(b) + Room(arenas, b) <= 4096 * q || 4096 * q + 4096 <= Start(b)
  {
    WithinArena(descs, pool, free, arenas, owner, live, b);
    WithinArena(descs, pool, free, arenas, owner, live, c);
    if b.page == c.page {
      match arenas[b.page] {
        case Small(d, _) =>
          var i: nat :| i < Per(d) && b == BlockAt(b.page, d, i);
          var j: nat :| j < Per(d) && c == BlockAt(c.page, d, j);
          Layout(d, i, j);
          Layout(d, j, i);
        case Big(_) =>
      }
    } else {
      assert InSpan(b.page, b.page, arenas[b.page]) && InSpan(c.page, c.page, arenas[c.page]);
      assert !InSpan(c.page, b.page, arenas[b.page]);
      assert !InSpan(b.page, c.page, arenas[c.page]);
    }
  }

  function Pages(a: Arena): nat { match a case Small(_, _) => 1 case Big(n) => n }

  lemma WithinArena(descs: seq<Desc>, pool: set<nat>, free: set<nat>, arenas: Arenas, owner: map<nat, nat>,
                    live: set<Addr>, b: Addr)
    requires |descs| == CLASSES && BlocksOk(descs, arenas, live) && LiveOk(arenas, live)
             && PagesOk(pool, free, arenas, owner) && b in live
    ensures b.page in arenas && b.ofs >= 24 && Start(b) + Room(arenas, b) <= 4096 * (b.page + Pages(arenas[b.page]))
    ensures forall q: nat | q !in owner || owner[q] != b.page :: q < b.page || b.page + Pages(arenas[b.page]) <= q
  {
    match arenas[b.page] {
      case Small(d, _) =>
        var i: nat :| i < Per(d) && b == BlockAt(b.page, d, i);
        Layout(d, i, i);
      case Big(_) =>
        assert InSpan(b.page, b.page, arenas[b.page]);
    }
    forall q: nat | q !in owner || owner[q] != b.page ensures q < b.page || b.page + Pages(arenas[b.page]) <= q {
      assert !InSpan(q, b.page, arenas[b.page]);
    }
  }

  lemma {:induction false} NoneLive(live: set<Addr>, page: nat, d: nat, n: nat)
    requires forall b | b in live :: b.page != page
    ensures FreeIn(live, page, d, n) == n
  {
    if n > 0 {
      NoneLive(live, page, d, n - 1);
    }
  }

  lemma UsedPageHasArena(pool: set<nat>, free: set<nat>, arenas: Arenas, owner: map<nat, nat>, q: nat)
    requires PagesOk(pool, free, arenas, owner) && q in pool
    ensures q in free || arenas != map[]
  {
    assert q in free || owner[q] in arenas;
  }

  lemma EmptyOrNot(s: seq<Addr>)
    ensures s == [] || s[0] in s
  {
  }

  /** Once everything has been freed, every page is back in the pool and all free lists are empty. */
  lemma AllFreed(descs: seq<Desc>, pool: set<nat>, free: set<nat>, arenas: Arenas, owner: map<nat, nat>)
    requires |descs| == CLASSES && BlocksOk(descs, arenas, {}) && LiveOk(arenas, {}) && CountsOk(arenas, {})
             && PagesOk(pool, free, arenas, owner)
    ensures arenas == map[] && free == pool && forall d | 0 <= d < CLASSES :: descs[d].freeList == []
  {
    forall p: nat ensures p !in arenas {
      if p in arenas && arenas[p].Small? { NoneLive({}, p, arenas[p].desc, Per(arenas[p].desc)); }
    }
    forall q | q in pool ensures q in free { UsedPageHasArena(pool, free, arenas, owner, q); }
    forall d | 0 <= d < CLASSES ensures descs[d].freeList == [] {
      EmptyOrNot(descs[d].freeList);
    }
  }

  // ----- counting free blocks ------------------------------------------------------------

  lemma {:induction false} FreeInSame(live: set<Addr>, live': set<Addr>, page: nat, d: nat, n: nat)
    requires forall b: Addr | b.page == page :: b in live <==> b in live'
    ensures FreeIn(live, page, d, n) == FreeIn(live', page, d, n)
  {
    if n > 0 {
      FreeInSame(live, live', page, d, n - 1);
    }
  }

  lemma {:induction false} FreeInTaken(live: set<Addr>, page: nat, d: nat, idx: nat, n: nat)
    requires d < 7 && idx < Per(d) && n <= Per(d) && BlockAt(page, d, idx) !in live
    ensures FreeIn(live + {BlockAt(page, d, idx)}, page, d, n) == FreeIn(live, page, d, n) - (if idx < n then 1 else 0)
  {
    if n > 0 {
      FreeInTaken(live, page, d, idx, n - 1);
      Layout(d, idx, n - 1);
    }
  }

  lemma {:induction false} FreeInFull(live: set<Addr>, page: nat, d: nat, n: nat)
    ensures FreeIn(live, page, d, n) <= n
    ensures FreeIn(live, page, d, n) == n <==> forall i: nat | i < n :: BlockAt(page, d, i) !in live
  {
    if n > 0 {
      FreeInFull(live, page, d, n - 1);
    }
  }

  /** As CountsOk, but arena p may be entirely free. */
  ghost predicate CountsBut(arenas: Arenas, live: set<Addr>, p: nat) {
    forall q {:trigger arenas[q]} | q in arenas && arenas[q].Small? ::
      && arenas[q].freeCnt == FreeIn(live, q, arenas[q].desc, Per(arenas[q].desc))
      && (q != p ==> arenas[q].freeCnt < Per(arenas[q].desc))
  }

  // ----- the steps -------------------------------------------------------------------------

  /** Taking the first block off a free list. */
  lemma TakeBlock(descs: seq<Desc>, arenas: Arenas, live: set<Addr>, d: nat)
    requires DescsOk(descs) && BlocksOk(descs, arenas, live) && LiveOk(arenas, live)
    requires d < CLASSES && descs[d].freeList != [] && CountsBut(arenas, live, descs[d].freeList[0].page)
    ensures var b := descs[d].freeList[0];
            b.page in arenas && arenas[b.page].Small? && arenas[b.page].desc == d && arenas[b.page].freeCnt > 0
              && b !in live
    ensures var b := descs[d].freeList[0];
            var descs' := descs[d := descs[d].(freeList := descs[d].freeList[1..])];
            var arenas' := arenas[b.page := Small(d, arenas[b.page].freeCnt - 1)];
            DescsOk(descs') && BlocksOk(descs', arenas', live + {b}) && LiveOk(arenas', live + {b})
              && CountsOk(arenas', live + {b})
  {
    var list := descs[d].freeList;
    var b := list[0];
    assert b in list;
    var descs' := descs[d := descs[d].(freeList := list[1..])];
    var live' := live + {b};
    var idx: nat :| idx < Per(d) && b == BlockAt(b.page, d, idx);
    FreeInTaken(live, b.page, d, idx, Per(d));
    FreeInFull(live, b.page, d, Per(d));
    var arenas' := arenas[b.page := Small(d, arenas[b.page].freeCnt - 1)];
    forall x ensures x in list <==> x == b || x in list[1..] {}
    forall p | p in arenas' && arenas'[p].Small? && p != b.page
      ensures arenas'[p].freeCnt == FreeIn(live', p, arenas'[p].desc, Per(arenas'[p].desc))
    {
      FreeInSame(live, live', p, arenas[p].desc, Per(arenas[p].desc));
    }
    BlocksAfter(descs, arenas, live, descs', arenas', live');
  }

  /** The block invariant only looks at which arenas there are, not at their counts. */
  lemma BlocksAfter(descs: seq<Desc>, arenas: Arenas, live: set<Addr>, descs': seq<Desc>, arenas': Arenas,
                    live': set<Addr>)
    requires |descs| == CLASSES && |descs'| == CLASSES && BlocksOk(descs, arenas, live)
    requires arenas'.Keys == arenas.Keys
    requires forall p | p in arenas :: arenas'[p].Small? == arenas[p].Small?
                                       && (arenas[p].Small? ==> arenas'[p].desc == arenas[p].desc)
    requires forall d, b {:trigger b in descs'[d].freeList} | 0 <= d < CLASSES ::
               b in descs'[d].freeList <==>
                 || (b in descs[d].freeList && b !in live')
                 || (b in live && b !in live' && b.page in arenas && arenas[b.page].Small? && arenas[b.page].desc == d
                     && InArena(b, d))
    requires forall b | b in live' && b !in live :: b.page in arenas
    ensures BlocksOk(descs', arenas', live')
  {
    forall d, b | 0 <= d < CLASSES
      ensures b in descs'[d].freeList <==> b.page in arenas' && arenas'[b.page].Small? && arenas'[b.page].desc == d
                                           && InArena(b, d) && b !in live'
    {
      assert b in descs[d].freeList <==> b.page in arenas && arenas[b.page].Small? && arenas[b.page].desc == d
                                         && InArena(b, d) && b !in live;
    }
  }

  /** Cutting a fresh page into blocks for a class whose free list is empty. */
  lemma NewArena(descs: seq<Desc>, pool: set<nat>, free: set<nat>, arenas: Arenas, owner: map<nat, nat>,
                 live: set<Addr>, d: nat, p: nat)
    requires DescsOk(descs) && BlocksOk(descs, arenas, live) && LiveOk(arenas, live) && CountsOk(arenas, live)
    requires PagesOk(pool, free, arenas, owner) && p in free && d < CLASSES && descs[d].freeList == []
    ensures p !in arenas
    ensures var descs' := descs[d := descs[d].(freeList := Blocks(p, d, Per(d)))];
            var arenas' := arenas[p := Small(d, Per(d))];
            && DescsOk(descs') && BlocksOk(descs', arenas', live) && LiveOk(arenas', live)
               && CountsBut(arenas', live, p)
            && PagesOk(pool, free - {p}, arenas', owner[p := p])
  {
    HeadsOwned(pool, free, arenas, owner);
    BlocksNoDup(p, d, Per(d));
    NewBlocks(descs, arenas, live, d, p);
    NoneLive(live, p, d, Per(d));
    NewPage(pool, free, arenas, owner, p, Small(d, Per(d)));
  }

  lemma NewBlocks(descs: seq<Desc>, arenas: Arenas, live: set<Addr>, d: nat, p: nat)
    requires |descs| == CLASSES && BlocksOk(descs, arenas, live) && LiveOk(arenas, live)
    requires p !in arenas && d < CLASSES && descs[d].freeList == []
    ensures BlocksOk(descs[d := descs[d].(freeList := Blocks(p, d, Per(d)))], arenas[p := Small(d, Per(d))], live)
  {
    var descs' := descs[d := descs[d].(freeList := Blocks(p, d, Per(d)))];
    var arenas' := arenas[p := Small(d, Per(d))];
    forall e, b | 0 <= e < CLASSES
      ensures b in descs'[e].freeList <==> b.page in arenas' && arenas'[b.page].Small? && arenas'[b.page].desc == e
                                           && InArena(b, e) && b !in live
    {
      assert b in descs[e].freeList <==> b.page in arenas && arenas[b.page].Small? && arenas[b.page].desc == e
                                         && InArena(b, e) && b !in live;
      if b.page == p && e == d {
        BlocksMember(b, p, d);
      }
    }
  }

  lemma NewPage(pool: set<nat>, free: set<nat>, arenas: Arenas, owner: map<nat, nat>, p: nat, a: Arena)
    requires PagesOk(pool, free, arenas, owner) && p in free && p !in arenas && a.Small?
    ensures PagesOk(pool, free - {p}, arenas[p := a], owner[p := p])
  {
    PagesGrow(pool, free, arenas, owner, p, a);
    assert owner[p := p] == owner + SpanMap(p, 1);
    assert free - {p} == free - Span(p, 1);
  }

  /** A new arena takes no room from the blocks in use. */
  lemma NewArenaRooms(arenas: Arenas, live: set<Addr>, p: nat, a: Arena)
    requires LiveOk(arenas, live) && p !in arenas
    ensures forall b | b in live :: Room(arenas[p := a], b) == Room(arenas, b)
  {
  }

  lemma BlocksNoDup(p: nat, d: nat, n: nat)
    requires d < 7 && n <= Per(d)
    ensures NoDup(Blocks(p, d, n))
  {
    forall i, j | 0 <= i < j < n ensures BlockAt(p, d, i) != BlockAt(p, d, j) {
      Layout(d, i, j);
    }
  }

  lemma BlocksMember(b: Addr, p: nat, d: nat)
    requires b.page == p
    ensures b in Blocks(p, d, Per(d)) <==> InArena(b, d)
  {
    if InArena(b, d) {
      var i: nat :| i < Per(d) && b == BlockAt(b.page, d, i);
      assert Blocks(p, d, Per(d))[i] == b;
    }
  }

  /** The n pages from page p. */
  function Span(p: nat, n: nat): (s: set<nat>)
    ensures forall q :: q in s <==> p <= q < p + n
  {
    if n == 0 then {} else Span(p, n - 1) + {p + n - 1}
  }

  ghost function SpanMap(p: nat, n: nat): (m: map<nat, nat>)
    ensures m.Keys == Span(p, n) && forall q | q in m :: m[q] == p
  {
    map q | q in Span(p, n) :: p
  }

  lemma HeadsOwned(pool: set<nat>, free: set<nat>, arenas: Arenas, owner: map<nat, nat>)
    requires PagesOk(pool, free, arenas, owner)
    ensures forall p | p in arenas :: p in owner
  {
    forall p | p in arenas ensures p in owner {
      assert InSpan(p, p, arenas[p]);
    }
  }

  /** Giving free pages to a new arena. */
  lemma PagesGrow(pool: set<nat>, free: set<nat>, arenas: Arenas, owner: map<nat, nat>, p: nat, a: Arena)
    requires PagesOk(pool, free, arenas, owner) && Pages(a) > 0 && Span(p, Pages(a)) <= free && p !in arenas
    ensures PagesOk(pool, free - Span(p, Pages(a)), arenas[p := a], owner + SpanMap(p, Pages(a)))
  {
    var owner' := owner + SpanMap(p, Pages(a));
    assert forall q: nat :: InSpan(q, p, a) <==> q in Span(p, Pages(a));
    assert owner'.Keys == owner.Keys + Span(p, Pages(a));
  }

  /** Taking the pages of an arena back. */
  lemma {:induction false} PagesShrink(pool: set<nat>, free: set<nat>, arenas: Arenas, owner: map<nat, nat>, p: nat)
    requires PagesOk(pool, free, arenas, owner) && p in arenas
    ensures Span(p, Pages(arenas[p])) !! free
    ensures PagesOk(pool, free + Span(p, Pages(arenas[p])), arenas - {p}, owner - Span(p, Pages(arenas[p])))
  {
    var span, arenas', owner' := Span(p, Pages(arenas[p])), arenas - {p}, owner - Span(p, Pages(arenas[p]));
    forall q | q in span ensures q in owner && owner[q] == p {
      assert InSpan(q, p, arenas[p]);
    }
    forall q | q in owner' ensures owner'[q] in arenas' && InSpan(q, owner'[q], arenas'[owner'[q]]) {
      assert q !in span;
      assert InSpan(q, owner[q], arenas[owner[q]]);
    }
    forall r, q: nat | r in arenas' && InSpan(q, r, arenas'[r]) ensures q in owner' && owner'[q] == r {
      assert InSpan(q, r, arenas[r]);
    }
  }

  /** Putting a block back at the front of its free list. */
  lemma PutBlock(descs: seq<Desc>, arenas: Arenas, live: set<Addr>, b: Addr)
    requires DescsOk(descs) && BlocksOk(descs, arenas, live) && LiveOk(arenas, live) && CountsOk(arenas, live)
    requires b in live && b.page in arenas && arenas[b.page].Small?
    ensures var d := arenas[b.page].desc; d < CLASSES && arenas[b.page].freeCnt < Per(d) && InArena(b, d)
    ensures var d := arenas[b.page].desc;
            var descs' := descs[d := descs[d].(freeList := [b] + descs[d].freeList)];
            var arenas' := arenas[b.page := Small(d, arenas[b.page].freeCnt + 1)];
            DescsOk(descs') && BlocksOk(descs', arenas', live - {b}) && LiveOk(arenas', live - {b})
              && CountsBut(arenas', live - {b}, b.page)
  {
    var d := arenas[b.page].desc;
    var list, live' := descs[d].freeList, live - {b};
    var descs' := descs[d := descs[d].(freeList := [b] + list)];
    var arenas' := arenas[b.page := Small(d, arenas[b.page].freeCnt + 1)];
    assert b !in list;
    var idx: nat :| idx < Per(d) && b == BlockAt(b.page, d, idx);
    FreeInTaken(live', b.page, d, idx, Per(d));
    assert live' + {b} == live;
    forall p | p in arenas' && arenas'[p].Small? && p != b.page
      ensures arenas'[p].freeCnt == FreeIn(live', p, arenas'[p].desc, Per(arenas'[p].desc))
    {
      FreeInSame(live, live', p, arenas[p].desc, Per(arenas[p].desc));
    }
    BlocksAfter(descs, arenas, live, descs', arenas', live');
  }

  /** An entirely free arena can be taken apart. */
  lemma DropArena(descs: seq<Desc>, arenas: Arenas, live: set<Addr>, p: nat)
    requires DescsOk(descs) && BlocksOk(descs, arenas, live) && LiveOk(arenas, live) && CountsBut(arenas, live, p)
    requires p in arenas && arenas[p].Small? && arenas[p].freeCnt >= Per(arenas[p].desc)
    ensures var d := arenas[p].desc;
            var descs' := descs[d := descs[d].(freeList := Without(descs[d].freeList, BlockSet(p, d, Per(d))))];
            DescsOk(descs') && BlocksOk(descs', arenas - {p}, live) && LiveOk(arenas - {p}, live)
              && CountsOk(arenas - {p}, live)
    ensures forall b | b in live :: b.page != p
    ensures var d := arenas[p].desc;
            && arenas[p].freeCnt == Per(d)
            && forall i: nat | i < Per(d) :: BlockAt(p, d, i) in descs[d].freeList
  {
    var d, list := arenas[p].desc, descs[arenas[p].desc].freeList;
    var gone := BlockSet(p, d, Per(d));
    var descs' := descs[d := descs[d].(freeList := Without(list, gone))];
    FreeInFull(live, p, d, Per(d));
    WithoutNoDup(list, gone);
    forall i: nat | i < Per(d) ensures BlockAt(p, d, i) in list {
      var b := BlockAt(p, d, i);
      assert b == BlockAt(b.page, d, i);
      assert InArena(b, d) && b !in live;
    }
    forall e, b | 0 <= e < CLASSES
      ensures b in descs'[e].freeList <==> b.page in arenas - {p} && arenas[b.page].Small? && arenas[b.page].desc == e
                                           && InArena(b, e) && b !in live
    {
      assert b in descs[e].freeList <==> b.page in arenas && arenas[b.page].Small? && arenas[b.page].desc == e
                                         && InArena(b, e) && b !in live;
      if b.page == p && InArena(b, d) {
        var i: nat :| i < Per(d) && b == BlockAt(b.page, d, i);
        assert b in gone;
      }
    }
  }

  lemma PutBackOk(descs: seq<Desc>, pool: set<nat>, free: set<nat>, arenas: Arenas, owner: map<nat, nat>,
                  live: set<Addr>, b: Addr)
    requires DescsOk(descs) && BlocksOk(descs, arenas, live) && LiveOk(arenas, live) && CountsOk(arenas, live)
    requires PagesOk(pool, free, arenas, owner) && b in live && b.page in arenas && arenas[b.page].Small?
    ensures arenas[b.page].desc < CLASSES
    ensures var d := arenas[b.page].desc;
            var descs' := descs[d := descs[d].(freeList := [b] + descs[d].freeList)];
            var arenas' := arenas[b.page := Small(d, arenas[b.page].freeCnt + 1)];
            && DescsOk(descs') && BlocksOk(descs', arenas', live - {b}) && LiveOk(arenas', live - {b})
               && CountsBut(arenas', live - {b}, b.page)
            && PagesOk(pool, free, arenas', owner) && forall c | c in live - {b} :: Room(arenas', c) == Room(arenas, c)
  {
    var arenas' := arenas[b.page := Small(arenas[b.page].desc, arenas[b.page].freeCnt + 1)];
    PutBlock(descs, arenas, live, b);
    SamePages(pool, free, arenas, arenas', owner, b.page);
    RoomKept(arenas, arenas', live - {b});
  }

  // ----- big blocks --------------------------------------------------------------------------

  /** DIV_ROUND_UP (size + sizeof (struct arena), PGSIZE) in 64-bit arithmetic. */
  function PageCount(size: nat): nat {
    (size + 24 + 4095) % 0x1_0000_0000_0000_0000 / 4096
  }

  /** The pages hold the request unless the sum wraps around. */
  lemma BigFitsIff(size: nat)
    requires 1024 < size < 0x1_0000_0000_0000_0000
    ensures 4096 * PageCount(size) >= size + 24 <==> size <= 0x1_0000_0000_0000_0000 - 4120
    ensures 4096 * (PageCount(size) - 1) < size + 24
    ensures PageCount(size) == 0 <==> 0x1_0000_0000_0000_0000 - 4119 <= size < 0x1_0000_0000_0000_0000 - 23
  {
    var w := size + 24 + 4095;
    if w < 0x1_0000_0000_0000_0000 {
      assert w % 0x1_0000_0000_0000_0000 == w;
    } else {
      assert w % 0x1_0000_0000_0000_0000 == w - 0x1_0000_0000_0000_0000;
    }
  }

  /** malloc (2^64 - 24): the sum wraps around to 4095, no pages. */
  lemma NoPages()
    ensures PageCount(0xFFFF_FFFF_FFFF_FFE8) == 0 && Room(map[0 := Big(0)], Addr(0, 24)) == 0
  {
    assert 0xFFFF_FFFF_FFFF_FFE8 + 24 + 4095 == 0x1_0000_0000_0000_0000 + 4095;
  }

  /** A big block is an arena of its own. */
  lemma NewBig(descs: seq<Desc>, arenas: Arenas, live: set<Addr>, p: nat, n: nat)
    requires |descs| == CLASSES && BlocksOk(descs, arenas, live) && LiveOk(arenas, live) && CountsOk(arenas, live)
             && p !in arenas
    ensures var arenas', live' := arenas[p := Big(n)], live + {Addr(p, 24)};
            BlocksOk(descs, arenas', live') && LiveOk(arenas', live') && CountsOk(arenas', live')
              && Addr(p, 24) !in live
  {
    var arenas', live' := arenas[p := Big(n)], live + {Addr(p, 24)};
    forall d, b | 0 <= d < CLASSES
      ensures b in descs[d].freeList <==> b.page in arenas' && arenas'[b.page].Small? && arenas'[b.page].desc == d
                                          && InArena(b, d) && b !in live'
    {
      assert b in descs[d].freeList <==> b.page in arenas && arenas[b.page].Small? && arenas[b.page].desc == d
                                         && InArena(b, d) && b !in live;
    }
    OthersCounted(arenas, live, arenas', live', p);
  }

  /** With pages of its own a big block keeps the allocator well formed; with none it does not. */
  lemma BigBlock(descs: seq<Desc>, pool: set<nat>, free: set<nat>, arenas: Arenas, owner: map<nat, nat>,
                 live: set<Addr>, p: nat, cnt: nat)
    requires DescsOk(descs) && BlocksOk(descs, arenas, live) && LiveOk(arenas, live) && CountsOk(arenas, live)
    requires PagesOk(pool, free, arenas, owner) && Span(p, cnt) <= free
    ensures var arenas', live' := arenas[p := Big(cnt)], live + {Addr(p, 24)};
            && (cnt > 0 ==> && BlocksOk(descs, arenas', live') && LiveOk(arenas', live') && CountsOk(arenas', live')
                            && PagesOk(pool, free - Span(p, cnt), arenas', owner + SpanMap(p, cnt))
                            && Addr(p, 24) !in live && forall b | b in live :: Room(arenas', b) == Room(arenas, b))
            && (cnt == 0 ==> !PagesOk(pool, free - Span(p, cnt), arenas', owner + SpanMap(p, cnt)))
  {
    if cnt > 0 {
      assert p in Span(p, cnt);
      HeadsOwned(pool, free, arenas, owner);
      NewBig(descs, arenas, live, p, cnt);
      PagesGrow(pool, free, arenas, owner, p, Big(cnt));
    } else {
      assert !InSpan(p, p, arenas[p := Big(cnt)][p]);
    }
  }

  lemma OthersCounted(arenas: Arenas, live: set<Addr>, arenas': Arenas, live': set<Addr>, p: nat)
    requires CountsOk(arenas, live)
    requires forall q | q in arenas' && q != p :: q in arenas && arenas'[q] == arenas[q]
    requires p in arenas' ==> arenas'[p].Big?
    requires forall b: Addr | b.page != p :: b in live <==> b in live'
    ensures CountsOk(arenas', live')
  {
    forall q | q in arenas' && arenas'[q].Small?
      ensures arenas'[q].freeCnt == FreeIn(live', q, arenas'[q].desc, Per(arenas'[q].desc))
              && arenas'[q].freeCnt < Per(arenas'[q].desc)
    {
      FreeInSame(live, live', q, arenas[q].desc, Per(arenas[q].desc));
    }
  }

  lemma DropBig(descs: seq<Desc>, arenas: Arenas, live: set<Addr>, p: nat)
    requires |descs| == CLASSES && BlocksOk(descs, arenas, live) && LiveOk(arenas, live) && CountsOk(arenas, live)
    requires p in arenas && arenas[p].Big?
    ensures var arenas', live' := arenas - {p}, live - {Addr(p, 24)};
            BlocksOk(descs, arenas', live') && LiveOk(arenas', live') && CountsOk(arenas', live')
  {
    var arenas', live' := arenas - {p}, live - {Addr(p, 24)};
    forall d, b | 0 <= d < CLASSES
      ensures b in descs[d].freeList <==> b.page in arenas' && arenas'[b.page].Small? && arenas'[b.page].desc == d
                                          && InArena(b, d) && b !in live'
    {
      assert b in descs[d].freeList <==> b.page in arenas && arenas[b.page].Small? && arenas[b.page].desc == d
                                         && InArena(b, d) && b !in live;
    }
    OthersCounted(arenas, live, arenas', live', p);
  }

  /** The first n blocks of an arena are unlinked. */
  function Unlinked(descs: seq<Desc>, d: nat, p: nat, n: nat): seq<Desc>
    requires d < |descs|
  {
    descs[d := descs[d].(freeList := Without(descs[d].freeList, BlockSet(p, d, n)))]
  }

  lemma UnlinkNext(descs: seq<Desc>, d: nat, p: nat, i: nat)
    requires d < CLASSES == |descs| && i < Per(d) && BlockAt(p, d, i) in descs[d].freeList
    ensures var b, descs' := BlockAt(p, d, i), Unlinked(descs, d, p, i);
            && b in descs'[d].freeList
            && descs'[d := descs'[d].(freeList := Without(descs'[d].freeList, {b}))] == Unlinked(descs, d, p, i + 1)
  {
    NotYetUnlinked(p, d, i);
    WithoutTwice(descs[d].freeList, BlockSet(p, d, i), {BlockAt(p, d, i)});
  }

  // ----- runs ------------------------------------------------------------------------------------

  /** A call of malloc, or of free with the i-th of the blocks in use. */
  datatype Call = Request(size: nat, calm: bool) | Release(i: nat)

  /** A block in use, and the size it was requested with. */
  datatype Held = Held(block: Addr, size: nat)

  /** The blocks in use are these, each once, and each has room for its request unless that is within 4119 of 2^64. */
  ghost predicate HeldOk(held: seq<Held>, arenas: Arenas, live: set<Addr>) {
    && (forall i | 0 <= i < |held| ::
         held[i].block in live && RoomIff(arenas, held[i].block, held[i].size))
    && (forall i, j | 0 <= i < j < |held| :: held[i].block != held[j].block)
    && (forall b | b in live :: exists i :: 0 <= i < |held| && held[i].block == b)
  }

  predicate RoomIff(arenas: Arenas, b: Addr, size: nat) {
    Room(arenas, b) >= size <==> size <= 0x1_0000_0000_0000_0000 - 4120
  }

  lemma HeldMore(held: seq<Held>, arenas: Arenas, live: set<Addr>, arenas': Arenas, b: Addr, size: nat)
    requires HeldOk(held, arenas, live) && b !in live && RoomIff(arenas', b, size)
    requires forall c | c in live :: Room(arenas', c) == Room(arenas, c)
    ensures HeldOk(held + [Held(b, size)], arenas', live + {b})
  {
    var held' := held + [Held(b, size)];
    forall c | c in live + {b} ensures exists i :: 0 <= i < |held'| && held'[i].block == c {
      if c == b {
        assert held'[|held|].block == b;
      } else {
        var i :| 0 <= i < |held| && held[i].block == c;
        assert held'[i].block == c;
      }
    }
  }

  lemma HeldLess(held: seq<Held>, arenas: Arenas, live: set<Addr>, arenas': Arenas, i: nat)
    requires HeldOk(held, arenas, live) && i < |held|
    requires forall c | c in live - {held[i].block} :: Room(arenas', c) == Room(arenas, c)
    ensures HeldOk(held[..i] + held[i + 1..], arenas', live - {held[i].block})
  {
    var held' := held[..i] + held[i + 1..];
    forall k | 0 <= k < |held'| ensures held'[k] == held[if k < i then k else k + 1] {}
    forall c | c in live - {held[i].block} ensures exists k :: 0 <= k < |held'| && held'[k].block == c {
      var k :| 0 <= k < |held| && held[k].block == c;
      assert held'[if k < i then k else k - 1].block == c;
    }
  }

  /** No two blocks in use overlap. */
  ghost predicate HeldApart(held: seq<Held>, arenas: Arenas) {
    forall i, j | 0 <= i < j < |held| ::
      Start(held[i].block) + Room(arenas, held[i].block) <= Start(held[j].block)
      || Start(held[j].block) + Room(arenas, held[j].block) <= Start(held[i].block)
  }

  /** A request whose page count is not 0. */
  predicate Proper(c: Call) {
    c.Request? ==> c.size < 0x1_0000_0000_0000_0000 && PageCount(c.size) > 0
  }

  // ----- the allocator -------------------------------------------------------------------------

  /** Class d is the smallest whose blocks hold size bytes. */
  ghost predicate Serves(d: nat, size: nat) {
    d < CLASSES && size <= Size(d) && forall e | 0 <= e < d :: Size(e) < size
  }

  lemma OneServes(d: nat, size: nat)
    requires Serves(d, size)
    ensures size <= 1024 && forall e: nat | Serves(e, size) :: e == d
  {
  }

  lemma NoneServes(size: nat)
    requires size > 1024
    ensures forall e: nat :: !Serves(e, size)
  {
  }

  /** There are no cnt pages in a row. */
  ghost predicate NoRun(free: set<nat>, cnt: nat) {
    cnt > 0 && forall p | p in free :: !(Span(p, cnt) <= free)
  }

  lemma NoRunOfOne(free: set<nat>)
    ensures NoRun(free, 1) <==> free == {}
  {
    forall p | p in free ensures Span(p, 1) <= free {
      assert Span(p, 1) == {p};
    }
  }

  class Heap {
    var descs: seq<Desc>
    var arenas: Arenas
    /** The pages that the page allocator has to give. */
    var free: set<nat>
    const base: nat
    ghost const pool: set<nat>
    /** The blocks handed out and not yet freed. */
    ghost var live: set<Addr>
    ghost var owner: map<nat, nat>

    ghost predicate Valid()
      reads this
    {
      && DescsOk(descs) && BlocksOk(descs, arenas, live) && LiveOk(arenas, live) && CountsOk(arenas, live)
      && PagesOk(pool, free, arenas, owner)
    }

    /** malloc_init. */
    constructor (base: nat, pages: set<nat>)
      ensures Valid() && live == {} && arenas == map[] && free == pages && pool == pages
      ensures |descs| == 7 && descs[0].blockSize == 16
      ensures forall d | 0 <= d < 7 :: descs[d].freeList == [] && descs[d].perArena == (4096 - 24) / descs[d].blockSize
      ensures forall d {:trigger descs[d].blockSize} | 0 < d < 7 :: descs[d].blockSize == 2 * descs[d - 1].blockSize
    {
      var ds: seq<Desc> := [];
      var blockSize := 16;
      while blockSize < 4096 / 2
        invariant |ds| <= 7 && blockSize == if |ds| == 7 then 2048 else Size(|ds|)
        invariant forall d | 0 <= d < |ds| :: ds[d] == Desc(Size(d), Per(d), [])
        decreases 2048 - blockSize
      {
        ds := ds + [Desc(blockSize, (4096 - 24) / blockSize, [])];
        blockSize := blockSize * 2;
      }
      descs := ds;
      arenas, live, owner := map[], {}, map[];
      free, pool := pages, pages;
      this.base := base;
    }

    /** palloc_get_multiple: in a calm call it fails only if there is no run of so many pages, otherwise it may fail at
        any time; a request for no pages "succeeds" with the base of the pool. */
    method PallocGetMultiple(cnt: nat, calm: bool) returns (page: Option<nat>)
      modifies this`free
      ensures page.None? && calm ==> NoRun(old(free), cnt)
      ensures page.None? ==> free == old(free)
      ensures page.Some? ==> Span(page.value, cnt) <= old(free) && free == old(free) - Span(page.value, cnt)
      ensures cnt == 0 ==> page == Some(base)
    {
      if cnt == 0 {
        return Some(base);
      }
      var fail: bool := *;
      if fail && !calm {
        return None;
      }
      if p :| p in free && Span(p, cnt) <= free {
        free := free - Span(p, cnt);
        return Some(p);
      }
      return None;
    }

    /** palloc_free_multiple. */
    method PallocFreeMultiple(page: nat, cnt: nat)
      requires Span(page, cnt) !! free
      modifies this`free
      ensures free == old(free) + Span(page, cnt)
    {
      free := free + Span(page, cnt);
    }

    /** list_remove from a free list. */
    method Unlink(d: nat, b: Addr)
      requires d < |descs| && b in descs[d].freeList
      modifies this`descs
      ensures descs == old(descs)[d := old(descs[d]).(freeList := Without(old(descs[d].freeList), {b}))]
    {
      descs := descs[d := descs[d].(freeList := Without(descs[d].freeList, {b}))];
    }

    /** A block of at least size bytes; None exactly when nothing is asked for or the page allocator has no pages,
        which it is not asked for as long as there is a free block of the smallest class that fits. */
    method Malloc(size: nat, calm: bool) returns (r: Option<Addr>, ghost refused: bool)
      requires Valid() && size < 0x1_0000_0000_0000_0000
      modifies this
      ensures r.None? <==> size == 0 || refused
      ensures refused ==> size > 0
      ensures forall d: nat | Serves(d, size) ::
                && (refused ==> old(descs)[d].freeList == [])
                && (calm && size > 0 ==> (refused <==> old(descs)[d].freeList == [] && old(free) == {}))
      ensures calm && size > 1024 ==> (refused <==> NoRun(old(free), PageCount(size)))
      ensures size == 0 ==> r.None?
      ensures r.None? ==> Valid() && live == old(live) && arenas == old(arenas) && free == old(free)
                          && descs == old(descs)
      ensures r.Some? && size <= 1024 ==>
                Valid() && r.value.page in arenas && arenas[r.value.page].Small?
                && Serves(arenas[r.value.page].desc, size) && Room(arenas, r.value) >= size
      ensures r.Some? && size > 1024 ==> (Room(arenas, r.value) >= size <==> size <= 0x1_0000_0000_0000_0000 - 4120)
                                          && (Valid() <==> PageCount(size) > 0)
      ensures size > 1024 && PageCount(size) == 0 ==> r.Some?
      ensures r.Some? ==> r.value.ofs >= 24 && live == old(live) + {r.value}
      ensures r.Some? && PageCount(size) > 0 ==> r.value !in old(live)
                                                 && forall b | b in old(live) :: Room(arenas, b) == Room(old(arenas), b)
    {
      if size == 0 {
        return None, false;
      }
      var d := FindClass(size);
      if d == |descs| {
        NoneServes(size);
        r, refused := MallocBig(size, calm);
      } else {
        OneServes(d, size);
        r, refused := MallocSmall(d, calm);
      }
    }

    /** The smallest descriptor that satisfies a request, or the end of the table. */
    method FindClass(size: nat) returns (d: nat)
      requires DescsOk(descs)
      ensures d <= CLASSES && (d < CLASSES ==> Serves(d, size))
      ensures d == CLASSES <==> size > 1024
    {
      d := 0;
      while d < |descs| && descs[d].blockSize < size
        invariant d <= |descs| && forall e | 0 <= e < d :: Size(e) < size
      {
        d := d + 1;
      }
      assert d == CLASSES ==> Size(6) < size;
    }

    method MallocBig(size: nat, calm: bool) returns (r: Option<Addr>, ghost refused: bool)
      requires Valid() && 1024 < size < 0x1_0000_0000_0000_0000
      modifies this
      ensures (r.None? <==> refused) && (calm ==> (refused <==> NoRun(old(free), PageCount(size))))
      ensures r.Some? ==> r.value.page in arenas && arenas[r.value.page].Big?
                          && 4096 * (arenas[r.value.page].pages - 1) < size + 24
      ensures r.None? ==> Valid() && live == old(live) && arenas == old(arenas) && free == old(free)
                          && descs == old(descs)
      ensures r.Some? ==> (Room(arenas, r.value) >= size <==> size <= 0x1_0000_0000_0000_0000 - 4120)
                          && (Valid() <==> PageCount(size) > 0)
      ensures PageCount(size) == 0 ==> r.Some?
      ensures r.Some? ==> r.value.ofs == 24 && live == old(live) + {r.value}
                          && free == old(free) - Span(r.value.page, PageCount(size))
      ensures r.Some? && PageCount(size) > 0 ==> r.value !in old(live)
                                                 && forall b | b in old(live) :: Room(arenas, b) == Room(old(arenas), b)
    {
      var cnt := PageCount(size);
      BigFitsIff(size);
      var a := PallocGetMultiple(cnt, calm);
      if a.None? {
        return None, true;
      }
      var p := a.value;
      BigBlock(descs, pool, old(free), arenas, owner, live, p, cnt);
      arenas, live, owner := arenas[p := Big(cnt)], live + {Addr(p, 24)}, owner + SpanMap(p, cnt);
      return Some(Addr(p, 24)), false;
    }

    /** Makes a new arena for a class whose free list is empty. */
    method Refill(d: nat, calm: bool) returns (ok: bool)
      requires Valid() && d < CLASSES && descs[d].freeList == []
      modifies this
      ensures !ok ==> Valid() && arenas == old(arenas) && free == old(free) && descs == old(descs)
      ensures calm ==> (ok <==> old(free) != {})
      ensures live == old(live)
      ensures ok ==> && DescsOk(descs) && BlocksOk(descs, arenas, live) && LiveOk(arenas, live)
                     && PagesOk(pool, free, arenas, owner)
                     && descs[d].freeList != [] && CountsBut(arenas, live, descs[d].freeList[0].page)
                     && free == old(free) - {descs[d].freeList[0].page}
      ensures forall b | b in live :: Room(arenas, b) == Room(old(arenas), b)
    {
      NoRunOfOne(free);
      var a := PallocGetMultiple(1, calm);
      if a.None? {
        return false;
      }
      var p := a.value;
      assert Span(p, 1) == {p};
      NewArena(descs, pool, old(free), arenas, owner, live, d, p);
      NewArenaRooms(arenas, live, p, Small(d, Per(d)));
      arenas := arenas[p := Small(d, descs[d].perArena)];
      owner := owner[p := p];
      FillList(d, p);
      ok := true;
    }

    /** Puts the blocks of a new arena on the free list, in order. */
    method FillList(d: nat, p: nat)
      requires |descs| == CLASSES && d < CLASSES && descs[d].perArena == Per(d) && descs[d].freeList == []
      modifies this`descs
      ensures descs == old(descs)[d := old(descs[d]).(freeList := Blocks(p, d, Per(d)))]
    {
      var i := 0;
      while i < descs[d].perArena
        invariant i <= Per(d) && |descs| == CLASSES
        invariant descs == old(descs)[d := old(descs[d]).(freeList := Blocks(p, d, i))]
      {
        descs := descs[d := descs[d].(freeList := descs[d].freeList + [BlockAt(p, d, i)])];
        i := i + 1;
      }
    }

    method MallocSmall(d: nat, calm: bool) returns (r: Option<Addr>, ghost refused: bool)
      requires Valid() && d < CLASSES
      modifies this
      ensures Valid() && (r.None? <==> refused) && (refused ==> old(descs)[d].freeList == [])
      ensures calm ==> (refused <==> old(descs)[d].freeList == [] && old(free) == {})
      ensures r.None? ==> live == old(live) && arenas == old(arenas) && free == old(free) && descs == old(descs)
      ensures r.Some? ==> r.value.page in arenas && arenas[r.value.page].Small? && arenas[r.value.page].desc == d
      ensures r.Some? && old(descs)[d].freeList != [] ==> r.value == old(descs)[d].freeList[0] && free == old(free)
      ensures r.Some? && old(descs)[d].freeList == [] ==> free == old(free) - {r.value.page}
      ensures r.Some? ==> r.value.ofs >= 24 && r.value !in old(live) && live == old(live) + {r.value}
      ensures forall b | b in old(live) :: Room(arenas, b) == Room(old(arenas), b)
    {
      if descs[d].freeList == [] {
        var ok := Refill(d, calm);
        if !ok {
          return None, true;
        }
      }
      var b := GetBlock(d);
      r, refused := Some(b), false;
    }

    /** Gets a block from a free list that is not empty; its first arena may still be entirely free. */
    method GetBlock(d: nat) returns (b: Addr)
      requires DescsOk(descs) && BlocksOk(descs, arenas, live) && LiveOk(arenas, live)
               && PagesOk(pool, free, arenas, owner)
      requires d < CLASSES && descs[d].freeList != [] && CountsBut(arenas, live, descs[d].freeList[0].page)
      modifies this`descs, this`arenas, this`live
      ensures Valid() && b == old(descs)[d].freeList[0] && b.ofs >= 24 && b !in old(live) && live == old(live) + {b}
      ensures b.page in arenas && arenas[b.page].Small? && arenas[b.page].desc == d
      ensures forall b | b in old(live) :: Room(arenas, b) == Room(old(arenas), b)
    {
      TakeBlock(descs, arenas, live, d);
      b := Pop(d);
      SamePages(pool, free, old(arenas), arenas, owner, b.page);
      RoomKept(old(arenas), arenas, old(live));
    }

    /** Takes the first block off a free list. */
    method Pop(d: nat) returns (b: Addr)
      requires d < |descs| && descs[d].freeList != []
      requires descs[d].freeList[0].page in arenas && arenas[descs[d].freeList[0].page].Small?
               && arenas[descs[d].freeList[0].page].freeCnt > 0
      modifies this`descs, this`arenas, this`live
      ensures b == old(descs)[d].freeList[0] && live == old(live) + {b}
      ensures descs == old(descs)[d := old(descs)[d].(freeList := old(descs)[d].freeList[1..])]
      ensures arenas == old(arenas)[b.page := Small(d, old(arenas)[b.page].freeCnt - 1)]
    {
      b := descs[d].freeList[0];
      descs := descs[d := descs[d].(freeList := descs[d].freeList[1..])];
      arenas := arenas[b.page := Small(d, arenas[b.page].freeCnt - 1)];
      live := live + {b};
    }

    /** Frees a block that malloc returned; NULL is fine too. */
    method Free(b: Option<Addr>)
      requires Valid() && (b.Some? ==> b.value in live)
      modifies this
      ensures Valid()
      ensures live == old(live) - (if b.Some? then {b.value} else {})
      ensures forall c | c in live :: Room(arenas, c) == Room(old(arenas), c)
      ensures old(free) <= free
    {
      if b.None? {
        return;
      }
      if arenas[b.value.page].Big? {
        FreeBig(b.value);
      } else {
        FreeSmall(b.value);
      }
    }

    method FreeBig(b: Addr)
      requires Valid() && b in live && arenas[b.page].Big?
      modifies this
      ensures Valid() && live == old(live) - {b}
      ensures forall c | c in live :: Room(arenas, c) == Room(old(arenas), c)
      ensures free == old(free) + Span(b.page, old(arenas[b.page].pages))
    {
      var p, n := b.page, arenas[b.page].pages;
      PagesShrink(pool, free, arenas, owner, p);
      DropBig(descs, arenas, live, p);
      owner := owner - Span(p, n);
      PallocFreeMultiple(p, n);
      arenas := arenas - {p};
      live := live - {b};
    }

    method FreeSmall(b: Addr)
      requires Valid() && b in live && arenas[b.page].Small?
      modifies this
      ensures Valid() && live == old(live) - {b}
      ensures forall c | c in live :: Room(arenas, c) == Room(old(arenas), c)
      ensures free == old(free) + (if old(arenas[b.page].freeCnt) + 1 == Per(old(arenas[b.page].desc)) then {b.page}
                                   else {})
      ensures old(arenas[b.page].freeCnt) + 1 < Per(old(arenas[b.page].desc)) ==>
                var d := old(arenas[b.page].desc);
                d < |old(descs)| && descs == old(descs)[d := old(descs)[d].(freeList := [b] + old(descs)[d].freeList)]
    {
      var p, d := b.page, arenas[b.page].desc;
      PutBack(b);
      if arenas[p].freeCnt >= descs[d].perArena {
        DropArena(descs, arenas, live, p);
        ghost var before := arenas;
        Dismantle(d, p);
        RoomKept(before, arenas, live);
      }
    }

    /** Adds a block to its free list; its arena may now be entirely free. */
    method PutBack(b: Addr)
      requires Valid() && b in live && arenas[b.page].Small?
      modifies this`descs, this`arenas, this`live
      ensures DescsOk(descs) && BlocksOk(descs, arenas, live) && LiveOk(arenas, live)
              && PagesOk(pool, free, arenas, owner)
      ensures CountsBut(arenas, live, b.page) && live == old(live) - {b} && b.page in arenas
      ensures arenas[b.page] == Small(old(arenas[b.page].desc), old(arenas[b.page].freeCnt) + 1)
      ensures var d := old(arenas[b.page].desc);
              d < |old(descs)| && descs == old(descs)[d := old(descs)[d].(freeList := [b] + old(descs)[d].freeList)]
      ensures forall c | c in live :: Room(arenas, c) == Room(old(arenas), c)
    {
      var p, d := b.page, arenas[b.page].desc;
      PutBackOk(descs, pool, free, arenas, owner, live, b);
      Update(descs[d := descs[d].(freeList := [b] + descs[d].freeList)], arenas[p := Small(d, arenas[p].freeCnt + 1)],
             live - {b}, p);
    }

    /** New lists and counters; arena p may be entirely free. */
    method Update(ds: seq<Desc>, ar: Arenas, ghost lv: set<Addr>, ghost p: nat)
      requires DescsOk(ds) && BlocksOk(ds, ar, lv) && LiveOk(ar, lv) && PagesOk(pool, free, ar, owner)
               && CountsBut(ar, lv, p)
      modifies this`descs, this`arenas, this`live
      ensures DescsOk(descs) && BlocksOk(descs, arenas, live) && LiveOk(arenas, live)
              && PagesOk(pool, free, arenas, owner)
      ensures CountsBut(arenas, live, p) && descs == ds && arenas == ar && live == lv
    {
      descs, arenas, live := ds, ar, lv;
    }

    /** Unlinks all blocks of an arena from their free list. */
    method UnlinkAll(d: nat, p: nat, ghost n: nat)
      requires d < CLASSES && |descs| == CLASSES && descs[d].perArena == n <= Per(d)
      requires forall i: nat | i < n :: BlockAt(p, d, i) in descs[d].freeList
      modifies this`descs
      ensures descs == Unlinked(old(descs), d, p, n)
    {
      WithoutNone(descs[d].freeList);
      var i := 0;
      while i < descs[d].perArena
        invariant i <= n && |descs| == CLASSES && descs == Unlinked(old(descs), d, p, i)
      {
        UnlinkNext(old(descs), d, p, i);
        Unlink(d, BlockAt(p, d, i));
        i := i + 1;
      }
    }

    /** Unlinks all blocks of an arena and gives its page back. */
    method Dismantle(d: nat, p: nat)
      requires DescsOk(descs) && d < CLASSES && p in arenas && arenas[p] == Small(d, Per(d))
               && PagesOk(pool, free, arenas, owner)
      requires forall i: nat | i < Per(d) :: BlockAt(p, d, i) in descs[d].freeList
      modifies this`descs, this`free, this`arenas, this`owner
      ensures descs == Unlinked(old(descs), d, p, Per(d))
      ensures arenas == old(arenas) - {p} && free == old(free) + {p} && PagesOk(pool, free, arenas, owner)
    {
      UnlinkAll(d, p, Per(d));
      PagesShrink(pool, free, arenas, owner, p);
      assert Span(p, 1) == {p};
      owner := owner - {p};
      PallocFreeMultiple(p, 1);
      arenas := arenas - {p};
    }

    /** In every run of calls, none of whose requests has a page count of 0, the allocator stays well formed; blocks in
        use are new, have room and do not overlap; and when all have been freed every page is back in the pool. */
    method Run(calls: seq<Call>, held0: seq<Held>) returns (held: seq<Held>)
      requires Valid() && HeldOk(held0, arenas, live) && forall k | 0 <= k < |calls| :: Proper(calls[k])
      modifies this
      ensures Valid() && HeldOk(held, arenas, live) && HeldApart(held, arenas)
      ensures held == [] ==> arenas == map[] && free == pool && forall d | 0 <= d < |descs| :: descs[d].freeList == []
    {
      held := held0;
      for n := 0 to |calls|
        invariant Valid() && HeldOk(held, arenas, live)
      {
        held := Step(calls[n], held);
      }
      forall i, j | 0 <= i < j < |held|
        ensures Start(held[i].block) + Room(arenas, held[i].block) <= Start(held[j].block)
                || Start(held[j].block) + Room(arenas, held[j].block) <= Start(held[i].block)
      {
        LiveDisjoint(descs, pool, free, arenas, owner, live, held[i].block, held[j].block);
      }
      if held == [] {
        assert live == {};
        AllFreed(descs, pool, free, arenas, owner);
      }
    }

    /** One call of a run. */
    method Step(call: Call, held0: seq<Held>) returns (held: seq<Held>)
      requires Valid() && HeldOk(held0, arenas, live) && Proper(call)
      modifies this
      ensures Valid() && HeldOk(held, arenas, live)
    {
      match call {
        case Request(size, calm) => held := StepMalloc(size, calm, held0);
        case Release(i) => held := StepFree(i, held0);
      }
    }

    method StepMalloc(size: nat, calm: bool, held0: seq<Held>) returns (held: seq<Held>)
      requires Valid() && HeldOk(held0, arenas, live) && Proper(Request(size, calm))
      modifies this
      ensures Valid() && HeldOk(held, arenas, live)
    {
      held := held0;
      ghost var arenas0, live0 := arenas, live;
      ghost var refused;
      var r;
      r, refused := Malloc(size, calm);
      if r.Some? {
        assert RoomIff(arenas, r.value, size);
        HeldMore(held0, arenas0, live0, arenas, r.value, size);
        held := held0 + [Held(r.value, size)];
      }
    }

    method StepFree(i: nat, held0: seq<Held>) returns (held: seq<Held>)
      requires Valid() && HeldOk(held0, arenas, live)
      modifies this
      ensures Valid() && HeldOk(held, arenas, live)
    {
      held := held0;
      ghost var arenas0, live0 := arenas, live;
      if i < |held0| {
        Free(Some(held0[i].block));
        HeldLess(held0, arenas0, live0, arenas, i);
        held := held0[..i] + held0[i + 1..];
      }
    }
  }

  /** Counts play no part in the room a block has. */
  lemma RoomKept(arenas: Arenas, arenas': Arenas, live: set<Addr>)
    requires forall b | b in live :: b.page in arenas && b.page in arenas'
               && (arenas'[b.page] == arenas[b.page]
                   || (arenas[b.page].Small? && arenas'[b.page].Small? && arenas'[b.page].desc == arenas[b.page].desc))
    ensures forall b | b in live :: Room(arenas', b) == Room(arenas, b)
  {
  }

  /** Counts play no part in who owns which page. */
  lemma SamePages(pool: set<nat>, free: set<nat>, arenas: Arenas, arenas': Arenas, owner: map<nat, nat>, p: nat)
    requires PagesOk(pool, free, arenas, owner) && p in arenas && arenas[p].Small?
    requires arenas'.Keys == arenas.Keys && arenas'[p].Small?
             && forall q | q in arenas && q != p :: arenas'[q] == arenas[q]
    ensures PagesOk(pool, free, arenas', owner)
  {
    forall r, q: nat | r in arenas' && InSpan(q, r, arenas'[r]) ensures q in owner && owner[q] == r {
      assert InSpan(q, r, arenas[r]);
    }
    forall q | q in owner ensures InSpan(q, owner[q], arenas'[owner[q]]) {
      assert InSpan(q, owner[q], arenas[owner[q]]);
    }
  }

  lemma {:induction false} NotYetUnlinked(p: nat, d: nat, i: nat)
    requires d < 7 && i < Per(d)
    ensures BlockAt(p, d, i) !in BlockSet(p, d, i)
  {
    forall j: nat | j < i ensures BlockAt(p, d, j) != BlockAt(p, d, i) {
      Layout(d, j, i);
    }
  }
}
