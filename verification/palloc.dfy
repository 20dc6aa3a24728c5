/** The page pool under concurrent use (pintos/threads/palloc.c): palloc_get_multiple scans and marks bits one
    by one under the pool lock, palloc_free_multiple checks and clears bits one by one without it.

    Each step of class Pool reads or writes at most one bit of the map; any order of steps of any number of
    threads is a run. */
module Palloc {
  import opened Wrappers

  /** A range of pages. */
  datatype Range = Range(start: nat, cnt: nat)

  predicate Within(k: int, start: int, cnt: int) { start <= k < start + cnt }

  /** A thread in palloc_free_multiple: the assertion has looked at the first checked bits, and the first
      done bits have been cleared. */
  datatype Freer = Freer(range: Range, checked: nat, done: nat)

  /** The holder of the pool lock: about to look at the j-th bit of the group at i, or to mark it. */
  datatype Getter = Idle | Testing(cnt: nat, i: nat, j: nat) | Marking(cnt: nat, i: nat, j: nat)

  datatype Outcome = Running | OutOfPages

  /** Who a page belongs to: the caller of the n-th successful call, a thread that is freeing it, or the lock holder. */
  datatype Owner = Nobody | Caller(n: nat) | Freeing(thread: nat) | Getting

  ghost function Renamed(owner: seq<Owner>, from: Owner, to: Owner): (r: seq<Owner>)
    ensures |r| == |owner|
    ensures forall k {:trigger r[k]} {:trigger owner[k]} | 0 <= k < |owner| ::
              r[k] == if owner[k] == from then to else owner[k]
  {
    if owner == [] then [] else [if owner[0] == from then to else owner[0]] + Renamed(owner[1..], from, to)
  }

  // ----- the invariant --------------------------------------------------------------------

  /** The pages that a thread in palloc_free_multiple has still to clear. */
  predicate Pending(k: int, f: Freer) { Within(k, f.range.start + f.done, f.range.cnt - f.done) }

  /** A page belongs to whom the owner map says. */
  ghost predicate Belongs(o: Owner, k: int, getter: Getter, freers: map<nat, Freer>, live: map<nat, Range>) {
    match o
    case Nobody => true
    case Caller(n) => n in live && Within(k, live[n].start, live[n].cnt)
    case Freeing(f) => f in freers && Pending(k, freers[f])
    case Getting => getter.Marking? && Within(k, getter.i, getter.j)
  }

  ghost predicate Owners(owner: seq<Owner>, getter: Getter, freers: map<nat, Freer>, live: map<nat, Range>) {
    && (forall n, k {:trigger live[n], owner[k]} |
          n in live && 0 <= k < |owner| && Within(k, live[n].start, live[n].cnt) :: owner[k] == Caller(n))
    && (forall f, k {:trigger freers[f], owner[k]} | f in freers && 0 <= k < |owner| && Pending(k, freers[f]) ::
          owner[k] == Freeing(f))
    && (getter.Marking? ==> forall k {:trigger owner[k]} | 0 <= k < |owner| && Within(k, getter.i, getter.j) ::
                              owner[k] == Getting)
    && (forall k {:trigger owner[k]} | 0 <= k < |owner| :: Belongs(owner[k], k, getter, freers, live))
  }

  ghost predicate Bounds(pages: nat, getter: Getter, freers: map<nat, Freer>, live: map<nat, Range>, calls: nat) {
    && (forall n {:trigger live[n]} | n in live :: n < calls && live[n].start + live[n].cnt <= pages)
    && (forall f {:trigger freers[f]} | f in freers ::
         && freers[f].range.start + freers[f].range.cnt <= pages
         && freers[f].checked <= freers[f].range.cnt && freers[f].done <= freers[f].range.cnt
         && (freers[f].done > 0 ==> freers[f].checked == freers[f].range.cnt))
    && (getter.Idle? || (getter.j <= getter.cnt && getter.i + getter.cnt <= pages))
  }

  /** The bits the lock holder has found clear, and those it is going to set, are clear. */
  ghost predicate Window(used: seq<bool>, getter: Getter) {
    && (getter.Testing? ==> forall k | getter.i <= k < getter.i + getter.j :: 0 <= k < |used| ==> !used[k])
    && (getter.Marking? ==> forall k | getter.i + getter.j <= k < getter.i + getter.cnt :: 0 <= k < |used| ==> !used[k])
  }

  /** The bits set are exactly those of pages that belong to somebody. */
  ghost predicate PoolOk(pages: nat, used: seq<bool>, owner: seq<Owner>, getter: Getter, freers: map<nat, Freer>,
                         live: map<nat, Range>, calls: nat) {
    && |used| == |owner| == pages
    && Bounds(pages, getter, freers, live, calls) && Owners(owner, getter, freers, live) && Window(used, getter)
    && forall k {:trigger owner[k]} {:trigger used[k]} | 0 <= k < pages :: used[k] <==> owner[k] != Nobody
  }

  /** The lock holder goes on looking, gives up, or is about to mark what it has found. */
  lemma GetterMoves(pages: nat, used: seq<bool>, owner: seq<Owner>, getter: Getter, freers: map<nat, Freer>,
                    live: map<nat, Range>, calls: nat, getter': Getter)
    requires PoolOk(pages, used, owner, getter, freers, live, calls) && !getter.Marking?
    requires getter'.Idle? || (getter'.j <= getter'.cnt && getter'.i + getter'.cnt <= pages
                               && (getter'.Marking? ==> getter'.j == 0))
    requires Window(used, getter')
    ensures PoolOk(pages, used, owner, getter', freers, live, calls)
  {
  }

  /** Pages change hands all at once: from a caller to a thread that frees them, ... */
  lemma GivenBack(pages: nat, used: seq<bool>, owner: seq<Owner>, getter: Getter, freers: map<nat, Freer>,
                  live: map<nat, Range>, calls: nat, thread: nat, n: nat)
    requires PoolOk(pages, used, owner, getter, freers, live, calls) && thread !in freers && n in live
    ensures PoolOk(pages, used, Renamed(owner, Caller(n), Freeing(thread)), getter,
                   freers[thread := Freer(live[n], 0, 0)], live - {n}, calls)
  {
    var owner', freers', live' := Renamed(owner, Caller(n), Freeing(thread)), freers[thread := Freer(live[n], 0, 0)],
      live - {n};
    forall k | 0 <= k < |owner| ensures owner[k] != Freeing(thread) && Belongs(owner'[k], k, getter, freers', live') {
      assert Belongs(owner[k], k, getter, freers, live);
    }
    forall m, k | m in live' && 0 <= k < |owner| && Within(k, live'[m].start, live'[m].cnt)
      ensures owner'[k] == Caller(m)
    {
      assert live'[m] == live[m] && owner[k] == Caller(m);
    }
    forall f, k | f in freers' && 0 <= k < |owner| && Pending(k, freers'[f]) ensures owner'[k] == Freeing(f) {
      assert if f == thread then owner[k] == Caller(n) else owner[k] == Freeing(f);
    }
  }

  /** ... and from the lock holder to a caller. */
  lemma HandedOut(pages: nat, used: seq<bool>, owner: seq<Owner>, getter: Getter, freers: map<nat, Freer>,
                  live: map<nat, Range>, calls: nat)
    requires PoolOk(pages, used, owner, getter, freers, live, calls) && getter.Marking? && getter.j == getter.cnt
    ensures calls !in live
    ensures PoolOk(pages, used, Renamed(owner, Getting, Caller(calls)), Idle, freers,
                   live[calls := Range(getter.i, getter.cnt)], calls + 1)
  {
  }

  /** A page is marked by the lock holder, ... */
  lemma Marked(pages: nat, used: seq<bool>, owner: seq<Owner>, getter: Getter, freers: map<nat, Freer>,
               live: map<nat, Range>, calls: nat)
    requires PoolOk(pages, used, owner, getter, freers, live, calls) && getter.Marking? && getter.j < getter.cnt
    ensures var k := getter.i + getter.j;
            !used[k] && PoolOk(pages, used[k := true], owner[k := Getting], getter.(j := getter.j + 1), freers, live,
                               calls)
  {
    var k := getter.i + getter.j;
    assert !used[k] && owner[k] == Nobody;
  }

  /** ... and cleared by a thread that frees it. */
  lemma Cleared(pages: nat, used: seq<bool>, owner: seq<Owner>, getter: Getter, freers: map<nat, Freer>,
                live: map<nat, Range>, calls: nat, thread: nat)
    requires PoolOk(pages, used, owner, getter, freers, live, calls) && thread in freers
    requires freers[thread].checked == freers[thread].range.cnt && freers[thread].done < freers[thread].range.cnt
    ensures var f := freers[thread];
            PoolOk(pages, used[f.range.start + f.done := false], owner[f.range.start + f.done := Nobody], getter,
                   freers[thread := f.(done := f.done + 1)], live, calls)
  {
    ClearedOwner(owner, getter, freers, live, thread);
  }

  lemma ClearedOwner(owner: seq<Owner>, getter: Getter, freers: map<nat, Freer>, live: map<nat, Range>, thread: nat)
    requires Owners(owner, getter, freers, live) && thread in freers && freers[thread].done < freers[thread].range.cnt
    requires freers[thread].range.start + freers[thread].range.cnt <= |owner|
    ensures var f := freers[thread];
            Owners(owner[f.range.start + f.done := Nobody], getter, freers[thread := f.(done := f.done + 1)], live)
  {
    var f := freers[thread];
    var p, freers' := f.range.start + f.done, freers[thread := f.(done := f.done + 1)];
    assert owner[p] == Freeing(thread);
    forall g, k | g in freers' && 0 <= k < |owner| && Pending(k, freers'[g]) ensures k != p && owner[k] == Freeing(g) {
      assert Pending(k, freers[g]) && owner[k] == Freeing(g);
    }
  }

  /** A thread in palloc_free_multiple looks at a bit, which is set. */
  lemma Checked(pages: nat, used: seq<bool>, owner: seq<Owner>, getter: Getter, freers: map<nat, Freer>,
                live: map<nat, Range>, calls: nat, thread: nat)
    requires PoolOk(pages, used, owner, getter, freers, live, calls) && thread in freers
             && freers[thread].checked < freers[thread].range.cnt
    ensures used[freers[thread].range.start + freers[thread].checked]
    ensures PoolOk(pages, used, owner, getter, freers[thread := freers[thread].(checked := freers[thread].checked + 1)],
                   live, calls)
  {
    assert owner[freers[thread].range.start + freers[thread].checked] == Freeing(thread);
  }

  /** A group of free pages. */
  predicate Clear(used: seq<bool>, i: nat, cnt: nat) {
    i + cnt <= |used| && forall k | i <= k < i + cnt :: !used[k]
  }

  // ----- the pool -------------------------------------------------------------------------

  class Pool {
    const pages: nat
    var used: seq<bool>
    var getter: Getter
    var freers: map<nat, Freer>
    /** What the callers hold: the ranges handed out and not yet given back, by the number of the call. */
    var live: map<nat, Range>
    var calls: nat
    ghost var owner: seq<Owner>

    ghost predicate Valid()
      reads this
    {
      PoolOk(pages, used, owner, getter, freers, live, calls)
    }

    constructor (pages: nat)
      ensures Valid() && live == map[] && freers == map[] && getter.Idle?
    {
      this.pages := pages;
      used := seq(pages, _ => false);
      getter, freers, live, calls, owner := Idle, map[], map[], 0, seq(pages, _ => Nobody);
    }

    /** Live ranges are pairwise disjoint, and their bits are set. */
    lemma LiveRanges(m: nat, n: nat)
      requires Valid() && m in live && n in live
      ensures forall k | Within(k, live[n].start, live[n].cnt) :: 0 <= k < pages && used[k]
      ensures m != n ==> forall k | Within(k, live[n].start, live[n].cnt) :: !Within(k, live[m].start, live[m].cnt)
    {
      forall k | Within(k, live[n].start, live[n].cnt)
        ensures 0 <= k < pages && used[k] && (m != n ==> !Within(k, live[m].start, live[m].cnt))
      {
        assert owner[k] == Caller(n);
      }
    }

    /** The start of palloc_get_multiple: the lock is taken. */
    method GetStart(cnt: nat) returns (outcome: Outcome)
      requires Valid() && getter.Idle?
      modifies this
      ensures Valid() && live == old(live) && used == old(used) && freers == old(freers) && calls == old(calls)
      ensures outcome == (if cnt <= pages then Running else OutOfPages)
              && getter == (if cnt <= pages then Testing(cnt, 0, 0) else Idle)
    {
      if cnt <= pages {
        GetterMoves(pages, used, owner, getter, freers, live, calls, Testing(cnt, 0, 0));
        getter := Testing(cnt, 0, 0);
        return Running;
      }
      return OutOfPages;
    }

    /** bitmap_contains looks at one bit of the group at i; bitmap_scan moves on to the next group, or gives up. */
    method TestStep() returns (outcome: Outcome)
      requires Valid() && getter.Testing?
      modifies this
      ensures Valid() && freers == old(freers) && live == old(live) && used == old(used) && calls == old(calls)
      ensures outcome == if getter.Idle? then OutOfPages else Running
      ensures var Testing(cnt, i, j) := old(getter);
              getter == if j == cnt then Marking(cnt, i, 0) else if !used[i + j] then Testing(cnt, i, j + 1)
                        else if i + 1 <= pages - cnt then Testing(cnt, i + 1, 0) else Idle
      ensures getter.Idle? ==> old(getter.j) < old(getter.cnt) && old(getter.i) + old(getter.cnt) == pages
                               && used[old(getter.i + getter.j)]
    {
      outcome := Running;
      var Testing(cnt, i, j) := getter;
      var next := Idle;
      if j == cnt {
        next := Marking(cnt, i, 0);
      } else if !used[i + j] {
        next := Testing(cnt, i, j + 1);
      } else if i + 1 <= pages - cnt {
        next := Testing(cnt, i + 1, 0);
      } else {
        outcome := OutOfPages;
      }
      GetterMoves(pages, used, owner, getter, freers, live, calls, next);
      getter := next;
    }

    /** bitmap_set_multiple marks one bit of the group found. */
    method MarkStep()
      requires Valid() && getter.Marking? && getter.j < getter.cnt
      modifies this
      ensures Valid() && freers == old(freers) && live == old(live) && calls == old(calls)
      ensures used == old(used)[old(getter.i + getter.j) := true] && !old(used)[old(getter.i + getter.j)]
      ensures getter == old(getter).(j := old(getter).j + 1)
    {
      Marked(pages, used, owner, getter, freers, live, calls);
      var Marking(cnt, i, j) := getter;
      used, owner, getter := used[i + j := true], owner[i + j := Getting], Marking(cnt, i, j + 1);
    }

    /** The group is marked: the lock is released and the pages are the caller's. */
    method GetDone() returns (range: Range)
      requires Valid() && getter.Marking? && getter.j == getter.cnt
      modifies this
      ensures Valid() && freers == old(freers) && getter.Idle? && used == old(used)
      ensures range == Range(old(getter.i), old(getter.cnt))
      ensures old(calls) !in old(live) && live == old(live)[old(calls) := range]
    {
      HandedOut(pages, used, owner, getter, freers, live, calls);
      range := Range(getter.i, getter.cnt);
      owner := Renamed(owner, Getting, Caller(calls));
      getter, live, calls := Idle, live[calls := range], calls + 1;
    }

    /** A caller gives its range back: the start of palloc_free_multiple in some thread. */
    method FreeStart(thread: nat, pages_: nat, cnt: nat, n: nat)
      requires Valid() && thread !in freers && n in live && live[n] == Range(pages_, cnt)
      modifies this
      ensures Valid() && live == old(live) - {n} && used == old(used) && getter == old(getter)
      ensures freers == old(freers)[thread := Freer(Range(pages_, cnt), 0, 0)]
    {
      GivenBack(pages, used, owner, getter, freers, live, calls, thread, n);
      owner := Renamed(owner, Caller(n), Freeing(thread));
      freers, live := freers[thread := Freer(Range(pages_, cnt), 0, 0)], live - {n};
    }

    /** The assertion of palloc_free_multiple looks at one bit, with no lock held: the bit is set. */
    method CheckStep(thread: nat)
      requires Valid() && thread in freers && freers[thread].checked < freers[thread].range.cnt
      modifies this
      ensures Valid() && live == old(live) && getter == old(getter) && used == old(used)
      ensures old(used[freers[thread].range.start + freers[thread].checked])
      ensures freers == old(freers)[thread := old(freers)[thread].(checked := old(freers)[thread].checked + 1)]
    {
      Checked(pages, used, owner, getter, freers, live, calls, thread);
      freers := freers[thread := freers[thread].(checked := freers[thread].checked + 1)];
    }

    /** bitmap_set_multiple clears one bit, with no lock held. */
    method ClearStep(thread: nat)
      requires Valid() && thread in freers && freers[thread].checked == freers[thread].range.cnt
               && freers[thread].done < freers[thread].range.cnt
      modifies this
      ensures Valid() && live == old(live) && getter == old(getter)
      ensures used == old(used)[old(freers[thread].range.start + freers[thread].done) := false]
      ensures freers == old(freers)[thread := old(freers)[thread].(done := old(freers)[thread].done + 1)]
    {
      Cleared(pages, used, owner, getter, freers, live, calls, thread);
      var f := freers[thread];
      var p := f.range.start + f.done;
      used, owner, freers := used[p := false], owner[p := Nobody], freers[thread := f.(done := f.done + 1)];
    }

    method FreeDone(thread: nat)
      requires Valid() && thread in freers && freers[thread].done == freers[thread].range.cnt
      modifies this
      ensures Valid() && live == old(live) && getter == old(getter) && used == old(used)
              && freers == old(freers) - {thread}
    {
      freers := freers - {thread};
    }

    /** palloc_get_multiple while nobody else frees: it takes the lowest group of cnt free pages, and fails exactly when
        there is none. */
    method GetAlone(cnt: nat) returns (range: Option<Range>)
      requires Valid() && getter.Idle?
      modifies this
      ensures Valid() && getter.Idle? && freers == old(freers)
      ensures range.None? <==> forall i: nat :: !Clear(old(used), i, cnt)
      ensures range.None? ==> used == old(used) && live == old(live)
      ensures range.Some? ==> && range.value.cnt == cnt && Clear(old(used), range.value.start, cnt)
                              && (forall i | 0 <= i < range.value.start :: !Clear(old(used), i, cnt))
                              && live == old(live)[old(calls) := range.value] && |used| == |old(used)|
                              && forall k | 0 <= k < |used| ::
                                   used[k] == (old(used)[k] || Within(k, range.value.start, cnt))
    {
      var outcome := GetStart(cnt);
      if outcome.OutOfPages? {
        return None;
      }
      outcome := Scan(cnt);
      if outcome.OutOfPages? {
        return None;
      }
      MarkAll();
      var r := GetDone();
      range := Some(r);
    }

    /** The scan. */
    method Scan(cnt: nat) returns (outcome: Outcome)
      requires Valid() && getter == Testing(cnt, 0, 0)
      modifies this
      ensures Valid() && used == old(used) && live == old(live) && freers == old(freers) && calls == old(calls)
      ensures outcome.OutOfPages? ==> getter.Idle? && forall i: nat :: !Clear(used, i, cnt)
      ensures outcome.Running? ==> && getter.Marking? && getter.cnt == cnt && getter.j == 0
                                   && Clear(used, getter.i, cnt) && forall i | 0 <= i < getter.i :: !Clear(used, i, cnt)
    {
      outcome := Running;
      while getter.Testing?
        invariant Valid() && used == old(used) && live == old(live) && freers == old(freers) && calls == old(calls)
        invariant outcome == if getter.Idle? then OutOfPages else Running
        invariant !getter.Idle? ==> getter.cnt == cnt && forall i | 0 <= i < getter.i :: !Clear(used, i, cnt)
        invariant getter.Testing? ==> forall k | getter.i <= k < getter.i + getter.j :: 0 <= k < |used| && !used[k]
        invariant getter.Marking? ==> getter.j == 0 && Clear(used, getter.i, cnt)
        invariant getter.Idle? ==> forall i: nat :: !Clear(used, i, cnt)
        decreases if getter.Testing? then 1 + pages - getter.i else 0, if getter.Testing? then cnt - getter.j else 0
      {
        outcome := TestStep();
      }
    }

    /** Marks the whole group. */
    method MarkAll()
      requires Valid() && getter.Marking? && getter.j == 0
      modifies this
      ensures Valid() && live == old(live) && freers == old(freers) && calls == old(calls) && |used| == |old(used)|
      ensures getter == Marking(old(getter.cnt), old(getter.i), old(getter.cnt))
      ensures forall k | 0 <= k < |used| :: used[k] == (old(used)[k] || Within(k, old(getter.i), old(getter.cnt)))
    {
      while getter.j < getter.cnt
        invariant Valid() && live == old(live) && freers == old(freers) && calls == old(calls) && |used| == |old(used)|
        invariant getter.Marking? && getter.j <= getter.cnt
        invariant getter == Marking(old(getter.cnt), old(getter.i), getter.j)
        invariant forall k | 0 <= k < |used| :: used[k] == (old(used)[k] || Within(k, old(getter.i), getter.j))
        decreases getter.cnt - getter.j
      {
        MarkStep();
      }
    }

    /** Any schedule of any threads' steps keeps the invariant: in every interleaving the ranges handed out are
        disjoint, their bits are set, and no assertion fails. */
    method Run(schedule: seq<Step>)
      requires Valid()
      modifies this
      ensures Valid()
    {
      for t := 0 to |schedule|
        invariant Valid()
      {
        match schedule[t] {
          case Get(cnt) =>
            if getter.Idle? { var _ := GetStart(cnt); }
          case LockHolder =>
            if getter.Testing? { var _ := TestStep(); }
            else if getter.Marking? && getter.j < getter.cnt { MarkStep(); }
            else if getter.Marking? { var _ := GetDone(); }
          case Free(thread, range, n) =>
            if thread !in freers && n in live && live[n] == range { FreeStart(thread, range.start, range.cnt, n); }
          case FreeOne(thread) =>
            if thread in freers {
              if freers[thread].checked < freers[thread].range.cnt { CheckStep(thread); }
              else if freers[thread].done < freers[thread].range.cnt { ClearStep(thread); }
              else { FreeDone(thread); }
            }
        }
      }
    }
  }

  datatype Step = Get(cnt: nat) | LockHolder | Free(thread: nat, range: Range, n: nat) | FreeOne(thread: nat)
}
