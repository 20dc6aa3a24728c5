/** Nested priority donation (pintos/threads/synch.c, thread.c).

    The donation block of lock_acquire, passing the semaphore, the end of lock_acquire, lock_try_acquire,
    lock_release and thread_set_priority are one atomic step each. Threads and locks are numbered. */
module Donation {
  import opened Orderings
  import opened Wrappers

  /** The fields of struct thread that donation uses. */
  datatype Thread = Thread(base: int, priority: int, donors: seq<nat>, waiting: Option<nat>)

  type Threads = map<nat, Thread>

  /** Each lock's holder. */
  type Holders = map<nat, Option<nat>>

  // ----- the invariants ------------------------------------------------------------------

  ghost predicate Closed(ts: Threads, hs: Holders) {
    && (forall t {:trigger ts[t]} | t in ts :: ts[t].waiting.Some? ==> ts[t].waiting.value in hs)
    && (forall l {:trigger hs[l]} | l in hs :: hs[l].Some? ==> hs[l].value in ts)
  }

  /** A thread listed in h's donation list is there once and waits for a lock that h holds. */
  ghost predicate Listed(ts: Threads, hs: Holders) {
    forall h {:trigger ts[h]} | h in ts ::
      Distinct(ts[h].donors)
      && forall d {:trigger d in ts[h].donors} | d in ts[h].donors ::
           d in ts && ts[d].waiting.Some? && ts[d].waiting.value in hs && hs[ts[d].waiting.value] == Some(h)
  }

  ghost predicate AtLeastDonors(ts: Threads, h: nat)
    requires h in ts
  {
    && ts[h].priority >= ts[h].base
    && forall d {:trigger d in ts[h].donors} | d in ts[h].donors && d in ts :: ts[d].priority <= ts[h].priority
  }

  /** Every priority is at least the thread's base and every listed donor's. */
  ghost predicate Donated(ts: Threads) {
    forall h {:trigger AtLeastDonors(ts, h)} | h in ts :: AtLeastDonors(ts, h)
  }

  /** A priority is exactly the maximum of the base and the listed donors'. */
  ghost predicate Exact(ts: Threads, h: nat)
    requires h in ts
  {
    AtLeastDonors(ts, h) && (ts[h].priority == ts[h].base
                             || exists d :: d in ts[h].donors && d in ts && ts[d].priority == ts[h].priority)
  }

  // ----- the chain of holders ------------------------------------------------------------

  /** The holder of the lock that h waits for. */
  function NextHolder(ts: Threads, hs: Holders, h: nat): Option<nat> {
    if h in ts && ts[h].waiting.Some? && ts[h].waiting.value in hs then hs[ts[h].waiting.value] else None
  }

  /** The k-th holder up the chain from lock l, counting from 0. */
  function HolderAt(ts: Threads, hs: Holders, l: nat, k: nat): Option<nat>
    requires l in hs
  {
    if k == 0 then hs[l]
    else
      var h := HolderAt(ts, hs, l, k - 1);
      if h.None? then None else NextHolder(ts, hs, h.value)
  }

  function Raise(ts: Threads, h: nat, p: int): Threads {
    if h in ts && ts[h].priority < p then ts[h := ts[h].(priority := p)] else ts
  }

  /** The first k holders raised to at least p. */
  function Raised(ts: Threads, hs: Holders, l: nat, p: int, k: nat): Threads
    requires l in hs
  {
    if k == 0 then ts
    else
      var before := Raised(ts, hs, l, p, k - 1);
      var h := HolderAt(ts, hs, l, k - 1);
      if h.None? then before else Raise(before, h.value, p)
  }

  /** The first k holders up the chain. */
  ghost function Visited(ts: Threads, hs: Holders, l: nat, k: nat): set<nat>
    requires l in hs
  {
    if k == 0 then {}
    else
      var h := HolderAt(ts, hs, l, k - 1);
      Visited(ts, hs, l, k - 1) + (if h.None? then {} else {h.value})
  }

  /** Whom a visited thread waits for is visited too, unless the walk stopped there. */
  lemma {:induction false} VisitedNext(ts: Threads, hs: Holders, l: nat, k: nat, d: nat, h: nat)
    requires l in hs && d in Visited(ts, hs, l, k) && NextHolder(ts, hs, d) == Some(h)
    ensures h in Visited(ts, hs, l, k) || (HolderAt(ts, hs, l, k - 1) == Some(d) && HolderAt(ts, hs, l, k) == Some(h))
  {
    if HolderAt(ts, hs, l, k - 1) == Some(d) {
      assert HolderAt(ts, hs, l, k) == Some(h);
    } else {
      VisitedNext(ts, hs, l, k - 1, d, h);
    }
  }

  /** Raising changes the priorities of the holders on the way and nothing else. */
  lemma {:induction false} RaisedIs(ts: Threads, hs: Holders, l: nat, p: int, k: nat)
    requires l in hs
    ensures var ts' := Raised(ts, hs, l, p, k);
            && ts'.Keys == ts.Keys
            && forall t {:trigger ts'[t]} {:trigger ts[t]} | t in ts ::
                 ts'[t] == if t in Visited(ts, hs, l, k) && ts[t].priority < p then ts[t].(priority := p) else ts[t]
  {
    if k > 0 {
      RaisedIs(ts, hs, l, p, k - 1);
    }
  }

  /** The chain ends where it ends. */
  lemma {:induction false} ChainEnded(ts: Threads, hs: Holders, l: nat, p: int, k: nat, n: nat)
    requires l in hs && k <= n && HolderAt(ts, hs, l, k).None?
    ensures HolderAt(ts, hs, l, n).None? && Raised(ts, hs, l, p, n) == Raised(ts, hs, l, p, k)
    decreases n
  {
    if k < n {
      ChainEnded(ts, hs, l, p, k, n - 1);
    }
  }

  // ----- acquiring ---------------------------------------------------------------------------

  function Higher(ts: Threads): (nat, nat) -> bool {
    (a, b) => a in ts && b in ts && ts[a].priority > ts[b].priority
  }

  /** c waits for l: it is put on the holder's list, and l becomes its waiting_lock. */
  function Enqueued(ts: Threads, h: nat, c: nat, l: nat): Threads
    requires h in ts && c in ts
  {
    var ts1 := ts[h := ts[h].(donors := InsertOrdered(ts[h].donors, c, Higher(ts)))];
    ts1[c := ts1[c].(waiting := Some(l))]
  }

  /** The donation block of lock_acquire. */
  function Donate(ts: Threads, hs: Holders, c: nat, l: nat): Threads
    requires c in ts && l in hs && Closed(ts, hs)
  {
    if hs[l].None? then ts else Raised(Enqueued(ts, hs[l].value, c, l), hs, l, ts[c].priority, 8)
  }

  /** A thread that enters lock_acquire waits for nothing, and does not hold the lock. */
  ghost predicate MayAcquire(ts: Threads, hs: Holders, c: nat, l: nat) {
    c in ts && l in hs && ts[c].waiting.None? && hs[l] != Some(c)
  }

  /** Only h's list and c's waiting_lock change. */
  lemma EnqueuedIs(ts: Threads, h: nat, c: nat, l: nat)
    requires h in ts && c in ts && c != h && Distinct(ts[h].donors) && c !in ts[h].donors
    ensures var ts' := Enqueued(ts, h, c, l);
            && ts'.Keys == ts.Keys && ts'[c].waiting == Some(l) && Distinct(ts'[h].donors)
            && (forall t | t in ts :: ts'[t].base == ts[t].base && ts'[t].priority == ts[t].priority)
            && (forall t | t in ts && t != c :: ts'[t].waiting == ts[t].waiting)
            && (forall t | t in ts && t != h :: ts'[t].donors == ts[t].donors)
            && (forall d :: d in ts'[h].donors <==> d == c || d in ts[h].donors)
  {
    InsertOrderedDistinct(ts[h].donors, c, Higher(ts));
  }

  lemma EnqueuedListed(ts: Threads, hs: Holders, c: nat, l: nat)
    requires Closed(ts, hs) && Listed(ts, hs) && MayAcquire(ts, hs, c, l) && hs[l].Some?
    ensures var ts' := Enqueued(ts, hs[l].value, c, l); Closed(ts', hs) && Listed(ts', hs)
  {
    var h := hs[l].value;
    EnqueuedIs(ts, h, c, l);
    ListedAfter(ts, hs, Enqueued(ts, h, c, l), h, c, l);
  }

  lemma ListedAfter(ts: Threads, hs: Holders, ts': Threads, h: nat, c: nat, l: nat)
    requires Closed(ts, hs) && Listed(ts, hs) && MayAcquire(ts, hs, c, l) && hs[l] == Some(h)
    requires ts'.Keys == ts.Keys && ts'[c].waiting == Some(l) && Distinct(ts'[h].donors)
    requires forall t | t in ts && t != c :: ts'[t].waiting == ts[t].waiting
    requires forall t | t in ts && t != h :: ts'[t].donors == ts[t].donors
    requires forall d :: d in ts'[h].donors <==> d == c || d in ts[h].donors
    ensures Closed(ts', hs) && Listed(ts', hs)
  {
    forall t | t in ts' ensures Distinct(ts'[t].donors) { assert t != h ==> Distinct(ts[t].donors); }
    forall t, d | t in ts' && d in ts'[t].donors
      ensures d in ts' && ts'[d].waiting.Some? && ts'[d].waiting.value in hs && hs[ts'[d].waiting.value] == Some(t)
    {
      if d == c {
        assert t == h;
      } else {
        assert d in ts[t].donors;
      }
    }
  }

  /** In a chain whose first n holders are raised to p: the next holder lists the last of them, is none of
      them, and has a lower priority than p. */
  ghost predicate Cut(ts: Threads, hs: Holders, l: nat, p: int, n: nat)
    requires l in hs && n > 0
  {
    var last, next := HolderAt(ts, hs, l, n - 1), HolderAt(ts, hs, l, n);
    next.Some? && next.value in ts && last.value in ts[next.value].donors && ts[next.value].priority < p
      && next.value !in Visited(ts, hs, l, n)
  }

  /** Edges of the donation lists other than the new one from c to first respect the priorities. */
  ghost predicate DonatedBut(ts: Threads, first: nat, c: nat) {
    forall h {:trigger ts[h]} | h in ts ::
      && ts[h].priority >= ts[h].base
      && forall d {:trigger d in ts[h].donors} | d in ts[h].donors && d in ts && !(h == first && d == c) ::
           ts[d].priority <= ts[h].priority
  }

  lemma RaisedListed(ts: Threads, hs: Holders, l: nat, p: int, n: nat)
    requires Closed(ts, hs) && Listed(ts, hs) && l in hs
    ensures Closed(Raised(ts, hs, l, p, n), hs) && Listed(Raised(ts, hs, l, p, n), hs)
  {
    var ts' := Raised(ts, hs, l, p, n);
    RaisedIs(ts, hs, l, p, n);
    forall t | t in ts ensures ts'[t].waiting == ts[t].waiting && ts'[t].donors == ts[t].donors {}
    forall h, d | h in ts' && d in ts'[h].donors
      ensures d in ts' && ts'[d].waiting.Some? && ts'[d].waiting.value in hs && hs[ts'[d].waiting.value] == Some(h)
    {
      assert d in ts[h].donors && d in ts;
    }
  }

  lemma RaisedEdge(ts: Threads, hs: Holders, l: nat, p: int, first: nat, c: nat, n: nat, h: nat, d: nat)
    requires Closed(ts, hs) && Listed(ts, hs) && l in hs && hs[l] == Some(first) && n > 0
    requires c in ts && ts[c].priority == p && DonatedBut(ts, first, c)
    requires h in ts && d in ts[h].donors
    ensures d in ts && h in Raised(ts, hs, l, p, n) && d in Raised(ts, hs, l, p, n)
    ensures Raised(ts, hs, l, p, n)[d].priority <= Raised(ts, hs, l, p, n)[h].priority
            || (ts[h].priority < p && h !in Visited(ts, hs, l, n) && HolderAt(ts, hs, l, n - 1) == Some(d)
                && HolderAt(ts, hs, l, n) == Some(h))
  {
    RaisedIs(ts, hs, l, p, n);
    assert ts[d].waiting.Some?;
    FirstVisited(ts, hs, l, first, n);
    if d in Visited(ts, hs, l, n) {
      VisitedNext(ts, hs, l, n, d, h);
    }
  }

  lemma {:induction false} FirstVisited(ts: Threads, hs: Holders, l: nat, first: nat, n: nat)
    requires l in hs && hs[l] == Some(first) && n > 0
    ensures first in Visited(ts, hs, l, n)
  {
    if n > 1 {
      FirstVisited(ts, hs, l, first, n - 1);
    } else {
      assert HolderAt(ts, hs, l, 0) == Some(first);
    }
  }

  /** Raising the first n holders makes all priorities at least the donors' again, unless the walk is cut off. */
  lemma RaisedDonated(ts: Threads, hs: Holders, l: nat, p: int, first: nat, c: nat, n: nat)
    requires Closed(ts, hs) && Listed(ts, hs) && l in hs && hs[l] == Some(first) && n > 0
    requires c in ts && ts[c].priority == p && DonatedBut(ts, first, c)
    ensures Donated(Raised(ts, hs, l, p, n)) <==> !Cut(ts, hs, l, p, n)
  {
    var ts' := Raised(ts, hs, l, p, n);
    RaisedIs(ts, hs, l, p, n);
    if Cut(ts, hs, l, p, n) {
      var last, next := HolderAt(ts, hs, l, n - 1).value, HolderAt(ts, hs, l, n).value;
      assert last in Visited(ts, hs, l, n) && last in ts;
      assert last in ts'[next].donors && ts'[last].priority >= p && ts'[next].priority < p;
      assert !AtLeastDonors(ts', next);
    } else {
      forall h | h in ts' ensures AtLeastDonors(ts', h) {
        forall d | d in ts'[h].donors && d in ts' ensures ts'[d].priority <= ts'[h].priority {
          RaisedEdge(ts, hs, l, p, first, c, n, h, d);
        }
      }
    }
  }

  /** The walk cannot reach a ninth holder that needs raising. */
  ghost predicate CutOff(ts: Threads, hs: Holders, c: nat, l: nat)
    requires c in ts && l in hs && Closed(ts, hs)
  {
    hs[l].Some? && Cut(Enqueued(ts, hs[l].value, c, l), hs, l, ts[c].priority, 8)
  }

  /** The donation block always keeps the lists in order. It keeps every priority at least the listed donors' if
      and only if there is no ninth holder up the chain that lists the eighth, is none of the first eight, and
      has a lower priority than the acquiring thread. */
  lemma DonateKeeps(ts: Threads, hs: Holders, c: nat, l: nat)
    requires Closed(ts, hs) && Listed(ts, hs) && Donated(ts) && MayAcquire(ts, hs, c, l)
    ensures Closed(Donate(ts, hs, c, l), hs) && Listed(Donate(ts, hs, c, l), hs)
    ensures Donated(Donate(ts, hs, c, l)) <==> !CutOff(ts, hs, c, l)
  {
    if hs[l].Some? {
      var h := hs[l].value;
      EnqueuedIs(ts, h, c, l);
      EnqueuedListed(ts, hs, c, l);
      var ts1 := Enqueued(ts, h, c, l);
      RaisedListed(ts1, hs, l, ts[c].priority, 8);
      assert DonatedBut(ts1, h, c) by {
        forall t | t in ts ensures AtLeastDonors(ts, t) {}
      }
      RaisedDonated(ts1, hs, l, ts[c].priority, h, c, 8);
    }
  }

  /** Chains of at most 8 holders are never cut off. */
  lemma ShortChain(ts: Threads, hs: Holders, c: nat, l: nat)
    requires Closed(ts, hs) && MayAcquire(ts, hs, c, l)
    requires hs[l].Some? ==> HolderAt(Enqueued(ts, hs[l].value, c, l), hs, l, 8).None?
    ensures !CutOff(ts, hs, c, l)
  {
  }

  /** Thread k of a row of n threads, each of which (but the last) waits for the lock that the next one holds. */
  function InRow(k: nat, n: nat): Thread {
    Thread(0, if k == 0 then 1 else 0, if k >= 2 then [k - 1] else [], if 1 <= k < n then Some(k + 1) else None)
  }

  function Row(m: nat, n: nat): (ts: Threads)
    ensures forall k: nat :: k in ts <==> k <= m
    ensures forall k | k in ts :: ts[k] == InRow(k, n)
  {
    if m == 0 then map[0 := InRow(0, n)] else Row(m - 1, n)[m := InRow(m, n)]
  }

  function RowLocks(n: nat): (hs: Holders)
    ensures forall l: nat :: l in hs <==> 1 <= l <= n
    ensures forall l | l in hs :: hs[l] == Some(l)
  {
    if n == 0 then map[] else RowLocks(n - 1)[n := Some(n)]
  }

  ghost predicate IsRow(ts: Threads, hs: Holders, n: nat) {
    && (forall k: nat :: k in ts ==> k <= n)
    && (forall k {:trigger InRow(k, n)} | 0 <= k <= n :: k in ts && ts[k] == InRow(k, n))
    && (forall l: nat :: l in hs <==> 1 <= l <= n)
    && (forall l {:trigger hs[l]} | l in hs :: hs[l] == Some(l))
  }

  lemma {:induction false} RowChain(ts: Threads, hs: Holders, n: nat, k: nat)
    requires k < n && (forall l | 1 <= l <= n :: l in hs && hs[l] == Some(l))
    requires forall j | 1 <= j < n :: j in ts && ts[j].waiting == Some(j + 1)
    ensures HolderAt(ts, hs, 1, k) == Some(k + 1) && forall t | t in Visited(ts, hs, 1, k) :: t <= k
  {
    if k > 0 {
      RowChain(ts, hs, n, k - 1);
      assert ts[k].waiting == Some(k + 1);
    }
  }

  lemma RowOk(ts: Threads, hs: Holders, n: nat)
    requires n >= 2 && IsRow(ts, hs, n)
    ensures Closed(ts, hs) && Listed(ts, hs) && Donated(ts) && MayAcquire(ts, hs, 0, 1)
  {
    forall t | t in ts ensures ts[t].waiting.Some? ==> ts[t].waiting.value in hs { var r := InRow(t, n); }
    forall h | h in ts
      ensures Distinct(ts[h].donors) && AtLeastDonors(ts, h)
      ensures forall d {:trigger d in ts[h].donors} | d in ts[h].donors ::
                d in ts && ts[d].waiting.Some? && ts[d].waiting.value in hs && hs[ts[d].waiting.value] == Some(h)
    {
      var r := InRow(h, n);
      if h >= 2 {
        var q := InRow(h - 1, n);
      }
    }
    var r := InRow(0, n);
    forall l | l in hs ensures hs[l].Some? ==> hs[l].value in ts { var q := InRow(l, n); }
  }

  lemma RowEnd(ts: Threads, hs: Holders, n: nat)
    requires n >= 2 && forall l | 1 <= l <= n :: l in hs && hs[l] == Some(l)
    requires forall j | 1 <= j < n :: j in ts && ts[j].waiting == Some(j + 1)
    requires n in ts && n - 1 in ts[n].donors && ts[n].priority == 0
    ensures 1 in hs && Cut(ts, hs, 1, 1, n - 1)
  {
    RowChain(ts, hs, n, n - 2);
    RowChain(ts, hs, n, n - 1);
  }

  lemma RowCut(ts: Threads, hs: Holders, n: nat)
    requires n >= 3 && IsRow(ts, hs, n)
    ensures 0 in ts && 1 in ts && ts[0].priority == 1 && 1 in hs && hs[1] == Some(1)
    ensures Cut(Enqueued(ts, 1, 0, 1), hs, 1, 1, n - 1)
  {
    var first, zeroth, last := InRow(1, n), InRow(0, n), InRow(n, n);
    var ts1 := Enqueued(ts, 1, 0, 1);
    forall j | 1 <= j < n ensures j in ts1 && ts1[j].waiting == Some(j + 1) {
      var r := InRow(j, n);
    }
    assert ts1[n] == last;
    RowEnd(ts1, hs, n);
  }

  lemma RowExists(n: nat)
    ensures IsRow(Row(n, n), RowLocks(n), n)
  {
  }

  /** Nine threads in a row (there is such a state, by RowExists): thread 0 comes along, and the ninth holder is
      left with a lower priority than its donor. */
  lemma {:induction false} NineHolders(ts: Threads, hs: Holders, n: nat)
    requires n == 9 && IsRow(ts, hs, n)
    ensures Closed(ts, hs) && Listed(ts, hs) && Donated(ts) && MayAcquire(ts, hs, 0, 1)
            && !Donated(Donate(ts, hs, 0, 1))
  {
    RowOk(ts, hs, n);
    RowCut(ts, hs, n);
    DonateKeeps(ts, hs, 0, 1);
  }

  // ----- refreshing a priority ---------------------------------------------------------------

  /** refresh_priority. */
  function Refresh(ts: Threads, t: nat): Threads
    requires t in ts
  {
    var sorted := SortedBy(ts[t].donors, Higher(ts));
    var p :=
      if sorted != [] && sorted[0] in ts && ts[sorted[0]].priority > ts[t].base then ts[sorted[0]].priority
      else ts[t].base;
    ts[t := ts[t].(donors := sorted, priority := p)]
  }

  /** A refreshed priority is exactly the maximum. (A thread never donates to itself.) */
  lemma RefreshIs(ts: Threads, t: nat)
    requires t in ts && Distinct(ts[t].donors) && (forall d | d in ts[t].donors :: d in ts) && t !in ts[t].donors
    ensures var ts' := Refresh(ts, t);
            && ts'.Keys == ts.Keys && (forall u | u in ts && u != t :: ts'[u] == ts[u])
            && ts'[t].base == ts[t].base && ts'[t].waiting == ts[t].waiting
            && Distinct(ts'[t].donors) && (forall d :: d in ts'[t].donors <==> d in ts[t].donors)
            && Exact(ts', t)
  {
    var less := Higher(ts);
    var sorted := SortedBy(ts[t].donors, less);
    SortedByIs(ts[t].donors, less, sorted);
    assert forall d :: d in sorted <==> d in Elements(sorted);
    var ts' := Refresh(ts, t);
    assert sorted != [] ==> sorted[0] in sorted && sorted[0] in ts;
    forall d | d in sorted ensures ts[d].priority <= ts[sorted[0]].priority {
      var i :| 0 <= i < |sorted| && sorted[i] == d;
      assert i > 0 ==> !less(sorted[i], sorted[0]);
    }
  }

  // ----- releasing -----------------------------------------------------------------------------

  /** The donors that wait for something other than l. */
  function NotWaiting(donors: seq<nat>, ts: Threads, l: nat): (r: seq<nat>)
    ensures forall d :: d in r <==> d in donors && !(d in ts && ts[d].waiting == Some(l))
  {
    if donors == [] then []
    else
      var rest := NotWaiting(donors[1..], ts, l);
      if donors[0] in ts && ts[donors[0]].waiting == Some(l) then rest else [donors[0]] + rest
  }

  lemma {:induction false} NotWaitingDistinct(donors: seq<nat>, ts: Threads, l: nat)
    requires Distinct(donors)
    ensures Distinct(NotWaiting(donors, ts, l))
  {
    if donors != [] {
      NotWaitingDistinct(donors[1..], ts, l);
      assert donors[0] !in donors[1..];
    }
  }

  lemma {:induction false} NotWaitingWithout(donors: seq<nat>, ts: Threads, l: nat, i: nat)
    requires i < |donors| && donors[i] in ts && ts[donors[i]].waiting == Some(l)
    ensures NotWaiting(donors[..i] + donors[i + 1..], ts, l) == NotWaiting(donors, ts, l)
  {
    if i == 0 {
      assert donors[..0] + donors[1..] == donors[1..];
    } else {
      NotWaitingWithout(donors[1..], ts, l, i - 1);
      assert (donors[..i] + donors[i + 1..])[1..] == donors[1..][..i - 1] + donors[1..][i..];
    }
  }

  lemma {:induction false} NotWaitingAll(donors: seq<nat>, ts: Threads, l: nat)
    requires forall d | d in donors :: !(d in ts && ts[d].waiting == Some(l))
    ensures NotWaiting(donors, ts, l) == donors
  {
    if donors != [] {
      NotWaitingAll(donors[1..], ts, l);
      assert donors[0] in donors;
    }
  }

  function Dropped(ts: Threads, c: nat, l: nat): Threads
    requires c in ts
  {
    ts[c := ts[c].(donors := NotWaiting(ts[c].donors, ts, l))]
  }

  /** A thread that waits for nothing may lose donors, and give up locks that no other donor of its waits for. */
  lemma ListedAgain(ts: Threads, hs: Holders, ts': Threads, hs': Holders, c: nat)
    requires Closed(ts, hs) && Listed(ts, hs) && c in ts && ts[c].waiting.None?
    requires ts'.Keys == ts.Keys && hs'.Keys == hs.Keys && ts'[c].waiting.None?
             && forall t | t in ts && t != c :: ts'[t] == ts[t]
    requires Distinct(ts'[c].donors) && forall d | d in ts'[c].donors :: d in ts[c].donors
    requires forall l | l in hs && hs'[l] != hs[l] ::
               hs[l] == Some(c) && hs'[l].None? && forall d | d in ts'[c].donors && d in ts :: ts[d].waiting != Some(l)
    ensures Closed(ts', hs') && Listed(ts', hs')
  {
    forall h, d | h in ts' && d in ts'[h].donors
      ensures d in ts' && ts'[d].waiting.Some? && ts'[d].waiting.value in hs' && hs'[ts'[d].waiting.value] == Some(h)
    {
      assert d in ts[h].donors;
    }
  }

  /** Nobody's donor has changed. */
  lemma DonatedAgain(ts: Threads, hs: Holders, ts': Threads, c: nat)
    requires Listed(ts, hs) && c in ts && ts[c].waiting.None?
    requires ts'.Keys == ts.Keys && (forall t | t in ts && t != c :: ts'[t] == ts[t]) && AtLeastDonors(ts', c)
    ensures Donated(ts) ==> Donated(ts')
  {
    forall h | h in ts && Donated(ts) ensures AtLeastDonors(ts', h) {
      assert AtLeastDonors(ts, h);
      assert c !in ts[h].donors;
    }
  }

  /** After a release the lists are in order, the other priorities still suffice, and the caller's is exact. */
  lemma ReleaseKeeps(ts: Threads, hs: Holders, c: nat, l: nat)
    requires Closed(ts, hs) && Listed(ts, hs) && c in ts && l in hs && ts[c].waiting.None? && hs[l] == Some(c)
    ensures var ts', hs' := Refresh(Dropped(ts, c, l), c), hs[l := None];
            && Closed(ts', hs') && Listed(ts', hs') && c in ts' && Exact(ts', c) && (Donated(ts) ==> Donated(ts'))
            && ts'.Keys == ts.Keys && forall t | t in ts && t != c :: ts'[t] == ts[t]
  {
    var ts1 := Dropped(ts, c, l);
    NotWaitingDistinct(ts[c].donors, ts, l);
    assert c !in ts[c].donors;
    RefreshIs(ts1, c);
    ListedAgain(ts, hs, Refresh(ts1, c), hs[l := None], c);
    DonatedAgain(ts, hs, Refresh(ts1, c), c);
  }

  /** Setting a base priority. */
  lemma SetPriorityKeeps(ts: Threads, hs: Holders, c: nat, p: int)
    requires Closed(ts, hs) && Listed(ts, hs) && c in ts && ts[c].waiting.None?
    ensures var ts' := Refresh(ts[c := ts[c].(base := p)], c);
            && Closed(ts', hs) && Listed(ts', hs) && c in ts' && ts'[c].base == p && Exact(ts', c)
            && (Donated(ts) ==> Donated(ts'))
            && ts'.Keys == ts.Keys && forall t | t in ts && t != c :: ts'[t] == ts[t]
  {
    var ts1 := ts[c := ts[c].(base := p)];
    assert c !in ts[c].donors;
    RefreshIs(ts1, c);
    ListedAgain(ts, hs, Refresh(ts1, c), hs, c);
    DonatedAgain(ts, hs, Refresh(ts1, c), c);
  }

  /** Taking a lock that nobody holds. */
  lemma TakeKeeps(ts: Threads, hs: Holders, c: nat, l: nat)
    requires Closed(ts, hs) && Listed(ts, hs) && c in ts && l in hs && hs[l].None?
             && (ts[c].waiting.Some? ==> ts[c].waiting == Some(l))
    ensures var ts', hs' := ts[c := ts[c].(waiting := None)], hs[l := Some(c)];
            Closed(ts', hs') && Listed(ts', hs') && (Donated(ts) ==> Donated(ts'))
  {
    var ts', hs' := ts[c := ts[c].(waiting := None)], hs[l := Some(c)];
    forall h, d | h in ts' && d in ts'[h].donors
      ensures d in ts' && d != c && ts'[d] == ts[d] && ts[d].waiting.Some? && ts[d].waiting.value in hs'
              && hs'[ts[d].waiting.value] == Some(h)
    {
      assert d in ts[h].donors;
    }
    forall h | h in ts && Donated(ts) ensures AtLeastDonors(ts', h) {
      assert AtLeastDonors(ts, h);
    }
  }

  // ----- waiters that are on nobody's list ---------------------------------------------------------

  /** Every thread whose waiting_lock is held is on the holder's list. */
  ghost predicate AllListed(ts: Threads, hs: Holders) {
    forall t {:trigger NextHolder(ts, hs, t)} | t in ts && NextHolder(ts, hs, t).Some? ::
      var h := NextHolder(ts, hs, t).value; h in ts && t in ts[h].donors
  }

  /** What donation is for: the holder of a thread's waiting_lock has at least that thread's priority. */
  ghost predicate NoInversion(ts: Threads, hs: Holders) {
    forall t {:trigger NextHolder(ts, hs, t)} | t in ts && NextHolder(ts, hs, t).Some? ::
      var h := NextHolder(ts, hs, t).value; h in ts && ts[t].priority <= ts[h].priority
  }

  lemma ListedNoInversion(ts: Threads, hs: Holders)
    requires AllListed(ts, hs) && Donated(ts)
    ensures NoInversion(ts, hs)
  {
    forall t | t in ts && NextHolder(ts, hs, t).Some?
      ensures var h := NextHolder(ts, hs, t).value; h in ts && ts[t].priority <= ts[h].priority
    {
      assert AtLeastDonors(ts, NextHolder(ts, hs, t).value);
    }
  }

  /** Acquiring puts the new waiter on the holder's list, and raising priorities changes no list. */
  lemma DonateLists(ts: Threads, hs: Holders, c: nat, l: nat)
    requires Closed(ts, hs) && Listed(ts, hs) && AllListed(ts, hs) && MayAcquire(ts, hs, c, l)
    ensures AllListed(Donate(ts, hs, c, l), hs)
  {
    if hs[l].Some? {
      var h := hs[l].value;
      var ts1 := Enqueued(ts, h, c, l);
      EnqueuedIs(ts, h, c, l);
      EnqueuedLists(ts, hs, ts1, h, c, l);
      RaisedIs(ts1, hs, l, ts[c].priority, 8);
      SameLists(ts1, hs, Raised(ts1, hs, l, ts[c].priority, 8));
    }
  }

  lemma EnqueuedLists(ts: Threads, hs: Holders, ts': Threads, h: nat, c: nat, l: nat)
    requires AllListed(ts, hs) && h in ts && c in ts && l in hs && hs[l] == Some(h)
    requires ts'.Keys == ts.Keys && ts'[c].waiting == Some(l)
    requires forall t | t in ts && t != c :: ts'[t].waiting == ts[t].waiting
    requires forall t | t in ts && t != h :: ts'[t].donors == ts[t].donors
    requires forall d :: d in ts'[h].donors <==> d == c || d in ts[h].donors
    ensures AllListed(ts', hs)
  {
    forall t | t in ts' && NextHolder(ts', hs, t).Some?
      ensures var k := NextHolder(ts', hs, t).value; k in ts' && t in ts'[k].donors
    {
      assert NextHolder(ts', hs, t) == if t == c then Some(h) else NextHolder(ts, hs, t);
    }
  }

  lemma SameLists(ts: Threads, hs: Holders, ts': Threads)
    requires AllListed(ts, hs) && ts'.Keys == ts.Keys
    requires forall t | t in ts :: ts'[t].waiting == ts[t].waiting && ts'[t].donors == ts[t].donors
    ensures AllListed(ts', hs)
  {
    forall t | t in ts' && NextHolder(ts', hs, t).Some?
      ensures var h := NextHolder(ts', hs, t).value; h in ts' && t in ts'[h].donors
    {
      assert NextHolder(ts', hs, t) == NextHolder(ts, hs, t);
    }
  }

  /** The donation block: the lists stay in order, whatever else holds. */
  lemma BlockKeeps(ts: Threads, hs: Holders, c: nat, l: nat)
    requires Closed(ts, hs) && Listed(ts, hs) && MayAcquire(ts, hs, c, l)
    ensures Closed(Donate(ts, hs, c, l), hs) && Listed(Donate(ts, hs, c, l), hs)
    ensures Donated(ts) ==> (Donated(Donate(ts, hs, c, l)) <==> !CutOff(ts, hs, c, l))
    ensures AllListed(ts, hs) ==> AllListed(Donate(ts, hs, c, l), hs)
  {
    if Donated(ts) { DonateKeeps(ts, hs, c, l); }
    if AllListed(ts, hs) { DonateLists(ts, hs, c, l); }
    if hs[l].Some? {
      EnqueuedListed(ts, hs, c, l);
      RaisedListed(Enqueued(ts, hs[l].value, c, l), hs, l, ts[c].priority, 8);
    }
  }

  /** Releasing drops only waiters of the released lock, and setting a priority drops nobody. */
  lemma RefreshLists(ts: Threads, hs: Holders, ts': Threads, hs': Holders, c: nat)
    requires AllListed(ts, hs) && c in ts && ts'.Keys == ts.Keys && hs'.Keys == hs.Keys
    requires forall t | t in ts && t != c :: ts'[t] == ts[t]
    requires ts'[c].waiting == ts[c].waiting
    requires forall l | l in hs :: hs'[l] == hs[l] || hs'[l].None?
    requires forall d | d in ts[c].donors ::
               d in ts'[c].donors || (d in ts && ts[d].waiting.Some? && ts[d].waiting.value in hs
                                      && hs'[ts[d].waiting.value].None?)
    ensures AllListed(ts', hs')
  {
    forall t | t in ts' && NextHolder(ts', hs', t).Some?
      ensures var h := NextHolder(ts', hs', t).value; h in ts' && t in ts'[h].donors
    {
      assert NextHolder(ts, hs, t) == NextHolder(ts', hs', t);
    }
  }

  lemma ReleaseLists(ts: Threads, hs: Holders, c: nat, l: nat)
    requires Closed(ts, hs) && Listed(ts, hs) && AllListed(ts, hs)
    requires c in ts && l in hs && ts[c].waiting.None? && hs[l] == Some(c)
    ensures AllListed(Refresh(Dropped(ts, c, l), c), hs[l := None])
  {
    var ts1 := Dropped(ts, c, l);
    NotWaitingDistinct(ts[c].donors, ts, l);
    assert c !in ts[c].donors;
    RefreshIs(ts1, c);
    RefreshLists(ts, hs, Refresh(ts1, c), hs[l := None], c);
  }

  lemma SetPriorityLists(ts: Threads, hs: Holders, c: nat, p: int)
    requires Closed(ts, hs) && Listed(ts, hs) && AllListed(ts, hs) && c in ts && ts[c].waiting.None?
    ensures AllListed(Refresh(ts[c := ts[c].(base := p)], c), hs)
  {
    var ts1 := ts[c := ts[c].(base := p)];
    assert c !in ts[c].donors;
    RefreshIs(ts1, c);
    RefreshLists(ts, hs, Refresh(ts1, c), hs, c);
  }

  /** A thread other than c waits for l. */
  ghost predicate OthersWait(ts: Threads, c: nat, l: nat) {
    exists t :: t in ts && t != c && ts[t].waiting == Some(l)
  }

  /** A lock changes hands without its waiters: they were on the old holder's list and are not put on the new one's.
      So all waiters are listed afterwards if and only if nobody else waits for the lock. */
  lemma TakeLists(ts: Threads, hs: Holders, c: nat, l: nat)
    requires Closed(ts, hs) && Listed(ts, hs) && AllListed(ts, hs) && c in ts && l in hs && hs[l].None?
    requires ts[c].waiting.Some? ==> ts[c].waiting == Some(l)
    ensures var ts', hs' := ts[c := ts[c].(waiting := None)], hs[l := Some(c)];
            AllListed(ts', hs') <==> !OthersWait(ts, c, l)
  {
    var ts', hs' := ts[c := ts[c].(waiting := None)], hs[l := Some(c)];
    if OthersWait(ts, c, l) {
      var t :| t in ts && t != c && ts[t].waiting == Some(l);
      assert NextHolder(ts', hs', t) == Some(c) && t !in ts[c].donors;
    } else {
      forall t | t in ts' && NextHolder(ts', hs', t).Some?
        ensures var h := NextHolder(ts', hs', t).value; h in ts' && t in ts'[h].donors
      {
        assert NextHolder(ts', hs', t) == NextHolder(ts, hs, t);
      }
    }
  }

  /** Threads 1 and 2 wait for lock 9, which thread 0 holds. */
  ghost predicate TwoWaiters(ts: Threads, hs: Holders) {
    && ts == map[0 := Thread(0, 2, [1, 2], None), 1 := Thread(2, 2, [], Some(9)), 2 := Thread(1, 1, [], Some(9))]
    && hs == map[9 := Some(0)]
  }

  lemma TwoWaitersOk(ts: Threads, hs: Holders)
    requires TwoWaiters(ts, hs)
    ensures Closed(ts, hs) && Listed(ts, hs) && AllListed(ts, hs) && Donated(ts)
  {
    assert 1 in ts[0].donors && 2 in ts[0].donors;
    forall h | h in ts ensures AtLeastDonors(ts, h) {}
  }

  /** Thread 0 releases the lock and thread 1 takes it: thread 2 is on nobody's list. When thread 1 then lowers its
      base priority, thread 2 waits for a thread of lower priority, although every listed donor has been seen to. */
  lemma {:induction false} LateWaiter(ts: Threads, hs: Holders, ts1: Threads, ts2: Threads, hs2: Holders, ts3: Threads)
    requires TwoWaiters(ts, hs) && ts1 == Refresh(Dropped(ts, 0, 9), 0)
    requires 1 in ts1 && ts2 == ts1[1 := ts1[1].(waiting := None)] && hs2 == hs[9 := None][9 := Some(1)]
    requires ts3 == Refresh(ts2[1 := ts2[1].(base := 0)], 1)
    ensures Closed(ts, hs) && Listed(ts, hs) && Donated(ts) && NoInversion(ts, hs)
    ensures Listed(ts3, hs2) && Donated(ts3) && !NoInversion(ts3, hs2)
  {
    TwoWaitersOk(ts, hs);
    ListedNoInversion(ts, hs);
    LateRelease(ts, hs, ts1);
    LateTake(ts1, hs[9 := None], ts2, hs2, ts3);
  }

  lemma LateRelease(ts: Threads, hs: Holders, ts': Threads)
    requires TwoWaiters(ts, hs) && ts' == Refresh(Dropped(ts, 0, 9), 0)
    ensures Closed(ts', hs[9 := None]) && Listed(ts', hs[9 := None]) && Donated(ts')
    ensures 1 in ts' && ts'[1] == Thread(2, 2, [], Some(9)) && 2 in ts' && ts'[2] == Thread(1, 1, [], Some(9))
  {
    TwoWaitersOk(ts, hs);
    ReleaseKeeps(ts, hs, 0, 9);
    assert Dropped(ts, 0, 9).Keys == ts.Keys;
  }

  lemma LateTake(ts: Threads, hs: Holders, ts1: Threads, hs1: Holders, ts2: Threads)
    requires Closed(ts, hs) && Listed(ts, hs) && Donated(ts) && 9 in hs && hs[9].None? && hs1 == hs[9 := Some(1)]
    requires 1 in ts && ts[1] == Thread(2, 2, [], Some(9)) && 2 in ts && ts[2] == Thread(1, 1, [], Some(9))
    requires ts1 == ts[1 := ts[1].(waiting := None)] && ts2 == Refresh(ts1[1 := ts1[1].(base := 0)], 1)
    ensures Listed(ts2, hs1) && Donated(ts2) && !NoInversion(ts2, hs1)
  {
    TakeKeeps(ts, hs, 1, 9);
    SetPriorityKeeps(ts1, hs1, 1, 0);
    RefreshIs(ts1[1 := ts1[1].(base := 0)], 1);
    assert ts2[1].priority == 0 && ts2[2] == ts[2];
    assert NextHolder(ts2, hs1, 2) == Some(1);
  }

  // ----- the kernel ------------------------------------------------------------------------------

  datatype Call = Acquire(c: nat, l: nat) | Pass(c: nat, l: nat) | Finish(c: nat, l: nat)
    | TryAcquire(c: nat, l: nat) | Release(c: nat, l: nat) | SetPriority(c: nat, p: int)

  /** Who holds a lock has passed its semaphore. */
  ghost predicate HoldersPassed(hs: Holders, passed: map<nat, nat>) {
    forall l {:trigger hs[l]} | l in hs && hs[l].Some? :: l in passed && passed[l] == hs[l].value
  }

  class Kernel {
    var ts: Threads
    var hs: Holders
    /** The locks whose semaphore is 0, and who has passed it. */
    var passed: map<nat, nat>

    ghost predicate Valid()
      reads this
    {
      Closed(ts, hs) && Listed(ts, hs) && HoldersPassed(hs, passed)
    }

    /** sema_down of a lock's semaphore gets through. */
    method PassSema(c: nat, l: nat)
      requires Valid() && l !in passed
      modifies this`passed
      ensures Valid() && passed == old(passed)[l := c]
    {
      passed := passed[l := c];
    }

    /** The donation block of lock_acquire. */
    method AcquireDonate(c: nat, l: nat)
      requires Valid() && MayAcquire(ts, hs, c, l)
      modifies this`ts
      ensures Valid() && ts == Donate(old(ts), hs, c, l)
      ensures old(Donated(ts)) ==> (Donated(ts) <==> !old(CutOff(ts, hs, c, l)))
      ensures old(AllListed(ts, hs)) ==> AllListed(ts, hs)
    {
      BlockKeeps(ts, hs, c, l);
      if hs[l].Some? {
        var holder, p := hs[l].value, ts[c].priority;
        EnqueuedListed(ts, hs, c, l);
        ts := Enqueued(ts, holder, c, l);
        RaiseChain(holder, l, p);
      }
    }

    /** Raises the holder of l and up to seven more up the chain. */
    method RaiseChain(first: nat, l: nat, p: int)
      requires Closed(ts, hs) && l in hs && hs[l] == Some(first)
      modifies this`ts
      ensures ts == Raised(old(ts), hs, l, p, 8)
    {
      ghost var ts0, n := ts, 8;
      var holder, idx := first, 0;
      RaiseFirst(ts0, hs, l, p, first);
      if ts[holder].priority < p {
        ts := ts[holder := ts[holder].(priority := p)];
      }
      while idx < 7
        invariant 0 <= idx <= 7 && ts == Raised(ts0, hs, l, p, idx + 1) && HolderAt(ts0, hs, l, idx) == Some(holder)
      {
        RaisedIs(ts0, hs, l, p, idx + 1);
        HoldersExist(ts0, hs, l, idx);
        assert ts[holder].waiting == ts0[holder].waiting;
        var next := ts[holder].waiting;
        if next.None? || hs[next.value].None? {
          assert HolderAt(ts0, hs, l, idx + 1).None?;
          ChainEnded(ts0, hs, l, p, idx + 1, n);
          return;
        }
        holder := hs[next.value].value;
        if ts[holder].priority < p {
          ts := ts[holder := ts[holder].(priority := p)];
        }
        idx := idx + 1;
      }
    }

    /** The end of lock_acquire, once the semaphore has been passed. */
    method AcquireFinish(c: nat, l: nat)
      requires Valid() && c in ts && l in hs && hs[l].None? && (ts[c].waiting.Some? ==> ts[c].waiting == Some(l))
      requires l in passed && passed[l] == c
      modifies this`ts, this`hs
      ensures Valid() && (old(Donated(ts)) ==> Donated(ts))
      ensures hs == old(hs)[l := Some(c)] && ts == old(ts)[c := old(ts)[c].(waiting := None)]
      ensures old(AllListed(ts, hs)) ==> (AllListed(ts, hs) <==> !old(OthersWait(ts, c, l)))
    {
      if AllListed(ts, hs) { TakeLists(ts, hs, c, l); }
      TakeKeeps(ts, hs, c, l);
      ts := ts[c := ts[c].(waiting := None)];
      hs := hs[l := Some(c)];
    }

    /** lock_try_acquire. */
    method LockTryAcquire(c: nat, l: nat) returns (ok: bool)
      requires Valid() && c in ts && l in hs && ts[c].waiting.None?
      modifies this`hs, this`passed
      ensures Valid() && (ok <==> l !in old(passed)) && (ok ==> old(hs[l].None?))
      ensures hs == (if ok then old(hs)[l := Some(c)] else old(hs))
              && passed == (if ok then old(passed)[l := c] else old(passed))
      ensures old(AllListed(ts, hs)) ==> (AllListed(ts, hs) <==> !ok || !OthersWait(ts, c, l))
    {
      ok := l !in passed;
      if ok {
        assert hs[l].None?;
        if AllListed(ts, hs) { TakeLists(ts, hs, c, l); }
        TakeKeeps(ts, hs, c, l);
        assert ts[c := ts[c].(waiting := None)] == ts;
        hs, passed := hs[l := Some(c)], passed[l := c];
      }
    }

    /** lock_release. */
    method LockRelease(c: nat, l: nat)
      requires Valid() && c in ts && l in hs && ts[c].waiting.None? && hs[l] == Some(c)
      modifies this
      ensures Valid() && hs == old(hs)[l := None] && passed == old(passed) - {l} && c in ts && Exact(ts, c)
      ensures ts == Refresh(Dropped(old(ts), c, l), c)
      ensures ts.Keys == old(ts).Keys && forall t | t in ts && t != c :: ts[t] == old(ts)[t]
      ensures old(Donated(ts)) ==> Donated(ts)
      ensures old(AllListed(ts, hs)) ==> AllListed(ts, hs)
    {
      ReleaseKeeps(ts, hs, c, l);
      if AllListed(ts, hs) { ReleaseLists(ts, hs, c, l); }
      var list := DropWaiters(ts[c].donors, l);
      ts := ts[c := ts[c].(donors := list)];
      ts := Refresh(ts, c);
      hs, passed := hs[l := None], passed - {l};
    }

    /** The loop of lock_release: unlinks the donors that wait for l. */
    method DropWaiters(donors: seq<nat>, l: nat) returns (list: seq<nat>)
      ensures list == NotWaiting(donors, ts, l)
    {
      list := donors;
      var i := 0;
      while i < |list|
        invariant i <= |list| && NotWaiting(list, ts, l) == NotWaiting(donors, ts, l)
        invariant forall k | 0 <= k < i :: !(list[k] in ts && ts[list[k]].waiting == Some(l))
        decreases |list| - i
      {
        if list[i] in ts && ts[list[i]].waiting == Some(l) {
          NotWaitingWithout(list, ts, l, i);
          list := list[..i] + list[i + 1..];
        } else {
          i := i + 1;
        }
      }
      NotWaitingAll(list, ts, l);
    }

    /** thread_set_priority. */
    method ThreadSetPriority(c: nat, p: int)
      requires Valid() && c in ts && ts[c].waiting.None?
      modifies this`ts
      ensures Valid() && c in ts && ts[c].base == p && Exact(ts, c)
      ensures ts.Keys == old(ts).Keys && forall t | t in ts && t != c :: ts[t] == old(ts)[t]
      ensures old(Donated(ts)) ==> Donated(ts)
      ensures old(AllListed(ts, hs)) ==> AllListed(ts, hs)
    {
      SetPriorityKeeps(ts, hs, c, p);
      if AllListed(ts, hs) { SetPriorityLists(ts, hs, c, p); }
      ts := ts[c := ts[c].(base := p)];
      ts := Refresh(ts, c);
    }

    /** Over every run the lists stay in order; as long as no walk is cut off, every priority is at least the thread's
        base and its listed donors'; and if besides no lock is taken that others wait for, it is at least that of
        every thread whose waiting_lock it holds. */
    method Run(calls: seq<Call>) returns (ghost cutOff: bool, ghost late: bool)
      requires Valid()
      modifies this
      ensures Valid()
      ensures old(Donated(ts)) && !cutOff ==> Donated(ts)
      ensures old(AllListed(ts, hs)) && !late ==> AllListed(ts, hs)
      ensures old(Donated(ts) && AllListed(ts, hs)) && !cutOff && !late ==> NoInversion(ts, hs)
    {
      cutOff, late := false, false;
      for i := 0 to |calls|
        invariant Valid() && (old(Donated(ts)) && !cutOff ==> Donated(ts))
        invariant old(AllListed(ts, hs)) && !late ==> AllListed(ts, hs)
      {
        match calls[i] {
          case Acquire(c, l) =>
            if c in ts && l in hs && ts[c].waiting.None? && hs[l] != Some(c) {
              cutOff := cutOff || CutOff(ts, hs, c, l);
              AcquireDonate(c, l);
            }
          case Pass(c, l) =>
            if l !in passed { PassSema(c, l); }
          case Finish(c, l) =>
            if c in ts && l in hs && hs[l].None? && l in passed && passed[l] == c
              && (ts[c].waiting.None? || ts[c].waiting == Some(l))
            {
              late := late || OthersWait(ts, c, l);
              AcquireFinish(c, l);
            }
          case TryAcquire(c, l) =>
            if c in ts && l in hs && ts[c].waiting.None? {
              late := late || (l !in passed && OthersWait(ts, c, l));
              var _ := LockTryAcquire(c, l);
            }
          case Release(c, l) =>
            if c in ts && l in hs && ts[c].waiting.None? && hs[l] == Some(c) { LockRelease(c, l); }
          case SetPriority(c, p) =>
            if c in ts && ts[c].waiting.None? { ThreadSetPriority(c, p); }
        }
      }
      if Donated(ts) && AllListed(ts, hs) { ListedNoInversion(ts, hs); }
    }
  }

  lemma RaiseFirst(ts: Threads, hs: Holders, l: nat, p: int, first: nat)
    requires l in hs && hs[l] == Some(first)
    ensures Raised(ts, hs, l, p, 1) == Raise(ts, first, p) && HolderAt(ts, hs, l, 0) == Some(first)
  {
    assert HolderAt(ts, hs, l, 0) == Some(first) && Raised(ts, hs, l, p, 0) == ts;
  }

  lemma {:induction false} HoldersExist(ts: Threads, hs: Holders, l: nat, k: nat)
    requires Closed(ts, hs) && l in hs
    ensures HolderAt(ts, hs, l, k).Some? ==> HolderAt(ts, hs, l, k).value in ts
  {
    if k > 0 {
      HoldersExist(ts, hs, l, k - 1);
    }
  }
}
