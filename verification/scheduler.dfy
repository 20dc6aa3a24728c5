/** The thread scheduler, semaphores and locks as a step machine (pintos/threads/thread.c, synch.c).

    A step is a stretch that runs with interrupts off. Threads, named by the numbers of their pages, semaphores
    and locks (named by their semaphores) are numbered. The machine starts where thread_start ends, with the
    idle thread in place. Priorities may change at any time (donation). */
module Scheduler {
  import opened Orderings
  import opened Wrappers

  datatype Status = Running | Ready | Blocked | Dying

  /** The lists that a thread's elem may be on. */
  datatype Queue = ReadyList | SleepList | DestructionReq | Waiters(sema: nat)

  type Queues = map<Queue, seq<nat>>

  /** How far the owner of a lock's semaphore is: between sema_down and setting the holder, holding, or between
      clearing the holder and sema_up. */
  datatype Ownership = Nobody | Acquired(t: nat) | Holding(t: nat) | Releasing(t: nat)

  // ----- queues --------------------------------------------------------------------------

  /** Each thread is on the list that place says, once, and on no other. */
  ghost predicate QueuesOk(qs: Queues, place: map<nat, Option<Queue>>) {
    && (forall q {:trigger qs[q]} | q in qs :: Distinct(qs[q]))
    && (forall q, t {:trigger t in qs[q]} | q in qs && t in qs[q] :: t in place && place[t] == Some(q))
    && (forall t {:trigger place[t]} | t in place && place[t].Some? :: place[t].value in qs && t in qs[place[t].value])
  }

  lemma Put(qs: Queues, place: map<nat, Option<Queue>>, q: Queue, t: nat, list: seq<nat>)
    requires QueuesOk(qs, place) && q in qs && t in place && place[t].None?
    requires Distinct(list) && forall x :: x in list <==> x == t || x in qs[q]
    ensures QueuesOk(qs[q := list], place[t := Some(q)])
  {
    var qs', place' := qs[q := list], place[t := Some(q)];
    forall r, x | r in qs' && x in qs'[r] ensures x in place' && place'[x] == Some(r) {
      if r != q { assert x in qs[r]; }
    }
  }

  lemma TakeFront(qs: Queues, place: map<nat, Option<Queue>>, q: Queue)
    requires QueuesOk(qs, place) && q in qs && qs[q] != []
    ensures qs[q][0] in place && place[qs[q][0]] == Some(q)
    ensures QueuesOk(qs[q := qs[q][1..]], place[qs[q][0] := None])
  {
    var t, rest := qs[q][0], qs[q][1..];
    assert t in qs[q] && t !in rest;
    assert forall x :: x in qs[q] <==> x == t || x in rest;
    var qs', place' := qs[q := rest], place[t := None];
    forall r, x | r in qs' && x in qs'[r] ensures x in place' && place'[x] == Some(r) {
      assert x in qs[r];
    }
  }

  lemma Reorder(qs: Queues, place: map<nat, Option<Queue>>, q: Queue, list: seq<nat>)
    requires QueuesOk(qs, place) && q in qs && Distinct(list) && Elements(list) == Elements(qs[q])
    ensures QueuesOk(qs[q := list], place)
  {
    var qs' := qs[q := list];
    assert forall x :: x in list <==> x in Elements(list);
    forall r, x | r in qs' && x in qs'[r] ensures x in place && place[x] == Some(r) {
      if r == q { assert x in qs[q]; } else { assert x in qs[r]; }
    }
  }

  // ----- statuses ------------------------------------------------------------------------

  /** What a thread's status says about the list it is on; running is false inside schedule(), when the current
      thread has given up the CPU. */
  ghost predicate StatusOk(status: map<nat, Status>, place: map<nat, Option<Queue>>, current: nat, idle: nat,
                           initial: nat, running: bool) {
    && place.Keys == status.Keys
    && current in status && idle in status && initial in status && idle != initial
    && place[idle].None? && status[idle] != Dying
    && (forall t {:trigger status[t]} {:trigger place[t]} | t in status ::
         && (status[t] == Running <==> running && t == current)
         && (place[t] == Some(ReadyList) <==> status[t] == Ready && t != idle)
         && (place[t] == Some(DestructionReq) <==> status[t] == Dying && t != initial && t != current)
         && (place[t] == Some(SleepList) || (place[t].Some? && place[t].value.Waiters?) ==> status[t] == Blocked))
  }

  ghost predicate ThreadsOk(status: map<nat, Status>, priority: map<nat, int>, qs: Queues,
                            place: map<nat, Option<Queue>>, current: nat, idle: nat, initial: nat,
                            inDown: map<nat, nat>) {
    && QueuesOk(qs, place) && StatusOk(status, place, current, idle, initial, true)
    && priority.Keys == status.Keys
    && ReadyList in qs && SleepList in qs && DestructionReq in qs
    && idle !in inDown
  }

  /** By descending priority, as thread_priority compares. */
  function Higher(priority: map<nat, int>): (nat, nat) -> bool {
    (a, b) => a in priority && b in priority && priority[a] > priority[b]
  }

  /** By ascending wake-up tick, as cmp_thread_ticks compares. */
  function Earlier(wakeTick: map<nat, int>): (nat, nat) -> bool {
    (a, b) => a in wakeTick && b in wakeTick && wakeTick[a] < wakeTick[b]
  }

  /** A running thread is on no list. */
  lemma RunningNowhere(status: map<nat, Status>, place: map<nat, Option<Queue>>, current: nat, idle: nat, initial: nat)
    requires StatusOk(status, place, current, idle, initial, true)
    ensures place[current].None?
  {
    var st := status[current];
  }

  /** The list that goes with the status of a thread that gives up the CPU. */
  predicate Goes(to: Status, q: Option<Queue>, isIdle: bool) {
    match to
    case Running => false
    case Ready => q == if isIdle then None else Some(ReadyList)
    case Blocked => if isIdle then q.None? else q.Some? && (q.value.SleepList? || q.value.Waiters?)
    case Dying => q.None? && !isIdle
  }

  /** The current thread gives up the CPU and goes to its list. */
  lemma {:induction false} GiveUp(status: map<nat, Status>, qs: Queues, place: map<nat, Option<Queue>>, current: nat,
                                  idle: nat, initial: nat, to: Status, q: Option<Queue>, list: seq<nat>, qs': Queues,
                                  place': map<nat, Option<Queue>>)
    requires QueuesOk(qs, place) && StatusOk(status, place, current, idle, initial, true)
             && Goes(to, q, current == idle)
    requires q.Some? ==> q.value in qs && Distinct(list) && forall x :: x in list <==> x == current || x in qs[q.value]
    requires qs' == (if q.Some? then qs[q.value := list] else qs) && place' == place[current := q]
    ensures QueuesOk(qs', place') && StatusOk(status[current := to], place', current, idle, initial, false)
  {
    RunningNowhere(status, place, current, idle, initial);
    if q.Some? {
      Put(qs, place, q.value, current, list);
    } else {
      assert place' == place;
    }
  }

  /** The threads of gone, which were first in line, have been freed. */
  ghost predicate Freed(status0: map<nat, Status>, place0: map<nat, Option<Queue>>, qs0: Queues, gone: set<nat>,
                        status: map<nat, Status>, place: map<nat, Option<Queue>>, qs: Queues) {
    && DestructionReq in qs0 && DestructionReq in qs && qs == qs0[DestructionReq := qs[DestructionReq]]
    && status == status0 - gone && place == place0 - gone
    && gone + Elements<nat>(qs[DestructionReq]) == Elements<nat>(qs0[DestructionReq])
  }

  lemma FreeOne(status0: map<nat, Status>, place0: map<nat, Option<Queue>>, qs0: Queues, gone: set<nat>,
                status: map<nat, Status>, place: map<nat, Option<Queue>>, qs: Queues)
    requires Freed(status0, place0, qs0, gone, status, place, qs) && qs[DestructionReq] != []
    ensures var victim := qs[DestructionReq][0];
            Freed(status0, place0, qs0, gone + {victim}, status - {victim}, place - {victim},
                  qs[DestructionReq := qs[DestructionReq][1..]])
  {
    var list := qs[DestructionReq];
    assert Elements(list) == {list[0]} + Elements(list[1..]);
  }

  lemma AllFreed(status0: map<nat, Status>, place0: map<nat, Option<Queue>>, qs0: Queues, gone: set<nat>,
                 status: map<nat, Status>, place: map<nat, Option<Queue>>, qs: Queues)
    requires Freed(status0, place0, qs0, gone, status, place, qs) && qs[DestructionReq] == []
    ensures gone == Elements<nat>(qs0[DestructionReq]) && qs == qs0[DestructionReq := []]
    ensures status == status0 - Elements<nat>(qs0[DestructionReq])
            && place == place0 - Elements<nat>(qs0[DestructionReq])
  {
    assert Elements<nat>([]) == {};
  }

  /** A dead thread's page can be freed: it is not the current thread's. */
  lemma FreeOk(status: map<nat, Status>, qs: Queues, place: map<nat, Option<Queue>>, current: nat, idle: nat,
               initial: nat, victim: nat, status': map<nat, Status>, qs': Queues, place': map<nat, Option<Queue>>)
    requires QueuesOk(qs, place) && StatusOk(status, place, current, idle, initial, true)
    requires DestructionReq in qs && qs[DestructionReq] != [] && victim == qs[DestructionReq][0]
    requires status' == status - {victim} && place' == place - {victim}
             && qs' == qs[DestructionReq := qs[DestructionReq][1..]]
    ensures victim in status && victim != current && status[victim] == Dying
    ensures QueuesOk(qs', place') && StatusOk(status', place', current, idle, initial, true)
  {
    TakeFront(qs, place, DestructionReq);
    forall q, t | q in qs' && t in qs'[q] ensures t in place' && place'[t] == Some(q) {
      assert place[victim := None][t] == Some(q);
    }
  }

  function Next(qs: Queues, idle: nat): nat {
    if ReadyList in qs && qs[ReadyList] != [] then qs[ReadyList][0] else idle
  }

  function AfterNext(qs: Queues): Queues {
    if ReadyList in qs && qs[ReadyList] != [] then qs[ReadyList := qs[ReadyList][1..]] else qs
  }

  /** Thread t joins list q, if any, in order. */
  function Joined(qs: Queues, q: Option<Queue>, t: nat, less: (nat, nat) -> bool): Queues {
    if q.Some? && q.value in qs then qs[q.value := InsertOrdered(qs[q.value], t, less)] else qs
  }

  // ----- who runs next, and where in line a thread goes ----------------------------------------

  /** Thread t has joined a list in front of the first thread of lower priority: behind all of equal or higher
      priority, if the list is sorted. */
  ghost predicate QueuedBehind(list: seq<nat>, t: nat, list': seq<nat>, priority: map<nat, int>) {
    t in priority
    && exists p {:trigger list[..p]} :: 0 <= p <= |list| && list' == list[..p] + [t] + list[p..]
         && (forall k | 0 <= k < p :: list[k] in priority && priority[list[k]] >= priority[t])
         && (p < |list| ==> list[p] in priority && priority[list[p]] < priority[t])
  }

  /** Thread t has joined the sleepers in front of the first one with a later wake-up tick. */
  ghost predicate QueuedByTick(list: seq<nat>, t: nat, list': seq<nat>, wakeTick: map<nat, int>) {
    t in wakeTick
    && exists p {:trigger list[..p]} :: 0 <= p <= |list| && list' == list[..p] + [t] + list[p..]
         && (forall k | 0 <= k < p :: list[k] in wakeTick ==> wakeTick[list[k]] <= wakeTick[t])
         && (p < |list| ==> list[p] in wakeTick && wakeTick[t] < wakeTick[list[p]])
  }

  /** The first thread of the ready list runs and leaves it; the idle thread runs if there is none. */
  ghost predicate RunsFirst(list: seq<nat>, current: nat, list': seq<nat>, idle: nat) {
    if list != [] then current == list[0] && list' == list[1..] else current == idle && list' == []
  }

  /** The next thread runs, once the old one has joined the ready list. */
  ghost predicate RunsAfterJoining(list: seq<nat>, t: nat, priority: map<nat, int>, current: nat, list': seq<nat>,
                                   idle: nat) {
    exists joined: seq<nat> :: QueuedBehind(list, t, joined, priority) && RunsFirst(joined, current, list', idle)
  }

  /** By descending priority. */
  ghost predicate Descending(list: seq<nat>, priority: map<nat, int>) {
    && (forall x | x in list :: x in priority)
    && forall i, j {:trigger list[i], list[j]} | 0 <= i < j < |list| :: priority[list[i]] >= priority[list[j]]
  }

  /** A thread that joins a sorted list keeps it sorted, and comes behind all of equal or higher priority. */
  lemma QueuedKeepsOrder(list: seq<nat>, t: nat, list': seq<nat>, priority: map<nat, int>)
    requires Descending(list, priority) && QueuedBehind(list, t, list', priority)
    ensures Descending(list', priority) && forall x | x in list && priority[x] >= priority[t] :: Precedes(list', x, t)
  {
    var p := QueuedPlace(list, t, list', priority);
    InsertedInOrder(list, t, list', p, priority);
    AllBehind(list, t, list', p, priority);
  }

  lemma {:induction false} QueuedPlace(list: seq<nat>, t: nat, list': seq<nat>, priority: map<nat, int>)
    returns (p: nat)
    requires QueuedBehind(list, t, list', priority)
    ensures p <= |list| && |list'| == |list| + 1
    ensures forall k {:trigger list'[k]} | 0 <= k < |list'| ::
              list'[k] == if k < p then list[k] else if k == p then t else list[k - 1]
    ensures forall k | 0 <= k < p :: list[k] in priority && priority[list[k]] >= priority[t]
    ensures p < |list| ==> list[p] in priority && priority[list[p]] < priority[t]
  {
    p :| 0 <= p <= |list| && list' == list[..p] + [t] + list[p..]
         && (forall k | 0 <= k < p :: list[k] in priority && priority[list[k]] >= priority[t])
         && (p < |list| ==> list[p] in priority && priority[list[p]] < priority[t]);
  }

  lemma {:induction false} AllBehind(list: seq<nat>, t: nat, list': seq<nat>, p: nat, priority: map<nat, int>)
    requires Descending(list, priority) && t in priority && p <= |list| && |list'| == |list| + 1
    requires forall k {:trigger list'[k]} | 0 <= k < |list'| ::
               list'[k] == if k < p then list[k] else if k == p then t else list[k - 1]
    requires p < |list| ==> priority[list[p]] < priority[t]
    ensures forall x | x in list && priority[x] >= priority[t] :: Precedes(list', x, t)
  {
    forall x | x in list && priority[x] >= priority[t] ensures Precedes(list', x, t) {
      var k :| 0 <= k < |list| && list[k] == x;
      BehindHigher(list, t, list', p, priority, k);
    }
  }

  lemma {:induction false} InsertedInOrder(list: seq<nat>, t: nat, list': seq<nat>, p: nat, priority: map<nat, int>)
    requires Descending(list, priority) && t in priority && p <= |list| && |list'| == |list| + 1
    requires forall k {:trigger list'[k]} | 0 <= k < |list'| ::
               list'[k] == if k < p then list[k] else if k == p then t else list[k - 1]
    requires forall k | 0 <= k < p :: priority[list[k]] >= priority[t]
    requires p < |list| ==> priority[list[p]] < priority[t]
    ensures Descending(list', priority)
  {
    forall x | x in list' ensures x in priority {
      var k :| 0 <= k < |list'| && list'[k] == x;
      if k != p { assert list[if k < p then k else k - 1] in list; }
    }
    forall i, j | 0 <= i < j < |list'| ensures priority[list'[i]] >= priority[list'[j]] {
      if j > p {
        assert priority[list[p]] >= priority[list[j - 1]];
      }
    }
  }

  lemma {:induction false} BehindHigher(list: seq<nat>, t: nat, list': seq<nat>, p: nat, priority: map<nat, int>,
                                        k: nat)
    requires Descending(list, priority) && t in priority && p <= |list| && |list'| == |list| + 1 && k < |list|
    requires forall k {:trigger list'[k]} | 0 <= k < |list'| ::
               list'[k] == if k < p then list[k] else if k == p then t else list[k - 1]
    requires p < |list| ==> priority[list[p]] < priority[t]
    ensures list[k] in list && (priority[list[k]] >= priority[t] ==> Precedes(list', list[k], t))
  {
    if p <= k {
      assert priority[list[k]] <= priority[list[p]];
    } else {
      assert list'[k] == list[k] && list'[p] == t;
    }
  }

  /** From a sorted list a thread of highest priority runs, and the rest is sorted. */
  lemma HighestRuns(list: seq<nat>, priority: map<nat, int>, current: nat, list': seq<nat>, idle: nat)
    requires Descending(list, priority) && RunsFirst(list, current, list', idle)
    ensures Descending(list', priority)
    ensures list != [] ==> current in list && forall x | x in list :: priority[x] <= priority[current]
  {
    if list != [] {
      forall x | x in list' ensures x in list {}
    }
  }

  lemma JoinedKeepsOrder(list: seq<nat>, t: nat, priority: map<nat, int>, current: nat, list': seq<nat>, idle: nat)
    requires Descending(list, priority) && RunsAfterJoining(list, t, priority, current, list', idle)
    ensures Descending(list', priority)
  {
    var joined: seq<nat> :| QueuedBehind(list, t, joined, priority) && RunsFirst(joined, current, list', idle);
    QueuedKeepsOrder(list, t, joined, priority);
    HighestRuns(joined, priority, current, list', idle);
  }

  /** Only the priorities of the threads in line matter. */
  lemma SamePriorities(list: seq<nat>, priority: map<nat, int>, priority': map<nat, int>)
    requires Descending(list, priority) && forall x | x in list :: x in priority' && priority'[x] == priority[x]
    ensures Descending(list, priority')
  {
    forall i, j | 0 <= i < j < |list| ensures priority'[list[i]] >= priority'[list[j]] {
      assert list[i] in list && list[j] in list;
    }
  }

  /** Only these lists have changed. */
  ghost predicate OthersKept(qs: Queues, qs': Queues, changed: set<Queue>) {
    qs'.Keys == qs.Keys && forall q {:trigger qs'[q]} | q in qs && q !in changed :: qs'[q] == qs[q]
  }

  /** Thread t joins list q, if any, and the next thread runs. */
  lemma StepLooks(qs: Queues, q: Option<Queue>, t: nat, less: (nat, nat) -> bool, idle: nat, next: nat, qs': Queues)
    requires ReadyList in qs && (q.Some? ==> q.value in qs)
    requires var joined := Joined(qs, q, t, less); next == Next(joined, idle) && qs' == AfterNext(joined)
    ensures qs'.Keys == qs.Keys
    ensures RunsFirst(if q == Some(ReadyList) then InsertOrdered(qs[ReadyList], t, less) else qs[ReadyList], next,
                      qs'[ReadyList], idle)
    ensures q.Some? && q.value != ReadyList ==> qs'[q.value] == InsertOrdered(qs[q.value], t, less)
    ensures OthersKept(qs, qs', if q.Some? then {ReadyList, q.value} else {ReadyList})
  {
  }

  /** Thread t has joined the waiters of s by priority, and the next thread runs. */
  ghost predicate Waited(qs: Queues, s: nat, t: nat, priority: map<nat, int>, current: nat, qs': Queues, idle: nat) {
    && ReadyList in qs && ReadyList in qs' && Waiters(s) in qs && Waiters(s) in qs'
    && RunsFirst(qs[ReadyList], current, qs'[ReadyList], idle)
    && QueuedBehind(qs[Waiters(s)], t, qs'[Waiters(s)], priority)
    && OthersKept(qs, qs', {ReadyList, Waiters(s)})
  }

  lemma ReadyAgain(qs: Queues, t: nat, priority: map<nat, int>, idle: nat, next: nat, qs': Queues)
    requires ReadyList in qs && t in priority && forall x | x in qs[ReadyList] :: x in priority
    requires var joined := Joined(qs, Some(ReadyList), t, Higher(priority));
             next == Next(joined, idle) && qs' == AfterNext(joined)
    ensures ReadyList in qs' && RunsAfterJoining(qs[ReadyList], t, priority, next, qs'[ReadyList], idle)
  {
    StepLooks(qs, Some(ReadyList), t, Higher(priority), idle, next, qs');
    InsertedBehind(qs[ReadyList], t, priority);
  }

  lemma InsertedBehind(list: seq<nat>, t: nat, priority: map<nat, int>)
    requires t in priority && forall x | x in list :: x in priority
    ensures QueuedBehind(list, t, InsertOrdered(list, t, Higher(priority)), priority)
  {
    var p := InsertPos(list, t, Higher(priority));
    forall k | 0 <= k < p ensures list[k] in priority && priority[list[k]] >= priority[t] {
      assert list[k] in list && !Higher(priority)(t, list[k]);
    }
    assert list[..p] + [t] + list[p..] == InsertOrdered(list, t, Higher(priority));
  }

  lemma InsertedByTick(list: seq<nat>, t: nat, wakeTick: map<nat, int>)
    requires t in wakeTick
    ensures QueuedByTick(list, t, InsertOrdered(list, t, Earlier(wakeTick)), wakeTick)
  {
    var p := InsertPos(list, t, Earlier(wakeTick));
    forall k | 0 <= k < p && list[k] in wakeTick ensures wakeTick[list[k]] <= wakeTick[t] {
      assert !Earlier(wakeTick)(t, list[k]);
    }
    assert list[..p] + [t] + list[p..] == InsertOrdered(list, t, Earlier(wakeTick));
  }

  lemma QueuedHavePriority(status: map<nat, Status>, priority: map<nat, int>, qs: Queues,
                           place: map<nat, Option<Queue>>, current: nat, idle: nat, initial: nat, inDown: map<nat, nat>,
                           q: Queue)
    requires ThreadsOk(status, priority, qs, place, current, idle, initial, inDown) && q in qs
    ensures current in priority && forall x | x in qs[q] :: x in priority
  {
  }

  /** The next thread leaves the ready list, and a dying thread t is queued for destruction. */
  function AfterSwitch(qs: Queues, t: nat, dying: bool): Queues {
    var rest := AfterNext(qs);
    if dying && DestructionReq in rest then rest[DestructionReq := rest[DestructionReq] + [t]] else rest
  }

  /** schedule(): the next thread runs, and a dying one is queued for destruction. */
  lemma ScheduleOk(status: map<nat, Status>, qs: Queues, place: map<nat, Option<Queue>>, current: nat, idle: nat,
                   initial: nat, next: nat, dying: bool, qs': Queues, place': map<nat, Option<Queue>>)
    requires QueuesOk(qs, place) && StatusOk(status, place, current, idle, initial, false) && ReadyList in qs
             && DestructionReq in qs
    requires next == Next(qs, idle) && dying == (status[current] == Dying && current != initial)
    requires qs' == AfterSwitch(qs, current, dying)
    requires place' == if dying then place[next := None][current := Some(DestructionReq)] else place[next := None]
    ensures next in status && (current == next ==> status[current] == Ready || current == idle)
    ensures QueuesOk(qs', place') && StatusOk(status[next := Running], place', next, idle, initial, true)
  {
    if qs[ReadyList] != [] {
      TakeFront(qs, place, ReadyList);
    } else {
      assert place[next := None] == place;
    }
    StatusAfter(status, place, current, idle, initial, next, dying, place');
    if dying {
      var qs1 := AfterNext(qs);
      assert current !in qs1[DestructionReq];
      Put(qs1, place[next := None], DestructionReq, current, qs1[DestructionReq] + [current]);
    }
  }

  lemma StatusAfter(status: map<nat, Status>, place: map<nat, Option<Queue>>, current: nat, idle: nat, initial: nat,
                    next: nat, dying: bool, place': map<nat, Option<Queue>>)
    requires StatusOk(status, place, current, idle, initial, false) && next in status
    requires dying == (status[current] == Dying && current != initial)
    requires if next == idle then true else place[next] == Some(ReadyList)
    requires place' == if dying then place[next := None][current := Some(DestructionReq)] else place[next := None]
    ensures current == next ==> status[current] == Ready || current == idle
    ensures StatusOk(status[next := Running], place', next, idle, initial, true)
  {
  }

  /** The waiting lists of semaphores are those of qs. */
  ghost predicate SameWaiters(qs: Queues, qs': Queues) {
    forall s {:trigger Waiters(s)} :: (Waiters(s) in qs' <==> Waiters(s) in qs)
                                      && (Waiters(s) in qs ==> qs'[Waiters(s)] == qs[Waiters(s)])
  }

  /** Giving up the CPU and schedule() together. */
  lemma SwitchOk(status: map<nat, Status>, qs: Queues, place: map<nat, Option<Queue>>, current: nat, idle: nat,
                 initial: nat, to: Status, q: Option<Queue>, less: (nat, nat) -> bool, dying: bool, qs1: Queues,
                 next: nat, status': map<nat, Status>, qs': Queues, place': map<nat, Option<Queue>>)
    requires QueuesOk(qs, place) && StatusOk(status, place, current, idle, initial, true)
             && Goes(to, q, current == idle)
    requires (q.Some? ==> q.value in qs) && ReadyList in qs && DestructionReq in qs
    requires qs1 == Joined(qs, q, current, less) && next == Next(qs1, idle)
             && dying == (to == Dying && current != initial)
    requires status' == status[current := to][next := Running] && qs' == AfterSwitch(qs1, current, dying)
    requires place' == if dying then place[current := q][next := None][current := Some(DestructionReq)]
             else place[current := q][next := None]
    ensures QueuesOk(qs', place') && StatusOk(status', place', next, idle, initial, true)
    ensures SameWaiters(qs1, qs') && qs'.Keys == qs.Keys && status'.Keys == status.Keys
    ensures current == next ==> to == Ready || current == idle
    ensures current != next ==> place'[current] == if dying then Some(DestructionReq) else q
  {
    RunningNowhere(status, place, current, idle, initial);
    var list := if q.Some? then InsertOrdered(qs[q.value], current, less) else [];
    if q.Some? {
      assert current !in qs[q.value];
      InsertOrderedDistinct(qs[q.value], current, less);
    }
    GiveUp(status, qs, place, current, idle, initial, to, q, list, qs1, place[current := q]);
    ScheduleOk(status[current := to], qs1, place[current := q], current, idle, initial, next, dying, qs', place');
  }

  // ----- semaphores and locks -------------------------------------------------------------

  /** Downs and ups add up, and every waiter is in the middle of sema_down. */
  ghost predicate SemasOk(value: map<nat, nat>, initially: map<nat, nat>, ups: map<nat, nat>, downs: map<nat, nat>,
                          qs: Queues, inDown: map<nat, nat>) {
    && (forall s {:trigger value[s]} | s in value :: Waiters(s) in qs && s in initially && s in ups && s in downs
                                                    && value[s] + downs[s] == initially[s] + ups[s])
    && (forall t {:trigger inDown[t]} | t in inDown :: inDown[t] in value)
    && (forall s, t {:trigger t in qs[Waiters(s)]} | Waiters(s) in qs && t in qs[Waiters(s)] ::
          t in inDown && inDown[t] == s)
  }

  /** A lock's semaphore is 1 when nobody owns it and 0 otherwise; the holder field names the owner while it holds. */
  ghost predicate LocksOk(value: map<nat, nat>, holder: map<nat, Option<nat>>, owner: map<nat, Ownership>) {
    && owner.Keys == holder.Keys
    && forall l {:trigger holder[l]} {:trigger owner[l]} | l in holder ::
         && l in value
         && value[l] == (if owner[l].Nobody? then 1 else 0)
         && holder[l] == (if owner[l].Holding? then Some(owner[l].t) else None)
  }

  lemma SemasKept(value: map<nat, nat>, initially: map<nat, nat>, ups: map<nat, nat>, downs: map<nat, nat>, qs: Queues,
                  inDown: map<nat, nat>, qs': Queues)
    requires SemasOk(value, initially, ups, downs, qs, inDown) && SameWaiters(qs, qs')
    ensures SemasOk(value, initially, ups, downs, qs', inDown)
  {
    forall s, t | Waiters(s) in qs' && t in qs'[Waiters(s)] ensures t in inDown && inDown[t] == s {
      assert t in qs[Waiters(s)];
    }
  }

  /** The first thread of a list has left it, and is still blocked. */
  lemma FrontTaken(status: map<nat, Status>, priority: map<nat, int>, queues: Queues, place: map<nat, Option<Queue>>,
                   current: nat, idle: nat, initial: nat, value: map<nat, nat>, initially: map<nat, nat>,
                   ups: map<nat, nat>, downs: map<nat, nat>, inDown: map<nat, nat>, q: Queue)
    requires ThreadsOk(status, priority, queues, place, current, idle, initial, inDown)
    requires SemasOk(value, initially, ups, downs, queues, inDown)
    requires q in queues && queues[q] != [] && (q.SleepList? || q.Waiters?)
    ensures var t, qs := queues[q][0], queues[q := queues[q][1..]];
            && t in status && status[t] == Blocked && t != idle
            && ThreadsOk(status, priority, qs, place[t := None], current, idle, initial, inDown)
            && SemasOk(value, initially, ups, downs, qs, inDown)
  {
    TakeFront(queues, place, q);
  }

  /** A blocked thread that is on no list joins the ready list. */
  lemma UnblockOk(status: map<nat, Status>, priority: map<nat, int>, queues: Queues, place: map<nat, Option<Queue>>,
                  current: nat, idle: nat, initial: nat, inDown: map<nat, nat>, t: nat, list: seq<nat>)
    requires ThreadsOk(status, priority, queues, place, current, idle, initial, inDown)
    requires t in status && status[t] == Blocked && place[t].None? && t != idle
    requires list == InsertOrdered(queues[ReadyList], t, Higher(priority))
    ensures ThreadsOk(status[t := Ready], priority, queues[ReadyList := list], place[t := Some(ReadyList)], current,
                      idle, initial, inDown)
    ensures QueuedBehind(queues[ReadyList], t, list, priority)
    ensures Descending(queues[ReadyList], priority) ==> Descending(list, priority)
  {
    QueuedHavePriority(status, priority, queues, place, current, idle, initial, inDown, ReadyList);
    InsertedBehind(queues[ReadyList], t, priority);
    assert t !in queues[ReadyList];
    InsertOrderedDistinct(queues[ReadyList], t, Higher(priority));
    Put(queues, place, ReadyList, t, list);
    if Descending(queues[ReadyList], priority) { QueuedKeepsOrder(queues[ReadyList], t, list, priority); }
  }

  lemma CreateOk(status: map<nat, Status>, priority: map<nat, int>, queues: Queues, place: map<nat, Option<Queue>>,
                 current: nat, idle: nat, initial: nat, inDown: map<nat, nat>, t: nat, pri: int)
    requires ThreadsOk(status, priority, queues, place, current, idle, initial, inDown) && t !in status && t !in inDown
    ensures ThreadsOk(status[t := Blocked], priority[t := pri], queues, place[t := None], current, idle, initial,
                      inDown)
    ensures Descending(queues[ReadyList], priority) ==> Descending(queues[ReadyList], priority[t := pri])
  {
    QueuedHavePriority(status, priority, queues, place, current, idle, initial, inDown, ReadyList);
    if Descending(queues[ReadyList], priority) { SamePriorities(queues[ReadyList], priority, priority[t := pri]); }
  }

  class Machine {
    /** The threads that exist, with their statuses and priorities. */
    var status: map<nat, Status>
    var priority: map<nat, int>
    var wakeTick: map<nat, int>
    var current: nat
    const idle: nat
    const initial: nat
    var queues: Queues
    /** The list each thread's elem is on. */
    var place: map<nat, Option<Queue>>
    /** Semaphore values, and who is in the middle of sema_down of which. */
    var value: map<nat, nat>
    var inDown: map<nat, nat>
    ghost var initially: map<nat, nat>
    ghost var ups: map<nat, nat>
    ghost var downs: map<nat, nat>
    /** The holder field of each lock. */
    var holder: map<nat, Option<nat>>
    /** How far each lock's owner has got in lock_acquire or lock_release. */
    var owner: map<nat, Ownership>

    ghost predicate Threads()
      reads this
    {
      ThreadsOk(status, priority, queues, place, current, idle, initial, inDown)
    }

    ghost predicate Semas()
      reads this
    {
      SemasOk(value, initially, ups, downs, queues, inDown) && LocksOk(value, holder, owner)
    }

    ghost predicate Valid()
      reads this
    {
      Threads() && Semas()
    }

    /** The ready list is sorted by priority. */
    ghost predicate InOrder()
      reads this
    {
      ReadyList in queues && Descending(queues[ReadyList], priority)
    }

    /** After thread_start: main runs; the idle thread exists and has just been preempted, by main, in its sema_up. */
    constructor (idle: nat, initial: nat)
      requires idle != initial
      ensures Valid() && current == initial && this.idle == idle && this.initial == initial
      ensures status == map[initial := Running, idle := Ready] && priority == map[initial := 31, idle := 0] && InOrder()
    {
      this.idle, this.initial, current := idle, initial, initial;
      status := map[initial := Running, idle := Ready];
      priority := map[initial := 31, idle := 0];
      wakeTick, value, inDown := map[], map[], map[];
      queues := map[ReadyList := [], SleepList := [], DestructionReq := []];
      place := map[initial := None, idle := None];
      initially, ups, downs := map[], map[], map[];
      holder, owner := map[], map[];
    }

    /** The current thread leaves the CPU with a new status, on list q if any, and schedule() picks the next. */
    method Switch(to: Status, q: Option<Queue>, less: (nat, nat) -> bool)
      requires Threads() && Goes(to, q, current == idle) && (q.Some? ==> q.value in queues)
      requires SemasOk(value, initially, ups, downs, Joined(queues, q, current, less), inDown)
               && LocksOk(value, holder, owner)
      modifies this`status, this`queues, this`current, this`place
      ensures Valid()
      ensures var qs := Joined(old(queues), q, old(current), less);
              && current == Next(qs, idle) && status == old(status)[old(current) := to][current := Running]
              && queues == AfterSwitch(qs, old(current), to == Dying && old(current) != initial)
      ensures old(current) != current ==> place[old(current)] == if to == Dying && old(current) != initial
              then Some(DestructionReq) else q
      ensures old(current) == current ==> to == Ready || current == idle
    {
      var curr := current;
      var qs := Joined(queues, q, curr, less);
      var next, dying := Next(qs, idle), to == Dying && curr != initial;
      var pl: map<nat, Option<Queue>> := place[curr := q][next := None];
      if dying {
        pl := pl[curr := Some(DestructionReq)];
      }
      var st, qs2 := status[curr := to][next := Running], AfterSwitch(qs, curr, dying);
      SwitchOk(status, queues, place, curr, idle, initial, to, q, less, dying, qs, next, st, qs2, pl);
      SemasKept(value, initially, ups, downs, qs, inDown, qs2);
      Become(st, qs2, next, pl);
    }

    /** The state of the threads after a step. */
    method Become(st: map<nat, Status>, qs: Queues, next: nat, pl: map<nat, Option<Queue>>)
      requires ThreadsOk(st, priority, qs, pl, next, idle, initial, inDown)
      requires SemasOk(value, initially, ups, downs, qs, inDown) && LocksOk(value, holder, owner)
      modifies this`status, this`queues, this`current, this`place
      ensures Valid() && status == st && queues == qs && current == next && place == pl
    {
      status, queues, current, place := st, qs, next, pl;
    }

    /** The same with the current thread unchanged. */
    method Move(st: map<nat, Status>, qs: Queues, pl: map<nat, Option<Queue>>)
      requires ThreadsOk(st, priority, qs, pl, current, idle, initial, inDown)
      requires SemasOk(value, initially, ups, downs, qs, inDown) && LocksOk(value, holder, owner)
      modifies this`status, this`queues, this`place
      ensures Valid() && status == st && queues == qs && place == pl
    {
      status, queues, place := st, qs, pl;
    }

    /** The loop of do_schedule: the pages of threads that died earlier are freed, each once; the current thread's
        is not among them. */
    method FreeVictims()
      requires Valid()
      modifies this`status, this`priority, this`queues, this`place
      ensures Valid() && queues == old(queues)[DestructionReq := []] && current !in old(queues)[DestructionReq]
      ensures status == old(status) - Elements<nat>(old(queues)[DestructionReq])
      ensures place == old(place) - Elements<nat>(old(queues)[DestructionReq])
      ensures queues[ReadyList] == old(queues)[ReadyList] && (old(InOrder()) ==> InOrder())
      ensures OthersKept(old(queues), queues, {DestructionReq}) && queues[DestructionReq] == []
    {
      FreeAll();
      StillInOrder(old(queues), old(priority));
    }

    /** The loop itself. */
    method FreeAll()
      requires Valid()
      modifies this`status, this`priority, this`queues, this`place
      ensures Valid() && queues == old(queues)[DestructionReq := []] && current !in old(queues)[DestructionReq]
      ensures status == old(status) - Elements<nat>(old(queues)[DestructionReq])
      ensures place == old(place) - Elements<nat>(old(queues)[DestructionReq])
      ensures forall x | x in priority :: x in old(priority) && priority[x] == old(priority)[x]
    {
      ghost var gone: set<nat> := {};
      while queues[DestructionReq] != []
        invariant Valid() && Freed(old(status), old(place), old(queues), gone, status, place, queues)
                  && current !in gone
        invariant forall x | x in priority :: x in old(priority) && priority[x] == old(priority)[x]
        decreases |queues[DestructionReq]|
      {
        FreeOne(old(status), old(place), old(queues), gone, status, place, queues);
        var victim := FreeFirst();
        gone := gone + {victim};
      }
      AllFreed(old(status), old(place), old(queues), gone, status, place, queues);
    }

    /** palloc_free_page of the first victim. */
    method FreeFirst() returns (victim: nat)
      requires Valid() && queues[DestructionReq] != []
      modifies this`status, this`priority, this`queues, this`place
      ensures Valid() && victim == old(queues)[DestructionReq][0] && victim in old(status) && victim != current
      ensures status == old(status) - {victim} && priority == old(priority) - {victim} && place == old(place) - {victim}
      ensures queues == old(queues)[DestructionReq := old(queues)[DestructionReq][1..]]
    {
      victim := queues[DestructionReq][0];
      var qs := queues[DestructionReq := queues[DestructionReq][1..]];
      FreeOk(status, queues, place, current, idle, initial, victim, status - {victim}, qs, place - {victim});
      SemasKept(value, initially, ups, downs, queues, inDown, qs);
      status, priority, place, queues := status - {victim}, priority - {victim}, place - {victim}, qs;
    }

    // ----- steps of the current thread ------------------------------------------------------

    /** thread_yield, called by the thread itself or for it by an interrupt. */
    method Yield()
      requires Valid()
      modifies this`status, this`priority, this`queues, this`place, this`current
      ensures Valid()
      ensures var list := if old(current) == idle then None else Some(ReadyList);
              var qs := Joined(old(queues)[DestructionReq := []], list, old(current), Higher(priority));
              var alive := old(status) - Elements<nat>(old(queues)[DestructionReq]);
              && current == Next(qs, idle) && queues == AfterNext(qs)
              && status == alive[old(current) := Ready][current := Running]
      ensures if old(current) == idle then RunsFirst(old(queues)[ReadyList], current, queues[ReadyList], idle)
              else RunsAfterJoining(old(queues)[ReadyList], old(current), priority, current, queues[ReadyList], idle)
      ensures OthersKept(old(queues), queues, {ReadyList, DestructionReq}) && queues[DestructionReq] == []
      ensures old(InOrder()) ==> InOrder()
    {
      FreeVictims();
      GoBehind();
    }

    lemma StillInOrder(qs: Queues, pri: map<nat, int>)
      requires Valid() && ReadyList in qs && queues[ReadyList] == qs[ReadyList]
      requires forall x | x in priority :: x in pri && priority[x] == pri[x]
      ensures Descending(qs[ReadyList], pri) ==> InOrder()
    {
      QueuedHavePriority(status, priority, queues, place, current, idle, initial, inDown, ReadyList);
      if Descending(qs[ReadyList], pri) { SamePriorities(qs[ReadyList], pri, priority); }
    }

    /** The current thread is ready again, and the next one runs. */
    method GoBehind()
      requires Valid()
      modifies this`status, this`queues, this`place, this`current
      ensures Valid()
      ensures var list := if old(current) == idle then None else Some(ReadyList);
              var qs := Joined(old(queues), list, old(current), Higher(priority));
              && current == Next(qs, idle) && queues == AfterNext(qs)
              && status == old(status)[old(current) := Ready][current := Running]
      ensures if old(current) == idle then RunsFirst(old(queues)[ReadyList], current, queues[ReadyList], idle)
              else RunsAfterJoining(old(queues)[ReadyList], old(current), priority, current, queues[ReadyList], idle)
      ensures OthersKept(old(queues), queues, {ReadyList})
      ensures old(InOrder()) ==> InOrder()
    {
      var q := if current == idle then None else Some(ReadyList);
      ghost var t, qs := current, queues;
      QueuedHavePriority(status, priority, queues, place, current, idle, initial, inDown, ReadyList);
      SemasKept(value, initially, ups, downs, queues, inDown, Joined(queues, q, current, Higher(priority)));
      Switch(Ready, q, Higher(priority));
      StepLooks(qs, q, t, Higher(priority), idle, current, queues);
      if t != idle { ReadyAgain(qs, t, priority, idle, current, queues); }
      if Descending(qs[ReadyList], priority) {
        if t == idle {
          HighestRuns(qs[ReadyList], priority, current, queues[ReadyList], idle);
        } else {
          JoinedKeepsOrder(qs[ReadyList], t, priority, current, queues[ReadyList], idle);
        }
      }
    }

    /** thread_exit: the page is queued for destruction, and another thread runs. */
    method Exit()
      requires Valid() && current != idle && current !in inDown
      modifies this`status, this`priority, this`queues, this`place, this`current
      ensures Valid() && current != old(current) && current == Next(old(queues), idle)
      ensures queues == AfterSwitch(old(queues)[DestructionReq := []], old(current), old(current) != initial)
      ensures var alive := old(status) - Elements<nat>(old(queues)[DestructionReq]);
              status == alive[old(current) := Dying][current := Running]
      ensures RunsFirst(old(queues)[ReadyList], current, queues[ReadyList], idle)
      ensures OthersKept(old(queues), queues, {ReadyList, DestructionReq})
              && queues[DestructionReq] == if old(current) == initial then [] else [old(current)]
      ensures old(InOrder()) ==> InOrder()
    {
      FreeVictims();
      Die();
    }

    /** The current thread is dying, and the next one runs. */
    method Die()
      requires Valid() && current != idle && current !in inDown
      modifies this`status, this`queues, this`place, this`current
      ensures Valid() && current != old(current) && current == Next(old(queues), idle)
      ensures queues == AfterSwitch(old(queues), old(current), old(current) != initial)
      ensures status == old(status)[old(current) := Dying][current := Running]
      ensures RunsFirst(old(queues)[ReadyList], current, queues[ReadyList], idle)
      ensures OthersKept(old(queues), queues, {ReadyList, DestructionReq})
              && queues[DestructionReq] == old(queues)[DestructionReq]
                 + if old(current) == initial then [] else [old(current)]
      ensures old(InOrder()) ==> InOrder()
    {
      ghost var t, qs := current, queues;
      Switch(Dying, None, Higher(priority));
      StepLooks(qs, None, t, Higher(priority), idle, current, AfterNext(qs));
      RestInOrder(qs[ReadyList]);
    }

    lemma RestInOrder(list: seq<nat>)
      requires ReadyList in queues && RunsFirst(list, current, queues[ReadyList], idle)
      ensures Descending(list, priority) ==> InOrder()
    {
      if Descending(list, priority) { HighestRuns(list, priority, current, queues[ReadyList], idle); }
    }

    /** The idle thread blocks, on no list. */
    method IdleBlock()
      requires Valid() && current == idle
      modifies this`status, this`queues, this`current, this`place
      ensures Valid() && current == Next(old(queues), idle) && queues == AfterNext(old(queues))
      ensures status == old(status)[idle := Blocked][current := Running]
      ensures RunsFirst(old(queues)[ReadyList], current, queues[ReadyList], idle)
      ensures OthersKept(old(queues), queues, {ReadyList})
      ensures old(InOrder()) ==> InOrder()
    {
      ghost var qs := queues;
      Switch(Blocked, None, Higher(priority));
      StepLooks(qs, None, idle, Higher(priority), idle, current, queues);
      RestInOrder(qs[ReadyList]);
    }

    /** thread_sleep. */
    method Sleep(wake: int)
      requires Valid() && current != idle && current !in inDown
      modifies this`status, this`queues, this`current, this`place, this`wakeTick
      ensures Valid() && old(current) in status && status[old(current)] == Blocked
              && place[old(current)] == Some(SleepList)
      ensures wakeTick == old(wakeTick)[old(current) := wake]
              && status == old(status)[old(current) := Blocked][current := Running]
      ensures var qs := Joined(old(queues), Some(SleepList), old(current), Earlier(wakeTick));
              current == Next(qs, idle) && queues == AfterNext(qs)
      ensures RunsFirst(old(queues)[ReadyList], current, queues[ReadyList], idle)
      ensures OthersKept(old(queues), queues, {ReadyList, SleepList})
              && QueuedByTick(old(queues)[SleepList], old(current), queues[SleepList], wakeTick)
      ensures old(InOrder()) ==> InOrder()
    {
      ghost var t, qs := current, queues;
      wakeTick := wakeTick[current := wake];
      SemasKept(value, initially, ups, downs, queues, inDown,
                Joined(queues, Some(SleepList), current, Earlier(wakeTick)));
      Switch(Blocked, Some(SleepList), Earlier(wakeTick));
      StepLooks(qs, Some(SleepList), t, Earlier(wakeTick), idle, current, queues);
      InsertedByTick(qs[SleepList], t, wakeTick);
      RestInOrder(qs[ReadyList]);
    }

    /** thread_unblock of a blocked thread that is on no list. */
    method Unblock(t: nat)
      requires Valid() && t in status && status[t] == Blocked && place[t].None? && t != idle
      modifies this`status, this`queues, this`place
      ensures Valid() && status == old(status)[t := Ready] && place == old(place)[t := Some(ReadyList)]
      ensures queues == old(queues)[ReadyList := InsertOrdered(old(queues)[ReadyList], t, Higher(priority))]
      ensures QueuedBehind(old(queues)[ReadyList], t, queues[ReadyList], priority)
      ensures old(InOrder()) ==> InOrder()
    {
      var list := InsertOrdered(queues[ReadyList], t, Higher(priority));
      UnblockOk(status, priority, queues, place, current, idle, initial, inDown, t, list);
      var qs := queues[ReadyList := list];
      SemasKept(value, initially, ups, downs, queues, inDown, qs);
      Move(status[t := Ready], qs, place[t := Some(ReadyList)]);
    }

    /** Taking the first thread off a list, before unblocking it. */
    method PopFront(q: Queue) returns (t: nat)
      requires Valid() && q in queues && queues[q] != [] && (q.SleepList? || q.Waiters?)
      modifies this`queues, this`place
      ensures t == old(queues)[q][0] && Valid() && t in status && status[t] == Blocked && t != idle
              && place == old(place)[t := None]
      ensures queues == old(queues)[q := old(queues)[q][1..]]
      ensures old(InOrder()) ==> InOrder()
    {
      t := queues[q][0];
      FrontTaken(status, priority, queues, place, current, idle, initial, value, initially, ups, downs, inDown, q);
      SetLists(queues[q := queues[q][1..]], place[t := None]);
    }

    /** The state of the lists after a step. */
    method SetLists(qs: Queues, pl: map<nat, Option<Queue>>)
      requires ThreadsOk(status, priority, qs, pl, current, idle, initial, inDown)
      requires SemasOk(value, initially, ups, downs, qs, inDown) && LocksOk(value, holder, owner)
      modifies this`queues, this`place
      ensures Valid() && queues == qs && place == pl
    {
      queues, place := qs, pl;
    }

    /** The body of the loop in thread_awake: the first sleeper becomes ready. */
    method AwakeFirst() returns (t: nat)
      requires Valid() && queues[SleepList] != []
      modifies this`status, this`queues, this`place
      ensures Valid() && t == old(queues)[SleepList][0] && status == old(status)[t := Ready]
      ensures queues == Joined(old(queues)[SleepList := old(queues)[SleepList][1..]], Some(ReadyList), t,
                               Higher(priority))
      ensures QueuedBehind(old(queues)[ReadyList], t, queues[ReadyList], priority)
              && queues[SleepList] == old(queues)[SleepList][1..]
              && OthersKept(old(queues), queues, {ReadyList, SleepList})
      ensures old(InOrder()) ==> InOrder()
    {
      t := PopFront(SleepList);
      Unblock(t);
    }

    /** thread_create up to thread_unblock: a new page, blocked, on no list. */
    method Create(t: nat, pri: int)
      requires Valid() && t !in status && t !in inDown
      modifies this`status, this`priority, this`place
      ensures Valid() && status == old(status)[t := Blocked] && priority == old(priority)[t := pri]
              && place == old(place)[t := None]
      ensures old(InOrder()) ==> InOrder()
    {
      CreateOk(status, priority, queues, place, current, idle, initial, inDown, t, pri);
      status, priority, place := status[t := Blocked], priority[t := pri], place[t := None];
    }

    /** A priority changes: by thread_set_priority or by donation. The ready list is not sorted again. */
    method SetPriority(t: nat, pri: int)
      requires Valid() && t in status
      modifies this`priority
      ensures Valid() && priority == old(priority)[t := pri]
      ensures status[t] != Ready || t == idle ==> old(InOrder()) ==> InOrder()
    {
      if InOrder() && (status[t] != Ready || t == idle) {
        assert t !in queues[ReadyList];
        SamePriorities(queues[ReadyList], priority, priority[t := pri]);
      }
      priority := priority[t := pri];
    }

    // ----- semaphores --------------------------------------------------------------------------

    method SemaInit(s: nat, v: nat)
      requires Valid() && s !in value && Waiters(s) !in queues
      modifies this`value, this`queues, this`initially, this`ups, this`downs
      ensures Valid() && value == old(value)[s := v] && queues == old(queues)[Waiters(s) := []]
      ensures old(InOrder()) ==> InOrder()
    {
      NewQueue(queues, place, Waiters(s));
      NoWaiters(value, initially, ups, downs, queues, inDown, s);
      SetQueues(queues[Waiters(s) := []]);
      SetCounts(value[s := v], initially[s := v], ups[s := 0], downs[s := 0]);
    }

    method SetQueues(qs: Queues)
      requires ThreadsOk(status, priority, qs, place, current, idle, initial, inDown)
      requires SemasOk(value, initially, ups, downs, qs, inDown) && LocksOk(value, holder, owner)
      modifies this`queues
      ensures Valid() && queues == qs
    {
      queues := qs;
    }

    method SetCounts(val: map<nat, nat>, ghost ini: map<nat, nat>, ghost up: map<nat, nat>, ghost dn: map<nat, nat>)
      requires Threads() && SemasOk(val, ini, up, dn, queues, inDown)
      modifies this`value, this`initially, this`ups, this`downs
      ensures Threads() && SemasOk(value, initially, ups, downs, queues, inDown)
      ensures value == val && initially == ini && ups == up && downs == dn
    {
      value, initially, ups, downs := val, ini, up, dn;
    }

    /** The part of sema_down after the loop, and sema_try_down's success. */
    method Take(s: nat)
      requires Valid() && s in value && value[s] > 0 && (current in inDown ==> inDown[current] == s)
      modifies this`value, this`downs, this`inDown, this`owner
      ensures Valid() && current !in inDown
      ensures value == old(value)[s := old(value)[s] - 1] && s in old(downs)
              && downs == old(downs)[s := old(downs)[s] + 1]
      ensures s in holder ==> old(owner)[s].Nobody? && owner == old(owner)[s := Acquired(current)]
      ensures s !in holder ==> owner == old(owner)
    {
      var own := if s in holder then owner[s := Acquired(current)] else owner;
      TakeOk(status, priority, queues, place, current, idle, initial, value, initially, ups, downs, inDown, holder,
             owner, s, own);
      PassSema(value[s := value[s] - 1], downs[s := downs[s] + 1], inDown - {current}, own);
    }

    /** The state of the semaphores once one has been passed. */
    method PassSema(val: map<nat, nat>, ghost dn: map<nat, nat>, ind: map<nat, nat>, own: map<nat, Ownership>)
      requires ThreadsOk(status, priority, queues, place, current, idle, initial, ind)
      requires SemasOk(val, initially, ups, dn, queues, ind) && LocksOk(val, holder, own)
      modifies this`value, this`downs, this`inDown, this`owner
      ensures Valid() && value == val && downs == dn && inDown == ind && owner == own
    {
      value, downs, inDown, owner := val, dn, ind, own;
    }

    /** One round of the loop in sema_down: the current thread takes the semaphore, or waits and will look again. */
    method SemaDownRound(s: nat) returns (passed: bool)
      requires Valid() && s in value && current != idle && (current in inDown ==> inDown[current] == s)
      modifies this`status, this`queues, this`current, this`place, this`value, this`downs, this`inDown, this`owner
      ensures Valid() && (passed <==> old(value)[s] > 0)
      ensures passed ==> value == old(value)[s := old(value)[s] - 1] && current == old(current) && current !in inDown
      ensures passed && s in holder ==> old(owner)[s].Nobody? && owner == old(owner)[s := Acquired(current)]
      ensures !passed ==> unchanged(`value) && inDown == old(inDown)[old(current) := s]
      ensures !passed ==> current != old(current) && status == old(status)[old(current) := Blocked][current := Running]
      ensures !passed ==> place[old(current)] == Some(Waiters(s))
      ensures !passed ==> var qs := Joined(old(queues), Some(Waiters(s)), old(current), Higher(priority));
                          current == Next(qs, idle) && queues == AfterNext(qs)
      ensures !passed ==> Waited(old(queues), s, old(current), priority, current, queues, idle)
      ensures passed ==> unchanged(`queues) && unchanged(`status)
      ensures old(InOrder()) ==> InOrder()
    {
      passed := value[s] > 0;
      if passed {
        Take(s);
      } else {
        WaitOn(s);
      }
    }

    /** The body of the loop: the current thread joins the waiters and blocks. */
    method WaitOn(s: nat)
      requires Valid() && s in value && current != idle && (current in inDown ==> inDown[current] == s)
      modifies this`status, this`queues, this`current, this`place, this`inDown
      ensures Valid() && current != old(current) && status == old(status)[old(current) := Blocked][current := Running]
      ensures place[old(current)] == Some(Waiters(s)) && inDown == old(inDown)[old(current) := s]
      ensures var qs := Joined(old(queues), Some(Waiters(s)), old(current), Higher(priority));
              current == Next(qs, idle) && queues == AfterNext(qs)
      ensures Waited(old(queues), s, old(current), priority, current, queues, idle)
      ensures old(InOrder()) ==> InOrder()
    {
      ghost var t, qs := current, queues;
      QueuedHavePriority(status, priority, queues, place, current, idle, initial, inDown, Waiters(s));
      InsertedBehind(queues[Waiters(s)], t, priority);
      StartWaiting(value, initially, ups, downs, queues, inDown, current, s, Higher(priority));
      inDown := inDown[current := s];
      Switch(Blocked, Some(Waiters(s)), Higher(priority));
      StepLooks(qs, Some(Waiters(s)), t, Higher(priority), idle, current, queues);
      RestInOrder(qs[ReadyList]);
    }

    method SemaTryDown(s: nat) returns (success: bool)
      requires Valid() && s in value && current !in inDown
      modifies this`value, this`downs, this`inDown, this`owner
      ensures Valid() && success == (old(value)[s] > 0)
      ensures value == if success then old(value)[s := old(value)[s] - 1] else old(value)
      ensures owner == if success && s in holder then old(owner)[s := Acquired(current)] else old(owner)
      ensures s in holder && success ==> old(s in owner && owner[s].Nobody?)
    {
      success := value[s] > 0;
      if success {
        Take(s);
      }
    }

    /** sema_up of a semaphore that is not a lock's: it wakes a waiter of maximum current priority, if there is one. */
    method SemaUp(s: nat) returns (woken: Option<nat>)
      requires Valid() && s in value && s !in holder
      modifies this`value, this`ups, this`status, this`queues, this`place
      ensures Valid() && value == old(value)[s := old(value)[s] + 1]
      ensures WokeHighest(old(queues)[Waiters(s)], priority, woken)
      ensures status == if woken.Some? then old(status)[woken.value := Ready] else old(status)
      ensures queues == AfterWaking(old(queues), s, Higher(priority))
      ensures woken.Some? ==> QueuedBehind(old(queues)[ReadyList], woken.value, queues[ReadyList], priority)
      ensures OthersKept(old(queues), queues, {ReadyList, Waiters(s)})
      ensures old(InOrder()) ==> InOrder()
    {
      woken := WakeOne(s);
      RaiseValue(s);
    }

    method RaiseValue(s: nat)
      requires Valid() && s in value && s !in holder
      modifies this`value, this`ups
      ensures Valid() && value == old(value)[s := old(value)[s] + 1]
    {
      RaisedOk(value, initially, ups, downs, queues, inDown, s);
      value, ups := value[s := value[s] + 1], ups[s := ups[s] + 1];
    }

    /** The state of the semaphores once one has been raised. */
    method RaiseSema(val: map<nat, nat>, ghost up: map<nat, nat>, own: map<nat, Ownership>)
      requires Threads() && SemasOk(val, initially, up, downs, queues, inDown) && LocksOk(val, holder, own)
      modifies this`value, this`ups, this`owner
      ensures Valid() && value == val && ups == up && owner == own
    {
      value, ups, owner := val, up, own;
    }

    /** The waiter that sema_up unblocks. */
    method WakeOne(s: nat) returns (woken: Option<nat>)
      requires Valid() && s in value
      modifies this`status, this`queues, this`place
      ensures Valid() && WokeHighest(old(queues)[Waiters(s)], priority, woken)
      ensures status == if woken.Some? then old(status)[woken.value := Ready] else old(status)
      ensures queues == AfterWaking(old(queues), s, Higher(priority))
      ensures woken.Some? ==> QueuedBehind(old(queues)[ReadyList], woken.value, queues[ReadyList], priority)
      ensures OthersKept(old(queues), queues, {ReadyList, Waiters(s)})
      ensures old(InOrder()) ==> InOrder()
    {
      if queues[Waiters(s)] == [] {
        return None;
      }
      ghost var qs := queues;
      AfterWakingOthers(qs, s, Higher(priority));
      SortWaiters(s);
      FirstIsHighest(qs[Waiters(s)], queues[Waiters(s)], priority);
      AfterWakingIs(qs, s, Higher(priority), queues[Waiters(s)]);
      var t := WakeFirst(s);
      woken := Some(t);
    }

    /** The first waiter becomes ready. */
    method WakeFirst(s: nat) returns (t: nat)
      requires Valid() && s in value && queues[Waiters(s)] != []
      modifies this`status, this`queues, this`place
      ensures Valid() && t == old(queues)[Waiters(s)][0] && status == old(status)[t := Ready]
      ensures var popped := old(queues)[Waiters(s) := old(queues)[Waiters(s)][1..]];
              queues == popped[ReadyList := InsertOrdered(popped[ReadyList], t, Higher(priority))]
      ensures QueuedBehind(old(queues)[ReadyList], t, queues[ReadyList], priority)
      ensures old(InOrder()) ==> InOrder()
    {
      t := PopFront(Waiters(s));
      Unblock(t);
    }

    /** list_sort of the waiters, by current priority. */
    method SortWaiters(s: nat)
      requires Valid() && s in value
      modifies this`queues
      ensures Valid() && queues == old(queues)[Waiters(s) := SortedBy(old(queues)[Waiters(s)], Higher(priority))]
      ensures && StablySorts(old(queues)[Waiters(s)], queues[Waiters(s)], Higher(priority))
              && Distinct(queues[Waiters(s)])
              && Elements(queues[Waiters(s)]) == Elements(old(queues)[Waiters(s)])
              && |queues[Waiters(s)]| == |old(queues)[Waiters(s)]|
                 && forall t | t in old(queues)[Waiters(s)] :: t in priority
      ensures old(InOrder()) ==> InOrder()
    {
      var sorted := SortedBy(queues[Waiters(s)], Higher(priority));
      SortedByIs(queues[Waiters(s)], Higher(priority), sorted);
      Reorder(queues, place, Waiters(s), sorted);
      var qs := queues[Waiters(s) := sorted];
      Reordered(value, initially, ups, downs, queues, inDown, qs, s);
      SetQueues(qs);
    }

    // ----- locks ---------------------------------------------------------------------------------

    method LockInit(l: nat)
      requires Valid() && l !in value && l !in holder && Waiters(l) !in queues
      modifies this`value, this`queues, this`initially, this`ups, this`downs, this`holder, this`owner
      ensures Valid() && holder == old(holder)[l := None] && value == old(value)[l := 1]
      ensures owner == old(owner)[l := Nobody] && queues == old(queues)[Waiters(l) := []]
    {
      SemaInit(l, 1);
      SetOwner(holder[l := None], owner[l := Nobody]);
    }

    method SetOwner(h: map<nat, Option<nat>>, own: map<nat, Ownership>)
      requires Valid() && LocksOk(value, h, own)
      modifies this`holder, this`owner
      ensures Valid() && holder == h && owner == own
    {
      holder, owner := h, own;
    }

    /** The end of lock_acquire or lock_try_acquire, once the semaphore has been taken. */
    method SetHolder(l: nat)
      requires Valid() && l in holder && owner[l] == Acquired(current)
      modifies this`holder, this`owner
      ensures Valid() && old(holder)[l].None? && holder == old(holder)[l := Some(current)]
    {
      holder, owner := holder[l := Some(current)], owner[l := Holding(current)];
    }

    /** lock_release up to sema_up. */
    method ClearHolder(l: nat)
      requires Valid() && l in holder && holder[l] == Some(current)
      modifies this`holder, this`owner
      ensures Valid() && holder == old(holder)[l := None] && l in owner && owner[l] == Releasing(current)
    {
      holder, owner := holder[l := None], owner[l := Releasing(current)];
    }

    /** The sema_up of lock_release. */
    method LockUp(l: nat) returns (woken: Option<nat>)
      requires Valid() && l in holder && owner[l] == Releasing(current)
      modifies this`value, this`ups, this`status, this`queues, this`place, this`owner
      ensures Valid() && old(value)[l] == 0 && value == old(value)[l := 1] && l in owner && owner[l].Nobody?
      ensures WokeHighest(old(queues)[Waiters(l)], priority, woken)
              && queues == AfterWaking(old(queues), l, Higher(priority))
      ensures woken.Some? ==> QueuedBehind(old(queues)[ReadyList], woken.value, queues[ReadyList], priority)
      ensures OthersKept(old(queues), queues, {ReadyList, Waiters(l)})
      ensures old(InOrder()) ==> InOrder()
    {
      woken := WakeOne(l);
      GiveBack(l);
    }

    /** The count of a lock's semaphore goes up, and nobody owns the lock any more. */
    method GiveBack(l: nat)
      requires Valid() && l in holder && owner[l].Releasing?
      modifies this`value, this`ups, this`owner
      ensures Valid() && l in old(value) && old(value)[l] == 0 && value == old(value)[l := 1]
              && owner == old(owner)[l := Nobody]
    {
      RaisedOk(value, initially, ups, downs, queues, inDown, l);
      RaiseSema(value[l := value[l] + 1], ups[l := ups[l] + 1], owner[l := Nobody]);
    }

    // ----- runs ------------------------------------------------------------------------------------

    /** In every reachable state: one thread runs; the ready list holds the other ready threads (but for the idle
        one), each once; no elem is on two lists. */
    lemma Placement(t: nat)
      requires Valid() && t in status
      ensures status[t] == Running <==> t == current
      ensures t in queues[ReadyList] <==> status[t] == Ready && t != idle
      ensures Distinct(queues[ReadyList])
      ensures forall q, r {:trigger t in queues[q], t in queues[r]} | q in queues && r in queues && t in queues[q]
              && t in queues[r] :: q == r
      ensures (exists q :: q in queues && (q.SleepList? || q.Waiters?) && t in queues[q]) ==> status[t] == Blocked
      ensures t in queues[DestructionReq] ==> status[t] == Dying && t != current
    {
    }

    /** The priority of a thread in the ready list changes: the list is not sorted again. */
    ghost predicate Unsorts(step: Step)
      reads this
    {
      step.PriorityStep? && step.t in status && status[step.t] == Ready && step.t != idle
    }

    /** Any run keeps the invariant, and with it the count of every semaphore; and it keeps the ready list sorted, so
        that the ready thread of highest priority runs next, as long as no thread's priority changes in the list. */
    method Run(steps: seq<Step>) returns (ghost unsorted: bool)
      requires Valid()
      modifies this
      ensures Valid()
      ensures old(InOrder()) && !unsorted ==> InOrder()
      ensures forall s | s in value :: s in initially && s in ups && s in downs
                                       && value[s] + downs[s] == initially[s] + ups[s]
    {
      unsorted := false;
      for i := 0 to |steps|
        invariant Valid() && (old(InOrder()) && !unsorted ==> InOrder())
      {
        unsorted := unsorted || Unsorts(steps[i]);
        Perform(steps[i]);
      }
    }

    /** A step, if the current thread can take it. */
    method Perform(step: Step)
      requires Valid()
      modifies this
      ensures Valid()
      ensures old(InOrder()) && !old(Unsorts(step)) ==> InOrder()
    {
      if current in inDown && !step.YieldStep? {
        if current != idle { var _ := SemaDownRound(inDown[current]); }
        return;
      }
      if step.SemaStep() {
        PerformSema(step);
      } else if step.LockStep() {
        PerformLock(step);
      } else {
        PerformThread(step);
      }
    }

    method PerformThread(step: Step)
      requires Valid() && (current in inDown ==> step.YieldStep?) && !step.SemaStep() && !step.LockStep()
      modifies this
      ensures Valid()
      ensures old(InOrder()) && !old(Unsorts(step)) ==> InOrder()
    {
      match step {
        case YieldStep => Yield();
        case ExitStep => if current != idle { Exit(); }
        case IdleStep => if current == idle { IdleBlock(); }
        case SleepStep(w) => if current != idle { Sleep(w); }
        case AwakeStep => if queues[SleepList] != [] { var _ := AwakeFirst(); }
        case CreateStep(t, pri) => if t !in status && t !in inDown { Create(t, pri); }
        case UnblockStep(t) => if t in status && status[t] == Blocked && t != idle && place[t].None? { Unblock(t); }
        case PriorityStep(t, pri) => if t in status { SetPriority(t, pri); }
      }
    }

    method PerformSema(step: Step)
      requires Valid() && current !in inDown && step.SemaStep()
      modifies this
      ensures Valid()
      ensures old(InOrder()) ==> InOrder()
    {
      match step {
        case InitStep(s, v) => if s !in value && Waiters(s) !in queues { SemaInit(s, v); }
        case DownStep(s) => if s in value && current != idle { var _ := SemaDownRound(s); }
        case TryStep(s) => if s in value { var _ := SemaTryDown(s); }
        case UpStep(s) => if s in value && s !in holder { var _ := SemaUp(s); }
      }
    }

    method PerformLock(step: Step)
      requires Valid() && current !in inDown && step.LockStep()
      modifies this
      ensures Valid()
      ensures old(InOrder()) ==> InOrder()
    {
      match step {
        case LockInitStep(l) => if l !in value && l !in holder && Waiters(l) !in queues { LockInit(l); }
        case ClearStep(l) => if l in holder && holder[l] == Some(current) { ClearHolder(l); }
        case HolderStep(l) => if l in holder && owner[l] == Acquired(current) { SetHolder(l); }
        case LockUpStep(l) => if l in holder && owner[l] == Releasing(current) { var _ := LockUp(l); }
      }
    }
  }

  datatype Step = YieldStep | ExitStep | IdleStep | SleepStep(wake: int) | AwakeStep
    | CreateStep(t: nat, pri: int) | UnblockStep(t: nat) | PriorityStep(t: nat, pri: int)
    | InitStep(s: nat, v: nat) | DownStep(s: nat) | TryStep(s: nat) | UpStep(s: nat)
    | LockInitStep(l: nat) | ClearStep(l: nat) | HolderStep(l: nat) | LockUpStep(l: nat)
  {
    predicate SemaStep() { InitStep? || DownStep? || TryStep? || UpStep? }

    predicate LockStep() { LockInitStep? || ClearStep? || HolderStep? || LockUpStep? }
  }

  lemma LocksTaken(value: map<nat, nat>, holder: map<nat, Option<nat>>, owner: map<nat, Ownership>, s: nat, t: nat)
    requires LocksOk(value, holder, owner) && s in value && value[s] > 0
    ensures s in holder ==> owner[s].Nobody?
    ensures LocksOk(value[s := value[s] - 1], holder, if s in holder then owner[s := Acquired(t)] else owner)
  {
  }

  lemma TakeOk(status: map<nat, Status>, priority: map<nat, int>, qs: Queues, place: map<nat, Option<Queue>>,
               current: nat, idle: nat, initial: nat, value: map<nat, nat>, initially: map<nat, nat>,
               ups: map<nat, nat>, downs: map<nat, nat>, inDown: map<nat, nat>, holder: map<nat, Option<nat>>,
               owner: map<nat, Ownership>, s: nat, owner': map<nat, Ownership>)
    requires ThreadsOk(status, priority, qs, place, current, idle, initial, inDown)
    requires SemasOk(value, initially, ups, downs, qs, inDown) && LocksOk(value, holder, owner)
    requires s in value && value[s] > 0 && (current in inDown ==> inDown[current] == s)
    requires owner' == if s in holder then owner[s := Acquired(current)] else owner
    ensures s in downs && (s in holder ==> owner[s].Nobody?)
    ensures ThreadsOk(status, priority, qs, place, current, idle, initial, inDown - {current})
    ensures SemasOk(value[s := value[s] - 1], initially, ups, downs[s := downs[s] + 1], qs, inDown - {current})
    ensures LocksOk(value[s := value[s] - 1], holder, owner')
  {
    NotWaiting(status, qs, place, current, idle, initial);
    LocksTaken(value, holder, owner, s, current);
  }

  /** The first of the sorted waiters moves to the ready list. */
  function AfterWaking(qs: Queues, s: nat, less: (nat, nat) -> bool): Queues {
    if Waiters(s) !in qs || SortedBy(qs[Waiters(s)], less) == [] then qs
    else
      var sorted := SortedBy(qs[Waiters(s)], less);
      Joined(qs[Waiters(s) := sorted[1..]], Some(ReadyList), sorted[0], less)
  }

  lemma RaisedOk(value: map<nat, nat>, initially: map<nat, nat>, ups: map<nat, nat>, downs: map<nat, nat>, qs: Queues,
                 inDown: map<nat, nat>, s: nat)
    requires SemasOk(value, initially, ups, downs, qs, inDown) && s in value
    ensures SemasOk(value[s := value[s] + 1], initially, ups[s := ups[s] + 1], downs, qs, inDown)
  {
  }

  lemma AfterWakingOthers(qs: Queues, s: nat, less: (nat, nat) -> bool)
    requires Waiters(s) in qs && ReadyList in qs
    ensures OthersKept(qs, AfterWaking(qs, s, less), {ReadyList, Waiters(s)})
  {
  }

  lemma AfterWakingIs(qs: Queues, s: nat, less: (nat, nat) -> bool, sorted: seq<nat>)
    requires Waiters(s) in qs && ReadyList in qs && sorted == SortedBy(qs[Waiters(s)], less) != []
    ensures var popped := qs[Waiters(s) := sorted][Waiters(s) := sorted[1..]];
            AfterWaking(qs, s, less) == popped[ReadyList := InsertOrdered(popped[ReadyList], sorted[0], less)]
  {
    assert qs[Waiters(s) := sorted][Waiters(s) := sorted[1..]] == qs[Waiters(s) := sorted[1..]];
  }

  /** The waiter that has waited longest among those of maximum priority. */
  ghost predicate WokeHighest(waiters: seq<nat>, priority: map<nat, int>, woken: Option<nat>) {
    if waiters == [] then woken.None?
    else
      woken.Some? && exists i :: 0 <= i < |waiters| && waiters[i] == woken.value && FirstHighest(waiters, priority, i)
  }

  ghost predicate FirstHighest(waiters: seq<nat>, priority: map<nat, int>, i: nat)
    requires i < |waiters|
  {
    && waiters[i] in priority
    && (forall j | 0 <= j < |waiters| && waiters[j] in priority :: priority[waiters[j]] <= priority[waiters[i]])
    && (forall j | 0 <= j < i && waiters[j] in priority :: priority[waiters[j]] < priority[waiters[i]])
  }

  lemma NobodyBefore(s: seq<nat>, t: nat)
    requires s != [] && Distinct(s)
    ensures !Precedes(s, t, s[0])
  {
  }

  lemma FirstIsHighest(waiters: seq<nat>, sorted: seq<nat>, priority: map<nat, int>)
    requires waiters != [] && Elements(sorted) == Elements(waiters) && |sorted| == |waiters| && Distinct(sorted)
    requires StablySorts(waiters, sorted, Higher(priority)) && forall t | t in waiters :: t in priority
    ensures WokeHighest(waiters, priority, Some(sorted[0]))
  {
    assert sorted[0] in Elements(sorted);
    var i :| 0 <= i < |waiters| && waiters[i] == sorted[0];
    forall j | 0 <= j < |waiters| && waiters[j] in priority
      ensures priority[waiters[j]] <= priority[sorted[0]] && (j < i ==> priority[waiters[j]] < priority[sorted[0]])
    {
      assert waiters[j] in Elements(sorted);
      var k :| 0 <= k < |sorted| && sorted[k] == waiters[j];
      assert k > 0 ==> !Higher(priority)(sorted[k], sorted[0]);
      NobodyBefore(sorted, waiters[j]);
    }
    assert FirstHighest(waiters, priority, i);
  }

  lemma Reordered(value: map<nat, nat>, initially: map<nat, nat>, ups: map<nat, nat>, downs: map<nat, nat>, qs: Queues,
                  inDown: map<nat, nat>, qs': Queues, s: nat)
    requires SemasOk(value, initially, ups, downs, qs, inDown) && Waiters(s) in qs && Waiters(s) in qs'
    requires qs' == qs[Waiters(s) := qs'[Waiters(s)]] && Elements(qs'[Waiters(s)]) == Elements(qs[Waiters(s)])
    ensures SemasOk(value, initially, ups, downs, qs', inDown)
  {
    forall r, t | Waiters(r) in qs' && t in qs'[Waiters(r)] ensures t in inDown && inDown[t] == r {
      assert t in Elements(qs'[Waiters(r)]);
      assert t in qs[Waiters(r)];
    }
  }

  lemma NoWaiters(value: map<nat, nat>, initially: map<nat, nat>, ups: map<nat, nat>, downs: map<nat, nat>, qs: Queues,
                  inDown: map<nat, nat>, s: nat)
    requires SemasOk(value, initially, ups, downs, qs, inDown) && Waiters(s) !in qs
    ensures SemasOk(value, initially, ups, downs, qs[Waiters(s) := []], inDown)
  {
    forall r, t | Waiters(r) in qs[Waiters(s) := []] && t in qs[Waiters(s) := []][Waiters(r)]
      ensures t in inDown && inDown[t] == r
    {
      assert t in qs[Waiters(r)];
    }
  }

  lemma NewQueue(qs: Queues, place: map<nat, Option<Queue>>, q: Queue)
    requires QueuesOk(qs, place) && q !in qs
    ensures QueuesOk(qs[q := []], place)
  {
    forall r, t | r in qs[q := []] && t in qs[q := []][r] ensures t in place && place[t] == Some(r) {
      assert t in qs[r];
    }
  }

  /** The current thread waits for nothing. */
  lemma NotWaiting(status: map<nat, Status>, qs: Queues, place: map<nat, Option<Queue>>, current: nat, idle: nat,
                   initial: nat)
    requires QueuesOk(qs, place) && StatusOk(status, place, current, idle, initial, true)
    ensures forall q {:trigger qs[q]} | q in qs :: current !in qs[q]
  {
    RunningNowhere(status, place, current, idle, initial);
  }

  lemma StartWaiting(value: map<nat, nat>, initially: map<nat, nat>, ups: map<nat, nat>, downs: map<nat, nat>,
                     qs: Queues, inDown: map<nat, nat>, t: nat, s: nat, less: (nat, nat) -> bool)
    requires SemasOk(value, initially, ups, downs, qs, inDown) && s in value && (t in inDown ==> inDown[t] == s)
    ensures Waiters(s) in qs
            && SemasOk(value, initially, ups, downs, qs[Waiters(s) := InsertOrdered(qs[Waiters(s)], t, less)],
                       inDown[t := s])
  {
    var p := InsertPos(qs[Waiters(s)], t, less);
    var list := InsertOrdered(qs[Waiters(s)], t, less);
    var qs' := qs[Waiters(s) := list];
    forall r, x | Waiters(r) in qs' && x in qs'[Waiters(r)] ensures x in inDown[t := s] && inDown[t := s][x] == r {
      if r == s && x != t {
        assert x in qs[Waiters(s)];
      } else if r != s {
        assert x in qs[Waiters(r)];
      }
    }
  }
}
