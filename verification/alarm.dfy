/** The alarm clock: timer_sleep, thread_sleep, timer_interrupt and thread_awake
    (pintos/devices/timer.c, pintos/threads/thread.c). */
module Alarm {
  import opened Orderings

  /** A thread asleep: its wake-up tick, and (for the proofs) the tick at which it went to sleep and a number
      that tells who came first. */
  datatype Sleeper = Sleeper(thread: nat, wakeTick: int, since: int, arrival: nat)

  /** cmp_thread_ticks. */
  function Earlier(): (Sleeper, Sleeper) -> bool {
    (a: Sleeper, b: Sleeper) => a.wakeTick < b.wakeTick
  }

  /** The tick whose interrupt wakes the sleeper: its wake-up tick, or the next one if that has passed. */
  function DueTick(s: Sleeper): int {
    if s.wakeTick > s.since + 1 then s.wakeTick else s.since + 1
  }

  /** The list is sorted by wake-up tick, and equal ones by arrival; nobody is overdue. */
  ghost predicate ListOk(list: seq<Sleeper>, ticks: int, arrivals: nat) {
    && (forall i, j {:trigger list[i], list[j]} | 0 <= i < j < |list| ::
         list[i].wakeTick < list[j].wakeTick
           || (list[i].wakeTick == list[j].wakeTick && list[i].arrival < list[j].arrival))
    && (forall i | 0 <= i < |list| :: list[i].since <= ticks < DueTick(list[i]) && list[i].arrival < arrivals)
  }

  lemma InsertOk(list: seq<Sleeper>, ticks: int, arrivals: nat, s: Sleeper)
    requires ListOk(list, ticks, arrivals) && s.since == ticks && s.arrival == arrivals
    ensures ListOk(InsertOrdered(list, s, Earlier()), ticks, arrivals + 1)
  {
    var p := InsertPos(list, s, Earlier());
    forall k | 0 <= k < p ensures list[k].wakeTick <= s.wakeTick {
      assert !Earlier()(s, list[k]);
    }
    forall k | p <= k < |list| ensures s.wakeTick < list[k].wakeTick {
      assert k == p || list[p].wakeTick <= list[k].wakeTick;
    }
    Inserted(list, ticks, arrivals, s, p, InsertOrdered(list, s, Earlier()));
  }

  lemma Inserted(list: seq<Sleeper>, ticks: int, arrivals: nat, s: Sleeper, p: nat, t: seq<Sleeper>)
    requires ListOk(list, ticks, arrivals) && s.since == ticks && s.arrival == arrivals
    requires p <= |list| && (forall k | 0 <= k < p :: list[k].wakeTick <= s.wakeTick)
    requires forall k | p <= k < |list| :: s.wakeTick < list[k].wakeTick
    requires |t| == |list| + 1
    requires forall i {:trigger t[i]} | 0 <= i < |t| ::
               t[i] == if i < p then list[i] else if i == p then s else list[i - 1]
    ensures ListOk(t, ticks, arrivals + 1)
  {
  }

  /** A sleeper that was made ready, and the tick of the interrupt that did it. */
  datatype Woken = Woken(sleeper: Sleeper, tick: int)

  predicate Before(a: Sleeper, b: Sleeper) { a.wakeTick == b.wakeTick ==> a.arrival < b.arrival }

  /** Everyone was woken in the interrupt of the due tick; equal wake-up ticks woke in order of arrival, and before
      those still asleep. */
  ghost predicate WokenOk(woken: seq<Woken>, list: seq<Sleeper>, ticks: int, arrivals: nat) {
    && (forall i | 0 <= i < |woken| :: woken[i].tick == DueTick(woken[i].sleeper) <= ticks
                                       && woken[i].sleeper.arrival < arrivals)
    && (forall i, j | 0 <= i < j < |woken| :: Before(woken[i].sleeper, woken[j].sleeper))
    && (forall i, j | 0 <= i < |woken| && 0 <= j < |list| :: Before(woken[i].sleeper, list[j]))
  }

  /** Nobody is lost: whoever went to sleep is on the list or has been woken. */
  ghost predicate AllThere(everyone: seq<Sleeper>, woken: seq<Woken>, list: seq<Sleeper>) {
    forall k {:trigger everyone[k]} | 0 <= k < |everyone| ::
      everyone[k] in list || Woken(everyone[k], DueTick(everyone[k])) in woken
  }

  /** As ListOk in the middle of an interrupt: those due at this very tick may still be there. */
  ghost predicate Waking(list: seq<Sleeper>, ticks: int, arrivals: nat) {
    && (forall i, j {:trigger list[i], list[j]} | 0 <= i < j < |list| ::
         list[i].wakeTick < list[j].wakeTick
           || (list[i].wakeTick == list[j].wakeTick && list[i].arrival < list[j].arrival))
    && (forall i | 0 <= i < |list| :: list[i].since < ticks <= DueTick(list[i]) && list[i].arrival < arrivals)
  }

  lemma WakeFirst(list: seq<Sleeper>, woken: seq<Woken>, everyone: seq<Sleeper>, ticks: int, arrivals: nat)
    requires Waking(list, ticks, arrivals) && WokenOk(woken, list, ticks, arrivals) && AllThere(everyone, woken, list)
    requires list != [] && list[0].wakeTick <= ticks
    ensures DueTick(list[0]) == ticks
    ensures var woken' := woken + [Woken(list[0], ticks)];
            Waking(list[1..], ticks, arrivals) && WokenOk(woken', list[1..], ticks, arrivals)
              && AllThere(everyone, woken', list[1..])
  {
    var woken' := woken + [Woken(list[0], ticks)];
    assert woken'[|woken|] in woken';
    forall k | 0 <= k < |everyone|
      ensures everyone[k] in list[1..] || Woken(everyone[k], DueTick(everyone[k])) in woken'
    {
      if everyone[k] in list && everyone[k] !in list[1..] {
        assert everyone[k] == list[0];
      }
    }
  }

  lemma {:induction false} Arrive(list: seq<Sleeper>, woken: seq<Woken>, everyone: seq<Sleeper>, ticks: int, s: Sleeper)
    requires WokenOk(woken, list, ticks, |everyone|) && AllThere(everyone, woken, list) && s.arrival == |everyone|
    ensures WokenOk(woken, InsertOrdered(list, s, Earlier()), ticks, |everyone| + 1)
    ensures AllThere(everyone + [s], woken, InsertOrdered(list, s, Earlier()))
  {
    var p := InsertPos(list, s, Earlier());
    var t := InsertOrdered(list, s, Earlier());
    forall j | 0 <= j < |t| ensures t[j] == if j < p then list[j] else if j == p then s else list[j - 1] {}
    ArriveWoken(list, woken, |everyone|, ticks, s, p, t);
    ArriveThere(list, woken, everyone, s, p, t);
  }

  lemma {:induction false} ArriveWoken(list: seq<Sleeper>, woken: seq<Woken>, arrivals: nat, ticks: int, s: Sleeper,
                                       p: nat, t: seq<Sleeper>)
    requires WokenOk(woken, list, ticks, arrivals) && s.arrival == arrivals && p <= |list| && |t| == |list| + 1
    requires forall j {:trigger t[j]} | 0 <= j < |t| ::
               t[j] == if j < p then list[j] else if j == p then s else list[j - 1]
    ensures WokenOk(woken, t, ticks, arrivals + 1)
  {
  }

  lemma {:induction false} ArriveThere(list: seq<Sleeper>, woken: seq<Woken>, everyone: seq<Sleeper>, s: Sleeper,
                                       p: nat, t: seq<Sleeper>)
    requires AllThere(everyone, woken, list) && p <= |list| && |t| == |list| + 1
    requires forall j {:trigger t[j]} | 0 <= j < |t| ::
               t[j] == if j < p then list[j] else if j == p then s else list[j - 1]
    ensures AllThere(everyone + [s], woken, t)
  {
    assert t[p] == s && s in t;
    forall x | x in list ensures x in t {
      var i :| 0 <= i < |list| && list[i] == x;
      assert t[if i < p then i else i + 1] == x;
    }
  }

  /** Once the first sleeper is not due yet, nobody is. */
  lemma RestLater(list: seq<Sleeper>, ticks: int, arrivals: nat)
    requires Waking(list, ticks, arrivals) && (list == [] || list[0].wakeTick > ticks)
    ensures ListOk(list, ticks, arrivals)
  {
    forall i | 0 <= i < |list| ensures list[i].wakeTick > ticks {
      assert i > 0 ==> list[0].wakeTick <= list[i].wakeTick;
    }
  }

  class Clock {
    /** The static tick counter. */
    var ticks: int
    var sleepList: seq<Sleeper>
    /** Everyone who ever went to sleep, in order of arrival, and who has been woken. */
    var everyone: seq<Sleeper>
    ghost var woken: seq<Woken>

    ghost predicate Valid()
      reads this
    {
      ListOk(sleepList, ticks, |everyone|) && WokenOk(woken, sleepList, ticks, |everyone|)
        && AllThere(everyone, woken, sleepList)
    }

    constructor ()
      ensures Valid() && ticks == 0 && everyone == []
    {
      ticks, sleepList, woken, everyone := 0, [], [], [];
    }

    /** In every reachable state a sleeper has been woken if and only if its due tick has come, in the interrupt of
        that tick; otherwise it is on the list. */
    lemma WokenWhenDue(k: nat)
      requires Valid() && k < |everyone|
      ensures DueTick(everyone[k]) <= ticks ==> Woken(everyone[k], DueTick(everyone[k])) in woken
                                                && everyone[k] !in sleepList
      ensures DueTick(everyone[k]) > ticks ==> everyone[k] in sleepList
                                               && forall i | 0 <= i < |woken| :: woken[i].sleeper != everyone[k]
    {
      var s := everyone[k];
      assert forall i | 0 <= i < |sleepList| :: DueTick(sleepList[i]) > ticks;
    }

    /** thread_sleep (wake): the thread is put on the sleep list, whatever tick wake is. */
    method ThreadSleep(thread: nat, wake: int) returns (ghost s: Sleeper)
      requires Valid()
      modifies this`sleepList, this`everyone
      ensures Valid() && s == Sleeper(thread, wake, ticks, |old(everyone)|) && everyone == old(everyone) + [s]
      ensures sleepList == InsertOrdered(old(sleepList), s, Earlier())
    {
      var sleeper := Sleeper(thread, wake, ticks, |everyone|);
      s := sleeper;
      InsertOk(sleepList, ticks, |everyone|, s);
      Arrive(sleepList, woken, everyone, ticks, s);
      sleepList := InsertOrdered(sleepList, sleeper, Earlier());
      everyone := everyone + [sleeper];
    }

    /** timer_sleep (n), once timer_ticks has returned start: interrupts are on until thread_sleep, so ticks may have
        passed and others may have gone to sleep. The sleeper is due at the n-th tick after start, or at the next one
        if that has passed. */
    method TimerSleep(thread: nat, n: int, start: int) returns (ghost s: Sleeper)
      requires Valid() && start <= ticks
      modifies this`sleepList, this`everyone
      ensures Valid() && s.thread == thread && everyone == old(everyone) + [s]
      ensures sleepList == InsertOrdered(old(sleepList), s, Earlier())
      ensures DueTick(s) == if start + n > ticks then start + n else ticks + 1
      ensures DueTick(s) >= start + n && DueTick(s) > ticks
    {
      s := ThreadSleep(thread, start + n);
    }

    /** In the middle of an interrupt. */
    ghost predicate Wakening()
      reads this
    {
      Waking(sleepList, ticks, |everyone|) && WokenOk(woken, sleepList, ticks, |everyone|)
        && AllThere(everyone, woken, sleepList)
    }

    /** The body of the loop in thread_awake. */
    method AwakeFront() returns (t: nat)
      requires Wakening() && sleepList != [] && sleepList[0].wakeTick <= ticks
      modifies this`sleepList, this`woken
      ensures Wakening() && t == old(sleepList)[0].thread && sleepList == old(sleepList)[1..]
      ensures DueTick(old(sleepList)[0]) == ticks
    {
      WakeFirst(sleepList, woken, everyone, ticks, |everyone|);
      woken := woken + [Woken(sleepList[0], ticks)];
      t := sleepList[0].thread;
      sleepList := sleepList[1..];
    }

    /** timer_interrupt: exactly the sleepers due at the new tick are made ready, in list order. */
    method TimerInterrupt() returns (ready: seq<nat>)
      requires Valid()
      modifies this
      ensures Valid() && ticks == old(ticks) + 1 && everyone == old(everyone)
      ensures |ready| <= |old(sleepList)| && sleepList == old(sleepList)[|ready|..]
      ensures forall i | 0 <= i < |ready| :: ready[i] == old(sleepList)[i].thread
      ensures forall i | 0 <= i < |old(sleepList)| :: DueTick(old(sleepList)[i]) == ticks <==> i < |ready|
    {
      ready := [];
      ticks := ticks + 1;
      while sleepList != [] && sleepList[0].wakeTick <= ticks
        invariant |ready| <= |old(sleepList)| && sleepList == old(sleepList)[|ready|..] && ticks == old(ticks) + 1
                  && everyone == old(everyone)
        invariant Wakening()
        invariant forall i | 0 <= i < |ready| :: ready[i] == old(sleepList)[i].thread
                                                 && DueTick(old(sleepList)[i]) == ticks
        decreases |sleepList|
      {
        assert sleepList[0] == old(sleepList)[|ready|] && sleepList[1..] == old(sleepList)[|ready| + 1..];
        var t := AwakeFront();
        ready := ready + [t];
      }
      RestLater(sleepList, ticks, |everyone|);
      forall i | |ready| <= i < |old(sleepList)| ensures DueTick(old(sleepList)[i]) > ticks {
        assert old(sleepList)[i] == sleepList[i - |ready|];
      }
    }
  }
}
