/** A directory file of fixed-size slots as a map from names to sectors (pintos/filesys/directory.c).

    Slot i is the 20-byte entry at offset 20 * i of the directory's file. Reading an entry comes up short at the
    end of the file, but also whenever there is no memory for inode_read_at's bounce buffer; the code takes
    either for the end. The index of the first read that came up short is called stop below. */
module Directories {
  import opened Wrappers

  const NAME_MAX := 14

  datatype Entry = Entry(sector: nat, name: string, inUse: bool)

  predicate Named(e: Entry, name: string) { e.inUse && e.name == name }

  function Upto(slots: seq<Entry>, stop: nat): nat { if stop < |slots| then stop else |slots| }

  // ----- what the operations do ---------------------------------------------------------

  /** lookup: the first slot before the short read that is in use under the name. */
  function SlotOf(slots: seq<Entry>, name: string, i: nat, stop: nat): (r: Option<nat>)
    ensures r.Some? ==> i <= r.value < Upto(slots, stop) && Named(slots[r.value], name)
    ensures r.None? ==> forall k | i <= k < Upto(slots, stop) :: !Named(slots[k], name)
    decreases |slots| - i
  {
    if i >= Upto(slots, stop) then None
    else if Named(slots[i], name) then Some(i)
    else SlotOf(slots, name, i + 1, stop)
  }

  /** Where dir_add writes: the first free slot, or where reading stopped. */
  function FreeSlot(slots: seq<Entry>, i: nat, stop: nat): (r: nat)
    requires i <= Upto(slots, stop)
    ensures i <= r <= Upto(slots, stop) && (r < Upto(slots, stop) ==> !slots[r].inUse)
    ensures forall k | i <= k < r :: slots[k].inUse
    decreases |slots| - i
  {
    if i >= Upto(slots, stop) || !slots[i].inUse then i else FreeSlot(slots, i + 1, stop)
  }

  function Add(slots: seq<Entry>, name: string, sector: nat, stop1: nat, stop2: nat,
               written: bool): (bool, seq<Entry>) {
    if name == "" || |name| > NAME_MAX || SlotOf(slots, name, 0, stop1).Some? then (false, slots)
    else
      var at := FreeSlot(slots, 0, stop2);
      if at < |slots| && written then (true, slots[at := Entry(sector, name, true)]) else (false, slots)
  }

  function Remove(slots: seq<Entry>, name: string, stop: nat, gotInode: bool, written: bool): (bool, seq<Entry>) {
    var at := SlotOf(slots, name, 0, stop);
    if at.Some? && gotInode && written then (true, slots[at.value := slots[at.value].(inUse := false)])
    else (false, slots)
  }

  // ----- the map ---------------------------------------------------------------------------

  /** The map that a directory stands for. */
  function Names(slots: seq<Entry>): map<string, nat> {
    if slots == [] then map[]
    else
      var last := slots[|slots| - 1];
      var m := Names(slots[..|slots| - 1]);
      if last.inUse then m[last.name := last.sector] else m
  }

  ghost predicate Unique(slots: seq<Entry>) {
    forall i, j | 0 <= i < j < |slots| && slots[i].inUse && slots[j].inUse :: slots[i].name != slots[j].name
  }

  lemma {:induction false} NamesAre(slots: seq<Entry>)
    requires Unique(slots)
    ensures forall i | 0 <= i < |slots| && slots[i].inUse ::
              slots[i].name in Names(slots) && Names(slots)[slots[i].name] == slots[i].sector
    ensures forall name | name in Names(slots) :: exists i :: 0 <= i < |slots| && Named(slots[i], name)
    ensures |Names(slots)| <= |slots|
  {
    if slots != [] {
      var init := slots[..|slots| - 1];
      NamesAre(init);
      forall i | 0 <= i < |slots| && slots[i].inUse
        ensures slots[i].name in Names(slots) && Names(slots)[slots[i].name] == slots[i].sector
      {
        if i < |init| { assert init[i] == slots[i]; }
      }
      forall name | name in Names(slots) ensures exists i :: 0 <= i < |slots| && Named(slots[i], name) {
        if name in Names(init) {
          var i :| 0 <= i < |init| && Named(init[i], name);
          assert Named(slots[i], name);
        } else {
          assert Named(slots[|slots| - 1], name);
        }
      }
    }
  }

  /** A map that agrees with all the slots in use is the one they stand for. */
  lemma {:induction false} SameNames(slots: seq<Entry>, m: map<string, nat>)
    requires Unique(slots)
    requires forall i | 0 <= i < |slots| && slots[i].inUse :: slots[i].name in m && m[slots[i].name] == slots[i].sector
    requires forall name | name in m :: exists i :: 0 <= i < |slots| && Named(slots[i], name)
    ensures Names(slots) == m
  {
    NamesAre(slots);
    forall name | name in m ensures name in Names(slots) && Names(slots)[name] == m[name] {
      var i :| 0 <= i < |slots| && Named(slots[i], name);
    }
    forall name | name in Names(slots) ensures name in m {
      var i :| 0 <= i < |slots| && Named(slots[i], name);
    }
  }

  /** Filling a free slot adds to the map. */
  lemma FillSlot(slots: seq<Entry>, at: nat, name: string, sector: nat)
    requires Unique(slots) && at < |slots| && !slots[at].inUse && name !in Names(slots)
    ensures var slots' := slots[at := Entry(sector, name, true)];
            Unique(slots') && Names(slots') == Names(slots)[name := sector]
  {
    var slots', m := slots[at := Entry(sector, name, true)], Names(slots)[name := sector];
    NamesAre(slots);
    forall i | 0 <= i < |slots| && slots[i].inUse ensures slots[i].name != name {}
    forall x | x in m ensures exists i :: 0 <= i < |slots'| && Named(slots'[i], x) {
      if x == name {
        assert Named(slots'[at], x);
      } else {
        var i :| 0 <= i < |slots| && Named(slots[i], x);
        assert Named(slots'[i], x);
      }
    }
    SameNames(slots', m);
  }

  /** Clearing a slot removes its name from the map. */
  lemma ClearSlot(slots: seq<Entry>, at: nat)
    requires Unique(slots) && at < |slots| && slots[at].inUse
    ensures var slots' := slots[at := slots[at].(inUse := false)];
            Unique(slots') && Names(slots') == Names(slots) - {slots[at].name}
  {
    var slots', m := slots[at := slots[at].(inUse := false)], Names(slots) - {slots[at].name};
    NamesAre(slots);
    forall x | x in m ensures exists i :: 0 <= i < |slots'| && Named(slots'[i], x) {
      var i :| 0 <= i < |slots| && Named(slots[i], x);
      assert Named(slots'[i], x);
    }
    SameNames(slots', m);
  }

  lemma Present(slots: seq<Entry>, name: string)
    requires Unique(slots)
    ensures name in Names(slots) <==> exists i :: 0 <= i < |slots| && Named(slots[i], name)
  {
    NamesAre(slots);
  }

  // ----- adding ------------------------------------------------------------------------------

  predicate ValidName(name: string) { 1 <= |name| <= 14 }

  /** What dir_add promises: on success the name was absent and is now in the map; on failure nothing changed. */
  ghost predicate AddRefines(slots: seq<Entry>, name: string, sector: nat, ok: bool, slots': seq<Entry>) {
    if ok then ValidName(name) && name !in Names(slots) && Unique(slots')
               && Names(slots') == Names(slots)[name := sector]
    else slots' == slots
  }

  /** When no read comes up short before the end and the write succeeds, dir_add succeeds iff the name has 1 to
      14 characters, is absent, and a slot is free. */
  lemma {:induction false} AddSucceedsIff(slots: seq<Entry>, name: string, sector: nat, stop1: nat, stop2: nat)
    requires Unique(slots) && stop1 >= |slots| && stop2 >= |slots|
    ensures var (ok, slots') := Add(slots, name, sector, stop1, stop2, true);
            && AddRefines(slots, name, sector, ok, slots')
            && (ok <==> ValidName(name) && name !in Names(slots) && exists i :: 0 <= i < |slots| && !slots[i].inUse)
  {
    Present(slots, name);
    var at := FreeSlot(slots, 0, stop2);
    if ValidName(name) && name !in Names(slots) && at < |slots| {
      FillSlot(slots, at, name, sector);
    }
  }

  /** The call writes an entry: the name is in order, the search for it ends without finding it, and the search for
      a free slot ends inside the file. */
  ghost predicate Writes(slots: seq<Entry>, name: string, stop1: nat, stop2: nat, written: bool) {
    && ValidName(name) && written
    && (forall i | 0 <= i < |slots| && Named(slots[i], name) :: i >= stop1)
    && (stop2 < |slots| || exists i :: 0 <= i < |slots| && !slots[i].inUse)
  }

  /** The entry is in order: the name is absent, and a slot no later than the short read is free. */
  ghost predicate MayWrite(slots: seq<Entry>, name: string, stop2: nat) {
    && (forall i | 0 <= i < |slots| :: !Named(slots[i], name))
    && exists i :: 0 <= i < |slots| && i <= stop2 && !slots[i].inUse
  }

  lemma AddWrites(slots: seq<Entry>, name: string, sector: nat, stop1: nat, stop2: nat, written: bool)
    ensures Add(slots, name, sector, stop1, stop2, written).0 <==> Writes(slots, name, stop1, stop2, written)
  {
    var at, free := SlotOf(slots, name, 0, stop1), FreeSlot(slots, 0, stop2);
  }

  /** With memory short, dir_add keeps its promise iff whenever it writes it may. */
  lemma AddRefinesIff(slots: seq<Entry>, name: string, sector: nat, stop1: nat, stop2: nat, written: bool)
    requires Unique(slots)
    ensures var (ok, slots') := Add(slots, name, sector, stop1, stop2, written);
            AddRefines(slots, name, sector, ok, slots') <==>
              (Writes(slots, name, stop1, stop2, written) ==> MayWrite(slots, name, stop2))
  {
    var (ok, slots') := Add(slots, name, sector, stop1, stop2, written);
    AddWrites(slots, name, sector, stop1, stop2, written);
    Present(slots, name);
    var at := FreeSlot(slots, 0, stop2);
    if ok {
      if slots[at].inUse {
        Overwritten(slots, at, name, sector);
      } else if name !in Names(slots) {
        FillSlot(slots, at, name, sector);
      }
    }
  }

  /** Writing over a slot in use loses its name, or writes a name that was there. */
  lemma Overwritten(slots: seq<Entry>, at: nat, name: string, sector: nat)
    requires Unique(slots) && at < |slots| && slots[at].inUse
    ensures !AddRefines(slots, name, sector, true, slots[at := Entry(sector, name, true)])
  {
    var slots' := slots[at := Entry(sector, name, true)];
    NamesAre(slots);
    if Unique(slots') {
      Present(slots', slots[at].name);
    }
  }

  /** A short read while looking for the name: the name is then there twice. */
  lemma AddDuplicates()
    ensures var slots := [Entry(5, "a", true), Entry(0, "", false)];
            Add(slots, "a", 6, 0, 2, true) == (true, [Entry(5, "a", true), Entry(6, "a", true)])
  {
    var slots := [Entry(5, "a", true), Entry(0, "", false)];
    assert SlotOf(slots, "a", 0, 0).None?;
    assert FreeSlot(slots, 0, 2) == FreeSlot(slots, 1, 2) == 1;
    assert slots[1 := Entry(6, "a", true)] == [Entry(5, "a", true), Entry(6, "a", true)];
  }

  /** A short read while looking for a free slot: the file "a" is lost. */
  lemma AddOverwrites()
    ensures Add([Entry(5, "a", true)], "b", 6, 1, 0, true) == (true, [Entry(6, "b", true)])
  {
    var slots := [Entry(5, "a", true)];
    assert SlotOf(slots, "b", 0, 1) == SlotOf(slots, "b", 1, 1) == None;
    assert FreeSlot(slots, 0, 0) == 0;
    assert slots[0 := Entry(6, "b", true)] == [Entry(6, "b", true)];
  }

  // ----- removing ------------------------------------------------------------------------------

  /** dir_remove deletes exactly that name, whatever reads came up short. */
  lemma {:induction false} RemoveRefines(slots: seq<Entry>, name: string, stop: nat, gotInode: bool, written: bool)
    requires Unique(slots)
    ensures var (ok, slots') := Remove(slots, name, stop, gotInode, written);
            && Unique(slots') && Names(slots') == (if ok then Names(slots) - {name} else Names(slots))
            && (ok ==> name in Names(slots))
            && (stop >= |slots| && gotInode && written ==> (ok <==> name in Names(slots)))
  {
    Present(slots, name);
    var at := SlotOf(slots, name, 0, stop);
    if at.Some? {
      ClearSlot(slots, at.value);
    }
  }

  // ----- runs --------------------------------------------------------------------------------------

  function SlotsInUse(slots: seq<Entry>): nat {
    if slots == [] then 0 else SlotsInUse(slots[..|slots| - 1]) + (if slots[|slots| - 1].inUse then 1 else 0)
  }

  /** The map has as many names as slots are in use, so a slot is free iff it is not full. */
  lemma {:induction false} FreeIffNotFull(slots: seq<Entry>)
    requires Unique(slots)
    ensures |Names(slots)| == SlotsInUse(slots) <= |slots|
    ensures |Names(slots)| < |slots| <==> exists i :: 0 <= i < |slots| && !slots[i].inUse
  {
    if slots != [] {
      var init, last := slots[..|slots| - 1], slots[|slots| - 1];
      FreeIffNotFull(init);
      NamesAre(init);
      assert last.inUse ==> last.name !in Names(init);
      assert forall i | 0 <= i < |init| :: init[i] == slots[i];
    }
  }

  /** A call, with the reads that come up short in it. */
  datatype Op = AddOp(name: string, sector: nat, stop1: nat, stop2: nat, written: bool)
    | RemoveOp(name: string, stop: nat, gotInode: bool, written: bool)

  function Perform(slots: seq<Entry>, op: Op): (bool, seq<Entry>) {
    match op
    case AddOp(name, sector, stop1, stop2, written) => Add(slots, name, sector, stop1, stop2, written)
    case RemoveOp(name, stop, gotInode, written) => Remove(slots, name, stop, gotInode, written)
  }

  function PerformAll(slots: seq<Entry>, ops: seq<Op>): seq<Entry>
    decreases |ops|
  {
    if ops == [] then slots else PerformAll(Perform(slots, ops[0]).1, ops[1..])
  }

  /** What the calls of a run return. */
  function Results(slots: seq<Entry>, ops: seq<Op>): (oks: seq<bool>)
    ensures |oks| == |ops|
    decreases |ops|
  {
    if ops == [] then [] else [Perform(slots, ops[0]).0] + Results(Perform(slots, ops[0]).1, ops[1..])
  }

  /** Each addition of the run writes only when it may; removals may come up short anywhere. */
  ghost predicate Careful(slots: seq<Entry>, ops: seq<Op>)
    decreases |ops|
  {
    ops != [] ==>
      && (ops[0].AddOp? ==> Writes(slots, ops[0].name, ops[0].stop1, ops[0].stop2, ops[0].written) ==>
                              MayWrite(slots, ops[0].name, ops[0].stop2))
      && Careful(Perform(slots, ops[0]).1, ops[1..])
  }

  /** A call on a finite map that succeeds or fails as told. */
  function MapStep(m: map<string, nat>, op: Op, ok: bool): map<string, nat> {
    if !ok then m else if op.AddOp? then m[op.name := op.sector] else m - {op.name}
  }

  /** A success is called for: a new name is added, a name that is there removed. */
  predicate MapMay(m: map<string, nat>, op: Op) {
    if op.AddOp? then ValidName(op.name) && op.name !in m else op.name in m
  }

  /** A run on a finite map with these results, each success called for. */
  function MapRun(m: map<string, nat>, ops: seq<Op>, oks: seq<bool>): map<string, nat>
    requires |oks| == |ops|
    decreases |ops|
  {
    if ops == [] then m else MapRun(MapStep(m, ops[0], oks[0]), ops[1..], oks[1..])
  }

  predicate MapMayAll(m: map<string, nat>, ops: seq<Op>, oks: seq<bool>)
    requires |oks| == |ops|
    decreases |ops|
  {
    ops != [] ==> (oks[0] ==> MapMay(m, ops[0])) && MapMayAll(MapStep(m, ops[0], oks[0]), ops[1..], oks[1..])
  }

  lemma {:induction false} StepRefines(slots: seq<Entry>, op: Op)
    requires Unique(slots) && Careful(slots, [op])
    ensures var (ok, slots') := Perform(slots, op);
            && |slots'| == |slots| && Unique(slots') && Names(slots') == MapStep(Names(slots), op, ok)
            && (ok ==> MapMay(Names(slots), op))
  {
    match op {
      case AddOp(name, sector, stop1, stop2, written) => AddRefinesIff(slots, name, sector, stop1, stop2, written);
      case RemoveOp(name, stop, gotInode, written) => RemoveRefines(slots, name, stop, gotInode, written);
    }
  }

  /** Over every run whose additions are careful, wherever reads come up short, the directory is a finite map, names
      are unique, and each success is called for. */
  lemma {:induction false} RunRefines(slots: seq<Entry>, ops: seq<Op>)
    requires Unique(slots) && Careful(slots, ops)
    ensures Unique(PerformAll(slots, ops)) && |PerformAll(slots, ops)| == |slots|
    ensures Names(PerformAll(slots, ops)) == MapRun(Names(slots), ops, Results(slots, ops))
    ensures MapMayAll(Names(slots), ops, Results(slots, ops))
    decreases |ops|
  {
    if ops != [] {
      var slots', oks := Perform(slots, ops[0]).1, Results(slots, ops);
      StepRefines(slots, ops[0]);
      RunRefines(slots', ops[1..]);
      assert oks[1..] == Results(slots', ops[1..]);
    }
  }

  /** No read of the call comes up short before the end. */
  predicate Whole(op: Op, n: nat) {
    if op.AddOp? then op.stop1 >= n && op.stop2 >= n else op.stop >= n
  }

  /** What the calls of a run on a finite map of at most capacity names return when no read comes up short. */
  function MapResults(m: map<string, nat>, capacity: nat, ops: seq<Op>): (oks: seq<bool>)
    ensures |oks| == |ops|
    decreases |ops|
  {
    if ops == [] then []
    else
      var ok := ops[0].written && MapMay(m, ops[0]) && if ops[0].AddOp? then |m| < capacity else ops[0].gotInode;
      [ok] + MapResults(MapStep(m, ops[0], ok), capacity, ops[1..])
  }

  lemma {:induction false} WholeStep(slots: seq<Entry>, op: Op)
    requires Unique(slots) && Whole(op, |slots|)
    ensures Careful(slots, [op])
    ensures Perform(slots, op).0 <==>
            && op.written && MapMay(Names(slots), op)
            && if op.AddOp? then |Names(slots)| < |slots| else op.gotInode
  {
    FreeIffNotFull(slots);
    Present(slots, op.name);
    match op {
      case AddOp(name, sector, stop1, stop2, written) => AddWrites(slots, name, sector, stop1, stop2, written);
      case RemoveOp(name, stop, gotInode, written) => RemoveRefines(slots, name, stop, gotInode, written);
    }
  }

  /** A run in which no read comes up short is careful, and succeeds exactly as a map bounded by the number of slots. */
  lemma {:induction false} WholeRun(slots: seq<Entry>, ops: seq<Op>)
    requires Unique(slots) && forall i | 0 <= i < |ops| :: Whole(ops[i], |slots|)
    ensures Careful(slots, ops) && Results(slots, ops) == MapResults(Names(slots), |slots|, ops)
    decreases |ops|
  {
    if ops != [] {
      WholeStep(slots, ops[0]);
      StepRefines(slots, ops[0]);
      WholeRun(Perform(slots, ops[0]).1, ops[1..]);
    }
  }

  // ----- listing --------------------------------------------------------------------------------

  /** The names in use from slot i on, in slot order. */
  function InUse(slots: seq<Entry>, i: nat): (r: seq<string>)
    requires i <= |slots|
    ensures forall x :: x in r <==> exists k :: i <= k < |slots| && Named(slots[k], x)
    decreases |slots| - i
  {
    if i == |slots| then []
    else
      var rest := InUse(slots, i + 1);
      assert forall x :: (exists k :: i <= k < |slots| && Named(slots[k], x)) <==> Named(slots[i], x) || x in rest;
      if slots[i].inUse then [slots[i].name] + rest else rest
  }

  /** A full pass lists each name of the map once. */
  lemma {:induction false} ListsEachNameOnce(slots: seq<Entry>, i: nat)
    requires Unique(slots) && i <= |slots|
    ensures forall a, b | 0 <= a < b < |InUse(slots, i)| :: InUse(slots, i)[a] != InUse(slots, i)[b]
    ensures forall x :: x in InUse(slots, 0) <==> x in Names(slots)
    decreases |slots| - i
  {
    NamesAre(slots);
    if i < |slots| {
      ListsEachNameOnce(slots, i + 1);
      var rest := InUse(slots, i + 1);
      if slots[i].inUse {
        assert InUse(slots, i) == [slots[i].name] + rest;
        forall b | 0 <= b < |rest| ensures rest[b] != slots[i].name {
          assert rest[b] in rest;
        }
      } else {
        assert InUse(slots, i) == rest;
      }
    }
  }

  /** In a calm call memory suffices; otherwise any read or write may fail. */
  class Dir {
    /** The entries in the directory's file. */
    var slots: seq<Entry>
    /** struct dir's position in the file. */
    var pos: nat

    /** inode_read_at of one entry. */
    method ReadEntry(ofs: nat, calm: bool) returns (e: Option<Entry>)
      requires ofs % 20 == 0
      ensures calm && ofs / 20 < |slots| ==> e.Some?
      ensures e.Some? ==> ofs / 20 < |slots| && e.value == slots[ofs / 20]
    {
      var noMemory: bool := *;
      if (noMemory && !calm) || ofs / 20 >= |slots| {
        return None;
      }
      return Some(slots[ofs / 20]);
    }

    /** inode_write_at of one entry: it fails at the end of the file, and for want of memory. */
    method WriteEntry(ofs: nat, e: Entry, calm: bool) returns (ok: bool, ghost written: bool)
      requires ofs % 20 == 0
      modifies this`slots
      ensures (ok <==> ofs / 20 < |old(slots)| && written) && (calm ==> written)
      ensures slots == if ok then old(slots)[ofs / 20 := e] else old(slots)
    {
      var noMemory: bool := *;
      written := calm || !noMemory;
      ok := (calm || !noMemory) && ofs / 20 < |slots|;
      if ok {
        slots := slots[ofs / 20 := e];
      }
    }

    method Lookup(name: string, calm: bool) returns (e: Option<Entry>, ofs: nat, ghost stop: nat)
      ensures calm ==> stop == |slots|
      ensures SlotOf(slots, name, 0, stop) == if e.Some? then Some(ofs / 20) else None
      ensures e.Some? ==> ofs % 20 == 0 && ofs / 20 < |slots| && e.value == slots[ofs / 20]
    {
      ofs := 0;
      ghost var i := 0;
      stop := |slots|;
      e := ReadEntry(ofs, calm);
      while e.Some?
        invariant ofs == 20 * i && i <= |slots| && stop == |slots| && (e.Some? ==> i < |slots| && e.value == slots[i])
        invariant calm && e.None? ==> i == |slots|
        invariant SlotOf(slots, name, 0, stop) == SlotOf(slots, name, i, stop)
        invariant forall k | 0 <= k < i :: !Named(slots[k], name)
        decreases |slots| - i, if e.Some? then 1 else 0
      {
        if e.value.inUse && e.value.name == name {
          return;
        }
        ofs, i := ofs + 20, i + 1;
        e := ReadEntry(ofs, calm);
      }
      stop := i;
      StopsHere(slots, name, i);
    }

    method DirAdd(name: string, sector: nat, calm: bool)
      returns (ok: bool, ghost stop1: nat, ghost stop2: nat, ghost written: bool)
      modifies this`slots
      ensures calm ==> (ok, slots) == Add(old(slots), name, sector, |slots|, |slots|, true)
      ensures (ok, slots) == Add(old(slots), name, sector, stop1, stop2, written)
    {
      stop1, stop2, written := 0, 0, false;
      if name == "" || |name| > NAME_MAX {
        return false, 0, 0, false;
      }
      var e, at;
      e, at, stop1 := Lookup(name, calm);
      if e.Some? {
        return false, stop1, 0, false;
      }
      var ofs;
      ofs, stop2 := FindFree(calm);
      ok, written := WriteEntry(ofs, Entry(sector, name, true), calm);
    }

    /** The loop of dir_add that looks for a free slot. */
    method FindFree(calm: bool) returns (ofs: nat, ghost stop: nat)
      ensures calm ==> stop == |slots|
      ensures ofs % 20 == 0 && ofs / 20 == FreeSlot(slots, 0, stop)
    {
      ofs := 0;
      ghost var i := 0;
      stop := |slots|;
      var e := ReadEntry(ofs, calm);
      while e.Some? && e.value.inUse
        invariant ofs == 20 * i && i <= |slots| && stop == |slots| && (e.Some? ==> i < |slots| && e.value == slots[i])
        invariant calm && e.None? ==> i == |slots|
        invariant FreeSlot(slots, 0, stop) == FreeSlot(slots, i, stop)
        invariant forall k | 0 <= k < i :: slots[k].inUse
        decreases |slots| - i
      {
        ofs, i := ofs + 20, i + 1;
        e := ReadEntry(ofs, calm);
      }
      if e.None? {
        stop := i;
        FreeStopsHere(slots, 0, i);
      }
    }

    method DirRemove(name: string, calm: bool)
      returns (ok: bool, ghost stop: nat, ghost gotInode: bool, ghost written: bool)
      modifies this`slots
      ensures calm ==> (ok, slots) == Remove(old(slots), name, |slots|, true, true)
      ensures (ok, slots) == Remove(old(slots), name, stop, gotInode, written)
    {
      var e, ofs;
      gotInode, written := false, false;
      e, ofs, stop := Lookup(name, calm);
      if e.None? {
        return false, stop, false, false;
      }
      var openFails: bool := *;
      gotInode := calm || !openFails;
      if openFails && !calm {
        return false, stop, false, false;
      }
      ok, written := WriteEntry(ofs, e.value.(inUse := false), calm);
    }

    /** The next name in use from the current position, or None; short tells that a read failed before the end. */
    method Readdir(calm: bool) returns (name: Option<string>, ghost short: bool)
      requires pos % 20 == 0 && pos / 20 <= |slots|
      modifies this`pos
      ensures calm ==> !short
      ensures pos % 20 == 0 && old(pos) <= pos && pos / 20 <= |slots|
      ensures name.Some? ==> InUse(slots, old(pos) / 20) == [name.value] + InUse(slots, pos / 20) && pos > old(pos)
      ensures name.None? && !short ==> InUse(slots, old(pos) / 20) == []
    {
      ghost var i := pos / 20;
      short := false;
      var e := ReadEntry(pos, calm);
      while e.Some?
        invariant pos == 20 * i && old(pos) <= pos && i <= |slots| && (e.Some? ==> i < |slots| && e.value == slots[i])
        invariant calm && e.None? ==> i == |slots|
        invariant InUse(slots, i) == InUse(slots, old(pos) / 20) && !short
        decreases |slots| - i, if e.Some? then 1 else 0
      {
        pos, i := pos + 20, i + 1;
        if e.value.inUse {
          return Some(e.value.name), false;
        }
        e := ReadEntry(pos, calm);
      }
      return None, i < |slots|;
    }

    /** A pass of dir_readdir from the start to the end. */
    method ListAll(calm: bool) returns (names: seq<string>, ghost short: bool)
      requires Unique(slots)
      modifies this`pos
      ensures calm ==> !short
      ensures !short ==> forall x :: x in names <==> x in Names(slots)
      ensures !short ==> forall a, b | 0 <= a < b < |names| :: names[a] != names[b]
    {
      pos, names := 0, [];
      var name;
      name, short := Readdir(calm);
      while name.Some?
        invariant pos % 20 == 0 && pos / 20 <= |slots|
        invariant name.Some? ==> names + [name.value] + InUse(slots, pos / 20) == InUse(slots, 0)
        invariant (name.None? && !short ==> names == InUse(slots, 0)) && (calm ==> !short)
        decreases |slots| - pos / 20, if name.Some? then 1 else 0
      {
        ghost var was := names + [name.value];
        names := names + [name.value];
        name, short := Readdir(calm);
      }
      ListsEachNameOnce(slots, 0);
    }
  }

  lemma {:induction false} StopsHere(slots: seq<Entry>, name: string, i: nat)
    requires i <= |slots| && forall k | 0 <= k < i :: !Named(slots[k], name)
    ensures SlotOf(slots, name, 0, i) == None
  {
  }

  lemma {:induction false} FreeStopsHere(slots: seq<Entry>, k: nat, i: nat)
    requires k <= i <= |slots| && forall k' | k <= k' < i :: slots[k'].inUse
    ensures FreeSlot(slots, k, i) == i
  {
  }
}
