/** The file system as a whole: which sectors belong to which file, over any run of format, create, open, remove
    and close (pintos/filesys/filesys.c, free-map.c, inode.c, directory.c).

    Each call is one atomic step, and calm or not: in a calm one memory suffices and the disk takes every write;
    otherwise any allocation, write or read of an entry may fail. Sector 0 is the free map's inode and sector 1 the
    root directory's. The directory's entries are module Directories' slots; reads of them may come up short for want
    of memory. */
module FileSystems {
  import opened Bitmaps
  import Directories
  import Inodes
  import opened Wrappers

  type Slots = seq<Directories.Entry>

  /** struct inode_disk. */
  datatype DiskInode = DiskInode(start: nat, length: nat)

  /** struct inode, in memory. */
  datatype OpenInode = OpenInode(data: DiskInode, openCnt: nat, removed: bool)

  datatype Call = Create(name: string, size: nat, calm: bool) | Open(name: string, calm: bool)
    | Reopen(sector: nat, calm: bool) | Remove(name: string, calm: bool) | Close(sector: nat)

  // ----- whose sectors are whose ----------------------------------------------------------

  predicate InData(k: int, d: DiskInode) { d.start <= k < d.start + Inodes.BytesToSectors(d.length) }

  /** Sector k holds the inode or the data of the file whose inode is in sector s. */
  predicate InFile(k: int, s: nat, d: DiskInode) { k == s || InData(k, d) }

  ghost predicate Linked(slots: Slots, s: nat) {
    exists i :: 0 <= i < |slots| && slots[i].inUse && slots[i].sector == s
  }

  /** The files that count: the free map, the root directory, and what is linked or open. */
  ghost predicate IsFile(slots: Slots, opens: map<nat, OpenInode>, s: nat) {
    s == 0 || s == 1 || s in opens || Linked(slots, s)
  }

  /** All sectors of file s are recorded as its own. */
  ghost predicate Owns(disk: map<nat, DiskInode>, owner: map<nat, nat>, s: nat) {
    && s in disk && !InData(s, disk[s])
    && forall k: nat {:trigger owner[k]} {:trigger InFile(k, s, disk[s])} | InFile(k, s, disk[s]) ::
         k in owner && owner[k] == s
  }

  ghost predicate OwnersOk(bits: seq<bool>, disk: map<nat, DiskInode>, slots: Slots, opens: map<nat, OpenInode>,
                           owner: map<nat, nat>) {
    && (forall k {:trigger owner[k]} {:trigger bits[k]} | k in owner :: k < |bits| && bits[k])
    && (forall s {:trigger Owns(disk, owner, s)} {:trigger IsFile(slots, opens, s)} | IsFile(slots, opens, s) ::
         Owns(disk, owner, s) && disk[s].start + Inodes.BytesToSectors(disk[s].length) <= |bits|)
  }

  ghost predicate OpensOk(disk: map<nat, DiskInode>, slots: Slots, opens: map<nat, OpenInode>) {
    && 0 in opens
    && (forall s {:trigger opens[s]} | s in opens ::
         && s in disk && opens[s].data == disk[s] && opens[s].openCnt > 0
         && (opens[s].removed ==> s > 1 && !Linked(slots, s)))
  }

  /** No two names share an inode. */
  ghost predicate SlotsOk(slots: Slots) {
    && (forall i | 0 <= i < |slots| && slots[i].inUse :: slots[i].sector > 1)
    && (forall i, j | 0 <= i < j < |slots| && slots[i].inUse && slots[j].inUse :: slots[i].sector != slots[j].sector)
  }

  /** The sectors of two files are apart, and marked used. */
  lemma FilesApart(bits: seq<bool>, disk: map<nat, DiskInode>, slots: Slots, opens: map<nat, OpenInode>,
                   owner: map<nat, nat>, s: nat, t: nat)
    requires OwnersOk(bits, disk, slots, opens, owner) && IsFile(slots, opens, s) && IsFile(slots, opens, t)
    ensures s in disk && t in disk
    ensures forall k: nat | InFile(k, s, disk[s]) :: k < |bits| && bits[k]
    ensures s != t ==> forall k: nat | InFile(k, s, disk[s]) :: !InFile(k, t, disk[t])
  {
    assert Owns(disk, owner, s) && Owns(disk, owner, t);
    forall k: nat | InFile(k, s, disk[s]) ensures k < |bits| && bits[k] && (s != t ==> !InFile(k, t, disk[t])) {
      assert owner[k] == s;
    }
  }

  // ----- the steps' effects on ownership ---------------------------------------------------

  ghost function Given(owner: map<nat, nat>, a: nat, cnt: nat, s: nat): (r: map<nat, nat>)
    ensures forall k :: k in r <==> k in owner || a <= k < a + cnt
    ensures forall k {:trigger r[k]} | k in r :: r[k] == if a <= k < a + cnt then s else owner[k]
  {
    if cnt == 0 then owner else Given(owner, a, cnt - 1, s)[a + cnt - 1 := s]
  }

  /** Clear bits belong to nobody, so they can be given to s. */
  lemma Allocate(bits: seq<bool>, disk: map<nat, DiskInode>, slots: Slots, opens: map<nat, OpenInode>,
                 owner: map<nat, nat>, a: nat, cnt: nat, s: nat)
    requires OwnersOk(bits, disk, slots, opens, owner) && Fits(bits, a, cnt, false)
    ensures OwnersOk(Filled(bits, a, cnt, true), disk, slots, opens, Given(owner, a, cnt, s))
    ensures forall k | a <= k < a + cnt :: k !in owner
  {
    var owner' := Given(owner, a, cnt, s);
    forall k | a <= k < a + cnt ensures k !in owner {
      assert !bits[k];
    }
    forall t | IsFile(slots, opens, t) ensures Owns(disk, owner', t) {
      assert Owns(disk, owner, t);
      forall k: nat | InFile(k, t, disk[t]) ensures k in owner' && owner'[k] == t {
        assert owner[k] == t;
      }
    }
  }

  /** Bits of sectors that no file owns can be cleared. */
  lemma Release(bits: seq<bool>, disk: map<nat, DiskInode>, slots: Slots, opens: map<nat, OpenInode>,
                owner: map<nat, nat>, a: nat, cnt: nat)
    requires OwnersOk(bits, disk, slots, opens, owner) && a + cnt <= |bits|
    requires forall k | a <= k < a + cnt :: k !in owner
    ensures OwnersOk(Filled(bits, a, cnt, false), disk, slots, opens, owner)
  {
  }

  ghost function Disowned(owner: map<nat, nat>, s: nat): map<nat, nat> {
    map k | k in owner && owner[k] != s :: owner[k]
  }

  /** What is no longer a file needs no sectors. */
  lemma Forget(bits: seq<bool>, disk: map<nat, DiskInode>, slots: Slots, opens: map<nat, OpenInode>,
               owner: map<nat, nat>, s: nat)
    requires OwnersOk(bits, disk, slots, opens, owner) && !IsFile(slots, opens, s)
    ensures OwnersOk(bits, disk, slots, opens, Disowned(owner, s))
  {
    var owner' := Disowned(owner, s);
    forall t | IsFile(slots, opens, t) ensures Owns(disk, owner', t) {
      assert Owns(disk, owner, t);
    }
  }

  /** bitmap_file_size. */
  function MapBytes(bits: nat): nat { 8 * ((bits + 63) / 64) }

  // ----- what a file takes ------------------------------------------------------------------

  /** n sectors are just enough for so many bytes. */
  predicate JustFits(n: nat, length: nat) { 512 * (n - 1) < length <= 512 * n }

  lemma SectorsJustFit(length: nat)
    ensures forall n: nat {:trigger JustFits(n, length)} :: JustFits(n, length) <==> n == Inodes.BytesToSectors(length)
  {
  }

  /** n sectors from the lowest place where they fit have been taken. */
  ghost predicate TookLowest(bits: seq<bool>, bits': seq<bool>, a: nat, n: nat) {
    && Fits(bits, a, n, false) && (forall b | 0 <= b < a :: !Fits(bits, b, n, false))
    && |bits'| == |bits| && forall k | 0 <= k < |bits| :: bits'[k] == (bits[k] || a <= k < a + n)
  }

  /** The lowest run that holds length bytes, no longer than that, has been taken at a. */
  ghost predicate TookRun(bits: seq<bool>, bits': seq<bool>, a: nat, length: nat) {
    exists n: nat :: JustFits(n, length) && TookLowest(bits, bits', a, n)
  }

  /** There is a sector for an inode and, in the rest, a run for length bytes. */
  ghost predicate Room(bits: seq<bool>, length: nat) {
    exists s: nat, bits1: seq<bool> {:trigger TookLowest(bits, bits1, s, 1)} ::
      TookLowest(bits, bits1, s, 1) && RunFor(bits1, length)
  }

  /** There is a run of free sectors for length bytes. */
  ghost predicate RunFor(bits: seq<bool>, length: nat) {
    exists a: nat, n: nat {:trigger Fits(bits, a, n, false)} :: JustFits(n, length) && Fits(bits, a, n, false)
  }

  /** A directory entry of the name, for sector s, is in use. */
  ghost predicate Entered(slots: Slots, name: string, s: nat) {
    exists i :: 0 <= i < |slots| && slots[i].inUse && slots[i].name == name && slots[i].sector == s
  }

  /** dir_add takes the name: it has 1 to 14 characters, is new, and a slot is free. */
  ghost predicate Addable(slots: Slots, name: string) {
    && 1 <= |name| <= 14
    && (forall i | 0 <= i < |slots| && slots[i].inUse :: slots[i].name != name)
    && exists i :: 0 <= i < |slots| && !slots[i].inUse
  }

  /** One opener of s fewer. */
  function Closed(opens: map<nat, OpenInode>, s: nat): map<nat, OpenInode>
    requires s in opens && opens[s].openCnt > 0
  {
    if opens[s].openCnt == 1 then opens - {s} else opens[s := opens[s].(openCnt := opens[s].openCnt - 1)]
  }

  /** The root directory's inode has one opener more. */
  ghost predicate RootOpened(opens: map<nat, OpenInode>, opens': map<nat, OpenInode>) {
    && 1 in opens' && opens' == opens[1 := opens'[1]] && !opens'[1].removed
    && opens'[1].openCnt == 1 + (if 1 in opens then opens[1].openCnt else 0)
    && (1 in opens ==> opens[1].openCnt > 0 && opens'[1] == opens[1].(openCnt := opens[1].openCnt + 1))
  }

  /** Closing the root directory leaves what has been done to other files in between. */
  lemma RootClosed(opens: map<nat, OpenInode>, opens': map<nat, OpenInode>, s: nat, x: OpenInode)
    requires RootOpened(opens, opens')
    ensures Closed(opens', 1) == opens
    ensures s != 1 ==> Closed(opens'[s := x], 1) == opens[s := x]
  {
  }

  /** One more opener of s, which has not been removed. */
  ghost predicate OpenedOnce(opens: map<nat, OpenInode>, opens': map<nat, OpenInode>, s: nat) {
    && s in opens' && !opens'[s].removed && opens' == opens[s := opens'[s]]
    && opens'[s].openCnt == 1 + (if s in opens then opens[s].openCnt else 0)
  }

  /** The sectors of the file are given back, all of them and no others. */
  ghost predicate Released(bits: seq<bool>, bits': seq<bool>, s: nat, d: DiskInode) {
    && |bits'| == |bits| && (forall k: nat | InFile(k, s, d) :: k < |bits|)
    && forall k: nat | k < |bits| :: bits'[k] == (bits[k] && !InFile(k, s, d))
  }

  /** Fewer files need fewer sectors. */
  lemma Fewer(bits: seq<bool>, disk: map<nat, DiskInode>, slots: Slots, opens: map<nat, OpenInode>, slots': Slots,
              opens': map<nat, OpenInode>, owner: map<nat, nat>)
    requires OwnersOk(bits, disk, slots, opens, owner)
             && forall s {:trigger IsFile(slots', opens', s)} | IsFile(slots', opens', s) :: IsFile(slots, opens, s)
    ensures OwnersOk(bits, disk, slots', opens', owner)
  {
  }

  /** Writing an inode into a sector of its own, and zeros into its data sectors, touches no other file's inode. */
  lemma WriteInode(bits: seq<bool>, disk: map<nat, DiskInode>, slots: Slots, opens: map<nat, OpenInode>,
                   owner: map<nat, nat>, s: nat, d: DiskInode)
    requires OwnersOk(bits, disk, slots, opens, owner) && !IsFile(slots, opens, s) && !InData(s, d)
    requires forall k: nat | InFile(k, s, d) :: k in owner && owner[k] == s
    ensures var disk' := Zeroed(disk[s := d], d.start, Inodes.BytesToSectors(d.length));
            OwnersOk(bits, disk', slots, opens, owner) && Owns(disk', owner, s) && disk'[s] == d
            && forall t | IsFile(slots, opens, t) :: t in disk && t in disk' && disk'[t] == disk[t]
  {
    var disk' := Zeroed(disk[s := d], d.start, Inodes.BytesToSectors(d.length));
    forall t: nat | IsFile(slots, opens, t) ensures Owns(disk', owner, t) && t in disk && disk'[t] == disk[t] {
      assert Owns(disk, owner, t);
      assert InFile(t, t, disk[t]) && owner[t] == t;
      assert InData(t, d) ==> InFile(t, s, d);
      forall k: nat | InFile(k, t, disk'[t]) ensures k in owner && owner[k] == t {
        assert InFile(k, t, disk[t]);
      }
    }
    forall k: nat | InFile(k, s, disk'[s]) ensures k in owner && owner[k] == s {
      assert InFile(k, s, d);
    }
  }

  /** The inodes on disk after cnt sectors from a have been overwritten with zeros. */
  function Zeroed(disk: map<nat, DiskInode>, a: nat, cnt: nat): (r: map<nat, DiskInode>)
    ensures forall k :: k in r <==> k in disk && !(a <= k < a + cnt)
    ensures forall k | k in r :: r[k] == disk[k]
  {
    if cnt == 0 then disk else Zeroed(disk, a, cnt - 1) - {a + cnt - 1}
  }

  /** dir_add links one new file at most; an entry it overwrites is no longer linked. */
  lemma AddLinks(slots: Slots, name: string, s: nat, stop1: nat, stop2: nat, written: bool)
    requires SlotsOk(slots) && !Linked(slots, s) && s > 1
    ensures var (ok, slots') := Directories.Add(slots, name, s, stop1, stop2, written);
            && SlotsOk(slots') && (!ok ==> slots' == slots)
            && (forall t | Linked(slots', t) :: Linked(slots, t) || t == s)
            && (ok ==> Linked(slots', s))
            && (ok ==> exists i :: 0 <= i < |slots'| && slots'[i] == Directories.Entry(s, name, true))
  {
    var (ok, slots') := Directories.Add(slots, name, s, stop1, stop2, written);
    var at := Directories.FreeSlot(slots, 0, stop2);
    if ok {
      assert slots'[at] == Directories.Entry(s, name, true);
      forall t | Linked(slots', t) ensures Linked(slots, t) || t == s {
        var i :| 0 <= i < |slots'| && slots'[i].inUse && slots'[i].sector == t;
      }
    }
  }

  /** Once its entry is cleared a file is not linked any more. */
  lemma ClearUnlinks(slots: Slots, at: nat)
    requires SlotsOk(slots) && at < |slots| && slots[at].inUse
    ensures var slots' := slots[at := slots[at].(inUse := false)];
            SlotsOk(slots') && !Linked(slots', slots[at].sector) && forall t | Linked(slots', t) :: Linked(slots, t)
  {
    var slots' := slots[at := slots[at].(inUse := false)];
    forall t | Linked(slots', t) ensures Linked(slots, t) && t != slots[at].sector {
      var i :| 0 <= i < |slots'| && slots'[i].inUse && slots'[i].sector == t;
      assert slots[i].inUse && slots[i].sector == t && i != at;
    }
  }

  /** The first m bits are set, the others clear. */
  ghost predicate FirstSet(bits: seq<bool>, m: nat) {
    m <= |bits| && forall k | 0 <= k < |bits| :: bits[k] <==> k < m
  }

  lemma NextFits(bits: seq<bool>, m: nat, n: nat)
    requires FirstSet(bits, m) && n > 0
    ensures (exists a: nat :: Fits(bits, a, n, false)) <==> m + n <= |bits|
  {
    if m + n <= |bits| {
      assert Fits(bits, m, n, false);
    }
    forall a: nat | Fits(bits, a, n, false) ensures m + n <= |bits| {
      assert !bits[a];
    }
  }

  lemma TookNext(bits: seq<bool>, bits': seq<bool>, m: nat, a: nat, n: nat)
    requires FirstSet(bits, m) && n > 0 && TookLowest(bits, bits', a, n)
    ensures a == m && FirstSet(bits', m + n)
  {
    assert !bits[a];
    assert Fits(bits, m, n, false);
  }

  lemma NoRoom(bits: seq<bool>, length: nat)
    requires forall a: nat :: !Fits(bits, a, 1, false)
    ensures !Room(bits, length)
  {
  }

  /** There is only one lowest place. */
  lemma LowestIsOne(bits: seq<bool>, bits1: seq<bool>, bits2: seq<bool>, a: nat, b: nat, n: nat)
    requires TookLowest(bits, bits1, a, n) && TookLowest(bits, bits2, b, n)
    ensures a == b && bits1 == bits2
  {
  }

  lemma RoomAfter(bits: seq<bool>, bits1: seq<bool>, s: nat, length: nat)
    requires TookLowest(bits, bits1, s, 1)
    ensures Room(bits, length) <==> RunFor(bits1, length)
  {
    if Room(bits, length) {
      var t: nat, bits2: seq<bool> :| TookLowest(bits, bits2, t, 1) && RunFor(bits2, length);
      LowestIsOne(bits, bits1, bits2, s, t, 1);
    }
  }

  /** After a failure the inode's sector is free again; the data's, if the inode was made, are not. */
  lemma Undone(bits: seq<bool>, bits1: seq<bool>, bits2: seq<bool>, bits3: seq<bool>, s: nat, length: nat, made: bool)
    requires TookLowest(bits, bits1, s, 1) && s < |bits2| && bits3 == bits2[s := false]
    requires if made then exists a: nat :: TookRun(bits1, bits2, a, length)
             else bits2 == bits1
    ensures bits3 == bits <==> length == 0 || !made
  {
    if made {
      var a: nat :| TookRun(bits1, bits2, a, length);
      var n: nat :| JustFits(n, length) && TookLowest(bits1, bits2, a, n);
      if length > 0 {
        assert !bits1[a] && bits2[a] && a != s && !bits[a];
      }
    }
  }

  /** Creating a file of one byte under a name that is there, with two free sectors left: the inode takes the first,
      the byte the second, the name is refused, and only the inode's sector is given back. */
  lemma CreateLeaks()
    ensures Room([true, true, false, false], 1) && !Addable([Directories.Entry(5, "a", true)], "a")
    ensures TookLowest([true, true, false, false], [true, true, true, false], 2, 1)
    ensures TookRun([true, true, true, false], [true, true, true, true], 3, 1)
  {
    var bits, bits1 := [true, true, false, false], [true, true, true, false];
    forall b | 0 <= b < 2 ensures !Fits(bits, b, 1, false) {
      assert bits[b];
    }
    forall b | 0 <= b < 3 ensures !Fits(bits1, b, 1, false) {
      assert bits1[b];
    }
    assert TookLowest(bits, bits1, 2, 1) && TookLowest(bits1, [true, true, true, true], 3, 1);
    assert JustFits(1, 1) && Fits(bits1, 3, 1, false);
    assert [Directories.Entry(5, "a", true)][0].name == "a";
  }

  lemma AddsIff(slots: Slots, name: string, s: nat)
    ensures Directories.Add(slots, name, s, |slots|, |slots|, true).0 <==> Addable(slots, name)
  {
    Directories.AddWrites(slots, name, s, |slots|, |slots|, true);
    assert forall i | 0 <= i < |slots| ::
        Directories.Named(slots[i], name) <==> slots[i].inUse && slots[i].name == name;
  }

  class FileSystem {
    /** The free map. */
    var bits: seq<bool>
    /** The inodes on the disk, by sector. */
    var disk: map<nat, DiskInode>
    /** The entries of the root directory. */
    var slots: Slots
    /** open_inodes. */
    var opens: map<nat, OpenInode>
    ghost var owner: map<nat, nat>

    ghost predicate Valid()
      reads this
    {
      OwnersOk(bits, disk, slots, opens, owner) && OpensOk(disk, slots, opens) && SlotsOk(slots)
    }

    /** free_map_allocate: the lowest run of cnt free sectors; writing the free map's file may fail, which undoes it. */
    method FreeMapAllocate(cnt: nat, calm: bool) returns (sector: Option<nat>)
      modifies this`bits
      ensures calm ==> (sector.Some? <==> exists a: nat :: Fits(old(bits), a, cnt, false))
      ensures sector.Some? ==> TookLowest(old(bits), bits, sector.value, cnt)
      ensures sector.None? ==> bits == old(bits)
      ensures sector.Some? ==> Fits(old(bits), sector.value, cnt, false)
                               && bits == Filled(old(bits), sector.value, cnt, true)
      ensures sector.Some? ==> forall a | 0 <= a < sector.value :: !Fits(old(bits), a, cnt, false)
    {
      sector := LowestFit(bits, 0, cnt, false);
      if sector.Some? {
        bits := Filled(bits, sector.value, cnt, true);
        var writeFails: bool := *;
        if writeFails && !calm {
          bits := Filled(bits, sector.value, cnt, false);
          sector := None;
        }
      }
    }

    /** free_map_release asserts that the sectors are marked used. */
    method FreeMapRelease(sector: nat, cnt: nat)
      requires Fits(bits, sector, cnt, true)
      modifies this`bits
      ensures bits == Filled(old(bits), sector, cnt, false)
    {
      bits := Filled(bits, sector, cnt, false);
    }

    /** inode_create in a sector reserved for it. */
    method InodeCreate(sector: nat, length: nat, calm: bool) returns (ok: bool)
      requires Valid() && !IsFile(slots, opens, sector) && sector in owner && owner[sector] == sector
      modifies this`bits, this`disk, this`owner
      ensures Valid() && sector in owner && owner[sector] == sector && |bits| == |old(bits)|
      ensures ok ==> Owns(disk, owner, sector) && disk[sector].length == length
                     && disk[sector].start + Inodes.BytesToSectors(length) <= |bits|
      ensures ok ==> TookRun(old(bits), bits, disk[sector].start, length)
      ensures calm ==> (ok <==> RunFor(old(bits), length))
      ensures !ok ==> disk == old(disk) && bits == old(bits) && owner == old(owner)
    {
      var noMemory: bool := *;
      if noMemory && !calm {
        return false;
      }
      var sectors := Inodes.BytesToSectors(length);
      SectorsJustFit(length);
      var start := FreeMapAllocate(sectors, calm);
      if start.None? {
        return false;
      }
      var a := start.value;
      Allocate(old(bits), disk, slots, opens, owner, a, sectors, sector);
      owner := Given(owner, a, sectors, sector);
      WriteInode(bits, disk, slots, opens, owner, sector, DiskInode(a, length));
      disk := disk[sector := DiskInode(a, length)];
      disk := Zeroed(disk, a, sectors);
      return true;
    }

    method InodeOpen(sector: nat, calm: bool) returns (ok: bool)
      requires Valid() && IsFile(slots, opens, sector)
      modifies this`opens
      ensures Valid()
      ensures ok ==> sector in opens && opens == old(opens)[sector := opens[sector]]
                     && opens[sector].openCnt == 1 + (if sector in old(opens) then old(opens)[sector].openCnt else 0)
                     && opens[sector].removed == (sector in old(opens) && old(opens)[sector].removed)
      ensures !ok ==> opens == old(opens) && sector !in opens && !calm
    {
      assert Owns(disk, owner, sector);
      if sector in opens {
        opens := opens[sector := opens[sector].(openCnt := opens[sector].openCnt + 1)];
        Fewer(bits, disk, slots, old(opens), slots, opens, owner);
        return true;
      }
      var noMemory: bool := *;
      if noMemory && !calm {
        return false;
      }
      opens := opens[sector := OpenInode(disk[sector], 1, false)];
      Fewer(bits, disk, slots, old(opens), slots, opens, owner);
      return true;
    }

    /** inode_close; the last close of a removed file gives its sectors back. */
    method InodeClose(sector: nat)
      requires Valid() && sector in opens && (sector == 0 ==> opens[0].openCnt > 1)
      modifies this`bits, this`opens, this`owner
      ensures Valid() && |bits| == |old(bits)|
      ensures opens == Closed(old(opens), sector)
      ensures old(opens)[sector].openCnt > 1 || !old(opens)[sector].removed ==> bits == old(bits)
      ensures old(opens)[sector].openCnt == 1 && old(opens)[sector].removed ==>
                Released(old(bits), bits, sector, old(opens)[sector].data)
    {
      var inode := opens[sector];
      if inode.openCnt > 1 {
        opens := opens[sector := inode.(openCnt := inode.openCnt - 1)];
        Fewer(bits, disk, slots, old(opens), slots, opens, owner);
        return;
      }
      opens := opens - {sector};
      Fewer(bits, disk, slots, old(opens), slots, opens, owner);
      if inode.removed {
        FilesApart(bits, disk, slots, old(opens), owner, sector, sector);
        assert Owns(disk, owner, sector);
        ghost var owned := owner;
        Forget(bits, disk, slots, opens, owner, sector);
        owner := Disowned(owner, sector);
        BitsOf(old(bits), disk, owned, sector);
        Release(bits, disk, slots, opens, owner, sector, 1);
        FreeMapRelease(sector, 1);
        Release(bits, disk, slots, opens, owner, inode.data.start, Inodes.BytesToSectors(inode.data.length));
        FreeMapRelease(inode.data.start, Inodes.BytesToSectors(inode.data.length));
      }
    }

    /** dir_open_root and dir_close, around body; the root directory's inode is open in between only. */
    method OpenRoot(calm: bool) returns (ok: bool)
      requires Valid()
      modifies this`opens, this`bits, this`owner
      ensures Valid() && bits == old(bits)
      ensures ok ==> RootOpened(old(opens), opens)
      ensures !ok ==> opens == old(opens) && !calm
    {
      ok := InodeOpen(1, calm);
      if ok {
        var noMemory: bool := *;
        if noMemory && !calm {
          InodeClose(1);
          ok := false;
          assert opens == old(opens);
        }
      }
    }

    /** filesys_create. On failure the directory is as it was. In calm it succeeds exactly when there is room and the
        directory takes the name; what it takes is the lowest free sector and then the lowest run that holds size
        bytes, no longer than that; and when it fails it leaks just that run if there was room, but the name was not
        taken. */
    method Create(name: string, size: nat, calm: bool) returns (success: bool)
      requires Valid()
      modifies this
      ensures Valid() && opens == old(opens)
      ensures !success ==> slots == old(slots)
      ensures success ==> exists s: nat, bits1: seq<bool> {:trigger TookLowest(old(bits), bits1, s, 1)} ::
                            && !IsFile(old(slots), old(opens), s) && Entered(slots, name, s)
                            && s in disk && disk[s].length == size
                            && TookLowest(old(bits), bits1, s, 1)
                            && TookRun(bits1, bits, disk[s].start, size)
      ensures calm ==> (success <==> Room(old(bits), size) && Addable(old(slots), name))
      ensures calm && !success ==> (bits == old(bits) <==> size == 0 || !Room(old(bits), size))
    {
      success := false;
      var dir := OpenRoot(calm);
      if !dir {
        return;
      }
      RootClosed(old(opens), opens, 1, opens[1]);
      success := CreateReserved(name, size, calm);
      InodeClose(1);
    }

    /** The part of filesys_create with the root directory open: reserves a sector for the inode, and releases it
        when the rest fails. */
    method CreateReserved(name: string, size: nat, calm: bool) returns (success: bool)
      requires Valid()
      modifies this`bits, this`disk, this`owner, this`slots
      ensures Valid() && (!success ==> slots == old(slots))
      ensures success ==> exists s: nat, bits1: seq<bool> {:trigger TookLowest(old(bits), bits1, s, 1)} ::
                            && !IsFile(old(slots), opens, s) && Entered(slots, name, s)
                            && s in disk && disk[s].length == size
                            && TookLowest(old(bits), bits1, s, 1)
                            && TookRun(bits1, bits, disk[s].start, size)
      ensures calm ==> (success <==> Room(old(bits), size) && Addable(old(slots), name))
      ensures calm && !success ==> (bits == old(bits) <==> size == 0 || !Room(old(bits), size))
    {
      var sector := FreeMapAllocate(1, calm);
      if sector.None? {
        if calm { NoRoom(old(bits), size); }
        return false;
      }
      var s := sector.value;
      ghost var bits1 := bits;
      RoomAfter(old(bits), bits1, s, size);
      Allocate(old(bits), disk, slots, opens, owner, s, 1, s);
      owner := Given(owner, s, 1, s);
      NotAFile(old(bits), disk, slots, opens, old(owner), s);
      ghost var made;
      success, made := CreateIn(name, size, s, calm);
      if !success {
        ghost var bits2 := bits;
        Undo(s);
        Undone(old(bits), bits1, bits2, bits, s, size, made);
      }
    }

    /** inode_create and dir_add in a reserved sector. */
    method CreateIn(name: string, size: nat, s: nat, calm: bool) returns (success: bool, ghost made: bool)
      requires Valid() && !IsFile(slots, opens, s) && s in owner && owner[s] == s
      modifies this`bits, this`disk, this`owner, this`slots
      ensures Valid() && (!success ==> slots == old(slots) && s in owner && owner[s] == s)
      ensures success ==> made && Entered(slots, name, s) && s in disk && disk[s].length == size
                          && TookRun(old(bits), bits, disk[s].start, size)
      ensures if made then exists a: nat :: TookRun(old(bits), bits, a, size)
              else bits == old(bits)
      ensures calm ==> (made <==> RunFor(old(bits), size)) && (success <==> made && Addable(old(slots), name))
    {
      success := InodeCreate(s, size, calm);
      made := success;
      if success {
        var stop1: nat, stop2: nat, written: bool := *, *, *;
        if calm {
          stop1, stop2, written := |slots|, |slots|, true;
          AddsIff(slots, name, s);
        }
        AddLinks(slots, name, s, stop1, stop2, written);
        var r := Directories.Add(slots, name, s, stop1, stop2, written);
        slots := r.1;
        success := r.0;
        Relinked(bits, disk, old(slots), slots, opens, owner, s);
      }
    }

    /** The release of the inode's sector after a failure. */
    method Undo(s: nat)
      requires Valid() && !IsFile(slots, opens, s) && s in owner && owner[s] == s
      modifies this`bits, this`owner
      ensures Valid() && s < |old(bits)| && bits == old(bits)[s := false]
    {
      assert bits[s];
      Forget(bits, disk, slots, opens, owner, s);
      owner := Disowned(owner, s);
      Release(bits, disk, slots, opens, owner, s, 1);
      FreeMapRelease(s, 1);
    }

    /** filesys_open. */
    method OpenFile(name: string, calm: bool) returns (file: Option<nat>, ghost stop: nat)
      requires Valid()
      modifies this
      ensures Valid() && slots == old(slots) && bits == old(bits) && disk == old(disk)
      ensures file.None? ==> opens == old(opens)
      ensures file.Some? ==> Entered(slots, name, file.value)
      ensures calm ==> (file.Some? <==> exists s :: Entered(slots, name, s))
      ensures file.Some? ==> var at := Directories.SlotOf(slots, name, 0, stop);
                             at.Some? && file.value == slots[at.value].sector
                               && OpenedOnce(old(opens), opens, file.value)
    {
      file := None;
      stop := 0;
      var dir := OpenRoot(calm);
      if !dir {
        return;
      }
      RootClosed(old(opens), opens, 1, opens[1]);
      var limit: nat := *;
      if calm {
        limit := |slots|;
      }
      stop := limit;
      var at := Directories.SlotOf(slots, name, 0, limit);
      if at.Some? {
        var s := slots[at.value].sector;
        assert Linked(slots, s) && s > 1;
        ghost var opens1 := opens;
        assert Entered(slots, name, s);
        var ok := OpenEntry(s, calm);
        if ok {
          file := Some(s);
          RootClosed(old(opens), opens1, s, opens[s]);
        }
      }
      InodeClose(1);
    }

    /** inode_open and file_open. */
    method OpenEntry(s: nat, calm: bool) returns (ok: bool)
      requires Valid() && Linked(slots, s) && s > 1
      modifies this`opens, this`bits, this`owner
      ensures Valid() && bits == old(bits)
      ensures !ok ==> opens == old(opens) && !calm
      ensures ok ==> OpenedOnce(old(opens), opens, s)
    {
      ok := InodeOpen(s, calm);
      if ok {
        var noMemory: bool := *;
        if noMemory && !calm {
          InodeClose(s);
          ok := false;
          assert opens == old(opens);
        }
      }
    }

    /** file_reopen, and the inode's part of file_duplicate: one more opener of an open file, removed or not. */
    method ReopenFile(s: nat, calm: bool) returns (ok: bool)
      requires Valid() && s in opens
      modifies this`opens, this`bits, this`owner
      ensures Valid() && bits == old(bits)
      ensures calm ==> ok
      ensures opens == if ok then old(opens)[s := old(opens)[s].(openCnt := old(opens)[s].openCnt + 1)] else old(opens)
    {
      ok := InodeOpen(s, calm);
      var noMemory: bool := *;
      if noMemory && !calm {
        InodeClose(s);
        ok := false;
        assert opens == old(opens);
      }
    }

    /** file_write on an open file: inode_write_at changes no byte of any other file, and no inode. A negative offset,
        which file_seek keeps out, would lead it astray. */
    method WriteFile(s: nat, inode: Inodes.Inode, dev: Inodes.Disk, buffer: seq<Inodes.Byte>, size: int, offset: int,
                     calm: bool)
      returns (n: nat, ghost noMemory: bool, astray: bool)
      requires Valid() && s in opens && inode.start == opens[s].data.start && inode.length == opens[s].data.length
      requires |dev.sectors| == |bits| && size <= |buffer|
      modifies dev
      ensures old(inode.On(dev)) && inode.On(dev) && n <= |buffer|
      ensures (astray <==> inode.denyWriteCnt == 0 && size > 0 && offset < 0) && (noMemory ==> !calm)
      ensures offset >= 0 ==> n <= inode.Count(size, offset)
                              && (inode.denyWriteCnt == 0 && n < inode.Count(size, offset) ==> noMemory)
      ensures n == 0 ==> dev.sectors == old(dev.sectors)
      ensures n > 0 ==> 0 <= offset && offset + n <= inode.length
                        && var before := old(inode.Contents(dev));
                           inode.Contents(dev) == before[..offset] + buffer[..n] + before[offset + n..]
      ensures forall t | IsFile(slots, opens, t) :: OthersKept(old(dev.sectors), dev.sectors, disk, s, t)
    {
      assert IsFile(slots, opens, s) && Owns(disk, owner, s);
      ghost var was, before := dev.sectors, inode.Contents(dev);
      n, noMemory, astray := inode.WriteAt(dev, buffer, size, offset, calm);
      ghost var at := if offset < 0 then 0 else offset;
      if n == 0 {
        if offset >= 0 { SameSectors(was, dev.sectors, 512 * inode.start + offset); }
      } else {
        inode.WriteRefinesArray(dev, was, offset, buffer[..n], before);
      }
      forall t | IsFile(slots, opens, t) ensures OthersKept(was, dev.sectors, disk, s, t) {
        WriteStaysInFile(bits, disk, slots, opens, owner, s, t, was, dev.sectors, at, buffer[..n]);
      }
    }

    /** filesys_remove. A file that is open keeps its sectors. */
    method RemoveFile(name: string, calm: bool) returns (success: bool, ghost stop: nat)
      requires Valid()
      modifies this
      ensures Valid()
      ensures calm ==> (success <==> exists s :: Entered(old(slots), name, s))
      ensures !success ==> slots == old(slots) && opens == old(opens) && bits == old(bits)
      ensures success ==> var at := Directories.SlotOf(old(slots), name, 0, stop);
                          && at.Some? && slots == old(slots)[at.value := old(slots)[at.value].(inUse := false)]
                          && var s := old(slots)[at.value].sector;
                             if s in old(opens) then opens == old(opens)[s := old(opens)[s].(removed := true)]
                                                     && bits == old(bits)
                             else opens == old(opens) && s in old(disk) && Released(old(bits), bits, s, old(disk)[s])
    {
      success, stop := false, 0;
      var dir := OpenRoot(calm);
      if !dir {
        return;
      }
      RootClosed(old(opens), opens, 1, opens[1]);
      var limit: nat := *;
      if calm {
        limit := |slots|;
      }
      stop := limit;
      var at := Directories.SlotOf(slots, name, 0, limit);
      if at.Some? {
        ghost var opens1, s := opens, slots[at.value].sector;
        assert Entered(slots, name, s);
        success := Unlink(at.value, calm);
        if s in opens {
          RootClosed(old(opens), opens1, s, opens[s]);
        }
      }
      InodeClose(1);
    }

    /** The part of dir_remove after the entry has been found. */
    method Unlink(at: nat, calm: bool) returns (success: bool)
      requires Valid() && at < |slots| && slots[at].inUse
      modifies this
      ensures Valid() && disk == old(disk) && (calm ==> success)
      ensures !success ==> slots == old(slots) && opens == old(opens) && bits == old(bits)
      ensures success ==> && slots == old(slots)[at := old(slots)[at].(inUse := false)]
                          && var s := old(slots)[at].sector;
                             && s > 1
                             && if s in old(opens)
                                then opens == old(opens)[s := old(opens)[s].(removed := true)] && bits == old(bits)
                                else opens == old(opens) && s in disk && Released(old(bits), bits, s, disk[s])
    {
      var s := slots[at].sector;
      assert Linked(slots, s) && s > 1;
      var ok := InodeOpen(s, calm);
      if !ok {
        return false;
      }
      var noMemory: bool := *;
      if noMemory && !calm {
        InodeClose(s);
        assert opens == old(opens);
        return false;
      }
      ghost var opens1 := opens;
      ClearUnlinks(slots, at);
      slots := slots[at := slots[at].(inUse := false)];
      opens := opens[s := opens[s].(removed := true)];
      Fewer(bits, disk, old(slots), opens1, slots, opens, owner);
      assert InFile(s, s, opens[s].data);
      InodeClose(s);
      return true;
    }

    /** filesys_init on a blank disk of n sectors: the free map as free_map_init leaves it, no file yet. */
    constructor (n: nat)
      requires n >= 2
      ensures bits == Filled(seq(n, _ => false), 0, 2, true) && disk == map[] && slots == [] && opens == map[]
              && owner == map[]
    {
      bits := Filled(seq(n, _ => false), 0, 2, true);
      disk, slots, opens, owner := map[], [], map[], map[];
    }

    /** do_format: creates the free map's file and the root directory with 16 free slots; not ok is the panic
        when the disk is too small or memory is short. */
    method Format(calm: bool) returns (ok: bool)
      requires |bits| >= 2 && bits == Filled(seq(|bits|, _ => false), 0, 2, true) && disk == map[] && opens == map[]
      modifies this
      ensures ok ==> Valid() && (forall s | Linked(slots, s) :: false) && |slots| == 16 && opens.Keys == {0}
      ensures ok ==> 0 in disk && disk[0].length == MapBytes(|bits|) && 1 in disk && disk[1].length == 16 * 20
      ensures |bits| == |old(bits)|
      ensures forall n: nat | JustFits(n, MapBytes(|bits|)) ::
                (calm ==> (ok <==> n + 3 <= |bits|)) && (ok ==> FirstSet(bits, n + 3))
    {
      var mapBytes := MapBytes(|bits|);
      var n := Inodes.BytesToSectors(mapBytes);
      SectorsJustFit(mapBytes);
      ghost var bits0, bits1 := bits, bits;
      var a, b;
      ok, a, b, bits1 := FormatSectors(n, calm);
      if ok {
        WriteFormat(n, DiskInode(a, mapBytes), DiskInode(b, 16 * 20), bits0, bits1);
      }
    }

    /** The sectors of the two files. */
    method FormatSectors(n: nat, calm: bool) returns (ok: bool, a: nat, b: nat, ghost bits1: seq<bool>)
      requires n > 0 && FirstSet(bits, 2)
      modifies this`bits
      ensures |bits| == |old(bits)| && (calm ==> (ok <==> n + 3 <= |bits|))
      ensures ok ==> && Fits(old(bits), a, n, false) && bits1 == Filled(old(bits), a, n, true)
                     && Fits(bits1, b, 1, false) && bits == Filled(bits1, b, 1, true) && FirstSet(bits, n + 3)
    {
      ok, a, b, bits1 := false, 0, 0, bits;
      var noMemory: bool := *;
      if noMemory && !calm {
        return;
      }
      NextFits(bits, 2, n);
      var first := FreeMapAllocate(n, calm);
      if first.None? {
        return;
      }
      bits1 := bits;
      TookNext(old(bits), bits1, 2, first.value, n);
      NextFits(bits1, n + 2, 1);
      var second := FreeMapAllocate(1, calm);
      if second.None? {
        return;
      }
      TookNext(bits1, bits, n + 2, second.value, 1);
      ok, a, b := true, first.value, second.value;
    }

    /** The two inodes and an empty root directory. */
    method WriteFormat(n: nat, fileMap: DiskInode, root: DiskInode, ghost bits0: seq<bool>, ghost bits1: seq<bool>)
      requires disk == map[] && opens == map[] && n == Inodes.BytesToSectors(fileMap.length) && root.length == 16 * 20
      requires |bits0| >= 2 && bits0[0] && bits0[1]
      requires Fits(bits0, fileMap.start, n, false) && bits1 == Filled(bits0, fileMap.start, n, true)
      requires Fits(bits1, root.start, 1, false) && bits == Filled(bits1, root.start, 1, true)
      modifies this`disk, this`opens, this`slots, this`owner
      ensures Valid() && (forall s | Linked(slots, s) :: false) && |slots| == 16 && opens.Keys == {0}
      ensures 0 in disk && disk[0] == fileMap && 1 in disk && disk[1] == root
    {
      disk := Zeroed(disk[0 := fileMap], fileMap.start, n);
      disk := Zeroed(disk[1 := root], root.start, 1);
      opens := map[0 := OpenInode(fileMap, 1, false)];
      slots := seq(16, _ => Directories.Entry(0, "", false));
      owner := Given(Given(map[0 := 0, 1 := 1], fileMap.start, n, 0), root.start, 1, 1);
      Formatted(bits0, bits1, bits, fileMap, root);
      FormatOk(bits0, bits1, bits, fileMap, root, slots, opens);
    }

    /** Any sequence of calls keeps the invariant. */
    method Run(calls: seq<Call>)
      requires Valid()
      modifies this
      ensures Valid()
    {
      for t := 0 to |calls|
        invariant Valid()
      {
        match calls[t] {
          case Create(name, size, calm) => var _ := Create(name, size, calm);
          case Open(name, calm) => var _, _ := OpenFile(name, calm);
          case Reopen(s, calm) => if s in opens { var _ := ReopenFile(s, calm); }
          case Remove(name, calm) => var _, _ := RemoveFile(name, calm);
          case Close(s) => if s in opens && s > 1 { CloseFile(s); }
        }
      }
    }

    /** file_close. */
    method CloseFile(s: nat)
      requires Valid() && s in opens && s > 1
      modifies this
      ensures Valid() && slots == old(slots) && disk == old(disk)
      ensures opens == Closed(old(opens), s)
      ensures var was := old(opens)[s];
              if was.openCnt == 1 && was.removed then Released(old(bits), bits, s, was.data) else bits == old(bits)
    {
      InodeClose(s);
    }
  }

  ghost function FileBytes(sectors: seq<Inodes.Sector>, d: DiskInode): seq<Inodes.Byte>
    requires d.start + Inodes.BytesToSectors(d.length) <= |sectors|
  {
    Inodes.Bytes(sectors, 512 * d.start, d.length)
  }

  /** Between was and now, file t keeps its inode and, unless it is s, its bytes. */
  ghost predicate OthersKept(was: seq<Inodes.Sector>, now: seq<Inodes.Sector>, disk: map<nat, DiskInode>, s: nat,
                             t: nat) {
    && t in disk && t < |was| == |now| && disk[t].start + Inodes.BytesToSectors(disk[t].length) <= |was|
    && now[t] == was[t]
    && (t != s ==> FileBytes(now, disk[t]) == FileBytes(was, disk[t]))
  }

  /** A write inside file s leaves the sectors of file t, and all inodes, alone. */
  lemma WriteStaysInFile(bits: seq<bool>, disk: map<nat, DiskInode>, slots: Slots, opens: map<nat, OpenInode>,
                         owner: map<nat, nat>, s: nat, t: nat, was: seq<Inodes.Sector>, now: seq<Inodes.Sector>,
                         offset: nat, data: seq<Inodes.Byte>)
    requires OwnersOk(bits, disk, slots, opens, owner) && IsFile(slots, opens, s) && IsFile(slots, opens, t)
             && s in disk
    requires |was| == |bits| && (data == [] || offset + |data| <= disk[s].length)
    requires Inodes.Written(was, now, 512 * disk[s].start + offset, data)
    ensures OthersKept(was, now, disk, s, t)
  {
    FilesApart(bits, disk, slots, opens, owner, s, t);
    FilesApart(bits, disk, slots, opens, owner, t, t);
    assert Owns(disk, owner, s) && Owns(disk, owner, t);
    var d, e := disk[s], disk[t];
    assert InFile(t, t, e);
    assert InFile(t, s, d) ==> s == t;
    forall k: nat | k < |was| && !InData(k, d) ensures now[k] == was[k] {
      SectorKept(was, now, 512 * d.start + offset, data, k);
    }
    if s != t {
      var bytes, bytes' := Inodes.Bytes(was, 512 * e.start, e.length), Inodes.Bytes(now, 512 * e.start, e.length);
      forall k | 0 <= k < e.length ensures bytes'[k] == bytes[k] {
        var sector := (512 * e.start + k) / 512;
        assert InFile(sector, t, e);
        assert InFile(sector, s, d) || now[sector] == was[sector];
      }
    }
  }

  /** A sector out of reach of a write is unchanged. */
  lemma SectorKept(was: seq<Inodes.Sector>, now: seq<Inodes.Sector>, from: nat, data: seq<Inodes.Byte>, k: nat)
    requires Inodes.Written(was, now, from, data) && k < |was|
    requires data == [] || 512 * k + 512 <= from || from + |data| <= 512 * k
    ensures now[k] == was[k]
  {
    forall p | 0 <= p < 512 ensures now[k][p] == was[k][p] {
      assert Inodes.ByteAt(now, 512 * k + p) == Inodes.ByteAt(was, 512 * k + p);
    }
  }

  lemma SameSectors(was: seq<Inodes.Sector>, now: seq<Inodes.Sector>, from: nat)
    requires Inodes.Written(was, now, from, [])
    ensures now == was
  {
    forall k | 0 <= k < |was| ensures now[k] == was[k] {
      SectorKept(was, now, from, [], k);
    }
  }

  /** The two files of a new file system have sectors of their own. */
  lemma Formatted(bits0: seq<bool>, bits1: seq<bool>, bits2: seq<bool>, fileMap: DiskInode, root: DiskInode)
    requires |bits0| >= 2 && bits0[0] && bits0[1]
    requires var n := Inodes.BytesToSectors(fileMap.length);
             Fits(bits0, fileMap.start, n, false) && bits1 == Filled(bits0, fileMap.start, n, true)
    requires Inodes.BytesToSectors(root.length) == 1 && Fits(bits1, root.start, 1, false)
             && bits2 == Filled(bits1, root.start, 1, true)
    ensures var n := Inodes.BytesToSectors(fileMap.length);
            var disk := Zeroed(Zeroed(map[0 := fileMap], fileMap.start, n)[1 := root], root.start, 1);
            var owner := Given(Given(map[0 := 0, 1 := 1], fileMap.start, n, 0), root.start, 1, 1);
            && Owns(disk, owner, 0) && disk[0] == fileMap && fileMap.start + n <= |bits2|
            && Owns(disk, owner, 1) && disk[1] == root && root.start + 1 <= |bits2|
            && forall k {:trigger owner[k]} {:trigger bits2[k]} | k in owner :: k < |bits2| && bits2[k]
  {
    assert !bits1[root.start];
    assert forall k | InData(k, fileMap) :: bits1[k];
    assert forall k | InData(k, fileMap) :: !bits0[k];
  }

  lemma FormatOk(bits0: seq<bool>, bits1: seq<bool>, bits2: seq<bool>, fileMap: DiskInode, root: DiskInode,
                 slots: Slots, opens: map<nat, OpenInode>)
    requires |bits0| >= 2 && bits0[0] && bits0[1]
    requires var n := Inodes.BytesToSectors(fileMap.length);
             Fits(bits0, fileMap.start, n, false) && bits1 == Filled(bits0, fileMap.start, n, true)
    requires Inodes.BytesToSectors(root.length) == 1 && Fits(bits1, root.start, 1, false)
             && bits2 == Filled(bits1, root.start, 1, true)
    requires (forall i | 0 <= i < |slots| :: !slots[i].inUse) && opens == map[0 := OpenInode(fileMap, 1, false)]
    ensures var n := Inodes.BytesToSectors(fileMap.length);
            var disk := Zeroed(Zeroed(map[0 := fileMap], fileMap.start, n)[1 := root], root.start, 1);
            var owner := Given(Given(map[0 := 0, 1 := 1], fileMap.start, n, 0), root.start, 1, 1);
            OwnersOk(bits2, disk, slots, opens, owner) && OpensOk(disk, slots, opens)
    ensures SlotsOk(slots) && forall s | Linked(slots, s) :: false
  {
    Formatted(bits0, bits1, bits2, fileMap, root);
  }

  lemma NotAFile(bits: seq<bool>, disk: map<nat, DiskInode>, slots: Slots, opens: map<nat, OpenInode>,
                 owner: map<nat, nat>, s: nat)
    requires OwnersOk(bits, disk, slots, opens, owner) && s !in owner
    ensures !IsFile(slots, opens, s)
  {
    if IsFile(slots, opens, s) {
      assert Owns(disk, owner, s);
      assert InFile(s, s, disk[s]);
    }
  }

  lemma Relinked(bits: seq<bool>, disk: map<nat, DiskInode>, slots: Slots, slots': Slots, opens: map<nat, OpenInode>,
                 owner: map<nat, nat>, s: nat)
    requires OwnersOk(bits, disk, slots, opens, owner) && OpensOk(disk, slots, opens) && s !in opens
    requires Owns(disk, owner, s) && disk[s].start + Inodes.BytesToSectors(disk[s].length) <= |bits|
    requires forall t | Linked(slots', t) :: Linked(slots, t) || t == s
    ensures OwnersOk(bits, disk, slots', opens, owner) && OpensOk(disk, slots', opens)
  {
    forall t | IsFile(slots', opens, t)
      ensures Owns(disk, owner, t) && disk[t].start + Inodes.BytesToSectors(disk[t].length) <= |bits|
    {
      assert IsFile(slots, opens, t) || t == s;
    }
  }

  /** A file's bits are set, and remain so when the inode's own bit is cleared: both assertions of inode_close hold. */
  lemma BitsOf(bits: seq<bool>, disk: map<nat, DiskInode>, owner: map<nat, nat>, s: nat)
    requires Owns(disk, owner, s) && forall k {:trigger owner[k]} {:trigger bits[k]} | k in owner ::
                                       k < |bits| && bits[k]
    requires disk[s].start + Inodes.BytesToSectors(disk[s].length) <= |bits|
    ensures Fits(bits, s, 1, true)
            && Fits(Filled(bits, s, 1, false), disk[s].start, Inodes.BytesToSectors(disk[s].length), true)
  {
    var d := disk[s];
    forall k: nat | InFile(k, s, d) ensures k < |bits| && bits[k] { assert owner[k] == s; }
    assert InFile(s, s, d);
    forall k | d.start <= k < d.start + Inodes.BytesToSectors(d.length)
      ensures k != s && bits[k]
    {
      assert InFile(k, s, d);
    }
  }
}
