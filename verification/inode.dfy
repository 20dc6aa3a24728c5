/** Reading and writing a file's bytes through whole disk sectors (pintos/filesys/inode.c). A call is calm or not: in
    a calm one there is memory for a bounce buffer; otherwise it may be missing. */
module Inodes {

  type Byte = x: int | 0 <= x < 256

  type Sector = s: seq<Byte> | |s| == 512 witness Zeros(512)

  function Zeros(n: nat): (z: seq<Byte>)
    ensures |z| == n && forall k | 0 <= k < n :: z[k] == 0
  {
    if n == 0 then [] else Zeros(n - 1) + [0]
  }

  /** Byte p of the disk. */
  function ByteAt(sectors: seq<Sector>, p: int): Byte
    requires 0 <= p < 512 * |sectors|
  {
    sectors[p / 512][p % 512]
  }

  /** The n bytes of the disk from byte from. */
  function Bytes(sectors: seq<Sector>, from: nat, n: nat): (b: seq<Byte>)
    requires from + n <= 512 * |sectors|
    ensures |b| == n && forall k | 0 <= k < n :: b[k] == ByteAt(sectors, from + k)
  {
    if n == 0 then [] else Bytes(sectors, from, n - 1) + [ByteAt(sectors, from + n - 1)]
  }

  /** Bytes from..from + |data| of the disk are data; all others are as in was. */
  ghost predicate Written(was: seq<Sector>, now: seq<Sector>, from: nat, data: seq<Byte>) {
    && |now| == |was|
    && forall p {:trigger ByteAt(now, p)} {:trigger ByteAt(was, p)} | 0 <= p < 512 * |was| ::
         ByteAt(now, p) == if from <= p < from + |data| then data[p - from] else ByteAt(was, p)
  }

  /** A sector of which bytes ofs.. have been overwritten with data. */
  function Patched(sector: Sector, ofs: nat, data: seq<Byte>): Sector
    requires ofs + |data| <= 512
  {
    sector[..ofs] + data + sector[ofs + |data|..]
  }

  lemma PatchWrites(was: seq<Sector>, s: nat, ofs: nat, data: seq<Byte>)
    requires s < |was| && ofs + |data| <= 512
    ensures Written(was, was[s := Patched(was[s], ofs, data)], 512 * s + ofs, data)
  {
    var now := was[s := Patched(was[s], ofs, data)];
    var from := 512 * s + ofs;
    forall p | 0 <= p < 512 * |was|
      ensures ByteAt(now, p) == if from <= p < from + |data| then data[p - from] else ByteAt(was, p)
    {
      if p / 512 == s {
        assert p == 512 * s + p % 512;
      }
    }
  }

  /** The same by the place in a file whose data start at a sector. */
  lemma PatchAt(was: seq<Sector>, start: nat, at: nat, data: seq<Byte>, now: seq<Sector>)
    requires start + at / 512 < |was| && at % 512 + |data| <= 512
    requires now == was[start + at / 512 := Patched(was[start + at / 512], at % 512, data)]
    ensures Written(was, now, 512 * start + at, data)
  {
    PatchWrites(was, start + at / 512, at % 512, data);
    assert 512 * (start + at / 512) + at % 512 == 512 * start + at;
  }

  lemma WholePatch(sector: Sector, data: seq<Byte>)
    requires |data| == 512
    ensures Patched(sector, 0, data) == data
  {
  }

  /** One write after another at adjacent places is one write. */
  lemma WrittenAppend(a: seq<Sector>, b: seq<Sector>, c: seq<Sector>, from: nat, data: seq<Byte>, more: seq<Byte>)
    requires Written(a, b, from, data) && Written(b, c, from + |data|, more)
    ensures Written(a, c, from, data + more)
  {
    forall p | 0 <= p < 512 * |a|
      ensures ByteAt(c, p) == if from <= p < from + |data + more| then (data + more)[p - from] else ByteAt(a, p)
    {
      assert ByteAt(c, p) == if from + |data| <= p < from + |data| + |more| then more[p - from - |data|]
             else ByteAt(b, p);
    }
  }

  lemma WrittenSoFar(a: seq<Sector>, b: seq<Sector>, c: seq<Sector>, from: nat, buffer: seq<Byte>, done: nat,
                     chunk: nat)
    requires done + chunk <= |buffer|
    requires Written(a, b, from, buffer[..done]) && Written(b, c, from + done, buffer[done..done + chunk])
    ensures Written(a, c, from, buffer[..done + chunk])
  {
    WrittenAppend(a, b, c, from, buffer[..done], buffer[done..done + chunk]);
    assert buffer[..done] + buffer[done..done + chunk] == buffer[..done + chunk];
  }

  ghost predicate WholeSectors(n: int) { n == 0 || (n >= 512 && WholeSectors(n - 512)) }

  lemma {:induction false} WholeSectorsMod(n: nat)
    ensures WholeSectors(n) ==> n % 512 == 0
  {
    if n >= 512 {
      WholeSectorsMod(n - 512);
    }
  }

  class Disk {
    var sectors: seq<Sector>

    method Read(sector: nat) returns (data: Sector)
      requires sector < |sectors|
      ensures data == sectors[sector]
    {
      data := sectors[sector];
    }

    method Write(sector: nat, data: Sector)
      requires sector < |sectors|
      modifies this
      ensures sectors == old(sectors)[sector := data]
    {
      sectors := sectors[sector := data];
    }
  }

  /** C's division of a file offset by the sector size, and its remainder: both go toward zero. */
  function Quot(pos: int): int { if pos >= 0 then pos / 512 else -(-pos / 512) }
  function Rem(pos: int): int { if pos >= 0 then pos % 512 else -(-pos % 512) }

  function BytesToSectors(size: nat): nat { (size + 511) / 512 }

  /** The part of struct inode that locates and guards the data. */
  class Inode {
    var start: nat
    var length: nat
    var denyWriteCnt: nat

    /** The data sectors are on the disk. */
    ghost predicate On(disk: Disk)
      reads this, disk
    {
      start + BytesToSectors(length) <= |disk.sectors|
    }

    /** The file as an array of bytes. */
    ghost function Contents(disk: Disk): (c: seq<Byte>)
      requires On(disk)
      reads this, disk
      ensures |c| == length
    {
      Bytes(disk.sectors, 512 * start, length)
    }

    /** How many of size bytes from offset there are before the end of the file. */
    function Count(size: int, offset: nat): (n: nat)
      reads this
    {
      var left := if size < length - offset then size else length - offset;
      if left < 0 then 0 else left
    }

    /** The bytes of one pass of the loop: no further than the request, the file and the sector go. */
    function Chunk(size: int, offset: int): int
      reads this
    {
      var inodeLeft := length - offset;
      var sectorLeft := 512 - Rem(offset);
      var minLeft := if inodeLeft < sectorLeft then inodeLeft else sectorLeft;
      if size < minLeft then size else minLeft
    }

    /** A request for whole sectors only. */
    ghost predicate Whole(size: int, offset: nat)
      reads this
    {
      offset % 512 == 0 && Count(size, offset) % 512 == 0
    }

    lemma ChunkFits(disk: Disk, size: int, offset: nat, done: nat)
      requires On(disk) && done <= Count(size, offset)
      ensures var chunk := Chunk(size - done, offset + done);
              && (chunk > 0 <==> done < Count(size, offset))
              && (chunk > 0 ==> done + chunk <= Count(size, offset) && (offset + done) % 512 + chunk <= 512
                                && start + (offset + done) / 512 < |disk.sectors|)
              && (offset % 512 == 0 && Count(size, offset) % 512 == 0 && WholeSectors(done) && chunk > 0 ==>
                   (offset + done) % 512 == 0 && chunk == 512)
    {
      var at := offset + done;
      if at < length {
        assert at / 512 < BytesToSectors(length);
      }
      WholeSectorsMod(done);
    }

    /** A pass at this offset turns to a sector before the file's first one, or to a place before its sector. */
    predicate Strays(offset: int) { Quot(offset) < 0 || Rem(offset) < 0 }

    /** A write of a sector at offset -512 goes to the sector before the file's first one. */
    lemma BeforeFile(sectors: seq<Sector>, data: Sector)
      requires 0 < start <= |sectors|
      ensures Strays(-512) && Chunk(512, -512) == 512 && start + Quot(-512) == start - 1 && Rem(-512) == 0
      ensures Written(sectors, sectors[start - 1 := Patched(sectors[start - 1], 0, data)], 512 * start - 512, data)
    {
      PatchWrites(sectors, start - 1, 0, data);
    }

    /** Reads up to size bytes from offset into buffer. A count short of min(size, bytes left) means that there
        was no memory for the bounce buffer, which only a read of part of a sector needs. Exactly when the offset is
        negative the first pass leaves the file; the run is followed no further then. */
    method ReadAt(disk: Disk, buffer: array<Byte>, size: int, offset: int, calm: bool)
      returns (bytesRead: nat, ghost noMemory: bool, astray: bool)
      requires On(disk) && size <= buffer.Length
      modifies buffer
      ensures astray <==> size > 0 && offset < 0
      ensures offset < 0 ==> bytesRead == 0 && !noMemory && buffer[..] == old(buffer[..])
      ensures offset >= 0 ==> && bytesRead <= Count(size, offset) && (bytesRead < Count(size, offset) ==> noMemory)
                              && (noMemory ==> !calm && !Whole(size, offset))
      ensures Got(Contents(disk), offset, bytesRead, buffer[..])
      ensures buffer[bytesRead..] == old(buffer[..])[bytesRead..]
    {
      bytesRead, noMemory := 0, false;
      astray := size > 0 && Strays(offset);
      if size <= 0 || astray {
        return;
      }
      bytesRead, noMemory := ReadLoop(disk, buffer, size, offset, calm);
    }

    /** The loop, from inside the file or beyond its end. */
    method ReadLoop(disk: Disk, buffer: array<Byte>, size: int, offset: nat, calm: bool)
      returns (bytesRead: nat, ghost noMemory: bool)
      requires On(disk) && size <= buffer.Length
      modifies buffer
      ensures bytesRead <= Count(size, offset) && (bytesRead < Count(size, offset) ==> noMemory)
      ensures Got(Contents(disk), offset, bytesRead, buffer[..])
      ensures buffer[bytesRead..] == old(buffer[..])[bytesRead..]
      ensures noMemory ==> !calm && !Whole(size, offset)
    {
      bytesRead := 0;
      noMemory := false;
      ghost var contents, first := Contents(disk), buffer[..];
      var left, at := size, offset;
      var haveBounce := false;
      while left > 0
        invariant at == offset + bytesRead && left == size - bytesRead && bytesRead <= Count(size, offset)
        invariant Filled(contents, offset, bytesRead, first, buffer[..])
        invariant Whole(size, offset) ==> WholeSectors(bytesRead)
        decreases left
      {
        ghost var was := buffer[..];
        var chunk, ok := ReadPass(disk, buffer, size, offset, bytesRead, haveBounce, calm);
        if chunk <= 0 {
          break;
        }
        if !ok {
          noMemory := true;
          break;
        }
        haveBounce := haveBounce || !(at % 512 == 0 && chunk == 512);
        ReadSoFar(contents, offset, bytesRead, chunk, was, first, buffer[..]);
        left := left - chunk;
        at := at + chunk;
        bytesRead := bytesRead + chunk;
      }
    }

    /** A pass of the loop: reads what is wanted of the next sector. */
    method ReadPass(disk: Disk, buffer: array<Byte>, size: int, offset: nat, done: nat, haveBounce: bool,
                    calm: bool)
      returns (chunk: int, ok: bool)
      requires On(disk) && size <= buffer.Length && done <= Count(size, offset)
               && (Whole(size, offset) ==> WholeSectors(done))
      modifies buffer
      ensures chunk == Chunk(size - done, offset + done) && (chunk > 0 <==> done < Count(size, offset))
      ensures chunk <= 0 || !ok ==> buffer[..] == old(buffer[..])
      ensures chunk > 0 && !ok ==> !calm && !Whole(size, offset)
      ensures chunk > 0 && ok ==> && done + chunk <= Count(size, offset)
                                  && (Whole(size, offset) ==> WholeSectors(done + chunk))
                                  && (forall k | 0 <= k < done :: buffer[k] == old(buffer[k]))
                                  && buffer[done..done + chunk] == Contents(disk)[offset + done..offset + done + chunk]
                                  && buffer[done + chunk..] == old(buffer[..])[done + chunk..]
    {
      ok := true;
      ChunkFits(disk, size, offset, done);
      chunk := Chunk(size - done, offset + done);
      if chunk > 0 {
        ok := ReadChunk(disk, buffer, done, chunk, offset + done, haveBounce, calm);
      }
    }

    /** Reads the part of one sector that is wanted; it fails only for want of a bounce buffer. */
    method ReadChunk(disk: Disk, buffer: array<Byte>, to: nat, chunk: nat, at: nat, haveBounce: bool,
                     calm: bool) returns (ok: bool)
      requires On(disk) && 0 < chunk && at % 512 + chunk <= 512 && at + chunk <= length
               && start + at / 512 < |disk.sectors|
      requires to + chunk <= buffer.Length
      modifies buffer
      ensures ok ==> && (forall k | 0 <= k < to :: buffer[k] == old(buffer[k]))
                     && buffer[to..to + chunk] == Contents(disk)[at..at + chunk]
                     && buffer[to + chunk..] == old(buffer[to + chunk..])
      ensures !ok ==> buffer[..] == old(buffer[..]) && !calm && !(at % 512 == 0 && chunk == 512)
    {
      if !(at % 512 == 0 && chunk == 512) && !haveBounce {
        var fail: bool := *;
        if fail && !calm {
          return false;
        }
      }
      var data := disk.Read(start + at / 512);
      CopyIn(buffer, to, data, at % 512, chunk);
      SectorPart(disk.sectors, start, length, at, chunk, data, Contents(disk));
      return true;
    }

    method WriteChunk(disk: Disk, data: seq<Byte>, at: nat, haveBounce: bool, calm: bool) returns (ok: bool)
      requires On(disk) && 0 < |data| && at % 512 + |data| <= 512 && start + at / 512 < |disk.sectors|
      modifies disk
      ensures ok ==> Written(old(disk.sectors), disk.sectors, 512 * start + at, data)
      ensures !ok ==> disk.sectors == old(disk.sectors) && !calm && !(at % 512 == 0 && |data| == 512)
    {
      var sectorIdx, sectorOfs := start + at / 512, at % 512;
      if sectorOfs == 0 && |data| == 512 {
        WholePatch(disk.sectors[sectorIdx], data);
        PutSector(disk, sectorIdx, data, at, data);
        return true;
      }
      if !haveBounce {
        var fail: bool := *;
        if fail && !calm {
          return false;
        }
      }
      var bounce: Sector := Zeros(512);
      if sectorOfs > 0 || |data| < 512 - sectorOfs {
        bounce := disk.Read(sectorIdx);
      }
      PutSector(disk, sectorIdx, Patched(bounce, sectorOfs, data), at, data);
      return true;
    }

    /** disk_write of a sector of which only data, at its place, is new. */
    method PutSector(disk: Disk, idx: nat, sector: Sector, ghost at: nat, ghost data: seq<Byte>)
      requires idx == start + at / 512 < |disk.sectors| && at % 512 + |data| <= 512
      requires sector == Patched(disk.sectors[idx], at % 512, data)
      modifies disk
      ensures Written(old(disk.sectors), disk.sectors, 512 * start + at, data)
    {
      disk.Write(idx, sector);
      PatchAt(old(disk.sectors), start, at, data, disk.sectors);
    }

    /** A pass of the loop: writes what is wanted of the next sector. */
    method WritePass(disk: Disk, buffer: seq<Byte>, size: int, offset: nat, done: nat, haveBounce: bool, calm: bool,
                     ghost first: seq<Sector>)
      returns (chunk: int, ok: bool)
      requires On(disk) && size <= |buffer| && done <= Count(size, offset)
               && (Whole(size, offset) ==> WholeSectors(done))
      requires done <= |buffer| && Written(first, disk.sectors, 512 * start + offset, buffer[..done])
      modifies disk
      ensures chunk == Chunk(size - done, offset + done) && (chunk > 0 <==> done < Count(size, offset))
      ensures chunk <= 0 || !ok ==> disk.sectors == old(disk.sectors)
      ensures chunk > 0 && !ok ==> !calm && !Whole(size, offset)
      ensures chunk > 0 && ok ==> && done + chunk <= Count(size, offset) <= |buffer|
                                  && (Whole(size, offset) ==> WholeSectors(done + chunk))
                                  && Written(first, disk.sectors, 512 * start + offset, buffer[..done + chunk])
    {
      ok := true;
      ChunkFits(disk, size, offset, done);
      chunk := Chunk(size - done, offset + done);
      if chunk > 0 {
        ghost var was := disk.sectors;
        ok := WriteChunk(disk, buffer[done..done + chunk], offset + done, haveBounce, calm);
        if ok {
          WrittenSoFar(first, was, disk.sectors, 512 * start + offset, buffer, done, chunk);
        }
      }
    }

    /** Writes up to size bytes of buffer at offset, without growing the file. Exactly the bytes counted
        change on the disk. A denied write changes nothing. Exactly when a write is not denied and the offset is
        negative the first pass leaves the file; the run is followed no further then. */
    method WriteAt(disk: Disk, buffer: seq<Byte>, size: int, offset: int, calm: bool)
      returns (bytesWritten: nat, ghost noMemory: bool, astray: bool)
      requires On(disk) && size <= |buffer|
      modifies disk
      ensures On(disk)
      ensures astray <==> denyWriteCnt == 0 && size > 0 && offset < 0
      ensures denyWriteCnt > 0 || offset < 0 ==> bytesWritten == 0 && !noMemory && disk.sectors == old(disk.sectors)
      ensures bytesWritten <= |buffer|
      ensures offset >= 0 ==> && bytesWritten <= Count(size, offset) && (noMemory ==> !calm && !Whole(size, offset))
                              && (denyWriteCnt == 0 && bytesWritten < Count(size, offset) ==> noMemory)
                              && Written(old(disk.sectors), disk.sectors, 512 * start + offset, buffer[..bytesWritten])
    {
      bytesWritten, noMemory, astray := 0, false, false;
      if denyWriteCnt > 0 {
        return;
      }
      astray := size > 0 && Strays(offset);
      if size <= 0 || astray {
        return;
      }
      bytesWritten, noMemory := WriteLoop(disk, buffer, size, offset, calm);
    }

    /** The loop, from inside the file or beyond its end. */
    method WriteLoop(disk: Disk, buffer: seq<Byte>, size: int, offset: nat, calm: bool)
      returns (bytesWritten: nat, ghost noMemory: bool)
      requires On(disk) && size <= |buffer|
      modifies disk
      ensures On(disk)
      ensures bytesWritten <= Count(size, offset) && bytesWritten <= |buffer|
      ensures bytesWritten < Count(size, offset) ==> noMemory
      ensures Written(old(disk.sectors), disk.sectors, 512 * start + offset, buffer[..bytesWritten])
      ensures noMemory ==> !calm && !Whole(size, offset)
    {
      bytesWritten := 0;
      noMemory := false;
      var left, at := size, offset;
      var haveBounce := false;
      while left > 0
        invariant at == offset + bytesWritten && left == size - bytesWritten && bytesWritten <= Count(size, offset)
        invariant bytesWritten <= |buffer| && |disk.sectors| == |old(disk.sectors)|
        invariant Written(old(disk.sectors), disk.sectors, 512 * start + offset, buffer[..bytesWritten])
        invariant Whole(size, offset) ==> WholeSectors(bytesWritten)
        decreases left
      {
        var chunk, ok := WritePass(disk, buffer, size, offset, bytesWritten, haveBounce, calm, old(disk.sectors));
        if chunk <= 0 {
          break;
        }
        if !ok {
          noMemory := true;
          break;
        }
        haveBounce := haveBounce || !(at % 512 == 0 && chunk == 512);
        left := left - chunk;
        at := at + chunk;
        bytesWritten := bytesWritten + chunk;
      }
    }

    /** A write changes exactly its slice of the file's bytes. */
    lemma WriteRefinesArray(disk: Disk, was: seq<Sector>, offset: nat, data: seq<Byte>, before: seq<Byte>)
      requires On(disk) && |was| == |disk.sectors| && |before| == length && offset + |data| <= length
      requires forall k | 0 <= k < length :: before[k] == ByteAt(was, 512 * start + k)
      requires Written(was, disk.sectors, 512 * start + offset, data)
      ensures Contents(disk) == before[..offset] + data + before[offset + |data|..]
    {
      forall k | 0 <= k < length ensures Contents(disk)[k] == (before[..offset] + data + before[offset + |data|..])[k] {
        var b := ByteAt(was, 512 * start + k);
      }
    }

    /** What has been written is read back. */
    method WriteThenRead(disk: Disk, data: seq<Byte>, offset: int, buffer: array<Byte>, calm: bool)
      returns (n: nat, m: nat, ghost noMemory: bool, astray: bool)
      requires On(disk) && |data| <= buffer.Length
      modifies disk, buffer
      ensures astray <==> denyWriteCnt == 0 && |data| > 0 && offset < 0
      ensures m <= n <= |data| && (m < n ==> noMemory) && buffer[..m] == data[..m] && (noMemory ==> !calm)
      ensures offset >= 0 ==> n <= Count(|data|, offset)
                              && (denyWriteCnt == 0 && n < Count(|data|, offset) ==> noMemory)
    {
      ghost var outOfMemory;
      n, outOfMemory, astray := WriteAt(disk, data, |data|, offset, calm);
      var stray;
      m, noMemory, stray := ReadAt(disk, buffer, n, offset, calm);
      if m > 0 {
        forall k | 0 <= k < m ensures buffer[k] == data[k] {
          assert buffer[..][..m][k] == Contents(disk)[offset..offset + m][k];
          assert buffer[k] == ByteAt(disk.sectors, 512 * start + (offset + k));
        }
      }
      noMemory := noMemory || outOfMemory;
    }
  }

  /** The bytes of one sector are those of the file. */
  lemma SectorPart(sectors: seq<Sector>, start: nat, length: nat, at: nat, chunk: nat, data: Sector,
                   contents: seq<Byte>)
    requires 512 * start + length <= 512 * |sectors| && contents == Bytes(sectors, 512 * start, length)
    requires at % 512 + chunk <= 512 && at + chunk <= length && start + at / 512 < |sectors|
             && data == sectors[start + at / 512]
    ensures contents[at..at + chunk] == data[at % 512..at % 512 + chunk]
  {
    var ofs := at % 512;
    var part, piece := contents[at..at + chunk], data[ofs..ofs + chunk];
    forall k | 0 <= k < chunk ensures part[k] == piece[k] {
      assert contents[at + k] == ByteAt(sectors, 512 * start + (at + k));
    }
  }

  /** The first n bytes of a buffer are those of the file from offset on. */
  ghost predicate Got(contents: seq<Byte>, offset: int, n: nat, buffer: seq<Byte>) {
    n <= |buffer| && (n > 0 ==> 0 <= offset && offset + n <= |contents| && buffer[..n] == contents[offset..offset + n])
  }

  /** The first done bytes of a buffer, which held first, are those of the file from offset on. */
  ghost predicate Filled(contents: seq<Byte>, offset: nat, done: nat, first: seq<Byte>, now: seq<Byte>) {
    && |now| == |first| && done <= |now| && (done > 0 ==> offset + done <= |contents|)
    && (forall k {:trigger now[k]} | 0 <= k < |now| :: now[k] == if k < done then contents[offset + k] else first[k])
  }

  lemma ReadSoFar(contents: seq<Byte>, offset: nat, done: nat, chunk: nat, was: seq<Byte>, first: seq<Byte>,
                  now: seq<Byte>)
    requires Filled(contents, offset, done, first, was) && |was| == |now|
    requires done + chunk <= |now| && 0 < chunk && offset + done + chunk <= |contents|
    requires forall k | 0 <= k < done :: now[k] == was[k]
    requires now[done..done + chunk] == contents[offset + done..offset + done + chunk]
    requires now[done + chunk..] == was[done + chunk..]
    ensures Filled(contents, offset, done + chunk, first, now)
  {
    forall k | 0 <= k < |now| ensures now[k] == if k < done + chunk then contents[offset + k] else first[k] {
      if k < done {
      } else if k < done + chunk {
        assert now[k] == now[done..done + chunk][k - done];
      } else {
        assert now[k] == now[done + chunk..][k - done - chunk];
        assert was[k] == was[done + chunk..][k - done - chunk];
      }
    }
  }

  /** memcpy. */
  method CopyIn(buffer: array<Byte>, to: nat, data: seq<Byte>, from: nat, n: nat)
    requires to + n <= buffer.Length && from + n <= |data|
    modifies buffer
    ensures forall k | 0 <= k < to :: buffer[k] == old(buffer[k])
    ensures buffer[to..to + n] == data[from..from + n]
    ensures buffer[to + n..] == old(buffer[to + n..])
  {
    var i := 0;
    while i < n
      invariant 0 <= i <= n
      invariant forall k | 0 <= k < to || to + i <= k < buffer.Length :: buffer[k] == old(buffer[k])
      invariant forall k | to <= k < to + i :: buffer[k] == data[from + (k - to)]
    {
      buffer[to + i] := data[from + i];
      i := i + 1;
    }
  }
}
