/** Block device, in-memory inodes and the two transfer loops (src/filesys/inode.c). */
module Inodes {
  import opened Words

  const SECTOR_SIZE: int := 512
  const OFF_MAX: int := 0x7fff_ffff

  type Sector = s: seq<byte> | |s| == SECTOR_SIZE witness seq(SECTOR_SIZE, i => 0)

  class Device {
    var sectors: seq<Sector>

    constructor (sectors: seq<Sector>)
      ensures this.sectors == sectors
    {
      this.sectors := sectors;
    }

    /** block_write; the bound is the check that panics on an access past the device. */
    method Write(idx: nat, data: Sector)
      requires idx < |sectors|
      modifies this
      ensures sectors == old(sectors)[idx := data]
    {
      sectors := sectors[idx := data];
    }
  }

  /** struct inode, without the list element: where it lives on disk, the copy of the on-disk
      inode made when it was opened, and the counters. */
  class Inode {
    const sector: nat
    const start: nat
    const length: nat
    var openCnt: int
    var removed: bool
    var denyWriteCnt: int

    constructor (sector: nat, start: nat, length: nat)
      ensures this.sector == sector && this.start == start && this.length == length
      ensures openCnt == 1 && !removed && denyWriteCnt == 0
    {
      this.sector := sector;
      this.start := start;
      this.length := length;
      openCnt := 1;
      removed := false;
      denyWriteCnt := 0;
    }
  }

  /** bytes_to_sectors */
  function SectorCnt(size: nat): nat { (size + SECTOR_SIZE - 1) / SECTOR_SIZE }

  /** Just as many sectors as hold the bytes. */
  lemma SectorCntIs(size: nat)
    ensures size <= 512 * SectorCnt(size)
    ensures size > 0 ==> 512 * (SectorCnt(size) - 1) < size
    ensures size == 0 ==> SectorCnt(size) == 0
  {
  }

  predicate ExtentFits(d: seq<Sector>, start: nat, length: nat) {
    start + SectorCnt(length) <= |d|
  }

  /** The file stored in the extent that begins at `start`: one flat array of bytes. */
  ghost function FileBytes(d: seq<Sector>, start: nat, length: nat): (r: seq<byte>)
    requires ExtentFits(d, start, length)
    ensures |r| == length
  {
    seq(length, i requires 0 <= i < length => d[start + i / SECTOR_SIZE][i % SECTOR_SIZE])
  }

  /** `content` with `data` stored at `offset`; nothing else changes. */
  function Overwrite(content: seq<byte>, offset: nat, data: seq<byte>): (r: seq<byte>)
    ensures |r| == |content|
  {
    seq(|content|, i requires 0 <= i < |content| =>
      if offset <= i < offset + |data| then data[i - offset] else content[i])
  }

  /** How many bytes a transfer moves.  Whole aligned sectors move without a bounce buffer;
      when its allocation fails the transfer stops at the first partial sector. */
  function TransferCnt(length: nat, size: int, offset: nat, bounceOk: bool): (n: nat)
    ensures n > 0 ==> n <= size && offset + n <= length
  {
    if size <= 0 || offset >= length then 0
    else
      var avail := if size < length - offset then size else length - offset;
      if bounceOk then avail
      else if offset % SECTOR_SIZE != 0 then 0
      else avail - avail % SECTOR_SIZE
  }

  /** A transfer of `n` bytes out of the `size` asked for moves what it should: with a bounce buffer
      everything up to the end of the file; without one the whole sectors of that, and nothing from
      the middle of a sector on. */
  ghost predicate MovesAll(length: nat, size: int, offset: nat, bounceOk: bool, n: nat) {
    if size <= 0 || offset >= length then n == 0
    else
      var avail := Min(size, length - offset);
      if bounceOk then n == avail
      else if offset % 512 == 0 then n <= avail < n + 512 && n % 512 == 0
      else n == 0
  }

  /** byte_to_sector, for a position inside the file. */
  function ByteToSector(start: nat, length: nat, pos: nat): (r: nat)
    requires pos < length
    ensures start <= r < start + SectorCnt(length)
  {
    start + pos / SECTOR_SIZE
  }

  /** Two disks that differ at most inside `start .. start + cnt`. */
  predicate SameOutside(d: seq<Sector>, d': seq<Sector>, start: nat, cnt: nat) {
    && |d| == |d'|
    && forall k :: 0 <= k < |d| && !(start <= k < start + cnt) ==> d'[k] == d[k]
  }

  /** The bytes one round of a transfer moves: no more than is asked for, than the inode has
      left, or than the sector has left. */
  function ChunkSize(length: nat, left: int, ofs: nat): (r: int)
    ensures r > 0 ==> r <= left && ofs + r <= length && ofs % SECTOR_SIZE + r <= SECTOR_SIZE
    ensures r <= 0 ==> left <= 0 || length <= ofs
  {
    Min(left, Min(length - ofs, SECTOR_SIZE - ofs % SECTOR_SIZE))
  }

  /** The loop of a transfer goes on with this chunk: there is something to move and, unless
      the chunk is a whole sector, there is a bounce buffer. */
  predicate Moves(ofs: nat, chunk: int, bounceOk: bool) {
    chunk > 0 && (bounceOk || (ofs % SECTOR_SIZE == 0 && chunk == SECTOR_SIZE))
  }

  /** One chunk of inode_read_at: a whole sector directly, part of a sector through the
      bounce buffer. */
  method ReadChunk(dev: Device, start: nat, length: nat, ofs: nat, chunk: nat) returns (piece: seq<byte>)
    requires ExtentFits(dev.sectors, start, length)
    requires 0 < chunk && ofs + chunk <= length && ofs % SECTOR_SIZE + chunk <= SECTOR_SIZE
    ensures piece == FileBytes(dev.sectors, start, length)[ofs .. ofs + chunk]
  {
    var sectorIdx := ByteToSector(start, length, ofs);
    var sectorOfs := ofs % SECTOR_SIZE;
    ChunkOfSector(dev.sectors, start, length, ofs, chunk);
    if sectorOfs == 0 && chunk == SECTOR_SIZE {
      piece := dev.sectors[sectorIdx];
    } else {
      var bounce := dev.sectors[sectorIdx];
      piece := bounce[sectorOfs .. sectorOfs + chunk];
    }
  }

  /** inode_read_at: `data` is what the loop stores in the caller's buffer. */
  method ReadAt(dev: Device, inode: Inode, size: int, offset: nat, bounceOk: bool) returns (data: seq<byte>)
    requires ExtentFits(dev.sectors, inode.start, inode.length)
    ensures |data| == TransferCnt(inode.length, size, offset, bounceOk)
    ensures MovesAll(inode.length, size, offset, bounceOk, |data|)
    ensures data != [] ==>
      data == FileBytes(dev.sectors, inode.start, inode.length)[offset .. offset + |data|]
  {
    data := [];
    ghost var content := FileBytes(dev.sectors, inode.start, inode.length);
    var left, ofs := size, offset;
    ghost var full: nat := 0;
    while left > 0
      invariant Progress(inode.length, size, offset, bounceOk, |data|, full)
      invariant ofs == offset + |data| && left == size - |data|
      invariant |data| > 0 ==> data == content[offset .. ofs]
    {
      var chunk := ChunkSize(inode.length, left, ofs);
      if !Moves(ofs, chunk, bounceOk) {
        break;
      }
      var piece := ReadChunk(dev, inode.start, inode.length, ofs, chunk);
      JoinSlices(content, offset, ofs, ofs + chunk);
      Advance(inode.length, size, offset, bounceOk, |data|, full);
      data := data + piece;
      left := left - chunk;
      ofs := ofs + chunk;
      full := full + 1;
    }
    StopCnt(inode.length, size, offset, bounceOk, |data|, full);
    TransferIs(inode.length, size, offset, bounceOk);
  }

  lemma TransferIs(length: nat, size: int, offset: nat, bounceOk: bool)
    ensures MovesAll(length, size, offset, bounceOk, TransferCnt(length, size, offset, bounceOk))
  {
  }

  lemma JoinSlices(s: seq<byte>, a: nat, b: nat, c: nat)
    requires a <= b <= c <= |s|
    ensures s[a..b] + s[b..c] == s[a..c]
  {
  }

  lemma SameSector(ofs: nat, i: nat)
    requires ofs % SECTOR_SIZE + i < SECTOR_SIZE
    ensures (ofs + i) / SECTOR_SIZE == ofs / SECTOR_SIZE
    ensures (ofs + i) % SECTOR_SIZE == ofs % SECTOR_SIZE + i
  {
  }

  lemma ChunkOfSector(d: seq<Sector>, start: nat, length: nat, ofs: nat, chunk: nat)
    requires ExtentFits(d, start, length)
    requires ofs < length && ofs + chunk <= length && ofs % SECTOR_SIZE + chunk <= SECTOR_SIZE
    ensures start + ofs / SECTOR_SIZE < |d|
    ensures FileBytes(d, start, length)[ofs .. ofs + chunk]
         == d[start + ofs / SECTOR_SIZE][ofs % SECTOR_SIZE .. ofs % SECTOR_SIZE + chunk]
  {
    var l := FileBytes(d, start, length)[ofs .. ofs + chunk];
    var r := d[start + ofs / SECTOR_SIZE][ofs % SECTOR_SIZE .. ofs % SECTOR_SIZE + chunk];
    forall i | 0 <= i < chunk
      ensures l[i] == r[i]
    {
      SameSector(ofs, i);
    }
  }

  /** One sector of the extent rewritten in part. */
  lemma StoreChunk(d: seq<Sector>, start: nat, length: nat, ofs: nat, chunk: seq<byte>, sector: Sector)
    requires ExtentFits(d, start, length)
    requires ofs < length && ofs + |chunk| <= length && ofs % SECTOR_SIZE + |chunk| <= SECTOR_SIZE
    requires sector == Overwrite(d[start + ofs / SECTOR_SIZE], ofs % SECTOR_SIZE, chunk)
    ensures FileBytes(d[start + ofs / SECTOR_SIZE := sector], start, length)
         == Overwrite(FileBytes(d, start, length), ofs, chunk)
  {
    var l := FileBytes(d[start + ofs / SECTOR_SIZE := sector], start, length);
    var r := Overwrite(FileBytes(d, start, length), ofs, chunk);
    forall i | 0 <= i < length
      ensures l[i] == r[i]
    {
      if ofs <= i < ofs + |chunk| {
        SameSector(ofs, i - ofs);
      }
    }
  }

  /** A transfer loop has moved `n` bytes; without a bounce buffer these are `full` sectors. */
  ghost predicate Progress(length: nat, size: int, offset: nat, bounceOk: bool, n: nat, full: nat) {
    && (n > 0 ==> offset + n <= length && n <= size)
    && (!bounceOk ==> n == SECTOR_SIZE * full)
    && (!bounceOk && n > 0 ==> offset % SECTOR_SIZE == 0)
  }

  lemma Advance(length: nat, size: int, offset: nat, bounceOk: bool, n: nat, full: nat)
    requires Progress(length, size, offset, bounceOk, n, full)
    requires Moves(offset + n, ChunkSize(length, size - n, offset + n), bounceOk)
    ensures Progress(length, size, offset, bounceOk, n + ChunkSize(length, size - n, offset + n), full + 1)
  {
  }

  /** When a transfer loop stops, it has moved `TransferCnt` bytes. */
  lemma StopCnt(length: nat, size: int, offset: nat, bounceOk: bool, n: nat, full: nat)
    requires Progress(length, size, offset, bounceOk, n, full)
    requires size - n <= 0 || !Moves(offset + n, ChunkSize(length, size - n, offset + n), bounceOk)
    ensures n == TransferCnt(length, size, offset, bounceOk)
  {
  }

  lemma OverwriteGrows(content: seq<byte>, offset: nat, data: seq<byte>, n: nat, n': nat)
    requires n <= n' <= |data|
    ensures Overwrite(Overwrite(content, offset, data[..n]), offset + n, data[n..n'])
         == Overwrite(content, offset, data[..n'])
  {
  }

  /** Where a byte of the result comes from. */
  lemma OverwriteAt(content: seq<byte>, offset: nat, data: seq<byte>, i: nat)
    requires i < |content|
    ensures i < offset || i >= offset + |data| ==> Overwrite(content, offset, data)[i] == content[i]
    ensures offset <= i < offset + |data| ==> Overwrite(content, offset, data)[i] == data[i - offset]
  {
  }

  lemma OverwriteNothing(content: seq<byte>, offset: nat)
    ensures Overwrite(content, offset, []) == content
  {
  }

  /** One chunk of inode_write_at: a whole sector directly, part of a sector through the
      bounce buffer. */
  method WriteChunk(dev: Device, start: nat, length: nat, piece: seq<byte>, ofs: nat)
    requires ExtentFits(dev.sectors, start, length)
    requires piece != [] && ofs + |piece| <= length && ofs % SECTOR_SIZE + |piece| <= SECTOR_SIZE
    modifies dev
    ensures SameOutside(old(dev.sectors), dev.sectors, start, SectorCnt(length))
    ensures FileBytes(dev.sectors, start, length)
         == Overwrite(old(FileBytes(dev.sectors, start, length)), ofs, piece)
  {
    var sectorIdx := ByteToSector(start, length, ofs);
    var sectorOfs := ofs % SECTOR_SIZE;
    var sector: Sector;
    if sectorOfs == 0 && |piece| == SECTOR_SIZE {
      sector := piece;
    } else {
      // The chunk leaves part of the sector alone, so the sector is read first.
      assert sectorOfs > 0 || |piece| < SECTOR_SIZE - sectorOfs;
      var bounce := dev.sectors[sectorIdx];
      sector := bounce[..sectorOfs] + piece + bounce[sectorOfs + |piece|..];
    }
    assert sector == Overwrite(dev.sectors[sectorIdx], sectorOfs, piece);
    StoreChunk(dev.sectors, start, length, ofs, piece, sector);
    dev.Write(sectorIdx, sector);
  }

  /** The bytes of the whole extent, including those of its last sector past the file's end. */
  ghost function ExtentBytes(d: seq<Sector>, start: nat, length: nat): (r: seq<byte>)
    requires ExtentFits(d, start, length)
  {
    FileBytes(d, start, SECTOR_SIZE * SectorCnt(length))
  }

  lemma ExtentHoldsFile(d: seq<Sector>, start: nat, length: nat)
    requires ExtentFits(d, start, length)
    ensures length <= |ExtentBytes(d, start, length)|
    ensures FileBytes(d, start, length) == ExtentBytes(d, start, length)[..length]
  {
  }

  lemma OverwritePrefix(content: seq<byte>, length: nat, offset: nat, data: seq<byte>)
    requires length <= |content|
    ensures Overwrite(content, offset, data)[..length] == Overwrite(content[..length], offset, data)
  {
  }

  lemma SameExtent(d: seq<Sector>, d': seq<Sector>, start: nat, length: nat)
    requires ExtentFits(d, start, length) && SameOutside(d, d', start, SectorCnt(length))
    requires ExtentBytes(d', start, length) == ExtentBytes(d, start, length)
    ensures d' == d
  {
    forall k | start <= k < start + SectorCnt(length)
      ensures d'[k] == d[k]
    {
      forall i | 0 <= i < SECTOR_SIZE
        ensures d'[k][i] == d[k][i]
      {
        var p := SECTOR_SIZE * (k - start) + i;
        assert p / SECTOR_SIZE == k - start && p % SECTOR_SIZE == i;
        assert ExtentBytes(d', start, length)[p] == ExtentBytes(d, start, length)[p];
      }
    }
  }

  /** inode_write_at.  Exactly `n` bytes at `offset` are replaced: no other byte of the extent
      and no sector outside it changes. */
  method WriteAt(dev: Device, inode: Inode, buffer: seq<byte>, size: int, offset: nat, bounceOk: bool)
    returns (n: nat)
    requires ExtentFits(dev.sectors, inode.start, inode.length)
    requires size <= |buffer|
    modifies dev
    ensures n == if inode.denyWriteCnt != 0 then 0 else TransferCnt(inode.length, size, offset, bounceOk)
    ensures if inode.denyWriteCnt != 0 then n == 0 else MovesAll(inode.length, size, offset, bounceOk, n)
    ensures n <= |buffer|
    ensures SameOutside(old(dev.sectors), dev.sectors, inode.start, SectorCnt(inode.length))
    ensures ExtentBytes(dev.sectors, inode.start, inode.length)
         == Overwrite(old(ExtentBytes(dev.sectors, inode.start, inode.length)), offset, buffer[..n])
    ensures FileBytes(dev.sectors, inode.start, inode.length)
         == Overwrite(old(FileBytes(dev.sectors, inode.start, inode.length)), offset, buffer[..n])
    ensures n == 0 ==> dev.sectors == old(dev.sectors)
  {
    n := 0;
    if inode.denyWriteCnt != 0 {
      return;
    }
    n := WriteLoop(dev, inode, buffer, size, offset, bounceOk);
    TransferIs(inode.length, size, offset, bounceOk);
    ExtentHoldsFile(old(dev.sectors), inode.start, inode.length);
    ExtentHoldsFile(dev.sectors, inode.start, inode.length);
    OverwritePrefix(old(ExtentBytes(dev.sectors, inode.start, inode.length)), inode.length, offset, buffer[..n]);
    if n == 0 {
      SameExtent(old(dev.sectors), dev.sectors, inode.start, inode.length);
    }
  }

  method WriteLoop(dev: Device, inode: Inode, buffer: seq<byte>, size: int, offset: nat, bounceOk: bool)
    returns (n: nat)
    requires ExtentFits(dev.sectors, inode.start, inode.length)
    requires size <= |buffer|
    modifies dev
    ensures n == TransferCnt(inode.length, size, offset, bounceOk) <= |buffer|
    ensures SameOutside(old(dev.sectors), dev.sectors, inode.start, SectorCnt(inode.length))
    ensures ExtentBytes(dev.sectors, inode.start, inode.length)
         == Overwrite(old(ExtentBytes(dev.sectors, inode.start, inode.length)), offset, buffer[..n])
  {
    hide FileBytes, TransferCnt, ChunkSize, Overwrite, Progress;
    n := 0;
    ghost var before := ExtentBytes(dev.sectors, inode.start, inode.length);
    OverwriteNothing(before, offset);
    var left, ofs := size, offset;
    ghost var full: nat := 0;
    assert Progress(inode.length, size, offset, bounceOk, n, full) by {
      NoProgress(inode.length, size, offset, bounceOk);
    }
    while left > 0
      invariant Progress(inode.length, size, offset, bounceOk, n, full)
      invariant n <= |buffer|
      invariant ofs == offset + n && left == size - n
      invariant SameOutside(old(dev.sectors), dev.sectors, inode.start, SectorCnt(inode.length))
      invariant ExtentBytes(dev.sectors, inode.start, inode.length) == Overwrite(before, offset, buffer[..n])
    {
      var chunk := ChunkSize(inode.length, left, ofs);
      if !Moves(ofs, chunk, bounceOk) {
        break;
      }
      WriteChunk(dev, inode.start, SECTOR_SIZE * SectorCnt(inode.length), buffer[n .. n + chunk], ofs);
      OverwriteGrows(before, offset, buffer, n, n + chunk);
      Advance(inode.length, size, offset, bounceOk, n, full);
      left := left - chunk;
      ofs := ofs + chunk;
      n := n + chunk;
      full := full + 1;
    }
    StopCnt(inode.length, size, offset, bounceOk, n, full);
  }

  lemma NoProgress(length: nat, size: int, offset: nat, bounceOk: bool)
    ensures Progress(length, size, offset, bounceOk, 0, 0)
  {
  }
}
