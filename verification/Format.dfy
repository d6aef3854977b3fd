/** Formatting a disk and mounting it (filesys_init with format, src/filesys/filesys.c, and
    free_map_init, free_map_create and free_map_open, src/filesys/free-map.c). */
module Format {
  import opened Words
  import opened Bitmaps
  import opened Inodes
  import opened Directory
  import opened Sequences
  import opened StoredMaps
  import opened Volumes
  import opened FileSystem

  /** Which of the allocations made while formatting succeed: all objects, and the bounce buffers
      for the two writes of the free map and for reading it back. */
  datatype FormatMemory = FormatMemory(objects: bool, mapWrite: bool, rootWrite: bool, mapRead: bool)

  /** Nothing that formatting needs is missing: the free map's file moves without a bounce buffer
      if it fills whole sectors. */
  predicate Suffices(mem: FormatMemory, n: nat) {
    mem.objects && Succeeds(n, mem.mapWrite) && Succeeds(n, mem.rootWrite) && Succeeds(n, mem.mapRead)
  }

  /** bitmap_file_size for a disk of `n` sectors. */
  function MapBytes(n: nat): (r: nat)
    requires n < WORD
    ensures r == 4 * ElemCnt(n) && r % 4 == 0 && r <= OFF_MAX
  {
    4 * ElemCnt(n)
  }

  function MapSectors(n: nat): (r: nat)
    requires n < WORD
    ensures n > 0 ==> r > 0
  {
    SectorCnt(MapBytes(n))
  }

  /** The free map takes 4 bytes for every 32 sectors, and just as many sectors as hold them. */
  lemma MapSectorsIs(n: nat)
    requires n < WORD
    ensures MapBytes(n) % 4 == 0 && 8 * MapBytes(n) - 32 < n <= 8 * MapBytes(n)
    ensures MapBytes(n) <= 512 * MapSectors(n) && (n > 0 ==> 512 * (MapSectors(n) - 1) < MapBytes(n))
  {
    SectorCntIs(MapBytes(n));
  }

  /** Formatting succeeds whenever all allocations do. */
  lemma AllSuffices(n: nat)
    ensures Suffices(FormatMemory(true, true, true, true), n)
  {
  }

  /** What the writes of do_format leave: two inodes whose extents follow sector 1, the stored
      free map and an empty directory. */
  ghost predicate Formatted(d: seq<Sector>, elems: seq<uint32>)
    requires 2 <= |d| < WORD
  {
    var c, size := MapSectors(|d|), MapBytes(|d|);
    // Named, so that the verifier takes the conjunction as one assertion.
    var ok :=
      && 2 + c + 1 <= |d| && |elems| == ElemCnt(|d|)
      && d[0] == InodeSector(2, size)
      && d[1] == InodeSector(2 + c, ENTRY_SIZE * ROOT_ENTRIES)
      && d[2 + c] == ZeroSector()
      && BitsOf(WordsOf(FileBytes(d, 2, size)), |d|) == BitsOf(elems, |d|)
      && Prefix(BitsOf(elems, |d|), 2 + c + 1);
    ok
  }

  ghost function FirstOwner(n: nat): map<nat, nat>
    requires n < WORD
  {
    var owned := Range(0, 2 + MapSectors(n) + 1);
    map k | k in owned :: if k == 1 || k == 2 + MapSectors(n) then 1 else 0
  }

  ghost function FirstVolume(d: seq<Sector>, elems: seq<uint32>): Volume
    requires |d| < WORD
  {
    Volume(d, elems, FirstOwner(|d|), {FREE_MAP_SECTOR, ROOT_DIR_SECTOR})
  }

  lemma FormattedOwns(d: seq<Sector>, elems: seq<uint32>)
    requires 2 <= |d| < WORD && Formatted(d, elems)
    ensures StartOf(d[0]) == 2 && LengthOf(d[0]) == MapBytes(|d|)
    ensures StartOf(d[1]) == 2 + MapSectors(|d|) && LengthOf(d[1]) == ENTRY_SIZE * ROOT_ENTRIES
    ensures Owns(d, FirstOwner(|d|), 0) && Owns(d, FirstOwner(|d|), 1)
  {
    hide BitsOf, WordsOf, FileBytes, InodeSector;
    InodeSectorRoundTrip(2, MapBytes(|d|));
    InodeSectorRoundTrip(2 + MapSectors(|d|), ENTRY_SIZE * ROOT_ENTRIES);
  }

  /** A directory without entries. */
  function NoEntries(): (t: seq<Slot>)
    ensures |t| == ROOT_ENTRIES
  {
    seq(ROOT_ENTRIES, i => Free)
  }

  lemma EmptyTable(d: seq<Sector>)
    requires |d| >= 2 && ExtentFits(d, StartOf(d[1]), LengthOf(d[1])) && LengthOf(d[1]) == ENTRY_SIZE * ROOT_ENTRIES
    requires d[StartOf(d[1])] == ZeroSector()
    ensures Slots(Content(d, 1)) == NoEntries() && TableOk(NoEntries()) && SectorsOf(NoEntries()) == {}
  {
    ZeroContent(d, 1);
  }

  /** A formatted disk is a well-formed volume with no files. */
  lemma FormattedOk(d: seq<Sector>, elems: seq<uint32>)
    requires 2 <= |d| < WORD && Formatted(d, elems)
    ensures
      var v := FirstVolume(d, elems);
      && VolumeOk(v) && v.d == d && FilesOf(v) == Files(NoEntries(), map[])
      && Closed(v) && |v.elems| == ElemCnt(|d|) && System(v) && Prefix(StoredBits(v), 2 + MapSectors(|d|) + 1)
  {
    hide BitsOf, WordsOf, InodeSector, Slots, Prefix;
    var v := FirstVolume(d, elems);
    FormattedOwns(d, elems);
    EmptyTable(d);
    PrefixMarks(Bits(v), 2 + MapSectors(|d|) + 1, v.owner.Keys);
    SelfCovers(Bits(v));
    FilesAre(v, Files(NoEntries(), map[]));
  }

  lemma PrefixMarks(bits: seq<bool>, m: nat, ks: set<nat>)
    requires Prefix(bits, m) && forall k :: k in ks ==> k < m
    ensures AllMarked(bits, ks)
  {
  }

  // ----- Marks while formatting -----

  /** Exactly the first `m` bits are set. */
  ghost predicate Prefix(bits: seq<bool>, m: nat) {
    // Named, so that the verifier takes the conjunction as one assertion.
    var ok := m <= |bits| && forall k :: 0 <= k < |bits| ==> (bits[k] <==> k < m);
    ok
  }

  lemma ScanPrefix(bits: seq<bool>, m: nat, cnt: nat, r: Option<nat>)
    requires Prefix(bits, m) && cnt > 0 && ScanResult(bits, 0, cnt, false, r)
    ensures r == if m + cnt <= |bits| then Some(m) else None
    ensures m + cnt <= |bits| ==> Prefix(SetRange(bits, m, cnt, true), m + cnt)
  {
    forall k: nat | k + cnt <= |bits| && AllAre(bits, k, cnt, false)
      ensures m <= k
    {
      assert !bits[k];
    }
    if m + cnt <= |bits| {
      assert AllAre(bits, m, cnt, false);
      assert HasRun(bits, 0, cnt, false);
    }
  }

  /** On a disk with the first `m` sectors in use there is room for a file exactly when its inode and
      its bytes fit behind them. */
  lemma FreshRoom(bits: seq<bool>, m: nat, size: nat)
    requires Prefix(bits, m)
    ensures HasRoom(bits, size) <==> m + 1 + SectorCnt(size) <= |bits|
  {
    hide HasRoom, Prefix, ScanResult;
    var r := if m + 1 <= |bits| then Some(m) else None;
    ScansPrefix(bits, m, 1, r);
    RoomIs(bits, size, r);
    if m + 1 <= |bits| {
      ScanPrefix(bits, m, 1, r);
      PrefixRuns(SetRange(bits, m, 1, true), m + 1, SectorCnt(size));
    }
  }

  lemma ScansPrefix(bits: seq<bool>, m: nat, cnt: nat, r: Option<nat>)
    requires Prefix(bits, m) && cnt > 0 && r == if m + cnt <= |bits| then Some(m) else None
    ensures ScanResult(bits, 0, cnt, false, r)
  {
    forall k: nat | k + cnt <= |bits| && AllAre(bits, k, cnt, false)
      ensures m <= k
    {
      assert !bits[k];
    }
  }

  lemma PrefixRuns(bits: seq<bool>, m: nat, cnt: nat)
    requires Prefix(bits, m)
    ensures HasRun(bits, 0, cnt, false) <==> m + cnt <= |bits|
  {
    if cnt == 0 {
      assert AllAre(bits, 0, 0, false);
    } else {
      ScansPrefix(bits, m, cnt, if m + cnt <= |bits| then Some(m) else None);
      if m + cnt <= |bits| { assert AllAre(bits, m, cnt, false); }
    }
  }

  method WriteZeros(dev: Device, start: nat, cnt: nat)
    requires start + cnt <= |dev.sectors|
    modifies dev
    ensures SameOutside(old(dev.sectors), dev.sectors, start, cnt)
    ensures forall k :: start <= k < start + cnt ==> dev.sectors[k] == ZeroSector()
  {
    var i := 0;
    while i < cnt
      invariant 0 <= i <= cnt
      invariant SameOutside(old(dev.sectors), dev.sectors, start, i)
      invariant forall k :: start <= k < start + i ==> dev.sectors[k] == ZeroSector()
    {
      dev.Write(start + i, ZeroSector());
      i := i + 1;
    }
  }

  /** The writes of inode_create while the disk is being formatted. */
  method NewInode(dev: Device, sector: nat, start: nat, length: nat)
    requires sector < |dev.sectors| < WORD && length <= OFF_MAX && start + SectorCnt(length) <= |dev.sectors|
    requires sector < start
    modifies dev
    ensures |dev.sectors| == |old(dev.sectors)| && dev.sectors[sector] == InodeSector(start, length)
    ensures forall k :: 0 <= k < |dev.sectors| && k != sector && !(start <= k < start + SectorCnt(length)) ==>
      dev.sectors[k] == old(dev.sectors[k])
    ensures forall k :: start <= k < start + SectorCnt(length) ==> dev.sectors[k] == ZeroSector()
  {
    hide InodeSector;
    dev.Write(sector, InodeSector(start, length));
    WriteZeros(dev, start, SectorCnt(length));
  }

  /** bitmap_write to the free map file. */
  method WriteMap(dev: Device, inode: Inode, freeMap: Bitmap, bounceOk: bool) returns (ok: bool)
    requires freeMap.Valid() && inode.length == 4 * freeMap.elems.Length && inode.denyWriteCnt == 0
    requires ExtentFits(dev.sectors, inode.start, inode.length)
    modifies dev
    ensures ok <==> Succeeds(freeMap.bitCnt, bounceOk)
    ensures SameOutside(old(dev.sectors), dev.sectors, inode.start, SectorCnt(inode.length))
    ensures ok ==> FileBytes(dev.sectors, inode.start, inode.length) == Image(freeMap.elems[..])
  {
    hide Image;
    var image := Image(freeMap.elems[..]);
    var n := WriteAt(dev, inode, image, inode.length, 0, bounceOk);
    WrittenIs(freeMap.bitCnt, bounceOk);
    ok := n == inode.length;
    if ok {
      assert image[..n] == image;
    }
  }

  lemma SameFileBytes(d: seq<Sector>, d': seq<Sector>, start: nat, length: nat)
    requires ExtentFits(d, start, length) && |d| == |d'|
    requires forall k :: start <= k < start + SectorCnt(length) ==> d'[k] == d[k]
    ensures FileBytes(d', start, length) == FileBytes(d, start, length)
  {
    var a, b := FileBytes(d', start, length), FileBytes(d, start, length);
    forall i | 0 <= i < length
      ensures a[i] == b[i]
    {
      assert start + i / SECTOR_SIZE < start + SectorCnt(length);
    }
  }

  /** The disk after free_map_create: the free map file, holding the given elements. */
  ghost predicate MapWritten(d: seq<Sector>, elems: seq<uint32>)
    requires 2 <= |d| < WORD
  {
    && 2 + MapSectors(|d|) <= |d|
    && d[0] == InodeSector(2, MapBytes(|d|))
    && FileBytes(d, 2, MapBytes(|d|)) == Image(elems)
  }

  /** free_map_init: only the two system inodes' sectors are marked. */
  method InitMap(n: nat) returns (freeMap: Bitmap)
    requires n >= 2
    ensures fresh(freeMap) && fresh(freeMap.elems) && freeMap.Valid() && freeMap.bitCnt == n
    ensures Prefix(freeMap.Bits(), 2)
  {
    freeMap := new Bitmap(n);
    freeMap.Mark(FREE_MAP_SECTOR);
    freeMap.Mark(ROOT_DIR_SECTOR);
  }

  /** free_map_create: the free map's extent follows the two inode sectors.  Null stands for the
      panic when there is no room or the map cannot be written. */
  method CreateMap(dev: Device, freeMap: Bitmap, bounceOk: bool) returns (inode: Inode?)
    requires 2 <= |dev.sectors| < WORD
    requires freeMap.Valid() && freeMap.bitCnt == |dev.sectors| && Prefix(freeMap.Bits(), 2)
    modifies dev, freeMap.elems
    ensures |dev.sectors| == |old(dev.sectors)|
    ensures inode != null <==> 2 + MapSectors(|dev.sectors|) <= |dev.sectors| && Succeeds(|dev.sectors|, bounceOk)
    ensures inode != null ==>
      && Prefix(freeMap.Bits(), 2 + MapSectors(|dev.sectors|)) && MapWritten(dev.sectors, freeMap.elems[..])
      && fresh(inode) && inode.sector == 0 && inode.denyWriteCnt == 0
      && inode.start == 2 && inode.length == MapBytes(|dev.sectors|)
  {
    hide BitsOf, Image, FileBytes, InodeSector, StartOf, LengthOf;
    var n := |dev.sectors|;
    ghost var bits := freeMap.Bits();
    var r := freeMap.ScanAndFlip(0, MapSectors(n), false);
    ScanPrefix(bits, 2, MapSectors(n), r);
    if r.None? {
      return null;
    }
    NewInode(dev, FREE_MAP_SECTOR, r.value, MapBytes(n));
    InodeSectorRoundTrip(2, MapBytes(n));
    inode := new Inode(FREE_MAP_SECTOR, StartOf(dev.sectors[FREE_MAP_SECTOR]), LengthOf(dev.sectors[FREE_MAP_SECTOR]));
    var ok := WriteMap(dev, inode, freeMap, bounceOk);
    if !ok {
      return null;
    }
  }

  /** dir_create of the root directory: its one sector follows the free map's extent.  False
      stands for the panic. */
  method CreateRoot(dev: Device, freeMap: Bitmap, inode: Inode, bounceOk: bool) returns (ok: bool)
    requires 2 <= |dev.sectors| < WORD && freeMap.Valid() && freeMap.bitCnt == |dev.sectors|
    requires 2 + MapSectors(|dev.sectors|) <= |dev.sectors|
    requires Prefix(freeMap.Bits(), 2 + MapSectors(|dev.sectors|)) && MapWritten(dev.sectors, freeMap.elems[..])
    requires inode.denyWriteCnt == 0 && inode.start == 2 && inode.length == MapBytes(|dev.sectors|)
    modifies dev, freeMap.elems
    ensures |dev.sectors| == |old(dev.sectors)|
    ensures ok <==> 2 + MapSectors(|dev.sectors|) + 1 <= |dev.sectors| && Succeeds(|dev.sectors|, bounceOk)
    ensures ok ==> Formatted(dev.sectors, freeMap.elems[..])
  {
    hide BitsOf, Image, FileBytes, InodeSector, WordsOf;
    var n := |dev.sectors|;
    ghost var bits := freeMap.Bits();
    var r := freeMap.ScanAndFlip(0, 1, false);
    ScanPrefix(bits, 2 + MapSectors(n), 1, r);
    if r.None? {
      return false;
    }
    ok := WriteMap(dev, inode, freeMap, bounceOk);
    if !ok {
      return;
    }
    ghost var d := dev.sectors;
    NewInode(dev, ROOT_DIR_SECTOR, r.value, ENTRY_SIZE * ROOT_ENTRIES);
    SameFileBytes(d, dev.sectors, 2, MapBytes(n));
    ImageRoundTrip(freeMap.elems[..]);
    return true;
  }

  /** No file is open that has no directory entry. */
  ghost predicate Closed(v: Volume)
    requires VolumeOk(v)
  {
    v.live == {FREE_MAP_SECTOR, ROOT_DIR_SECTOR} + SectorsOf(Table(v))
  }

  /** free_map_open: the marks are read back from the file.  Null stands for the panic. */
  method OpenMap(dev: Device, freeMap: Bitmap, bounceOk: bool, ghost v: Volume) returns (file: File?)
    requires VolumeOk(v) && v.d == dev.sectors && freeMap.Valid() && freeMap.bitCnt == |dev.sectors|
    modifies freeMap.elems
    ensures |v.d| >= 2
    ensures file != null <==> Succeeds(|dev.sectors|, bounceOk)
    ensures file != null ==>
      var n := file.inode;
      && fresh(file) && fresh(n) && System(v) && |v.elems| == ElemCnt(|v.d|)
      && freeMap.Bits() == StoredBits(v)
      && n.sector == FREE_MAP_SECTOR && n.openCnt == 1 && !n.removed && n.denyWriteCnt == 0
      && n.start == StartOf(dev.sectors[0]) && n.length == LengthOf(dev.sectors[0])
  {
    hide BitsOf, WordsOf, FileBytes, StartOf, LengthOf, TransferCnt, Slots, TableOk, SectorsOf, Covers, AllMarked;
    var inode := new Inode(FREE_MAP_SECTOR, StartOf(dev.sectors[FREE_MAP_SECTOR]),
      LengthOf(dev.sectors[FREE_MAP_SECTOR]));
    var image := ReadAt(dev, inode, inode.length, 0, bounceOk);
    WrittenIs(|dev.sectors|, bounceOk);
    if |image| != inode.length {
      return null;
    }
    file := new File(inode);
    assert image == Content(dev.sectors, FREE_MAP_SECTOR);
    freeMap.Load(image);
  }

  /** free_map_open on a disk without open files: the file system that it holds.  A free map file
      that had fallen behind only keeps sectors marked that nobody owns. */
  method OpenVolume(dev: Device, freeMap: Bitmap, bounceOk: bool, ghost v: Volume) returns (fs: FileSys?)
    requires VolumeOk(v) && Closed(v) && v.d == dev.sectors && freeMap.Valid() && freeMap.bitCnt == |dev.sectors|
    modifies freeMap.elems
    ensures fs != null <==> Succeeds(|dev.sectors|, bounceOk)
    ensures fs != null ==>
      && fresh(fs) && fresh(fs.freeMapFile) && fresh(fs.freeMapFile.inode) && fs.dev == dev && fs.freeMap == freeMap
      && fs.Valid() && fs.AtRest() && fs.files == {} && fs.inodes == {fs.freeMapFile.inode}
      && fs.Files() == FilesOf(v) && fs.UpToDate()
      && |v.elems| == ElemCnt(|v.d|) && System(v) && freeMap.Bits() == StoredBits(v)
  {
    hide VolumeOk, FilesOf, Table, BitsOf, SectorsOf, StoredBits, System, Succeeds,
      FileSys.InodesOk, FileSys.CountsOk, FileSys.LiveOk;
    var file := OpenMap(dev, freeMap, bounceOk, v);
    if file == null {
      return null;
    }
    ReloadMap(v, freeMap.elems[..]);
    fs := new FileSys(dev, freeMap, file, v.owner, v.live);
  }

  /** filesys_init without format. */
  method MountDisk(dev: Device, bounceOk: bool, ghost v: Volume) returns (fs: FileSys?)
    requires VolumeOk(v) && Closed(v) && v.d == dev.sectors
    ensures fs != null <==> Succeeds(|dev.sectors|, bounceOk)
    ensures fs != null ==>
      && fresh(fs) && fresh(fs.freeMap.elems) && fresh(fs.freeMapFile) && fresh(fs.freeMapFile.inode) && fs.dev == dev
      && fs.Valid() && fs.AtRest() && fs.files == {} && fs.inodes == {fs.freeMapFile.inode}
      && fs.Files() == FilesOf(v) && fs.UpToDate()
  {
    hide VolumeOk, FilesOf, Closed, BitsOf, StoredBits, System, Succeeds, FileSys.Valid, FileSys.Files, Prefix;
    SystemSectors(v);
    var freeMap := InitMap(|dev.sectors|);
    fs := OpenVolume(dev, freeMap, bounceOk, v);
  }

  /** do_format: the disk and the marks that it leaves.  False stands for a panic. */
  method WriteFormat(dev: Device, mem: FormatMemory) returns (freeMap: Bitmap, ok: bool)
    requires 2 <= |dev.sectors| < WORD
    modifies dev
    ensures |dev.sectors| == |old(dev.sectors)| == freeMap.bitCnt
    ensures ok <==>
      && mem.objects && Succeeds(|dev.sectors|, mem.mapWrite) && Succeeds(|dev.sectors|, mem.rootWrite)
      && 2 + MapSectors(|dev.sectors|) + 1 <= |dev.sectors|
    ensures fresh(freeMap) && fresh(freeMap.elems) && freeMap.Valid()
    ensures ok ==> Formatted(dev.sectors, freeMap.elems[..])
  {
    hide Formatted, Prefix, MapWritten, VolumeOk, BitsOf, Succeeds, MapSectors;
    freeMap := InitMap(|dev.sectors|);
    if !mem.objects {
      return freeMap, false;
    }
    var inode := CreateMap(dev, freeMap, mem.mapWrite);
    if inode == null {
      return freeMap, false;
    }
    ok := CreateRoot(dev, freeMap, inode, mem.rootWrite);
  }

  /** filesys_init with format: from any disk that has room, an empty file system.  Null stands
      for a panic. */
  method FormatDisk(dev: Device, mem: FormatMemory) returns (fs: FileSys?)
    requires 2 <= |dev.sectors| < WORD
    modifies dev
    ensures |dev.sectors| == |old(dev.sectors)|
    ensures fs != null <==> Suffices(mem, |dev.sectors|) && 2 + MapSectors(|dev.sectors|) + 1 <= |dev.sectors|
    ensures fs != null ==>
      && fresh(fs) && fresh(fs.freeMap.elems) && fresh(fs.freeMapFile) && fresh(fs.freeMapFile.inode) && fs.dev == dev
      && fs.Valid() && fs.AtRest() && fs.files == {} && fs.inodes == {fs.freeMapFile.inode}
      && fs.Files() == Files(NoEntries(), map[]) && fs.UpToDate()
      && Prefix(fs.freeMap.Bits(), 2 + MapSectors(|dev.sectors|) + 1)
  {
    hide Formatted, Prefix, VolumeOk, FilesOf, BitsOf, MapSectors, FirstVolume, StoredBits, System, Succeeds,
      FileSys.Valid, FileSys.Files, FileSys.UpToDate, FileSys.AtRest, NoEntries, Closed;
    var freeMap, ok := WriteFormat(dev, mem);
    if !ok {
      return null;
    }
    FormattedOk(dev.sectors, freeMap.elems[..]);
    fs := OpenVolume(dev, freeMap, mem.mapRead, FirstVolume(dev.sectors, freeMap.elems[..]));
  }

  // ----- When the free map file falls behind -----

  lemma EightSectors()
    ensures MapSectors(8) == 1 && !Succeeds(8, false) && Written(8, false) == 0
  {
  }

  /** A formatted disk of eight sectors: a sector is allocated and released again, the second time
      without a bounce buffer.  It is free in memory and marked on disk. */
  method StaleRelease(dev: Device) returns (fs: FileSys)
    requires |dev.sectors| == 8
    modifies dev
    ensures fs.Valid() && !fs.UpToDate()
  {
    hide FileSys.Valid, FileSys.Mounted, FileSys.UpToDate, FilesOf, BitsOf, MapSectors, Written, Synced, Prefix,
      SetRange, AllMarked, FileSys.SameView, VolumeOk, FileSys.Stored, FileSys.Files, FileSys.AtRest, OnlyExtent,
      SameInodes, Owns, AllAre, IsFirstRun, HasRun;
    EightSectors();
    fs := FormatDisk(dev, FormatMemory(true, true, true, true));
    fs.IsMounted();
    fs.OwnedAreMarked();
    ghost var bits := fs.freeMap.Bits();
    FreeBit(bits, 4);
    MarkMore(bits, fs.owner.Keys, 4, 1);
    label Formatted:
    var r, at := fs.FreeMapAllocate(1, true);
    ScanPrefix(bits, 4, 1, at);
    fs.ViewMounted@Formatted();
    fs.AllocateUpToDate@Formatted(1, true, at);
    fs.BytesChanged@Formatted();
    label Allocated:
    fs.FreeMapRelease(4, 1, false);
    fs.ViewMounted@Allocated();
    fs.ReleaseUpToDate@Allocated(4, 1, false);
    fs.BytesChanged@Allocated();
  }

  lemma ManySectors()
    ensures MapSectors(5000) == 2 && !Succeeds(5000, false) && Written(5000, false) == 4096
  {
  }

  /** A formatted disk of 5000 sectors, whose free map fills one sector and part of another: an
      allocation without a bounce buffer fails and is taken back in memory, but its mark, in the
      first sector of the file, stays on disk. */
  method StaleRollback(dev: Device) returns (fs: FileSys)
    requires |dev.sectors| == 5000
    modifies dev
    ensures fs.Valid() && !fs.UpToDate()
  {
    hide FileSys.Valid, FileSys.Mounted, FileSys.UpToDate, FilesOf, BitsOf, MapSectors, Written, Synced, Prefix,
      SetRange, AllMarked, FileSys.SameView, VolumeOk, FileSys.Stored, FileSys.Files, FileSys.AtRest, OnlyExtent,
      SameInodes, Owns, AllAre, IsFirstRun, HasRun;
    ManySectors();
    fs := FormatDisk(dev, FormatMemory(true, true, true, true));
    fs.IsMounted();
    ghost var bits := fs.freeMap.Bits();
    label Formatted:
    var r, at := fs.FreeMapAllocate(1, false);
    ScanPrefix(bits, 5, 1, at);
    fs.ViewMounted@Formatted();
    fs.AllocateUpToDate@Formatted(1, false, at);
    fs.BytesChanged@Formatted();
  }

  lemma FreeBit(bits: seq<bool>, m: nat)
    requires Prefix(bits, m) && m < |bits|
    ensures AllAre(bits, m, 1, false) && AllAre(SetRange(bits, m, 1, true), m, 1, true)
  {
  }
}
