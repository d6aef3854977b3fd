/** The file system's objects and operations (src/filesys/free-map.c, inode.c, directory.c,
    filesys.c, file.c).  Calls are serialized, as the system calls that make them hold one lock.
    Any memory allocation may fail: each operation takes a record of those that do. */
module FileSystem {
  import opened Words
  import opened Bitmaps
  import opened Inodes
  import opened Directory
  import opened NameTables
  import opened Sequences
  import opened StoredMaps
  import opened Volumes
  import opened Allocations

  /** struct file */
  class File {
    const inode: Inode
    var pos: nat
    var denyWrite: bool

    constructor (inode: Inode)
      ensures this.inode == inode && pos == 0 && !denyWrite
    {
      this.inode := inode;
      pos := 0;
      denyWrite := false;
    }
  }

  /** dir_open_root succeeds. */
  ghost predicate RootOpens(open: seq<Inode>, mem: Memory) {
    mem.rootDir && (mem.rootInode || ROOT_DIR_SECTOR in OpenSectors(open))
  }

  ghost function HandlesOf(files: set<File>, n: Inode): set<File> {
    set f | f in files && f.inode == n
  }

  ghost function DenyingOf(files: set<File>, n: Inode): set<File>
    reads files
  {
    set f | f in files && f.inode == n && f.denyWrite
  }

  ghost function OpenSectors(open: seq<Inode>): set<nat> {
    set n | n in open :: n.sector
  }

  ghost predicate DistinctSectors(open: seq<Inode>) {
    forall i, j :: 0 <= i < j < |open| ==> open[i].sector != open[j].sector
  }

  /** A whole entry moves, or nothing: nothing at the end of the directory or without a bounce
      buffer. */
  lemma EntryTransfer(ofs: nat, bounceOk: bool)
    requires ofs % ENTRY_SIZE == 0
    ensures TransferCnt(ENTRY_SIZE * ROOT_ENTRIES, ENTRY_SIZE, ofs, bounceOk)
         == if bounceOk && ofs / ENTRY_SIZE < ROOT_ENTRIES then ENTRY_SIZE else 0
  {
  }

  lemma EntryPlace(j: nat)
    ensures (ENTRY_SIZE * j) % ENTRY_SIZE == 0 && (ENTRY_SIZE * j) / ENTRY_SIZE == j
  {
  }

  lemma SlotAt(content: seq<byte>, j: nat)
    requires j < |content| / ENTRY_SIZE
    ensures Slots(content)[j] == SlotOf(content[ENTRY_SIZE * j .. ENTRY_SIZE * j + ENTRY_SIZE])
  {
  }

  lemma {:induction false} WithoutMembers(open: seq<Inode>, n: Inode)
    requires DistinctSectors(open)
    ensures DistinctSectors(Without(open, n))
    ensures forall i :: 0 <= i < |Without(open, n)| ==> Without(open, n)[i] in open && Without(open, n)[i] != n
    ensures forall m :: m in open && m != n ==> m in Without(open, n)
  {
    if open != [] {
      var rest := open[1..];
      assert open == [open[0]] + rest;
      HeadDiffers(open);
      WithoutMembers(rest, n);
    }
  }

  lemma HeadDiffers(open: seq<Inode>)
    requires DistinctSectors(open) && open != []
    ensures DistinctSectors(open[1..])
    ensures forall m :: m in open[1..] ==> m.sector != open[0].sector
  {
    forall m | m in open[1..]
      ensures m.sector != open[0].sector
    {
      var i :| 1 <= i < |open| && open[i] == m;
      assert open[0].sector != open[i].sector;
    }
  }

  lemma WithoutSectors(open: seq<Inode>, n: Inode)
    requires DistinctSectors(open) && n in open
    ensures OpenSectors(Without(open, n)) == OpenSectors(open) - {n.sector}
  {
    WithoutMembers(open, n);
    forall m | m in open && m != n
      ensures m.sector != n.sector
    {
      SectorsDiffer(open, m, n);
    }
    forall x | x in OpenSectors(open) && x != n.sector
      ensures x in OpenSectors(Without(open, n))
    {
      var m :| m in open && m.sector == x;
      assert m in Without(open, n);
    }
    forall x | x in OpenSectors(Without(open, n))
      ensures x in OpenSectors(open) && x != n.sector
    {
      var m :| m in Without(open, n) && m.sector == x;
    }
  }

  lemma SectorsDiffer(open: seq<Inode>, m: Inode, n: Inode)
    requires DistinctSectors(open) && m in open && n in open && m != n
    ensures m.sector != n.sector
  {
    var i :| 0 <= i < |open| && open[i] == m;
    var j :| 0 <= j < |open| && open[j] == n;
    if i < j { assert open[i].sector != open[j].sector; }
    if j < i { assert open[j].sector != open[i].sector; }
  }

  class FileSys {
    const dev: Device
    const freeMap: Bitmap
    const freeMapFile: File
    /** open_inodes */
    var openInodes: seq<Inode>
    /** Every inode that was ever open. */
    ghost var inodes: set<Inode>
    /** The files handed out by open and not yet closed. */
    ghost var files: set<File>
    /** References to open inodes other than those of `files`: the free map file's, and those
        that an operation in progress holds. */
    ghost var pins: multiset<Inode>
    ghost var owner: map<nat, nat>
    ghost var live: set<nat>

    ghost function V(): Volume
      reads this`owner, this`live, dev, freeMap.elems
    {
      Volume(dev.sectors, freeMap.elems[..], owner, live)
    }

    /** An open inode holds the on-disk inode of its sector. */
    ghost predicate InodeOk(n: Inode)
      reads this`live, dev
    {
      && n.sector in live && n.sector < |dev.sectors|
      && n.start == StartOf(dev.sectors[n.sector]) && n.length == LengthOf(dev.sectors[n.sector])
    }

    /** No two open inodes have the same sector. */
    ghost predicate InodesOk()
      reads this`live, this`openInodes, dev
    {
      // Named, so that the verifier takes the conjunction as one assertion.
      var ok :=
        && (forall n :: n in openInodes ==> InodeOk(n))
        && DistinctSectors(openInodes);
      ok
    }

    /** The reference count counts references, and the write denials count the files that deny. */
    ghost predicate CountOk(n: Inode)
      reads this`pins, this`files, n, files
    {
      && n.openCnt == pins[n] + |HandlesOf(files, n)| && n.openCnt > 0
      && n.denyWriteCnt == |DenyingOf(files, n)|
    }

    ghost predicate CountsOk()
      reads this`openInodes, this`pins, this`files, openInodes, files
    {
      // Named, so that the verifier takes the conjunction as one assertion.
      var ok :=
        && (forall f :: f in files ==> f.inode in openInodes && f.inode.sector >= 2)
        && (forall n :: n in pins ==> n in openInodes)
        && (forall n :: n in openInodes ==> CountOk(n));
      ok
    }

    /** An open inode that is marked removed has no directory entry. */
    ghost predicate RemovedOk(n: Inode, sectors: set<nat>)
      reads n
    {
      n.removed ==> n.sector >= 2 && n.sector !in sectors
    }

    /** What is live: the two system inodes, what has a directory entry and what is open. */
    ghost predicate LiveOk(sectors: set<nat>)
      reads this`openInodes, this`live, openInodes
    {
      // Named, so that the verifier takes the conjunction as one assertion.
      var ok :=
        && live == {FREE_MAP_SECTOR, ROOT_DIR_SECTOR} + sectors + OpenSectors(openInodes)
        && forall n :: n in openInodes ==> RemovedOk(n, sectors);
      ok
    }

    /** The volume is well formed and the free map file is open for writing. */
    ghost predicate Mounted()
      reads this`owner, this`live, dev, freeMap.elems, freeMapFile.inode
    {
      // Named, so that the verifier takes the conjunction as one assertion.
      var ok :=
        && freeMap.Valid() && freeMap.bitCnt == |dev.sectors|
        && VolumeOk(V())
        && freeMapFile.inode.start == StartOf(dev.sectors[FREE_MAP_SECTOR])
        && freeMapFile.inode.length == LengthOf(dev.sectors[FREE_MAP_SECTOR])
        && freeMapFile.inode.denyWriteCnt == 0;
      ok
    }

    /** The root directory's table. */
    ghost function Tab(): (t: seq<Slot>)
      requires Mounted()
      reads this`owner, this`live, dev, freeMap.elems, freeMapFile.inode
      ensures |t| == ROOT_ENTRIES
    {
      Table(V())
    }

    /** The inode sectors in the directory's entries. */
    ghost function NamedSectors(): set<nat>
      requires Mounted()
      reads this`owner, this`live, dev, freeMap.elems, freeMapFile.inode
    {
      SectorsOf(Tab())
    }

    ghost predicate Tracked()
      reads this`openInodes, this`inodes
    {
      forall i :: 0 <= i < |openInodes| ==> openInodes[i] in inodes
    }

    ghost predicate Valid()
      reads this, dev, freeMap.elems, freeMapFile.inode, openInodes, files
    {
      // Named, so that the verifier takes the conjunction as one assertion.
      var ok :=
        && Mounted()
        && Tracked()
        && InodesOk()
        && CountsOk()
        && LiveOk(NamedSectors())
        && freeMapFile !in files
        && freeMapFile.inode in pins && freeMapFile.inode.sector == FREE_MAP_SECTOR;
      ok
    }

    ghost function Files(): Files
      requires Mounted()
      reads this`owner, this`live, dev, freeMap.elems, freeMapFile.inode
    {
      FilesOf(V())
    }

    /** No operation is in progress. */
    ghost predicate AtRest()
      reads this`pins
    {
      pins == multiset{freeMapFile.inode}
    }

    /** The state once the free map file of a well-formed volume is open. */
    constructor (dev: Device, freeMap: Bitmap, freeMapFile: File, ghost owner: map<nat, nat>, ghost live: set<nat>)
      requires freeMap.Valid() && freeMap.bitCnt == |dev.sectors|
      requires |dev.sectors| >= 2 && VolumeOk(Volume(dev.sectors, freeMap.elems[..], owner, live))
      requires live ==
        {FREE_MAP_SECTOR, ROOT_DIR_SECTOR} + SectorsOf(Table(Volume(dev.sectors, freeMap.elems[..], owner, live)))
      requires
        var n := freeMapFile.inode;
        && n.sector == FREE_MAP_SECTOR && n.openCnt == 1 && !n.removed && n.denyWriteCnt == 0
        && n.start == StartOf(dev.sectors[0]) && n.length == LengthOf(dev.sectors[0])
      ensures Valid() && AtRest() && files == {}
      ensures this.dev == dev && this.freeMap == freeMap && this.freeMapFile == freeMapFile
      ensures openInodes == [freeMapFile.inode] && inodes == {freeMapFile.inode}
      ensures V() == Volume(dev.sectors, freeMap.elems[..], owner, live)
    {
      hide InodesOk, CountsOk, VolumeOk, SectorsOf;
      SystemSectors(Volume(dev.sectors, freeMap.elems[..], owner, live));
      this.dev := dev;
      this.freeMap := freeMap;
      this.freeMapFile := freeMapFile;
      openInodes := [freeMapFile.inode];
      inodes := {freeMapFile.inode};
      files := {};
      pins := multiset{freeMapFile.inode};
      this.owner := owner;
      this.live := live;
      new;
      FirstMount();
      assert LiveOk(NamedSectors());
    }

    /** Nothing users can see differs from the old state, no directory slot does, and no inode
        sector of a live file does. */
    twostate predicate SameView()
      requires old(Mounted())
      reads this`owner, this`live, dev, freeMap.elems, freeMapFile.inode
    {
      // Named, so that the verifier takes the conjunction as one assertion.
      var ok :=
        && Mounted() && Files() == old(Files()) && Tab() == old(Tab())
        && |dev.sectors| == |old(dev.sectors)| && SameInodes(old(V()), dev.sectors);
      ok
    }

    twostate lemma ViewMounted()
      requires old(Mounted()) && SameView()
      ensures Mounted() && |dev.sectors| == |old(dev.sectors)|
    {
    }

    /** The references stay right when only bytes on disk and marks change, and no inode sector
        of a live file among them. */
    twostate lemma BytesChanged()
      requires old(Valid())
      requires unchanged(this) && unchanged(openInodes) && unchanged(files) && unchanged(freeMapFile.inode)
      requires SameView()
      ensures Valid()
    {
      hide VolumeOk, FilesOf, SectorsOf, Table;
      DiskChanged();
    }

    twostate lemma DiskChanged()
      requires old(Valid())
      requires unchanged(this) && unchanged(openInodes) && unchanged(files) && unchanged(freeMapFile.inode)
      requires Mounted() && NamedSectors() == old(NamedSectors())
      requires |dev.sectors| == |old(dev.sectors)| && SameInodes(old(V()), dev.sectors)
      ensures Valid()
    {
      hide VolumeOk, FilesOf, SectorsOf, Table;
      forall n | n in openInodes
        ensures InodeOk(n)
      {
        assert old(InodeOk(n));
      }
    }

    lemma IsMounted()
      requires Valid()
      ensures Mounted()
    {
    }

    lemma TabOk()
      requires Mounted()
      ensures TableOk(Tab()) && NamedSectors() <= live
    {
    }

    lemma OwnedAreMarked()
      requires Mounted()
      ensures AllMarked(freeMap.Bits(), owner.Keys) && |dev.sectors| < WORD
    {
    }

    lemma FirstMount()
      requires openInodes == [freeMapFile.inode] && files == {} && pins == multiset{freeMapFile.inode}
      requires freeMapFile.inode.openCnt == 1 && freeMapFile.inode.denyWriteCnt == 0
      requires InodeOk(freeMapFile.inode)
      ensures InodesOk() && CountsOk()
    {
      assert HandlesOf(files, freeMapFile.inode) == {};
      assert DenyingOf(files, freeMapFile.inode) == {};
    }

    // ----- free-map.c -----

    /** The marks in the free map file. */
    ghost function Stored(): (r: seq<bool>)
      requires Mounted()
      reads this`owner, this`live, dev, freeMap.elems, freeMapFile.inode
      ensures |r| == |dev.sectors|
    {
      StoredBits(V())
    }

    /** bitmap_write of the free map to its file. */
    method StoreMap(bounceOk: bool) returns (ok: bool)
      requires freeMap.Valid() && freeMap.bitCnt == |dev.sectors|
      requires Owns(dev.sectors, owner, FREE_MAP_SECTOR)
      requires freeMapFile.inode.start == StartOf(dev.sectors[FREE_MAP_SECTOR])
      requires freeMapFile.inode.length == LengthOf(dev.sectors[FREE_MAP_SECTOR]) == 4 * freeMap.elems.Length
      requires freeMapFile.inode.denyWriteCnt == 0
      modifies dev
      ensures SameOutside(old(dev.sectors), dev.sectors, freeMapFile.inode.start, SectorCnt(freeMapFile.inode.length))
      ensures ok <==> WrittenBytes(freeMap.bitCnt, bounceOk) == 4 * freeMap.elems.Length
      ensures dev.sectors[FREE_MAP_SECTOR] == old(dev.sectors[FREE_MAP_SECTOR])
      ensures Content(dev.sectors, FREE_MAP_SECTOR) ==
        Overwrite(old(Content(dev.sectors, FREE_MAP_SECTOR)), 0,
          Image(freeMap.elems[..])[..WrittenBytes(freeMap.bitCnt, bounceOk)])
    {
      hide TransferCnt;
      var size := 4 * freeMap.elems.Length;
      var image := Image(freeMap.elems[..]);
      var n := WriteAt(dev, freeMapFile.inode, image, size, 0, bounceOk);
      ok := n == size;
    }

    /** The marks changed in memory; the free map file is rewritten as far as there is a bounce
        buffer. */
    method CommitMap(bounceOk: bool, ghost v: Volume) returns (ok: bool)
      requires freeMap.Valid() && freeMap.bitCnt == |dev.sectors|
      requires VolumeOk(v) && v.d == dev.sectors && v.owner == owner && v.live == live
      requires freeMapFile.inode.start == StartOf(dev.sectors[FREE_MAP_SECTOR])
      requires freeMapFile.inode.length == LengthOf(dev.sectors[FREE_MAP_SECTOR])
      requires freeMapFile.inode.denyWriteCnt == 0
      modifies dev
      ensures OnlyExtent(v, dev.sectors, FREE_MAP_SECTOR) && |dev.sectors| == |v.d|
      ensures dev.sectors[FREE_MAP_SECTOR] == v.d[FREE_MAP_SECTOR]
      ensures ok <==> Succeeds(freeMap.bitCnt, bounceOk)
      ensures System(V()) && StoredBits(V()) == Synced(StoredBits(v), freeMap.Bits(), Written(freeMap.bitCnt, bounceOk))
    {
      hide BitsOf, Covers, TableOk, SectorsOf, Slots, Image, WordsOf, Overwrite, TransferCnt;
      MapLength(v);
      ok := StoreMap(bounceOk);
      MapRewritten(v, dev.sectors, freeMap.elems[..]);
      WrittenIs(freeMap.bitCnt, bounceOk);
      SyncedBits(Content(v.d, FREE_MAP_SECTOR), freeMap.elems[..], freeMap.bitCnt,
        WrittenBytes(freeMap.bitCnt, bounceOk));
    }

    lemma MapLength(v: Volume)
      requires VolumeOk(v)
      ensures Owns(v.d, v.owner, FREE_MAP_SECTOR) && |v.elems| == ElemCnt(|v.d|)
      ensures |Content(v.d, FREE_MAP_SECTOR)| == LengthOf(v.d[FREE_MAP_SECTOR]) == 4 * |v.elems|
    {
    }

    /** After the free map file was rewritten and while it covers the marks in memory, nothing
        else has changed. */
    lemma MapCommitted(v: Volume)
      requires freeMap.Valid() && freeMap.bitCnt == |dev.sectors|
      requires VolumeOk(v) && v.owner == owner && v.live == live
      requires OnlyExtent(v, dev.sectors, FREE_MAP_SECTOR) && |dev.sectors| == |v.d|
      requires dev.sectors[FREE_MAP_SECTOR] == v.d[FREE_MAP_SECTOR]
      requires freeMapFile.inode.start == StartOf(dev.sectors[FREE_MAP_SECTOR])
      requires freeMapFile.inode.length == LengthOf(dev.sectors[FREE_MAP_SECTOR])
      requires freeMapFile.inode.denyWriteCnt == 0
      requires AllMarked(freeMap.Bits(), owner.Keys)
      requires System(V()) && |freeMap.elems[..]| == ElemCnt(|dev.sectors|) && Covers(StoredBits(V()), freeMap.Bits())
      ensures Mounted() && FilesOf(V()) == FilesOf(v) && Table(V()) == Table(v) && SameInodes(v, dev.sectors)
    {
      hide BitsOf, Covers, TableOk, SectorsOf, Slots, WordsOf, Owns, Owned;
      MapLength(v);
      MapRewritten(v, dev.sectors, freeMap.elems[..]);
      RewriteMap(v, dev.sectors, freeMap.elems[..]);
    }

    lemma CoveredMarks(v: Volume)
      requires VolumeOk(v)
      ensures |v.elems| == ElemCnt(|v.d|) && System(v) && Covers(StoredBits(v), Bits(v))
      ensures |v.d| >= 2 && |v.d| < WORD && AllMarked(Bits(v), v.owner.Keys)
      ensures Owns(v.d, v.owner, FREE_MAP_SECTOR)
    {
    }

    /** free_map_allocate: the first run of free sectors, if there is one and the free map file can
        be written.  Otherwise the marks in memory are taken back; on disk they stay where whole
        sectors of the file were written.  `at` is the run, whether or not it could be kept. */
    method FreeMapAllocate(cnt: nat, bounceOk: bool) returns (r: Option<nat>, ghost at: Option<nat>)
      requires Mounted()
      modifies dev, freeMap.elems
      ensures OnlyExtent(old(V()), dev.sectors, FREE_MAP_SECTOR)
      ensures SameView()
      ensures ScanResult(old(freeMap.Bits()), 0, cnt, false, at)
      ensures r == if Succeeds(freeMap.bitCnt, bounceOk) then at else None
      ensures freeMap.Bits() ==
        if r.Some? then SetRange(old(freeMap.Bits()), r.value, cnt, true) else old(freeMap.Bits())
      ensures Stored() ==
        if at.None? then old(Stored())
        else Synced(old(Stored()), SetRange(old(freeMap.Bits()), at.value, cnt, true),
          Written(freeMap.bitCnt, bounceOk))
    {
      hide VolumeOk, Owns, FilesOf, Table, BitsOf, Covers, Synced, SetRange, AllMarked, System, StoredBits,
        IsFirstRun, OnlyExtent, SameInodes, Written;
      ghost var v := V();
      CoveredMarks(v);
      WrittenIs(freeMap.bitCnt, bounceOk);
      at := None;
      r := freeMap.ScanAndFlip(0, cnt, false);
      if r.None? {
        NothingWritten(v);
        return;
      }
      at := r;
      FirstRunIs(Bits(v), cnt, r.value);
      MarkMore(Bits(v), owner.Keys, r.value, cnt);
      var ok := CommitMap(bounceOk, v);
      ghost var w := V();
      if !ok {
        Unflip(Bits(v), r.value, cnt);
        freeMap.SetMultiple(r.value, cnt, false);
        r := None;
      }
      OtherMarks(w, freeMap.elems[..]);
      Taken(StoredBits(v), Bits(v), at.value, cnt, Written(freeMap.bitCnt, bounceOk));
      MapCommitted(v);
    }

    /** What is on disk does not depend on the marks in memory. */
    lemma OtherMarks(v: Volume, elems': seq<uint32>)
      requires System(v) && |v.elems| == ElemCnt(|v.d|) && |elems'| == |v.elems|
      ensures System(v.(elems := elems')) && StoredBits(v.(elems := elems')) == StoredBits(v)
    {
      hide BitsOf, WordsOf;
    }

    lemma FirstRunIs(bits: seq<bool>, cnt: nat, r: nat)
      requires IsFirstRun(bits, 0, cnt, false, r)
      ensures r + cnt <= |bits| && AllAre(bits, r, cnt, false)
    {
    }

    lemma NothingWritten(v: Volume)
      requires Mounted() && V() == v
      ensures OnlyExtent(v, dev.sectors, FREE_MAP_SECTOR) && SameInodes(v, dev.sectors)
    {
    }

    /** The file covers the marks whether an allocation is kept or taken back. */
    lemma Taken(stored: seq<bool>, bits: seq<bool>, start: nat, cnt: nat, m: nat)
      requires Covers(stored, bits) && start + cnt <= |bits|
      ensures Covers(Synced(stored, SetRange(bits, start, cnt, true), m), bits)
      ensures |bits| <= m ==>
        Covers(Synced(stored, SetRange(bits, start, cnt, true), m), SetRange(bits, start, cnt, true))
    {
      ClearedCovers(bits, start, cnt);
      SyncedCovers(stored, bits, SetRange(bits, start, cnt, true), bits, m);
    }

    /** free_map_release.  The sectors must be marked, which is the source's assertion.  The marks
        go from memory, and on disk from the part of the file that could be written. */
    method FreeMapRelease(sector: nat, cnt: nat, bounceOk: bool)
      requires Mounted()
      requires sector + cnt <= |dev.sectors| && AllAre(freeMap.Bits(), sector, cnt, true)
      requires forall k :: sector <= k < sector + cnt ==> k !in owner
      modifies dev, freeMap.elems
      ensures OnlyExtent(old(V()), dev.sectors, FREE_MAP_SECTOR)
      ensures SameView()
      ensures freeMap.Bits() == SetRange(old(freeMap.Bits()), sector, cnt, false)
      ensures Stored() == Synced(old(Stored()), freeMap.Bits(), Written(freeMap.bitCnt, bounceOk))
    {
      hide VolumeOk, Owns, FilesOf, Table, BitsOf, OnlyExtent, SameInodes, Covers, Synced, SetRange, System,
        StoredBits, AllMarked, Written;
      ghost var v := V();
      CoveredMarks(v);
      var unmarked := freeMap.Contains(sector, cnt, false);
      assert !unmarked;
      ClearOthers(Bits(v), owner.Keys, sector, cnt);
      freeMap.SetMultiple(sector, cnt, false);
      var _ := CommitMap(bounceOk, v);
      ClearedCovers(Bits(v), sector, cnt);
      SelfCovers(freeMap.Bits());
      SyncedCovers(StoredBits(v), Bits(v), freeMap.Bits(), freeMap.Bits(), Written(freeMap.bitCnt, bounceOk));
      MapCommitted(v);
    }

    /** The free map file is up to date. */
    ghost predicate UpToDate()
      requires Mounted()
      reads this`owner, this`live, dev, freeMap.elems, freeMapFile.inode
    {
      Stored() == freeMap.Bits()
    }

    /** After a release, a free map file that was up to date is so exactly when the write reached
        all the bits that changed. */
    twostate lemma ReleaseUpToDate(new sector: nat, new cnt: nat, new bounceOk: bool)
      requires old(Mounted()) && Mounted() && old(UpToDate())
      requires sector + cnt <= old(|dev.sectors|) && AllAre(old(freeMap.Bits()), sector, cnt, true)
      requires freeMap.Bits() == SetRange(old(freeMap.Bits()), sector, cnt, false)
      requires |old(Stored())| == |freeMap.Bits()|
      requires Stored() == Synced(old(Stored()), freeMap.Bits(), Written(freeMap.bitCnt, bounceOk))
      ensures UpToDate() <==>
        Succeeds(freeMap.bitCnt, bounceOk) || cnt == 0 || sector + cnt <= Written(freeMap.bitCnt, false)
    {
      hide BitsOf, VolumeOk, StoredBits, Synced, SetRange, Written;
      ReleasedIff(old(freeMap.Bits()), sector, cnt, Written(freeMap.bitCnt, bounceOk));
      WrittenIs(freeMap.bitCnt, bounceOk);
      assert !bounceOk || Succeeds(freeMap.bitCnt, bounceOk);
    }

    /** After an allocation, a free map file that was up to date is so unless the allocation was
        rolled back after the write had reached its first bit. */
    twostate lemma AllocateUpToDate(new cnt: nat, new bounceOk: bool, new at: Option<nat>)
      requires old(Mounted()) && Mounted() && old(UpToDate())
      requires ScanResult(old(freeMap.Bits()), 0, cnt, false, at)
      requires freeMap.Bits() ==
        if at.Some? && Succeeds(freeMap.bitCnt, bounceOk) then SetRange(old(freeMap.Bits()), at.value, cnt, true)
        else old(freeMap.Bits())
      requires Stored() ==
        if at.None? then old(Stored())
        else Synced(old(Stored()), SetRange(old(freeMap.Bits()), at.value, cnt, true),
          Written(freeMap.bitCnt, bounceOk))
      ensures UpToDate() <==>
        at.None? || Succeeds(freeMap.bitCnt, bounceOk) || cnt == 0 || Written(freeMap.bitCnt, false) <= at.value
    {
      hide BitsOf, VolumeOk, StoredBits, Synced, SetRange, Written;
      WrittenIs(freeMap.bitCnt, bounceOk);
      if at.Some? {
        RolledBackIff(old(freeMap.Bits()), at.value, cnt, Written(freeMap.bitCnt, bounceOk));
        if Succeeds(freeMap.bitCnt, bounceOk) {
          SyncedFully(old(Stored()), SetRange(old(freeMap.Bits()), at.value, cnt, true),
            Written(freeMap.bitCnt, bounceOk));
        }
      }
    }

    // ----- inode.c -----

    /** block_write to a sector that belongs to no file. */
    method WriteFree(k: nat, data: Sector)
      requires Mounted() && k < |dev.sectors| && k !in owner
      modifies dev
      ensures dev.sectors == old(dev.sectors)[k := data]
      ensures SameView()
    {
      WriteUnowned(V(), k, data);
      dev.Write(k, data);
    }

    /** The loop of inode_create that clears the new extent. */
    method ZeroFill(start: nat, cnt: nat)
      requires Mounted() && start + cnt <= |dev.sectors|
      requires forall k :: start <= k < start + cnt ==> k !in owner
      modifies dev
      ensures SameView()
      ensures SameOutside(old(dev.sectors), dev.sectors, start, cnt)
      ensures forall k :: start <= k < start + cnt ==> dev.sectors[k] == ZeroSector()
    {
      hide VolumeOk, FilesOf;
      var i := 0;
      while i < cnt
        invariant 0 <= i <= cnt
        invariant SameView()
        invariant SameOutside(old(dev.sectors), dev.sectors, start, i)
        invariant forall k :: start <= k < start + i ==> dev.sectors[k] == ZeroSector()
      {
        WriteFree(start + i, ZeroSector());
        i := i + 1;
      }
    }

    /** The writes of inode_create: the inode, then its cleared extent. */
    method FillInode(sector: nat, start: nat, length: nat)
      requires length <= OFF_MAX && sector < |dev.sectors| < WORD && start + SectorCnt(length) <= |dev.sectors|
      requires Mounted() && sector !in owner
      requires forall k :: start <= k < start + SectorCnt(length) ==> k != sector && k !in owner
      modifies dev
      ensures |dev.sectors| == |old(dev.sectors)| && dev.sectors[sector] == InodeSector(start, length)
      ensures forall k :: start <= k < start + SectorCnt(length) ==> dev.sectors[k] == ZeroSector()
      ensures SameView()
    {
      hide VolumeOk, FilesOf, InodeSector, Table, StartOf, LengthOf, SectorCnt, ZeroSector;
      WriteFree(sector, InodeSector(start, length));
      ZeroFill(start, SectorCnt(length));
    }

    /** inode_create in a sector that was allocated for it. */
    method InodeCreate(sector: nat, length: nat, memOk: bool, bounceOk: bool) returns (ok: bool)
      requires Mounted() && length <= OFF_MAX
      requires 2 <= sector < |dev.sectors| && sector !in owner && freeMap.Bits()[sector]
      modifies dev, freeMap.elems
      ensures SameView()
      ensures ok <==>
        memOk && HasRun(old(freeMap.Bits()), 0, SectorCnt(length), false) && Succeeds(freeMap.bitCnt, bounceOk)
      ensures ok ==> Adoptable(V(), sector) && Content(dev.sectors, sector) == Zeros(length)
      ensures ok ==> IsFirstRun(old(freeMap.Bits()), 0, SectorCnt(length), false, StartOf(dev.sectors[sector]))
      ensures ok ==>
        freeMap.Bits() == SetRange(old(freeMap.Bits()), StartOf(dev.sectors[sector]), SectorCnt(length), true)
      ensures !ok ==> freeMap.Bits() == old(freeMap.Bits())
    {
      hide VolumeOk, Owns, BitsOf, FilesOf;
      if !memOk {
        return false;
      }
      OwnedAreMarked();
      ghost var bits := freeMap.Bits();
      var r, at := FreeMapAllocate(SectorCnt(length), bounceOk);
      if r.None? {
        return false;
      }
      var start := r.value;
      FirstRunExists(bits, 0, SectorCnt(length), false, start);
      MarkMore(bits, owner.Keys, start, SectorCnt(length));
      FillInode(sector, start, length);
      FreshInode(V(), sector, start, length);
      return true;
    }

    lemma FirstRunExists(bits: seq<bool>, start: nat, cnt: nat, value: bool, r: nat)
      requires IsFirstRun(bits, start, cnt, value, r)
      ensures HasRun(bits, start, cnt, value)
    {
    }

    /** inode_reopen by an operation in progress. */
    method InodeReopen(inode: Inode)
      requires Valid() && inode in openInodes
      modifies this`pins, inode`openCnt
      ensures Valid() && pins == old(pins) + multiset{inode} && inode.openCnt == old(inode.openCnt) + 1
    {
      hide VolumeOk, SectorsOf, InodesOk, CountsOk, LiveOk;
      inode.openCnt := inode.openCnt + 1;
      pins := pins + multiset{inode};
      CountedOne(inode);
      SameRemovals(NamedSectors());
    }

    /** One reference more or less, recorded in its inode. */
    twostate lemma CountedOne(inode: Inode)
      requires old(CountsOk()) && openInodes == old(openInodes) && inode in openInodes
      requires files == old(files) && unchanged(files)
      requires forall n :: n in openInodes ==> n.denyWriteCnt == old(n.denyWriteCnt)
      requires forall n :: n in openInodes && n != inode ==> n.openCnt == old(n.openCnt) && pins[n] == old(pins)[n]
      requires inode.openCnt + old(pins)[inode] == old(inode.openCnt) + pins[inode]
      requires inode.openCnt >= old(inode.openCnt) || inode.openCnt > 0
      requires forall n :: n in pins ==> n in old(pins) || n == inode
      ensures CountsOk()
    {
      forall n | n in openInodes
        ensures CountOk(n)
      {
        assert old(CountOk(n));
      }
    }

    twostate lemma SameRemovals(new sectors: set<nat>)
      requires old(LiveOk(sectors)) && openInodes == old(openInodes) && live == old(live)
      requires forall n :: n in openInodes ==> n.removed == old(n.removed)
      ensures LiveOk(sectors)
    {
      forall n | n in openInodes
        ensures RemovedOk(n, sectors)
      {
        assert old(RemovedOk(n, sectors));
      }
    }

    /** The search of inode_open through the open inodes. */
    method FindOpen(sector: nat) returns (inode: Inode?)
      ensures inode == null <==> sector !in OpenSectors(openInodes)
      ensures inode != null ==> inode in openInodes && inode.sector == sector
    {
      var i := 0;
      while i < |openInodes|
        invariant 0 <= i <= |openInodes|
        invariant forall j :: 0 <= j < i ==> openInodes[j].sector != sector
      {
        if openInodes[i].sector == sector {
          return openInodes[i];
        }
        i := i + 1;
      }
      return null;
    }

    /** inode_open of a live sector: the inode that is already open, or else a new one, so that
        every opener of a sector shares one inode. */
    method InodeOpen(sector: nat, memOk: bool) returns (inode: Inode?)
      requires Valid() && sector in live
      modifies this`openInodes, this`inodes, this`pins, inodes
      ensures Valid()
      ensures inode == null <==> sector !in OpenSectors(old(openInodes)) && !memOk
      ensures inode != null ==> inode in openInodes && inode.sector == sector && pins == old(pins) + multiset{inode}
      ensures inode == null ==> pins == old(pins) && openInodes == old(openInodes)
      ensures inode != null ==> OpenSectors(openInodes) == OpenSectors(old(openInodes)) + {sector}
      ensures inode != null ==> (inode.openCnt == 1 <==> sector !in OpenSectors(old(openInodes)))
      ensures fresh(inodes - old(inodes))
    {
      hide VolumeOk, Owns, SectorsOf, InodesOk, CountsOk, LiveOk, FilesOf, Table;
      inode := FindOpen(sector);
      if inode != null {
        OpenIsCounted(inode);
        InodeReopen(inode);
      } else if memOk {
        LiveOnDisk(sector);
        inode := AddInode(sector);
        assert OpenSectors(openInodes) == OpenSectors(old(openInodes)) + {sector};
      }
    }

    lemma OpenIsCounted(inode: Inode)
      requires CountsOk() && inode in openInodes
      ensures inode.openCnt > 0
    {
      assert CountOk(inode);
    }

    lemma LiveOnDisk(sector: nat)
      requires Mounted() && sector in live
      ensures sector < |dev.sectors|
    {
      assert Owns(dev.sectors, owner, sector);
    }

    /** A new struct inode at the front of the list of open inodes. */
    method AddInode(sector: nat) returns (inode: Inode)
      requires Valid() && sector in live && sector < |dev.sectors| && sector !in OpenSectors(openInodes)
      modifies this`openInodes, this`inodes, this`pins
      ensures Valid() && fresh(inode) && inode.sector == sector && inode.openCnt == 1
      ensures openInodes == [inode] + old(openInodes) && pins == old(pins) + multiset{inode}
      ensures inodes == old(inodes) + {inode}
    {
      hide VolumeOk, SectorsOf, InodesOk, CountsOk, LiveOk;
      inode := new Inode(sector, StartOf(dev.sectors[sector]), LengthOf(dev.sectors[sector]));
      openInodes := [inode] + openInodes;
      inodes := inodes + {inode};
      pins := pins + multiset{inode};
      AddedInodes(inode);
      AddedCounts(inode);
      AddedLive(inode, NamedSectors());
    }

    twostate lemma AddedInodes(new inode: Inode)
      requires old(InodesOk()) && openInodes == [inode] + old(openInodes)
      requires unchanged(dev) && live == old(live)
      requires InodeOk(inode) && inode.sector !in OpenSectors(old(openInodes))
      ensures InodesOk()
    {
      assert forall n :: n in old(openInodes) ==> old(InodeOk(n));
    }

    twostate lemma AddedCounts(new inode: Inode)
      requires old(CountsOk()) && openInodes == [inode] + old(openInodes)
      requires files == old(files) && unchanged(old(openInodes)) && unchanged(files)
      requires pins == old(pins) + multiset{inode} && inode.openCnt == 1 && inode.denyWriteCnt == 0
      requires inode !in old(openInodes)
      ensures CountsOk()
    {
      assert HandlesOf(files, inode) == {} && DenyingOf(files, inode) == {};
      forall n | n in old(openInodes)
        ensures CountOk(n)
      {
        assert old(CountOk(n));
      }
    }

    twostate lemma AddedLive(new inode: Inode, new sectors: set<nat>)
      requires old(LiveOk(sectors)) && openInodes == [inode] + old(openInodes)
      requires unchanged(old(openInodes)) && live == old(live) && inode.sector in live
      requires !inode.removed && inode.sector !in OpenSectors(old(openInodes))
      ensures LiveOk(sectors)
    {
      assert OpenSectors(openInodes) == OpenSectors(old(openInodes)) + {inode.sector};
      forall n | n in old(openInodes)
        ensures RemovedOk(n, sectors)
      {
        assert old(RemovedOk(n, sectors));
      }
    }

    lemma PinnedIsOpen(inode: Inode)
      requires Valid() && inode in pins
      ensures inode in openInodes && inode.openCnt > 0 && InodeOk(inode) && RemovedOk(inode, NamedSectors())
      ensures inode.sector in live && (inode.removed ==> inode.sector >= 2 && inode.sector !in NamedSectors())
      ensures inode.openCnt == 1 ==> pins[inode] == 1 && HandlesOf(files, inode) == {}
      ensures DistinctSectors(openInodes)
    {
      assert CountOk(inode);
    }

    twostate lemma LeftInodes(inode: Inode)
      requires old(InodesOk()) && inode in old(openInodes) && openInodes == Without(old(openInodes), inode)
      requires unchanged(dev) && (live == old(live) || live == old(live) - {inode.sector})
      ensures InodesOk()
    {
      WithoutMembers(old(openInodes), inode);
      forall i | 0 <= i < |openInodes|
        ensures InodeOk(openInodes[i])
      {
        SectorsDiffer(old(openInodes), openInodes[i], inode);
        var n := openInodes[i];
        assert old(InodeOk(n));
      }
    }

    twostate lemma LeftCounts(inode: Inode)
      requires old(CountsOk()) && DistinctSectors(old(openInodes)) && inode in old(openInodes)
      requires openInodes == Without(old(openInodes), inode)
      requires files == old(files) && unchanged(files) && HandlesOf(files, inode) == {}
      requires forall n :: n in old(openInodes) && n != inode ==> unchanged(n)
      requires old(pins)[inode] == 1 && pins == old(pins) - multiset{inode}
      ensures CountsOk()
    {
      WithoutMembers(old(openInodes), inode);
      forall i | 0 <= i < |openInodes|
        ensures CountOk(openInodes[i])
      {
        var n := openInodes[i];
        assert old(CountOk(n));
      }
      forall f | f in files
        ensures f.inode in openInodes
      {
        assert f !in HandlesOf(files, inode);
      }
    }

    twostate lemma LeftLive(inode: Inode, new sectors: set<nat>)
      requires old(LiveOk(sectors)) && DistinctSectors(old(openInodes)) && inode in old(openInodes)
      requires openInodes == Without(old(openInodes), inode)
      requires forall n :: n in old(openInodes) ==> n.removed == old(n.removed)
      requires live == if inode.sector >= 2 && inode.sector !in sectors then old(live) - {inode.sector} else old(live)
      ensures LiveOk(sectors)
    {
      WithoutMembers(old(openInodes), inode);
      WithoutSectors(old(openInodes), inode);
      assert old(RemovedOk(inode, sectors));
      forall i | 0 <= i < |openInodes|
        ensures RemovedOk(openInodes[i], sectors)
      {
        var n := openInodes[i];
        assert old(RemovedOk(n, sectors));
      }
    }

    /** The two releases of inode_close. */
    method ReleaseInode(sector: nat, start: nat, cnt: nat, mem: Memory)
      requires Valid() && Releasable(freeMap.Bits(), owner, sector, start, cnt)
      modifies dev, freeMap.elems
      ensures Valid() && SameView()
      ensures sector < |dev.sectors| && start + cnt <= |dev.sectors|
      ensures freeMap.Bits() == SetRange(SetRange(old(freeMap.Bits()), sector, 1, false), start, cnt, false)
    {
      hide VolumeOk, Owns, BitsOf, FilesOf, InodesOk, CountsOk, LiveOk, SectorsOf, Synced, StoredBits, Written,
        SetRange, AllAre, Releasable, OnlyExtent, Table, Valid;
      IsMounted();
      ReleasableParts(freeMap.Bits(), owner, sector, start, cnt);
      FreeMapRelease(sector, 1, mem.inodeMap);
      FreeMapRelease(start, cnt, mem.extentMap);
      BytesChanged();
    }

    /** A file that no directory entry refers to: removed, or its entry overwritten. */
    ghost predicate Orphan(inode: Inode)
      requires Mounted()
      reads this`owner, this`live, dev, freeMap.elems, freeMapFile.inode
    {
      inode.sector >= 2 && inode.sector !in NamedSectors()
    }

    /** inode_close of the only reference: the inode leaves the list of open inodes.  Without a
        directory entry its file is gone; if it was removed, its sectors may be released. */
    method Unlist(inode: Inode)
      requires Valid() && inode in pins && inode.openCnt == 1 && inode != freeMapFile.inode
      modifies this`openInodes, this`pins, this`owner, this`live, inode
      ensures Valid() && pins == old(pins) - multiset{inode} && inode.removed == old(inode.removed)
      ensures !old(Orphan(inode)) ==> owner == old(owner) && live == old(live)
      ensures old(Orphan(inode)) ==> V() == Dropped(old(V()), inode.sector) && inode.sector in old(live)
      ensures inode.removed ==> old(Orphan(inode))
      ensures Tab() == old(Tab())
    {
      hide VolumeOk, Owns, InodesOk, CountsOk, LiveOk, FilesOf, SectorsOf, BitsOf, Table, DropOwner, Without,
        DistinctSectors, CountOk, HandlesOf, InodeOk, RemovedOk;
      ghost var v := V();
      ghost var orphan := Orphan(inode);
      PinnedIsOpen(inode);
      inode.openCnt := 0;
      pins := pins - multiset{inode};
      WithoutMembers(openInodes, inode);
      openInodes := Without(openInodes, inode);
      if orphan {
        owner, live := DropOwner(owner, inode.sector), live - {inode.sector};
        DropInode(v, inode.sector);
      }
      LeftOne(inode, old(NamedSectors()));
    }

    /** The open inodes and counts stay right when the only reference to `inode` goes. */
    twostate lemma LeftOne(inode: Inode, new sectors: set<nat>)
      requires old(InodesOk() && CountsOk() && LiveOk(sectors)) && DistinctSectors(old(openInodes))
      requires inode in old(openInodes) && openInodes == Without(old(openInodes), inode)
      requires unchanged(dev) && files == old(files) && unchanged(files) && HandlesOf(files, inode) == {}
      requires forall n :: n in old(openInodes) && n != inode ==> unchanged(n)
      requires old(pins)[inode] == 1 && pins == old(pins) - multiset{inode} && inode.removed == old(inode.removed)
      requires live == if inode.sector >= 2 && inode.sector !in sectors then old(live) - {inode.sector} else old(live)
      ensures InodesOk() && CountsOk() && LiveOk(sectors)
    {
      hide InodesOk, CountsOk, LiveOk, Without, DistinctSectors, HandlesOf;
      LeftInodes(inode);
      LeftCounts(inode);
      LeftLive(inode, sectors);
    }

    method LastClose(inode: Inode, mem: Memory)
      requires Valid() && inode in pins && inode.openCnt == 1 && inode != freeMapFile.inode
      modifies this`openInodes, this`pins, this`owner, this`live, inode, dev, freeMap.elems
      ensures Valid() && pins == old(pins) - multiset{inode}
      ensures Files() ==
        if old(Orphan(inode)) then old(Files()).(contents := old(Files()).contents - {inode.sector})
        else old(Files())
      ensures Tab() == old(Tab())
      ensures !old(Orphan(inode)) ==> V() == old(V())
      ensures
        if old(inode.removed) then MarksReleased(old(V()), inode.sector, freeMap.Bits())
        else freeMap.Bits() == old(freeMap.Bits())
    {
      hide VolumeOk, Owns, InodesOk, CountsOk, LiveOk, FilesOf, SectorsOf, BitsOf, Table, DropOwner, Releasable,
        SetRange;
      ghost var v := V();
      PinnedIsOpen(inode);
      Unlist(inode);
      if old(Orphan(inode)) {
        DropInode(v, inode.sector);
      }
      if inode.removed {
        DroppedExtent(v, inode.sector);
        ReleaseInode(inode.sector, inode.start, SectorCnt(inode.length), mem);
      }
    }

    /** inode_close of a reference held by an operation.  The last reference to a file without a
        directory entry takes the file with it; otherwise nothing users can see changes. */
    method InodeClose(inode: Inode, mem: Memory)
      requires Valid() && inode in pins
      requires inode == freeMapFile.inode ==> pins[inode] > 1
      modifies this`openInodes, this`pins, this`owner, this`live, inodes, dev, freeMap.elems
      ensures Valid() && pins == old(pins) - multiset{inode}
      ensures Files() ==
        if old(inode.openCnt) == 1 && old(Orphan(inode))
        then old(Files()).(contents := old(Files()).contents - {inode.sector})
        else old(Files())
      ensures Tab() == old(Tab())
      ensures !(old(inode.openCnt) == 1 && old(Orphan(inode))) ==> V() == old(V())
      ensures
        if old(inode.openCnt) == 1 && old(inode.removed) then MarksReleased(old(V()), inode.sector, freeMap.Bits())
        else freeMap.Bits() == old(freeMap.Bits())
    {
      hide VolumeOk, Owns, SectorsOf, InodesOk, CountsOk, LiveOk, FilesOf, BitsOf, Table, DistinctSectors,
        CountOk, HandlesOf, InodeOk, RemovedOk, MarksReleased;
      PinnedIsOpen(inode);
      if inode.openCnt == 1 {
        LastClose(inode, mem);
      } else {
        DropReference(inode);
      }
    }

    /** One reference of several to an open inode goes. */
    method DropReference(inode: Inode)
      requires Valid() && inode in pins && inode.openCnt > 1 && (inode == freeMapFile.inode ==> pins[inode] > 1)
      modifies this`pins, inode`openCnt
      ensures Valid() && pins == old(pins) - multiset{inode} && V() == old(V())
    {
      hide VolumeOk, Owns, SectorsOf, InodesOk, CountsOk, LiveOk, FilesOf, BitsOf, Table, DistinctSectors,
        CountOk, HandlesOf, InodeOk, RemovedOk;
      PinnedIsOpen(inode);
      inode.openCnt := inode.openCnt - 1;
      pins := pins - multiset{inode};
      CountedOne(inode);
      SameRemovals(NamedSectors());
    }

    // ----- directory.c -----

    /** `dir` is the open root directory. */
    ghost predicate IsRoot(dir: Inode)
      reads dev, dir
    {
      && dir.sector == ROOT_DIR_SECTOR < |dev.sectors| && dir.denyWriteCnt == 0
      && dir.start == StartOf(dev.sectors[ROOT_DIR_SECTOR]) && dir.length == LengthOf(dev.sectors[ROOT_DIR_SECTOR])
    }

    lemma OpenRoot(dir: Inode)
      requires Valid() && dir in openInodes && dir.sector == ROOT_DIR_SECTOR
      ensures IsRoot(dir)
    {
      NoDenial(dir);
      assert InodeOk(dir);
    }

    /** Reads one directory entry; nothing at the end of the file or without a bounce buffer. */
    method ReadEntry(dir: Inode, ofs: nat, bounceOk: bool) returns (e: seq<byte>)
      requires Mounted() && IsRoot(dir) && ofs % ENTRY_SIZE == 0
      ensures |e| == ENTRY_SIZE <==> bounceOk && ofs / ENTRY_SIZE < ROOT_ENTRIES
      ensures |e| == ENTRY_SIZE ==> Tab()[ofs / ENTRY_SIZE] == SlotOf(e)
    {
      hide Slots, SlotOf, FileBytes, TransferCnt, Owns;
      SystemSectors(V());
      RootExtent();
      e := ReadAt(dev, dir, ENTRY_SIZE, ofs, bounceOk);
      EntryTransfer(ofs, bounceOk);
      if |e| == ENTRY_SIZE {
        SlotAt(Content(dev.sectors, ROOT_DIR_SECTOR), ofs / ENTRY_SIZE);
      }
    }

    lemma RootExtent()
      requires Mounted()
      ensures ROOT_DIR_SECTOR < |dev.sectors| && LengthOf(dev.sectors[ROOT_DIR_SECTOR]) == ENTRY_SIZE * ROOT_ENTRIES
      ensures ExtentFits(dev.sectors, StartOf(dev.sectors[ROOT_DIR_SECTOR]), LengthOf(dev.sectors[ROOT_DIR_SECTOR]))
    {
      SystemSectors(V());
    }

    /** lookup, when bounce buffers can be had for the first `reach` entries. */
    method Lookup(dir: Inode, name: Name, reach: nat) returns (ofs: Option<nat>, e: seq<byte>)
      requires Mounted() && IsRoot(dir)
      ensures ofs.Some? <==> Find(Tab(), name, reach).Some?
      ensures ofs.Some? ==>
        && |e| == ENTRY_SIZE && ofs.value % ENTRY_SIZE == 0 && ofs.value / ENTRY_SIZE < ROOT_ENTRIES
        && Find(Tab(), name, reach) == Some(ofs.value / ENTRY_SIZE) && Tab()[ofs.value / ENTRY_SIZE] == SlotOf(e)
    {
      hide VolumeOk, Slots, SlotOf, Find;
      var o := 0;
      ghost var j := 0;
      while true
        invariant o == ENTRY_SIZE * j && 0 <= j <= ROOT_ENTRIES
        invariant forall i :: 0 <= i < j ==> !Holds(Tab(), i, name)
        decreases ROOT_ENTRIES - j
      {
        EntryPlace(j);
        e := ReadEntry(dir, o, o / ENTRY_SIZE < reach);
        if |e| != ENTRY_SIZE {
          break;
        }
        var slot := SlotOf(e);
        if slot.Used? && slot.name == name {
          FoundAt(Tab(), name, reach, j);
          return Some(o), e;
        }
        o := o + ENTRY_SIZE;
        j := j + 1;
      }
      NotFound(Tab(), name, reach, j);
      ofs := None;
    }

    /** The loop of dir_add that looks for a free slot, when bounce buffers can be had for the
        first `reach` entries. */
    method FindFree(dir: Inode, reach: nat) returns (ofs: nat, e: seq<byte>)
      requires Mounted() && IsRoot(dir)
      ensures |e| == ENTRY_SIZE && ofs % ENTRY_SIZE == 0
      ensures ofs / ENTRY_SIZE == FreeSlot(Tab(), reach) <= ROOT_ENTRIES
    {
      hide VolumeOk, Slots, SlotOf, BitsOf, Table, Owns, FreeSlot;
      e := Zeros(ENTRY_SIZE);
      ofs := 0;
      ghost var j := 0;
      while true
        invariant |e| == ENTRY_SIZE && ofs == ENTRY_SIZE * j && 0 <= j <= ROOT_ENTRIES && j <= reach
        invariant forall i :: 0 <= i < j ==> Tab()[i].Used?
        decreases ROOT_ENTRIES - j
      {
        EntryPlace(j);
        var next := ReadEntry(dir, ofs, ofs / ENTRY_SIZE < reach);
        if |next| != ENTRY_SIZE {
          break;
        }
        e := next;
        if SlotOf(e).Free? {
          break;
        }
        ofs := ofs + ENTRY_SIZE;
        j := j + 1;
      }
      EntryPlace(j);
      FreeSlotIs(Tab(), reach, j);
    }

    /** Writes one directory entry; nothing happens at the end of the file or without a bounce
        buffer. */
    method StoreEntry(dir: Inode, ofs: nat, e: seq<byte>, bounceOk: bool) returns (n: nat)
      requires Mounted() && IsRoot(dir) && |e| == ENTRY_SIZE && ofs % ENTRY_SIZE == 0
      requires bounceOk && ofs / ENTRY_SIZE < ROOT_ENTRIES ==>
        var t := Tab()[ofs / ENTRY_SIZE := SlotOf(e)]; TableOk(t) && SectorsOf(t) <= live
      modifies dev
      ensures n == ENTRY_SIZE <==> bounceOk && ofs / ENTRY_SIZE < ROOT_ENTRIES
      ensures n != ENTRY_SIZE ==> dev.sectors == old(dev.sectors)
      ensures n == ENTRY_SIZE ==>
        && Mounted() && Tab() == old(Tab())[ofs / ENTRY_SIZE := SlotOf(e)]
        && Files() == old(Files()).(dir := Tab())
        && |dev.sectors| == |old(dev.sectors)| && SameInodes(old(V()), dev.sectors)
    {
      hide SlotOf, TableOk, FilesOf, TransferCnt, VolumeOk, Owns, SectorsOf, Slots, SameInodes, FileBytes;
      ghost var v := V();
      SystemSectors(v);
      RootExtent();
      EntryTransfer(ofs, bounceOk);
      n := WriteAt(dev, dir, e, ENTRY_SIZE, ofs, bounceOk);
      if n == ENTRY_SIZE {
        StoreSlot(Content(v.d, ROOT_DIR_SECTOR), ofs / ENTRY_SIZE, e);
        assert e[..n] == e;
        RootKept(v, dev.sectors);
        RewriteDir(v, dev.sectors);
      }
    }

    lemma RootKept(v: Volume, d': seq<Sector>)
      requires VolumeOk(v) && Owns(v.d, v.owner, ROOT_DIR_SECTOR) && OnlyExtent(v, d', ROOT_DIR_SECTOR)
      ensures d'[ROOT_DIR_SECTOR] == v.d[ROOT_DIR_SECTOR] && d'[FREE_MAP_SECTOR] == v.d[FREE_MAP_SECTOR]
    {
      OthersAgree(v, d', ROOT_DIR_SECTOR);
    }

    lemma DirIs()
      requires Mounted()
      ensures Files().dir == Tab()
    {
    }

    /** The file that disappears when `slot` is overwritten: unless it is open, nothing refers to
        it any more.  Its sectors stay marked. */
    ghost function LostWith(slot: Slot): set<nat>
      reads this`openInodes
    {
      if slot.Used? && slot.sector !in OpenSectors(openInodes) then {slot.sector} else {}
    }

    /** The open inodes stay right when the file in `sector` becomes live and gets the entry that
        `slot` was. */
    twostate lemma EntryStored(new sector: nat, new slot: Slot, new sectors: set<nat>)
      requires old(InodesOk() && LiveOk(sectors)) && openInodes == old(openInodes) && unchanged(openInodes)
      requires |dev.sectors| == |old(dev.sectors)| && SameInodes(old(V()), dev.sectors)
      requires SectorIn(slot) <= sectors && (slot.Used? ==> slot.sector >= 2)
      requires sector !in old(live) && live == old(live) + {sector} - LostWith(slot)
      ensures InodesOk() && LiveOk(sectors - SectorIn(slot) + {sector})
    {
      forall n | n in openInodes
        ensures InodeOk(n) && RemovedOk(n, sectors - SectorIn(slot) + {sector})
      {
        assert old(InodeOk(n)) && old(RemovedOk(n, sectors));
        assert n.sector in OpenSectors(openInodes);
      }
    }

    /** dir_add stores an entry. */
    ghost predicate AddStores(name: Name, mem: Memory)
      requires Mounted()
      reads this`owner, this`live, dev, freeMap.elems, freeMapFile.inode
    {
      && NameFits(name) && Find(Tab(), name, mem.lookup).None?
      && FreeSlot(Tab(), mem.search) < ROOT_ENTRIES && mem.entry
    }

    /** dir_add of a file whose inode was just created in `sector`.  The entry goes where the
        search for a free slot ends, even if it ends because it could not read on. */
    method DirAdd(dir: Inode, name: Name, sector: nat, mem: Memory) returns (ok: bool)
      requires Valid() && dir in openInodes && dir.sector == ROOT_DIR_SECTOR && IsCString(name)
      requires |freeMap.elems[..]| == ElemCnt(|dev.sectors|) && Adoptable(V(), sector)
      modifies dev, this`owner, this`live
      ensures ok <==> old(AddStores(name, mem))
      ensures Valid()
      ensures !ok ==> V() == old(V())
      ensures ok ==> sector !in old(live)
      ensures ok ==> Files().dir == Entered(old(Tab()), mem.search, name, sector)
      ensures ok ==>
        var lost := LostWith(SlotEntered(old(Tab()), mem.search));
        Files().contents == (old(Files()).contents - lost)[sector := old(Content(dev.sectors, sector))]
    {
      hide VolumeOk, Owns, InodesOk, CountsOk, LiveOk, Adoptable, SlotOf, SectorsOf, TableOk, Table, FilesOf, Find,
        FreeSlot, Entered, SlotEntered, LostWith;
      OpenRoot(dir);
      if !NameFits(name) {
        return false;
      }
      var found, _ := Lookup(dir, name, mem.lookup);
      if found.Some? {
        return false;
      }
      ok := AddEntry(dir, name, sector, mem);
    }

    /** The part of dir_add that follows the checks. */
    method AddEntry(dir: Inode, name: Name, sector: nat, mem: Memory) returns (ok: bool)
      requires Valid() && dir in openInodes && IsRoot(dir) && IsCString(name) && NameFits(name)
      requires |freeMap.elems[..]| == ElemCnt(|dev.sectors|) && Adoptable(V(), sector)
      modifies dev, this`owner, this`live
      ensures ok <==> FreeSlot(old(Tab()), mem.search) < ROOT_ENTRIES && mem.entry
      ensures Valid()
      ensures !ok ==> V() == old(V())
      ensures ok ==> sector !in old(live)
      ensures ok ==> Files().dir == Entered(old(Tab()), mem.search, name, sector)
      ensures ok ==>
        var lost := LostWith(SlotEntered(old(Tab()), mem.search));
        Files().contents == (old(Files()).contents - lost)[sector := old(Content(dev.sectors, sector))]
    {
      hide VolumeOk, Owns, InodesOk, CountsOk, LiveOk, Adoptable, SlotOf, SectorsOf, TableOk, Table, FilesOf,
        FreeSlot, Entered, SlotEntered, LostWith;
      ghost var t := Tab();
      DirIs();
      OwnedAreMarked();
      AdoptableSector(V(), sector);
      var ofs, e := FindFree(dir, mem.search);
      var entry := NewEntry(e, name, sector);
      NewEntrySlot(e, name, sector);
      if FreeSlot(t, mem.search) < ROOT_ENTRIES { EnteredIs(t, mem.search, name, sector); }
      ok := StoreNew(dir, ofs, entry, name, sector, mem.entry);
    }

    /** The write of dir_add: the new file becomes live with its entry. */
    method StoreNew(dir: Inode, ofs: nat, entry: seq<byte>, name: Name, sector: nat, bounceOk: bool) returns (ok: bool)
      requires Valid() && dir in openInodes && IsRoot(dir) && IsCString(name) && NameFits(name)
      requires |freeMap.elems[..]| == ElemCnt(|dev.sectors|) && Adoptable(V(), sector)
      requires |entry| == ENTRY_SIZE && ofs % ENTRY_SIZE == 0 && SlotOf(entry) == Used(name, sector)
      modifies dev, this`owner, this`live
      ensures ok <==> bounceOk && ofs / ENTRY_SIZE < ROOT_ENTRIES
      ensures Valid()
      ensures !ok ==> V() == old(V())
      ensures ok ==> sector !in old(live)
      ensures ok ==> Files().dir == old(Files()).dir[ofs / ENTRY_SIZE := Used(name, sector)]
      ensures ok ==>
        var lost := LostWith(old(Tab())[ofs / ENTRY_SIZE]);
        Files().contents == (old(Files()).contents - lost)[sector := old(Content(dev.sectors, sector))]
    {
      hide VolumeOk, Owns, InodesOk, CountsOk, LiveOk, Adoptable, SlotOf, SectorsOf, TableOk, Table, FilesOf,
        OpenSectors, SameInodes, LostWith;
      ghost var v, t := V(), Tab();
      DirIs();
      ok := AdoptAndStore(dir, ofs, entry, name, sector, bounceOk);
      if ok {
        SlotSector(v, ofs / ENTRY_SIZE);
        EntryStored(sector, t[ofs / ENTRY_SIZE], SectorsOf(t));
        DirIs();
      } else {
        NothingWritten(v);
        BytesChanged();
      }
    }

    method AdoptAndStore(dir: Inode, ofs: nat, entry: seq<byte>, name: Name, sector: nat, bounceOk: bool)
      returns (ok: bool)
      requires Mounted() && IsRoot(dir) && IsCString(name) && NameFits(name)
      requires |freeMap.elems[..]| == ElemCnt(|dev.sectors|) && Adoptable(V(), sector)
      requires |entry| == ENTRY_SIZE && ofs % ENTRY_SIZE == 0 && SlotOf(entry) == Used(name, sector)
      modifies dev, this`owner, this`live
      ensures ok <==> bounceOk && ofs / ENTRY_SIZE < ROOT_ENTRIES
      ensures !ok ==> V() == old(V())
      ensures ok ==> sector < |old(dev.sectors)|
      ensures ok ==>
        ExtentFits(old(dev.sectors), StartOf(old(dev.sectors)[sector]), LengthOf(old(dev.sectors)[sector]))
      ensures ok ==>
        var j, t := ofs / ENTRY_SIZE, old(Tab());
        && sector !in old(live) && live == old(live) + {sector} - LostWith(t[j])
        && Mounted() && Tab() == t[j := Used(name, sector)]
        && SectorsOf(Tab()) == SectorsOf(t) - SectorIn(t[j]) + {sector}
        && Files().contents == (old(Files()).contents - LostWith(t[j]))[sector := old(Content(dev.sectors, sector))]
        && |dev.sectors| == |old(dev.sectors)| && SameInodes(old(V()), dev.sectors)
    {
      hide VolumeOk, Owns, Adoptable, SlotOf, SectorsOf, TableOk, Table, FilesOf, AdoptOwner, OpenSectors, SameInodes;
      ghost var v := V();
      AdoptableSector(v, sector);
      if bounceOk && ofs / ENTRY_SIZE < ROOT_ENTRIES {
        AdoptInode(v, sector);
        AdoptedEntry(v, sector, ofs / ENTRY_SIZE, name);
        owner, live := Adopted(v, sector).owner, live + {sector};
        assert V() == Adopted(v, sector);
      }
      ok := StoreAndDrop(dir, ofs, entry, name, sector, bounceOk);
      if ok {
        FewerInodes(v, sector, dev.sectors);
      }
    }

    lemma FewerInodes(v: Volume, sector: nat, d': seq<Sector>)
      requires sector < |v.d| && SameInodes(Adopted(v, sector), d')
      ensures SameInodes(v, d')
    {
    }

    /** The entry is stored, and the file that lost it dropped. */
    method StoreAndDrop(dir: Inode, ofs: nat, entry: seq<byte>, name: Name, sector: nat, bounceOk: bool)
      returns (ok: bool)
      requires Mounted() && IsRoot(dir)
      requires |entry| == ENTRY_SIZE && ofs % ENTRY_SIZE == 0 && SlotOf(entry) == Used(name, sector)
      requires bounceOk && ofs / ENTRY_SIZE < ROOT_ENTRIES ==>
        var t := Tab()[ofs / ENTRY_SIZE := Used(name, sector)];
        TableOk(t) && SectorsOf(t) <= live && SectorIn(Tab()[ofs / ENTRY_SIZE]) !! SectorsOf(t)
      modifies dev, this`owner, this`live
      ensures ok <==> bounceOk && ofs / ENTRY_SIZE < ROOT_ENTRIES
      ensures !ok ==> V() == old(V())
      ensures ok ==>
        var slot := old(Tab())[ofs / ENTRY_SIZE];
        && Mounted() && live == old(live) - LostWith(slot)
        && Tab() == old(Tab())[ofs / ENTRY_SIZE := Used(name, sector)]
        && Files() == Volumes.Files(Tab(), old(Files()).contents - LostWith(slot))
        && |dev.sectors| == |old(dev.sectors)| && SameInodes(old(V()), dev.sectors)
    {
      hide VolumeOk, Owns, SlotOf, SectorsOf, TableOk, Table, FilesOf, OpenSectors, SameInodes, LostWith;
      ghost var v, t := V(), Tab();
      var n := StoreEntry(dir, ofs, entry, bounceOk);
      ok := n == ENTRY_SIZE;
      if ok {
        SlotSector(v, ofs / ENTRY_SIZE);
        DropLost(t[ofs / ENTRY_SIZE]);
      }
    }

    lemma SlotSector(v: Volume, j: nat)
      requires VolumeOk(v) && j < ROOT_ENTRIES
      ensures var slot := Table(v)[j];
        SectorIn(slot) <= SectorsOf(Table(v)) <= v.live && (slot.Used? ==> slot.sector >= 2)
    {
    }

    /** Nothing refers any more to a file whose entry was overwritten, unless it is open. */
    ghost method DropLost(slot: Slot)
      requires Mounted() && SectorIn(slot) <= live && SectorIn(slot) !! NamedSectors()
      requires slot.Used? ==> slot.sector >= 2
      modifies this`owner, this`live
      ensures Mounted() && live == old(live) - LostWith(slot) && Tab() == old(Tab())
      ensures Files() == old(Files()).(contents := old(Files()).contents - LostWith(slot))
    {
      hide VolumeOk, SectorsOf, Table, DropOwner, OpenSectors;
      if LostWith(slot) != {} {
        DropInode(V(), slot.sector);
        owner, live := DropOwner(owner, slot.sector), live - {slot.sector};
      }
    }

    // ----- filesys.c -----

    /** dir_open_root: a reference to the root directory's inode, or null if the inode or the
        struct dir cannot be allocated. */
    method DirOpenRoot(mem: Memory) returns (dir: Inode?)
      requires Valid()
      modifies this`openInodes, this`inodes, this`pins, this`owner, this`live, inodes, dev, freeMap.elems
      ensures Valid() && V() == old(V())
      ensures dir != null <==> RootOpens(old(openInodes), mem)
      ensures fresh(inodes - old(inodes))
      ensures dir == null ==> pins == old(pins)
      ensures dir != null ==> dir in openInodes && dir.sector == ROOT_DIR_SECTOR && pins == old(pins) + multiset{dir}
      ensures dir != null ==> OpenSectors(openInodes) == OpenSectors(old(openInodes)) + {ROOT_DIR_SECTOR}
    {
      hide VolumeOk, Owns, InodesOk, CountsOk, LiveOk, FilesOf, SectorsOf, BitsOf, Table;
      RootIsLive();
      dir := InodeOpen(ROOT_DIR_SECTOR, mem.rootInode);
      if dir != null && !mem.rootDir {
        PinnedIsOpen(dir);
        InodeClose(dir, mem);
        return null;
      }
    }

    lemma RootIsLive()
      requires Mounted()
      ensures ROOT_DIR_SECTOR in live
    {
    }

    /** The sector for a new inode: none of the sectors in use. */
    method AllocateInode(bounceOk: bool) returns (r: Option<nat>, ghost at: Option<nat>)
      requires Valid()
      modifies dev, freeMap.elems
      ensures Valid() && SameView()
      ensures ScanResult(old(freeMap.Bits()), 0, 1, false, at)
      ensures r == if Succeeds(freeMap.bitCnt, bounceOk) then at else None
      ensures r.None? ==> freeMap.Bits() == old(freeMap.Bits())
      ensures r.Some? ==>
        && 2 <= r.value < |dev.sectors| && r.value !in owner && freeMap.Bits()[r.value]
        && freeMap.Bits() == SetRange(old(freeMap.Bits()), r.value, 1, true)
    {
      hide VolumeOk, Owns, InodesOk, CountsOk, LiveOk, FilesOf, SectorsOf, BitsOf, Table, Synced, StoredBits, Written;
      OwnedAreMarked();
      RootIsOwned();
      r, at := FreeMapAllocate(1, bounceOk);
      BytesChanged();
      if r.Some? {
        MarkMore(old(freeMap.Bits()), owner.Keys, r.value, 1);
      }
    }

    lemma RootIsOwned()
      requires Mounted()
      ensures FREE_MAP_SECTOR in owner && ROOT_DIR_SECTOR in owner
    {
    }

    /** free_map_release of an inode sector after a failed create. */
    method ReleaseSector(s: nat, bounceOk: bool)
      requires Valid() && s < |dev.sectors| && s !in owner && freeMap.Bits()[s]
      modifies dev, freeMap.elems
      ensures Valid() && SameView()
      ensures freeMap.Bits() == SetRange(old(freeMap.Bits()), s, 1, false)
    {
      hide VolumeOk, Owns, InodesOk, CountsOk, LiveOk, FilesOf, SectorsOf, BitsOf, Table, Synced, StoredBits, Written;
      FreeMapRelease(s, 1, bounceOk);
      BytesChanged();
    }

    lemma TakesBoth(bits: seq<bool>, size: nat, s: nat, start: nat)
      requires IsFirstRun(bits, 0, 1, false, s)
      requires IsFirstRun(SetRange(bits, s, 1, true), 0, SectorCnt(size), false, start)
      ensures Takes(bits, size, s, start)
    {
    }

    lemma GivenBack(bits: seq<bool>, s: nat)
      requires IsFirstRun(bits, 0, 1, false, s)
      ensures SetRange(SetRange(bits, s, 1, true), s, 1, false) == bits
    {
      Unflip(bits, s, 1);
    }

    lemma MarksUnchanged(bits: seq<bool>, size: nat)
      ensures MarksCreated(bits, size, false, false, bits)
    {
    }

    /** filesys_create gets as far as dir_add. */
    ghost predicate ReachesAdd(size: nat, mem: Memory)
      requires Mounted()
      reads this`owner, this`live, dev, freeMap.elems, freeMapFile.inode
    {
      mem.diskInode && RoomOn(V(), size, mem)
    }

    /** filesys_create between opening and closing the root directory.  When it fails the inode's
        sector is released; an extent that was allocated is not. */
    method CreateIn(dir: Inode, name: Name, size: nat, mem: Memory) returns (ok: bool, ghost sector: nat)
      requires Valid() && dir in openInodes && dir.sector == ROOT_DIR_SECTOR
      requires IsCString(name) && size <= OFF_MAX
      modifies dev, freeMap.elems, this`owner, this`live
      ensures Valid()
      ensures ok <==> old(ReachesAdd(size, mem)) && old(AddStores(name, mem))
      ensures !ok ==> Files() == old(Files())
      ensures ok ==> sector !in old(live)
      ensures ok ==> Files().dir == Entered(old(Tab()), mem.search, name, sector)
      ensures ok ==>
        var lost := LostWith(SlotEntered(old(Tab()), mem.search));
        Files().contents == (old(Files()).contents - lost)[sector := Zeros(size)]
      ensures MarksCreated(old(freeMap.Bits()), size, old(ReachesAdd(size, mem)), ok, freeMap.Bits())
    {
      hide VolumeOk, Owns, InodesOk, CountsOk, LiveOk, FilesOf, SectorsOf, BitsOf, Table, Adoptable, TableOk, Find,
        FreeSlot, Entered, SlotEntered, LostWith, Content, SetRange, AllMarked, HasRoom, HasRun, IsFirstRun,
        Succeeds, SameInodes, MarksCreated;
      ghost var bits := freeMap.Bits();
      var r, at := AllocateInode(mem.inodeMap);
      RoomIs(bits, size, at);
      MarksUnchanged(bits, size);
      if r.None? {
        return false, 0;
      }
      var s := r.value;
      sector := s;
      GivenBack(bits, s);
      label Allocated:
      ok := InodeCreate(s, size, mem.diskInode, mem.extentMap);
      BytesChanged@Allocated();
      if ok {
        AdoptableSector(V(), s);
        ghost var start := StartOf(dev.sectors[s]);
        TakesBoth(bits, size, s, start);
        ok := DirAdd(dir, name, s, mem);
        MarksAfter(bits, size, s, start, ok);
      }
      if !ok {
        ReleaseSector(s, mem.undoMap);
      }
    }

    /** filesys_create: success stores one entry and adds one file of zeros; failure changes
        nothing a user can see. */
    method Create(name: Name, size: nat, mem: Memory) returns (ok: bool, ghost sector: nat)
      requires Valid() && AtRest() && IsCString(name) && size <= OFF_MAX
      modifies this`openInodes, this`inodes, this`pins, this`owner, this`live, inodes, dev, freeMap.elems
      ensures Valid() && AtRest() && fresh(inodes - old(inodes))
      ensures ok <==> RootOpens(old(openInodes), mem) && old(ReachesAdd(size, mem)) && old(AddStores(name, mem))
      ensures !ok ==> Files() == old(Files())
      ensures ok ==> sector !in old(live)
      ensures ok ==> Files().dir == Entered(old(Tab()), mem.search, name, sector)
      ensures ok ==>
        var lost := old(LostWith(SlotEntered(Tab(), mem.search)));
        Files().contents == (old(Files()).contents - lost)[sector := Zeros(size)]
      ensures
        var reached := RootOpens(old(openInodes), mem) && old(ReachesAdd(size, mem));
        MarksCreated(old(freeMap.Bits()), size, reached, ok, freeMap.Bits())
    {
      hide VolumeOk, Owns, InodesOk, CountsOk, LiveOk, FilesOf, SectorsOf, BitsOf, Table, HasRoom, Find, FreeSlot,
        OpenSectors, Succeeds, Entered, SlotEntered, LostWith, Valid, Mounted, AddStores, ReachesAdd;
      IsMounted();
      sector := 0;
      var dir := DirOpenRoot(mem);
      if dir == null {
        return false, 0;
      }
      IsMounted();
      SameAdd(name, size, mem);
      ok, sector := CreateAndClose(dir, name, size, mem);
    }

    /** Opening the root directory makes no difference to what dir_add does. */
    twostate lemma SameAdd(new name: Name, new size: nat, new mem: Memory)
      requires old(Mounted()) && Mounted() && V() == old(V())
      requires OpenSectors(openInodes) == OpenSectors(old(openInodes)) + {ROOT_DIR_SECTOR}
      ensures Tab() == old(Tab()) && freeMap.Bits() == old(freeMap.Bits())
      ensures AddStores(name, mem) == old(AddStores(name, mem)) && ReachesAdd(size, mem) == old(ReachesAdd(size, mem))
      ensures LostWith(SlotEntered(Tab(), mem.search)) == old(LostWith(SlotEntered(Tab(), mem.search)))
    {
      hide VolumeOk, OpenSectors, Find, Table, HasRoom, Succeeds, BitsOf, FreeSlot;
      if FreeSlot(Tab(), mem.search) < ROOT_ENTRIES && SlotEntered(Tab(), mem.search).Used? {
        NamedIsLive(FreeSlot(Tab(), mem.search));
      }
    }

    /** filesys_create after opening the root directory. */
    method CreateAndClose(dir: Inode, name: Name, size: nat, mem: Memory) returns (ok: bool, ghost sector: nat)
      requires Valid() && dir in openInodes && dir.sector == ROOT_DIR_SECTOR && dir in pins
      requires IsCString(name) && size <= OFF_MAX
      modifies this`openInodes, this`pins, this`owner, this`live, inodes, dev, freeMap.elems
      ensures Valid() && pins == old(pins) - multiset{dir}
      ensures ok <==> old(ReachesAdd(size, mem)) && old(AddStores(name, mem))
      ensures !ok ==> Files() == old(Files())
      ensures ok ==> sector !in old(live)
      ensures ok ==> Files().dir == Entered(old(Tab()), mem.search, name, sector)
      ensures ok ==>
        var lost := old(LostWith(SlotEntered(Tab(), mem.search)));
        Files().contents == (old(Files()).contents - lost)[sector := Zeros(size)]
      ensures MarksCreated(old(freeMap.Bits()), size, old(ReachesAdd(size, mem)), ok, freeMap.Bits())
    {
      hide VolumeOk, Owns, InodesOk, CountsOk, LiveOk, FilesOf, SectorsOf, BitsOf, Table, HasRoom, Find, FreeSlot,
        OpenSectors, Succeeds, Entered, SlotEntered, Valid, Mounted, AddStores, ReachesAdd;
      ok, sector := CreateIn(dir, name, size, mem);
      CloseRoot(dir, mem);
    }

    /** dir_close of the root directory. */
    method CloseRoot(dir: Inode, mem: Memory)
      requires Valid() && dir in pins && dir.sector == ROOT_DIR_SECTOR
      modifies this`openInodes, this`pins, this`owner, this`live, inodes, dev, freeMap.elems
      ensures Valid() && V() == old(V()) && pins == old(pins) - multiset{dir}
    {
      hide VolumeOk, Owns, InodesOk, CountsOk, LiveOk, FilesOf, SectorsOf, BitsOf, Table;
      PinnedIsOpen(dir);
      InodeClose(dir, mem);
    }

    // ----- file.c: opening and closing -----

    /** file_open takes over a reference to `inode`. */
    method FileOpen(inode: Inode?, mem: Memory) returns (file: File?)
      requires Valid() && (inode != null ==> inode in pins && inode.sector >= 2)
      requires inode != null && inode.openCnt == 1 ==> !Orphan(inode)
      modifies this`openInodes, this`pins, this`files, this`owner, this`live, inodes, dev, freeMap.elems
      ensures Valid() && V() == old(V())
      ensures file != null <==> inode != null && mem.file
      ensures file == null ==> files == old(files)
      ensures file != null ==>
        && fresh(file) && file.inode == inode && file.pos == 0 && !file.denyWrite
        && files == old(files) + {file}
      ensures pins == if inode == null then old(pins) else old(pins) - multiset{inode}
    {
      hide VolumeOk, Owns, InodesOk, CountsOk, LiveOk, FilesOf, SectorsOf, BitsOf, Table;
      if inode == null {
        return null;
      }
      if !mem.file {
        InodeClose(inode, mem);
        return null;
      }
      PinnedIsOpen(inode);
      file := new File(inode);
      pins := pins - multiset{inode};
      files := files + {file};
      HandedOut(file);
    }

    /** A reference held by an operation becomes that of a new file. */
    twostate lemma HandedOut(new file: File)
      requires old(CountsOk()) && openInodes == old(openInodes) && unchanged(openInodes) && unchanged(old(files))
      requires file !in old(files) && files == old(files) + {file} && !file.denyWrite
      requires file.inode in old(pins) && file.inode.sector >= 2 && pins == old(pins) - multiset{file.inode}
      ensures CountsOk()
    {
      hide HandlesOf, DenyingOf, CountOk;
      forall n | n in openInodes
        ensures CountOk(n)
      {
        HandedOne(file, n);
      }
    }

    twostate lemma HandedOne(new file: File, n: Inode)
      requires old(CountOk(n)) && unchanged(n) && unchanged(old(files))
      requires file !in old(files) && files == old(files) + {file} && !file.denyWrite
      requires file.inode in old(pins) && pins == old(pins) - multiset{file.inode}
      ensures CountOk(n)
    {
      if n == file.inode {
        assert HandlesOf(files, n) == HandlesOf(old(files), n) + {file};
      } else {
        assert HandlesOf(files, n) == HandlesOf(old(files), n);
      }
      assert DenyingOf(files, n) == old(DenyingOf(files, n));
    }

    lemma NamedIsLive(j: nat)
      requires Mounted() && j < ROOT_ENTRIES && Tab()[j].Used?
      ensures Tab()[j].sector in live && Tab()[j].sector >= 2 && Tab()[j].sector in NamedSectors()
    {
      assert Tab()[j].sector in SectorsOf(Tab());
    }

    /** The inode that lookup finds under `name` can be opened. */
    ghost predicate InodeOpens(name: Name, mem: Memory)
      requires Mounted()
      reads this`openInodes, this`owner, this`live, dev, freeMap.elems, freeMapFile.inode
    {
      && Find(Tab(), name, mem.lookup).Some?
      && (mem.inode || SectorFound(Tab(), name, mem.lookup) in OpenSectors(openInodes))
    }

    lemma OpensNamed(name: Name, mem: Memory)
      requires Mounted() && InodeOpens(name, mem)
      ensures var s := SectorFound(Tab(), name, mem.lookup); s >= 2 && s in NamedSectors()
    {
      NamedIsLive(Find(Tab(), name, mem.lookup).value);
    }

    /** dir_lookup */
    method DirLookup(dir: Inode, name: Name, mem: Memory) returns (inode: Inode?)
      requires Valid() && dir in openInodes && dir.sector == ROOT_DIR_SECTOR
      modifies this`openInodes, this`inodes, this`pins, inodes
      ensures Valid() && fresh(inodes - old(inodes))
      ensures inode != null <==> old(InodeOpens(name, mem))
      ensures inode == null ==> pins == old(pins)
      ensures inode != null ==> pins == old(pins) + multiset{inode}
      ensures inode != null ==> inode.sector == SectorFound(old(Tab()), name, mem.lookup)
    {
      hide VolumeOk, Owns, InodesOk, CountsOk, LiveOk, FilesOf, SectorsOf, BitsOf, Table, SlotOf, OpenSectors, Find;
      OpenRoot(dir);
      inode := null;
      var ofs, e := Lookup(dir, name, mem.lookup);
      if ofs.Some? {
        NamedIsLive(ofs.value / ENTRY_SIZE);
        inode := InodeOpen(SlotOf(e).sector, mem.inode);
      }
    }

    /** filesys_open up to file_open. */
    method OpenNamed(name: Name, mem: Memory) returns (inode: Inode?)
      requires Valid()
      modifies this`openInodes, this`inodes, this`pins, this`owner, this`live, inodes, dev, freeMap.elems
      ensures Valid() && V() == old(V()) && fresh(inodes - old(inodes))
      ensures inode != null <==> RootOpens(old(openInodes), mem) && old(InodeOpens(name, mem))
      ensures inode == null ==> pins == old(pins)
      ensures inode != null ==> pins == old(pins) + multiset{inode}
      ensures inode != null ==> inode.sector == SectorFound(old(Tab()), name, mem.lookup)
      ensures inode != null ==> inode.sector >= 2 && !Orphan(inode)
    {
      hide VolumeOk, Owns, InodesOk, CountsOk, LiveOk, FilesOf, SectorsOf, BitsOf, Table, SlotOf, OpenSectors, Find,
        Valid, Mounted, RootOpens, InodeOpens;
      inode := null;
      IsMounted();
      if InodeOpens(name, mem) { OpensNamed(name, mem); }
      var dir := DirOpenRoot(mem);
      if dir != null {
        IsMounted();
        SameOpens(name, mem);
        inode := LookupAndClose(dir, name, mem);
      }
    }

    /** The part of filesys_open between opening the root directory and file_open. */
    method LookupAndClose(dir: Inode, name: Name, mem: Memory) returns (inode: Inode?)
      requires Valid() && dir in openInodes && dir.sector == ROOT_DIR_SECTOR && dir in pins
      modifies this`openInodes, this`inodes, this`pins, this`owner, this`live, inodes, dev, freeMap.elems
      ensures Valid() && V() == old(V()) && fresh(inodes - old(inodes))
      ensures inode != null <==> old(InodeOpens(name, mem))
      ensures pins == old(pins) - multiset{dir} + if inode == null then multiset{} else multiset{inode}
      ensures inode != null ==> inode.sector == SectorFound(old(Tab()), name, mem.lookup)
    {
      hide VolumeOk, Owns, InodesOk, CountsOk, LiveOk, FilesOf, SectorsOf, BitsOf, Table, SlotOf, OpenSectors, Find,
        Valid, Mounted, InodeOpens, SectorFound;
      inode := DirLookup(dir, name, mem);
      CloseRoot(dir, mem);
    }

    /** Opening the root directory makes no difference to whether a file's inode opens. */
    twostate lemma SameOpens(new name: Name, new mem: Memory)
      requires old(Mounted()) && Mounted() && V() == old(V())
      requires OpenSectors(openInodes) == OpenSectors(old(openInodes)) + {ROOT_DIR_SECTOR}
      ensures Tab() == old(Tab()) && (InodeOpens(name, mem) <==> old(InodeOpens(name, mem)))
      ensures InodeOpens(name, mem) ==>
        var s := SectorFound(Tab(), name, mem.lookup);
        s in OpenSectors(openInodes) <==> s in OpenSectors(old(openInodes))
    {
      hide VolumeOk, OpenSectors, Find;
      if Find(Tab(), name, mem.lookup).Some? {
        NamedIsLive(Find(Tab(), name, mem.lookup).value);
      }
    }

    /** filesys_open: a new file at position 0 on the inode that lookup finds.  Nothing else a
        user can see changes. */
    method Open(name: Name, mem: Memory) returns (file: File?)
      requires Valid() && AtRest()
      modifies this`openInodes, this`inodes, this`pins, this`files, this`owner, this`live, inodes, dev, freeMap.elems
      ensures Valid() && AtRest() && V() == old(V()) && fresh(inodes - old(inodes))
      ensures file != null <==> RootOpens(old(openInodes), mem) && old(InodeOpens(name, mem)) && mem.file
      ensures file == null ==> files == old(files)
      ensures file != null ==>
        && fresh(file) && files == old(files) + {file}
        && file.inode.sector == SectorFound(old(Tab()), name, mem.lookup) && file.pos == 0 && !file.denyWrite
    {
      hide VolumeOk, Owns, InodesOk, CountsOk, LiveOk, FilesOf, SectorsOf, BitsOf, Table, Find, OpenSectors,
        InodeOpens, Valid, Mounted, RootOpens, SectorFound, Orphan, Tab;
      IsMounted();
      var inode := OpenNamed(name, mem);
      IsMounted();
      file := FileOpen(inode, mem);
    }

    // ----- removing -----

    /** The open inodes stay right when the directory stops naming the file of `inode`. */
    twostate lemma UnnamedOne(inode: Inode, new sectors: set<nat>)
      requires old(InodesOk() && LiveOk(sectors)) && openInodes == old(openInodes) && live == old(live)
      requires |dev.sectors| == |old(dev.sectors)| && SameInodes(old(V()), dev.sectors)
      requires inode in openInodes && inode.sector >= 2 && inode.removed
      requires forall n :: n in openInodes && n != inode ==> n.removed == old(n.removed)
      ensures InodesOk() && LiveOk(sectors - {inode.sector})
    {
      forall n | n in openInodes
        ensures InodeOk(n) && RemovedOk(n, sectors - {inode.sector})
      {
        assert old(InodeOk(n)) && old(RemovedOk(n, sectors));
        if n != inode { SectorsDiffer(openInodes, n, inode); }
      }
      assert inode.sector in OpenSectors(openInodes);
    }

    /** dir_remove once the entry is found and its inode open: if the entry can be written it is
        erased and the inode marked. */
    method Erase(dir: Inode, ofs: nat, e: seq<byte>, inode: Inode, bounceOk: bool) returns (ok: bool)
      requires Valid() && IsRoot(dir) && |e| == ENTRY_SIZE && ofs % ENTRY_SIZE == 0 && ofs / ENTRY_SIZE < ROOT_ENTRIES
      requires Tab()[ofs / ENTRY_SIZE] == SlotOf(e) && SlotOf(e).Used?
      requires inode in openInodes && inode.sector == SlotOf(e).sector >= 2
      modifies dev, inode`removed
      ensures Valid() && ok == bounceOk
      ensures !ok ==> V() == old(V())
      ensures ok ==> Tab() == old(Tab())[ofs / ENTRY_SIZE := Free] && Orphan(inode) && inode.removed
      ensures ok ==> Files().contents == old(Files()).contents
      ensures |dev.sectors| == |old(dev.sectors)| && SameInodes(old(V()), dev.sectors)
    {
      hide VolumeOk, Owns, InodesOk, CountsOk, LiveOk, FilesOf, SectorsOf, TableOk, Table;
      ghost var t := Tab();
      ErasedTable(ofs / ENTRY_SIZE);
      var n := StoreEntry(dir, ofs, e[19 := 0], bounceOk);
      ok := n == ENTRY_SIZE;
      if ok {
        inode.removed := true;
        CountedOne(inode);
        UnnamedOne(inode, SectorsOf(t));
      } else {
        BytesChanged();
      }
    }

    lemma ListedInode(inode: Inode)
      requires Valid() && inode in openInodes
      ensures inode in inodes
    {
    }

    lemma ErasedTable(j: nat)
      requires Mounted() && j < ROOT_ENTRIES && Tab()[j].Used?
      ensures TableOk(Tab()[j := Free]) && SectorsOf(Tab()[j := Free]) <= live
      ensures SectorsOf(Tab()[j := Free]) == SectorsOf(Tab()) - {Tab()[j].sector}
    {
      hide Mounted, SectorsOf, Table, VolumeOk;
      TabOk();
      SectorsAfterStore(Tab(), j, Free);
    }

    /** The end of dir_remove, which gives the inode up again. */
    method EraseAndClose(dir: Inode, ofs: nat, e: seq<byte>, inode: Inode, mem: Memory) returns (ok: bool)
      requires Valid() && IsRoot(dir) && |e| == ENTRY_SIZE && ofs % ENTRY_SIZE == 0 && ofs / ENTRY_SIZE < ROOT_ENTRIES
      requires Tab()[ofs / ENTRY_SIZE] == SlotOf(e) && SlotOf(e).Used?
      requires inode in openInodes && inode.sector == SlotOf(e).sector >= 2
      requires inode in pins && inode != freeMapFile.inode
      modifies this`openInodes, this`pins, this`owner, this`live, inodes, dev, freeMap.elems
      ensures Valid() && pins == old(pins) - multiset{inode} && ok == mem.entry
      ensures !ok ==> V() == old(V())
      ensures ok ==> Tab() == old(Tab())[ofs / ENTRY_SIZE := Free]
      ensures ok ==> (Files().contents ==
        if old(inode.openCnt) == 1 then old(Files()).contents - {inode.sector} else old(Files()).contents)
      ensures
        if ok && old(inode.openCnt) == 1 then MarksReleased(old(V()), inode.sector, freeMap.Bits())
        else freeMap.Bits() == old(freeMap.Bits())
    {
      hide VolumeOk, Owns, InodesOk, CountsOk, LiveOk, FilesOf, SectorsOf, BitsOf, Table, SlotOf, TableOk, Mounted,
        Valid, MarksReleased, SameInodes;
      ListedInode(inode);
      IsMounted();
      NamedIsLive(ofs / ENTRY_SIZE);
      ghost var v := V();
      ok := Erase(dir, ofs, e, inode, mem.entry);
      ghost var v' := V();
      InodeClose(inode, mem);
      if MarksReleased(v', inode.sector, freeMap.Bits()) {
        ReleasesSame(v, v', inode.sector, freeMap.Bits());
      }
    }

    /** dir_remove.  The file stays if something else has it open. */
    method DirRemove(dir: Inode, name: Name, mem: Memory) returns (ok: bool)
      requires Valid() && dir in openInodes && dir.sector == ROOT_DIR_SECTOR && dir in pins
      modifies this`openInodes, this`inodes, this`pins, this`owner, this`live, inodes, dev, freeMap.elems
      ensures Valid() && pins == old(pins) && fresh(inodes - old(inodes))
      ensures ok <==> old(InodeOpens(name, mem)) && mem.entry
      ensures !ok ==> V() == old(V())
      ensures ok ==> Tab() == Erased(old(Tab()), name, mem.lookup)
      ensures ok ==>
        var s := SectorFound(old(Tab()), name, mem.lookup);
        Files().contents ==
          if s in OpenSectors(old(openInodes)) then old(Files()).contents else old(Files()).contents - {s}
      ensures
        if ok && SectorFound(old(Tab()), name, mem.lookup) !in OpenSectors(old(openInodes))
        then MarksReleased(old(V()), SectorFound(old(Tab()), name, mem.lookup), freeMap.Bits())
        else freeMap.Bits() == old(freeMap.Bits())
    {
      hide VolumeOk, Owns, InodesOk, CountsOk, LiveOk, FilesOf, SectorsOf, BitsOf, Table, SlotOf, OpenSectors,
        HandlesOf, TableOk, SameInodes, Without, Find;
      OpenRoot(dir);
      var ofs, e := Lookup(dir, name, mem.lookup);
      if ofs.None? {
        return false;
      }
      ok := RemoveFound(dir, ofs.value, e, mem);
    }

    /** dir_remove of an entry that was found. */
    method RemoveFound(dir: Inode, ofs: nat, e: seq<byte>, mem: Memory) returns (ok: bool)
      requires Valid() && dir in openInodes && dir.sector == ROOT_DIR_SECTOR && dir in pins
      requires |e| == ENTRY_SIZE && ofs % ENTRY_SIZE == 0 && ofs / ENTRY_SIZE < ROOT_ENTRIES
      requires Tab()[ofs / ENTRY_SIZE] == SlotOf(e) && SlotOf(e).Used?
      modifies this`openInodes, this`inodes, this`pins, this`owner, this`live, inodes, dev, freeMap.elems
      ensures Valid() && pins == old(pins) && fresh(inodes - old(inodes))
      ensures ok <==> (mem.inode || SlotOf(e).sector in OpenSectors(old(openInodes))) && mem.entry
      ensures !ok ==> V() == old(V())
      ensures ok ==> Tab() == old(Tab())[ofs / ENTRY_SIZE := Free]
      ensures ok ==>
        var s := SlotOf(e).sector;
        Files().contents ==
          if s in OpenSectors(old(openInodes)) then old(Files()).contents else old(Files()).contents - {s}
      ensures
        if ok && SlotOf(e).sector !in OpenSectors(old(openInodes))
        then MarksReleased(old(V()), SlotOf(e).sector, freeMap.Bits())
        else freeMap.Bits() == old(freeMap.Bits())
    {
      hide VolumeOk, Owns, InodesOk, CountsOk, LiveOk, FilesOf, SectorsOf, BitsOf, Table, SlotOf, OpenSectors,
        HandlesOf, TableOk, SameInodes, Without;
      NamedIsLive(ofs / ENTRY_SIZE);
      var inode := InodeOpen(SlotOf(e).sector, mem.inode);
      if inode == null {
        return false;
      }
      PinnedIsOpen(dir);
      OpenRoot(dir);
      ok := EraseAndClose(dir, ofs, e, inode, mem);
    }

    /** filesys_remove: the entry is gone at once; the file goes with it unless it is open, and then
        stays until it is closed. */
    method Remove(name: Name, mem: Memory) returns (ok: bool)
      requires Valid() && AtRest()
      modifies this`openInodes, this`inodes, this`pins, this`owner, this`live, inodes, dev, freeMap.elems
      ensures Valid() && AtRest() && fresh(inodes - old(inodes))
      ensures ok <==> RootOpens(old(openInodes), mem) && old(InodeOpens(name, mem)) && mem.entry
      ensures !ok ==> Files() == old(Files())
      ensures ok ==> Files().dir == Erased(old(Tab()), name, mem.lookup)
      ensures ok ==>
        var s := SectorFound(old(Tab()), name, mem.lookup);
        Files().contents ==
          if s in OpenSectors(old(openInodes)) then old(Files()).contents else old(Files()).contents - {s}
      ensures
        if ok && SectorFound(old(Tab()), name, mem.lookup) !in OpenSectors(old(openInodes))
        then MarksReleased(old(V()), SectorFound(old(Tab()), name, mem.lookup), freeMap.Bits())
        else freeMap.Bits() == old(freeMap.Bits())
    {
      hide VolumeOk, Owns, InodesOk, CountsOk, LiveOk, FilesOf, SectorsOf, BitsOf, Table, SlotOf, OpenSectors,
        Valid, Mounted, Find, InodeOpens, SectorFound, Erased;
      IsMounted();
      DirIs();
      var dir := DirOpenRoot(mem);
      if dir == null {
        return false;
      }
      IsMounted();
      SameOpens(name, mem);
      ok := RemoveAndClose(dir, name, mem);
      IsMounted();
      DirIs();
    }

    /** filesys_remove after opening the root directory. */
    method RemoveAndClose(dir: Inode, name: Name, mem: Memory) returns (ok: bool)
      requires Valid() && dir in openInodes && dir.sector == ROOT_DIR_SECTOR && dir in pins
      modifies this`openInodes, this`inodes, this`pins, this`owner, this`live, inodes, dev, freeMap.elems
      ensures Valid() && pins == old(pins) - multiset{dir} && fresh(inodes - old(inodes))
      ensures ok <==> old(InodeOpens(name, mem)) && mem.entry
      ensures !ok ==> V() == old(V())
      ensures ok ==> Tab() == Erased(old(Tab()), name, mem.lookup)
      ensures ok ==>
        var s := SectorFound(old(Tab()), name, mem.lookup);
        Files().contents ==
          if s in OpenSectors(old(openInodes)) then old(Files()).contents else old(Files()).contents - {s}
      ensures
        if ok && SectorFound(old(Tab()), name, mem.lookup) !in OpenSectors(old(openInodes))
        then MarksReleased(old(V()), SectorFound(old(Tab()), name, mem.lookup), freeMap.Bits())
        else freeMap.Bits() == old(freeMap.Bits())
    {
      hide VolumeOk, Owns, InodesOk, CountsOk, LiveOk, FilesOf, SectorsOf, BitsOf, Table, OpenSectors,
        Valid, Mounted, Find, InodeOpens, SectorFound, Erased;
      ok := DirRemove(dir, name, mem);
      CloseRoot(dir, mem);
    }

    // ----- file.c: denying writes -----

    /** What a file's inode is known to be. */
    lemma HandleIsOpen(f: File)
      requires Valid() && f in files
      ensures f.inode in openInodes && f.inode.sector >= 2 && f.inode != freeMapFile.inode
      ensures InodeOk(f.inode) && CountOk(f.inode) && RemovedOk(f.inode, NamedSectors())
      ensures f in HandlesOf(files, f.inode) && DistinctSectors(openInodes)
    {
      assert CountOk(f.inode);
    }

    /** At most as many files deny writes as have the inode open: the source's assertion. */
    lemma DenialsBounded(n: Inode)
      requires CountOk(n)
      ensures n.denyWriteCnt <= n.openCnt
    {
      SubsetSize(DenyingOf(files, n), HandlesOf(files, n));
    }

    /** The counts stay right when `f` starts or stops denying writes. */
    twostate lemma DenialChanged(f: File)
      requires old(CountsOk()) && openInodes == old(openInodes) && files == old(files) && f in files
      requires pins == old(pins)
      requires forall n :: n in openInodes ==> n.openCnt == old(n.openCnt)
      requires forall n :: n in openInodes && n != f.inode ==> n.denyWriteCnt == old(n.denyWriteCnt)
      requires forall g :: g in files && g != f ==> g.denyWrite == old(g.denyWrite)
      requires f.denyWrite != old(f.denyWrite)
      requires f.inode.denyWriteCnt == old(f.inode.denyWriteCnt) + (if f.denyWrite then 1 else -1)
      ensures CountsOk()
    {
      forall n | n in openInodes
        ensures CountOk(n)
      {
        assert old(CountOk(n));
        if n != f.inode {
          assert DenyingOf(files, n) == old(DenyingOf(files, n));
        } else if f.denyWrite {
          assert DenyingOf(files, n) == old(DenyingOf(files, n)) + {f};
        } else {
          assert DenyingOf(files, n) == old(DenyingOf(files, n)) - {f};
        }
      }
    }

    lemma FileInode(f: File)
      requires Valid() && f in files
      ensures f.inode in inodes
    {
      HandleIsOpen(f);
    }

    /** file_deny_write */
    method DenyWrite(f: File)
      requires Valid() && f in files
      modifies f`denyWrite, f.inode`denyWriteCnt
      ensures Valid() && V() == old(V()) && f.denyWrite
    {
      hide VolumeOk, Owns, InodesOk, CountsOk, LiveOk, FilesOf, SectorsOf, Table;
      HandleIsOpen(f);
      if !f.denyWrite {
        f.denyWrite := true;
        f.inode.denyWriteCnt := f.inode.denyWriteCnt + 1;
        DenialChanged(f);
        SameRemovals(NamedSectors());
        CountsBound(f.inode);
        assert f.inode.denyWriteCnt <= f.inode.openCnt;
      }
    }

    lemma CountsBound(n: Inode)
      requires CountsOk() && n in openInodes
      ensures n.denyWriteCnt <= n.openCnt
    {
      assert CountOk(n);
      DenialsBounded(n);
    }

    /** file_allow_write */
    method AllowWrite(f: File)
      requires Valid() && f in files
      modifies f`denyWrite, f.inode`denyWriteCnt
      ensures Valid() && V() == old(V()) && !f.denyWrite
    {
      hide VolumeOk, Owns, InodesOk, CountsOk, LiveOk, FilesOf, SectorsOf, Table;
      HandleIsOpen(f);
      if f.denyWrite {
        CountsBound(f.inode);
        DenyingCounted(f);
        assert 0 < f.inode.denyWriteCnt <= f.inode.openCnt;
        f.denyWrite := false;
        f.inode.denyWriteCnt := f.inode.denyWriteCnt - 1;
        DenialChanged(f);
        SameRemovals(NamedSectors());
      }
    }

    lemma DenyingCounted(f: File)
      requires CountsOk() && f in files && f.denyWrite
      ensures f.inode.denyWriteCnt > 0
    {
      assert CountOk(f.inode);
      assert f in DenyingOf(files, f.inode);
    }

    // ----- file.c: closing, reading and writing -----

    /** Some open file other than `f` is on the inode in `sector`. */
    ghost predicate OpenElsewhere(sector: nat, f: File?)
      reads this`files
    {
      exists g :: g in files && g != f && g.inode.sector == sector
    }

    /** The reference of a file that is going away becomes one held by the operation. */
    twostate lemma TakenBack(f: File)
      requires old(CountsOk()) && openInodes == old(openInodes) && unchanged(openInodes) && unchanged(old(files))
      requires f in old(files) && files == old(files) - {f} && !f.denyWrite
      requires pins == old(pins) + multiset{f.inode}
      ensures CountsOk()
    {
      forall n | n in openInodes
        ensures CountOk(n)
      {
        assert old(CountOk(n));
        assert HandlesOf(files, n) == HandlesOf(old(files), n) - (if n == f.inode then {f} else {});
        assert n == f.inode ==> f in HandlesOf(old(files), n);
        assert DenyingOf(files, n) == old(DenyingOf(files, n));
      }
    }

    /** A file is the only opener of its inode exactly when no other file is on its sector. */
    lemma OnlyOpener(f: File)
      requires Valid() && AtRest() && f in files
      ensures f.inode.openCnt == 1 <==> !OpenElsewhere(f.inode.sector, f)
    {
      hide InodesOk, CountsOk, LiveOk, Mounted, InodeOk, RemovedOk;
      HandleIsOpen(f);
      if OpenElsewhere(f.inode.sector, f) {
        var g :| g in files && g != f && g.inode.sector == f.inode.sector;
        HandleIsOpen(g);
        if g.inode != f.inode { SectorsDiffer(openInodes, g.inode, f.inode); }
        SubsetSize({f, g}, HandlesOf(files, f.inode));
      } else {
        assert HandlesOf(files, f.inode) == {f};
      }
    }

    /** file_close: the last close of a file without a directory entry takes its bytes with it;
        otherwise only the handle goes. */
    method Close(f: File, mem: Memory)
      requires Valid() && AtRest() && f in files
      modifies this`openInodes, this`pins, this`files, this`owner, this`live, inodes, dev, freeMap.elems, f`denyWrite
      ensures Valid() && AtRest() && files == old(files) - {f}
      ensures Files().dir == old(Files()).dir
      ensures Files().contents ==
        var s := f.inode.sector;
        if s in SectorsOf(old(Files()).dir) || old(OpenElsewhere(s, f)) then old(Files()).contents
        else old(Files()).contents - {s}
      ensures freeMap.Bits() == old(freeMap.Bits()) || MarksReleased(old(V()), f.inode.sector, freeMap.Bits())
      ensures f.inode.sector in SectorsOf(old(Files()).dir) || old(OpenElsewhere(f.inode.sector, f)) ==>
        freeMap.Bits() == old(freeMap.Bits())
    {
      hide VolumeOk, Owns, InodesOk, CountsOk, LiveOk, FilesOf, SectorsOf, BitsOf, Table;
      HandleIsOpen(f);
      OnlyOpener(f);
      DirIs();
      DropHandle(f);
      InodeClose(f.inode, mem);
      DirIs();
    }

    /** The handle goes; its reference to the inode is now in the hands of file_close. */
    method DropHandle(f: File)
      requires Valid() && f in files
      modifies this`files, this`pins, f`denyWrite, f.inode`denyWriteCnt
      ensures Valid() && V() == old(V()) && files == old(files) - {f} && pins == old(pins) + multiset{f.inode}
    {
      hide VolumeOk, Owns, InodesOk, CountsOk, LiveOk, FilesOf, SectorsOf, BitsOf, Table;
      HandleIsOpen(f);
      AllowWrite(f);
      label Allowed:
      files := files - {f};
      pins := pins + multiset{f.inode};
      TakenBack@Allowed(f);
    }

    /** file_reopen: another file at position 0 on the same inode, removed or not. */
    method Reopen(f: File, mem: Memory) returns (file: File?)
      requires Valid() && AtRest() && f in files
      modifies this`openInodes, this`pins, this`files, this`owner, this`live, inodes, dev, freeMap.elems
      ensures Valid() && AtRest() && V() == old(V())
      ensures file != null <==> mem.file
      ensures file == null ==> files == old(files)
      ensures file != null ==>
        fresh(file) && file.inode == f.inode && file.pos == 0 && !file.denyWrite && files == old(files) + {file}
    {
      hide VolumeOk, Owns, InodesOk, CountsOk, LiveOk, FilesOf, SectorsOf, BitsOf, Table;
      HandleIsOpen(f);
      OpenIsCounted(f.inode);
      InodeReopen(f.inode);
      file := FileOpen(f.inode, mem);
    }

    /** The bytes of an open file are those of its inode's extent. */
    lemma HandleContent(f: File)
      requires Valid() && f in files
      ensures f.inode.sector in live && f.inode.sector in Files().contents
      ensures Owns(dev.sectors, owner, f.inode.sector)
      ensures f.inode.start == StartOf(dev.sectors[f.inode.sector])
      ensures f.inode.length == LengthOf(dev.sectors[f.inode.sector])
      ensures Files().contents[f.inode.sector] == FileBytes(dev.sectors, f.inode.start, f.inode.length)
    {
      HandleIsOpen(f);
      assert Owns(dev.sectors, owner, f.inode.sector);
    }

    /** file_read_at */
    method ReadFileAt(f: File, size: int, offset: nat, bounceOk: bool) returns (data: seq<byte>)
      requires Valid() && f in files
      ensures f.inode.sector in Files().contents
      ensures var content := Files().contents[f.inode.sector];
        && |data| == TransferCnt(|content|, size, offset, bounceOk)
        && (data != [] ==> data == content[offset .. offset + |data|])
    {
      hide VolumeOk, InodesOk, CountsOk, LiveOk, FilesOf, TransferCnt;
      HandleContent(f);
      data := ReadAt(dev, f.inode, size, offset, bounceOk);
    }

    /** file_read */
    method ReadFile(f: File, size: int, bounceOk: bool) returns (data: seq<byte>)
      requires Valid() && f in files
      modifies f`pos
      ensures Valid() && f.inode.sector in Files().contents && Files() == old(Files())
      ensures var content := Files().contents[f.inode.sector];
        && |data| == TransferCnt(|content|, size, old(f.pos), bounceOk)
        && (data != [] ==> data == content[old(f.pos) .. old(f.pos) + |data|])
      ensures f.pos == old(f.pos) + |data|
    {
      hide VolumeOk, InodesOk, LiveOk, FilesOf, TransferCnt, CountsOk;
      data := ReadFileAt(f, size, f.pos, bounceOk);
      f.pos := f.pos + |data|;
      MovedOnly();
    }

    /** A position changed and nothing else. */
    twostate lemma MovedOnly()
      requires old(Valid()) && unchanged(this) && unchanged(openInodes) && unchanged(dev) && unchanged(freeMap.elems)
      requires unchanged(freeMapFile.inode) && forall f :: f in files ==> f.denyWrite == old(f.denyWrite)
      ensures Valid() && Files() == old(Files())
    {
      hide VolumeOk, FilesOf, InodeOk, RemovedOk, SectorsOf, OpenSectors, Mounted;
      forall n | n in openInodes
        ensures CountOk(n)
      {
        assert old(CountOk(n));
        assert DenyingOf(files, n) == old(DenyingOf(files, n));
      }
    }

    /** file_seek */
    method Seek(f: File, pos: nat)
      requires Valid() && f in files
      modifies f`pos
      ensures Valid() && Files() == old(Files()) && f.pos == pos
    {
      hide VolumeOk, InodesOk, LiveOk, FilesOf, CountsOk, Mounted, Valid;
      f.pos := pos;
      MovedOnly();
    }

    /** file_length */
    method Length(f: File) returns (n: nat)
      requires Valid() && f in files
      ensures f.inode.sector in Files().contents && n == |Files().contents[f.inode.sector]|
    {
      hide VolumeOk, InodesOk, LiveOk, FilesOf, CountsOk;
      HandleContent(f);
      n := f.inode.length;
    }

    /** file_write */
    method WriteFile(f: File, buffer: seq<byte>, size: int, bounceOk: bool) returns (n: nat)
      requires Valid() && f in files && size <= |buffer|
      modifies dev, f`pos
      ensures Valid() && f.inode.sector in old(Files()).contents && n <= |buffer|
      ensures var content := old(Files()).contents[f.inode.sector];
        && n == (if old(DenyingOf(files, f.inode)) != {} then 0 else TransferCnt(|content|, size, old(f.pos), bounceOk))
        && Files() == old(Files()).(contents :=
             old(Files()).contents[f.inode.sector := Overwrite(content, old(f.pos), buffer[..n])])
      ensures f.pos == old(f.pos) + n
    {
      hide VolumeOk, Owns, InodesOk, CountsOk, LiveOk, FilesOf, TransferCnt, Overwrite, Mounted, Valid;
      n := WriteFileAt(f, buffer, size, f.pos, bounceOk);
      label Written:
      f.pos := f.pos + n;
      MovedOnly@Written();
    }

    /** inode_write_at to a live user file. */
    method StoreBytes(n: Inode, buffer: seq<byte>, size: int, offset: nat, bounceOk: bool) returns (cnt: nat)
      requires Mounted() && n.sector in live && n.sector >= 2 && Owns(dev.sectors, owner, n.sector)
      requires n.start == StartOf(dev.sectors[n.sector]) && n.length == LengthOf(dev.sectors[n.sector])
      requires size <= |buffer|
      modifies dev
      ensures cnt == if n.denyWriteCnt != 0 then 0 else TransferCnt(n.length, size, offset, bounceOk)
      ensures cnt <= |buffer|
      ensures Mounted() && Tab() == old(Tab())
      ensures |dev.sectors| == |old(dev.sectors)| && SameInodes(old(V()), dev.sectors)
      ensures Files() == old(Files()).(contents := old(Files()).contents[n.sector :=
        Overwrite(old(FileBytes(dev.sectors, n.start, n.length)), offset, buffer[..cnt])])
    {
      hide VolumeOk, Owns, FilesOf, TransferCnt, Overwrite, Table, BitsOf, FileBytes, SameInodes;
      ghost var v := V();
      OwnedFits(v.d, owner, n.sector);
      cnt := WriteAt(dev, n, buffer, size, offset, bounceOk);
      WriteUserFile(v, dev.sectors, n.sector);
      MapInodeKept(v, dev.sectors);
    }

    lemma MapInodeKept(v: Volume, d': seq<Sector>)
      requires VolumeOk(v) && |d'| == |v.d| && SameInodes(v, d')
      ensures |v.d| >= 2 && d'[FREE_MAP_SECTOR] == v.d[FREE_MAP_SECTOR]
    {
    }

    lemma OwnedFits(d: seq<Sector>, owner: map<nat, nat>, s: nat)
      requires Owns(d, owner, s)
      ensures s < |d| && ExtentFits(d, StartOf(d[s]), LengthOf(d[s]))
    {
    }

    /** file_write_at: no bytes while any file denies writes to the inode, else the bytes that fit;
        only this file's content changes. */
    method WriteFileAt(f: File, buffer: seq<byte>, size: int, offset: nat, bounceOk: bool) returns (n: nat)
      requires Valid() && f in files && size <= |buffer|
      modifies dev
      ensures Valid() && f.inode.sector in old(Files()).contents && n <= |buffer|
      ensures var content := old(Files()).contents[f.inode.sector];
        && n == (if DenyingOf(files, f.inode) != {} then 0 else TransferCnt(|content|, size, offset, bounceOk))
        && Files() == old(Files()).(contents :=
             old(Files()).contents[f.inode.sector := Overwrite(content, offset, buffer[..n])])
    {
      hide VolumeOk, Owns, InodesOk, CountsOk, LiveOk, FilesOf, TransferCnt, Overwrite, Table, SectorsOf, SameInodes;
      HandleContent(f);
      HandleIsOpen(f);
      NoneDenies(f);
      n := StoreBytes(f.inode, buffer, size, offset, bounceOk);
      DiskChanged();
    }

    lemma NoneDenies(f: File)
      requires CountOk(f.inode)
      ensures f.inode.denyWriteCnt == 0 <==> DenyingOf(files, f.inode) == {}
    {
    }

    // ----- what is live -----

    /** Some open file is on the inode in `sector`. */
    ghost predicate OpenOn(sector: nat)
      reads this`files
    {
      exists f :: f in files && f.inode.sector == sector
    }

    /** Between operations, a file's inode is open exactly when some file is open on it. */
    lemma OpenIsHeld(sector: nat)
      requires Valid() && AtRest() && sector >= 2
      ensures sector in OpenSectors(openInodes) <==> OpenOn(sector)
    {
      hide Mounted, InodesOk, LiveOk;
      if sector in OpenSectors(openInodes) {
        var n :| n in openInodes && n.sector == sector;
        assert CountOk(n);
        assert n != freeMapFile.inode && |HandlesOf(files, n)| > 0;
        var f :| f in HandlesOf(files, n);
      }
      if OpenOn(sector) {
        var f :| f in files && f.inode.sector == sector;
        assert f.inode in openInodes;
      }
    }

    /** Between operations, exactly the files that have a directory entry or are open exist. */
    lemma LiveFiles(id: nat)
      requires Valid() && AtRest()
      ensures id in Files().contents <==> id in SectorsOf(Files().dir) || OpenOn(id)
      ensures id in SectorsOf(Files().dir) || OpenOn(id) ==> id >= 2
    {
      hide VolumeOk, Owns, InodesOk, SectorsOf, BitsOf, Table, CountsOk, OpenSectors;
      ContentsAre(id);
      DirIs();
      if id >= 2 {
        OpenIsHeld(id);
      } else {
        HeldNotSystem(id);
        NamedNotSystem(id);
      }
    }

    /** Some open file on the inode in `sector` denies writes. */
    ghost predicate DeniedOn(sector: nat)
      reads this`files, files
    {
      exists f :: f in files && f.inode.sector == sector && f.denyWrite
    }

    lemma DenialIs(f: File)
      requires Valid() && f in files
      ensures DenyingOf(files, f.inode) != {} <==> DeniedOn(f.inode.sector)
    {
      hide Mounted, CountsOk, LiveOk, InodesOk, InodeOk, CountOk, RemovedOk;
      if DeniedOn(f.inode.sector) {
        var g :| g in files && g.inode.sector == f.inode.sector && g.denyWrite;
        HandleIsOpen(f);
        HandleIsOpen(g);
        if g.inode != f.inode { SectorsDiffer(openInodes, g.inode, f.inode); }
        assert g in DenyingOf(files, f.inode);
      }
    }

    lemma VolumeIs()
      requires Valid()
      ensures VolumeOk(V()) && Files() == FilesOf(V()) && Files().dir == Table(V())
    {
    }

    /** With no file open, what is live has a directory entry. */
    lemma NoneOpen()
      requires Valid() && AtRest() && files == {}
      ensures live == {FREE_MAP_SECTOR, ROOT_DIR_SECTOR} + SectorsOf(Table(V()))
    {
      hide VolumeOk, FilesOf, SectorsOf, InodesOk, Table;
      forall s | s in OpenSectors(openInodes)
        ensures s < 2
      {
        if s >= 2 { OpenIsHeld(s); }
      }
    }

    lemma StoresEntry(name: Name, mem: Memory)
      requires Valid()
      ensures Files().dir == Tab()
      ensures AddStores(name, mem) <==> Stores(Tab(), name, mem.lookup, mem.search) && mem.entry
    {
    }

    lemma OpensFound(name: Name, mem: Memory)
      requires Valid()
      ensures Files().dir == Tab()
      ensures InodeOpens(name, mem) <==>
        && Find(Tab(), name, mem.lookup).Some?
        && (mem.inode || SectorFound(Tab(), name, mem.lookup) in OpenSectors(openInodes))
      ensures Find(Tab(), name, mem.lookup).Some? ==> SectorFound(Tab(), name, mem.lookup) >= 2
    {
      if Find(Tab(), name, mem.lookup).Some? { NamedIsLive(Find(Tab(), name, mem.lookup).value); }
    }

    /** Between operations the root directory is not open. */
    lemma RootIsClosed(mem: Memory)
      requires Valid() && AtRest()
      ensures RootOpens(openInodes, mem) <==> mem.rootInode && mem.rootDir
    {
      hide Mounted, LiveOk;
      if n :| n in openInodes && n.sector == ROOT_DIR_SECTOR {
        assert CountOk(n);
        assert n != freeMapFile.inode && HandlesOf(files, n) == {};
      }
    }

    /** The free map as part of the volume. */
    lemma MapSize()
      requires Valid()
      ensures freeMap.bitCnt == |dev.sectors| && |freeMap.elems[..]| == ElemCnt(|dev.sectors|)
      ensures freeMap.Bits() == Bits(V())
    {
    }

    lemma SizeIs()
      requires Valid()
      ensures |dev.sectors| == freeMap.bitCnt
    {
    }

    lemma UsersAreLive()
      requires Valid()
      ensures forall id :: id in Files().contents || id in SectorsOf(Files().dir) ==> id in live
    {
    }

    lemma ContentsAre(id: nat)
      requires Mounted()
      ensures id in Files().contents <==> id in live && id >= 2
    {
    }

    lemma HeldNotSystem(id: nat)
      requires CountsOk() && id < 2
      ensures !OpenOn(id)
    {
    }

    lemma NamedNotSystem(id: nat)
      requires Mounted() && id < 2
      ensures id !in NamedSectors()
    {
    }

    lemma NoDenial(n: Inode)
      requires CountsOk() && n in openInodes && n.sector < 2
      ensures n.denyWriteCnt == 0 && |HandlesOf(files, n)| == 0
    {
      assert HandlesOf(files, n) == {};
      assert DenyingOf(files, n) == {};
    }
  }
}
