/** What a formatted disk looks like: inode sectors, the extents they own, the stored free map
    and the root directory.  Everything here is about values; the objects that change them are
    in FileSystem. */
module Volumes {
  import opened Words
  import opened Bitmaps
  import opened Inodes
  import opened Directory
  import opened Sequences
  import opened StoredMaps
  import opened Allocations

  const INODE_MAGIC: uint32 := 0x494e4f44
  const FREE_MAP_SECTOR: nat := 0
  const ROOT_DIR_SECTOR: nat := 1

  // ----- struct inode_disk -----

  function Zeros(n: nat): (r: seq<byte>)
    ensures |r| == n
  {
    seq(n, i => 0)
  }

  function ZeroSector(): Sector { Zeros(SECTOR_SIZE) }

  function InodeSector(start: uint32, length: uint32): (r: Sector) {
    LittleEndian(start) + LittleEndian(length) + LittleEndian(INODE_MAGIC) + Zeros(500)
  }

  function StartOf(s: Sector): uint32 { FromLittleEndian(s[0], s[1], s[2], s[3]) }

  function LengthOf(s: Sector): uint32 { FromLittleEndian(s[4], s[5], s[6], s[7]) }

  lemma InodeSectorRoundTrip(start: uint32, length: uint32)
    ensures StartOf(InodeSector(start, length)) == start
    ensures LengthOf(InodeSector(start, length)) == length
  {
    var s := InodeSector(start, length);
    var a, b := LittleEndian(start), LittleEndian(length);
    assert s[0] == a[0] && s[1] == a[1] && s[2] == a[2] && s[3] == a[3];
    assert s[4] == b[0] && s[5] == b[1] && s[6] == b[2] && s[7] == b[3];
    LittleEndianRoundTrip(start);
    LittleEndianRoundTrip(length);
  }

  // ----- Ownership of sectors -----

  /** `s` holds an inode, and `s` and every sector of its extent belong to it.  Because
      `owner` is a function, no sector belongs to two inodes. */
  ghost predicate Owns(d: seq<Sector>, owner: map<nat, nat>, s: nat) {
    // Named, so that the verifier takes the conjunction as one assertion.
    var ok :=
      && s < |d|
      && s in owner && owner[s] == s
      && LengthOf(d[s]) <= OFF_MAX
      && ExtentFits(d, StartOf(d[s]), LengthOf(d[s]))
      && forall k :: StartOf(d[s]) <= k < StartOf(d[s]) + SectorCnt(LengthOf(d[s])) ==>
           k != s && k in owner && owner[k] == s;
    ok
  }

  /** The bytes of the file whose inode is in sector `s`. */
  ghost function Content(d: seq<Sector>, s: nat): (r: seq<byte>)
    requires s < |d| && ExtentFits(d, StartOf(d[s]), LengthOf(d[s]))
    ensures |r| == LengthOf(d[s])
  {
    FileBytes(d, StartOf(d[s]), LengthOf(d[s]))
  }

  /** The two disks agree on every sector that belongs to `s`. */
  ghost predicate Agree(d: seq<Sector>, d': seq<Sector>, owner: map<nat, nat>, s: nat) {
    && |d| == |d'|
    && forall k :: 0 <= k < |d| && k in owner && owner[k] == s ==> d[k] == d'[k]
  }

  lemma AgreeKeeps(d: seq<Sector>, d': seq<Sector>, owner: map<nat, nat>, s: nat)
    requires Owns(d, owner, s) && Agree(d, d', owner, s)
    ensures Owns(d', owner, s)
    ensures Content(d', s) == Content(d, s)
  {
    assert d'[s] == d[s];
    var a, b := Content(d', s), Content(d, s);
    forall i | 0 <= i < |a|
      ensures a[i] == b[i]
    {
      var k := StartOf(d[s]) + i / SECTOR_SIZE;
      assert k < StartOf(d[s]) + SectorCnt(LengthOf(d[s]));
      assert owner[k] == s;
    }
  }

  // ----- Volumes -----

  /** A disk, the free map's elements in memory, and who owns what. `live` holds the sectors of
      the inodes that a directory entry or an opener still refers to. */
  datatype Volume = Volume(d: seq<Sector>, elems: seq<uint32>, owner: map<nat, nat>, live: set<nat>)

  ghost function Bits(v: Volume): (r: seq<bool>)
    requires |v.elems| == ElemCnt(|v.d|)
    ensures |r| == |v.d|
  {
    BitsOf(v.elems, |v.d|)
  }

  /** Every live inode owns its sectors, and owned sectors are marked used.  (A marked sector
      need not be owned: a failed create leaks the extent it allocated.) */
  ghost predicate Owned(v: Volume) {
    // Named, so that the verifier takes the conjunction as one assertion.
    var ok :=
      && |v.elems| == ElemCnt(|v.d|)
      && (forall s :: s in v.live ==> Owns(v.d, v.owner, s))
      && (forall k :: k in v.owner ==> v.owner[k] in v.live)
      && AllMarked(Bits(v), v.owner.Keys);
    ok
  }

  ghost predicate AllMarked(bits: seq<bool>, ks: set<nat>) {
    forall k :: k in ks ==> k < |bits| && bits[k]
  }

  lemma MarkMore(bits: seq<bool>, ks: set<nat>, start: nat, cnt: nat)
    requires AllMarked(bits, ks) && start + cnt <= |bits|
    ensures AllMarked(SetRange(bits, start, cnt, true), ks)
    ensures AllAre(bits, start, cnt, false) ==> forall k :: start <= k < start + cnt ==> k !in ks
  {
  }

  lemma ClearOthers(bits: seq<bool>, ks: set<nat>, start: nat, cnt: nat)
    requires AllMarked(bits, ks) && start + cnt <= |bits|
    requires forall k :: start <= k < start + cnt ==> k !in ks
    ensures AllMarked(SetRange(bits, start, cnt, false), ks)
  {
  }

  /** The free map file and the root directory. */
  ghost predicate System(v: Volume) {
    // Named, so that the verifier takes the conjunction as one assertion.
    var ok :=
      && |v.d| < WORD
      && FREE_MAP_SECTOR in v.live && ROOT_DIR_SECTOR in v.live
      && Owns(v.d, v.owner, FREE_MAP_SECTOR) && Owns(v.d, v.owner, ROOT_DIR_SECTOR)
      && LengthOf(v.d[FREE_MAP_SECTOR]) == 4 * |v.elems|
      && LengthOf(v.d[ROOT_DIR_SECTOR]) == ENTRY_SIZE * ROOT_ENTRIES;
    ok
  }

  /** The marks in the free map file. */
  ghost function StoredBits(v: Volume): (r: seq<bool>)
    requires System(v) && |v.elems| == ElemCnt(|v.d|)
    ensures |r| == |v.d|
  {
    MapBits(Content(v.d, FREE_MAP_SECTOR), |v.d|)
  }

  /** The free map file holds every mark of the map in memory.  It may hold more of them: see
      FreeMapRelease and FreeMapAllocate in FileSystem. */
  ghost predicate MapCovered(v: Volume)
    requires System(v)
  {
    |v.elems| == ElemCnt(|v.d|) && Covers(StoredBits(v), Bits(v))
  }

  /** The free map file is up to date. */
  ghost predicate MapStored(v: Volume)
    requires VolumeOk(v)
  {
    StoredBits(v) == Bits(v)
  }

  ghost function Table(v: Volume): (t: seq<Slot>)
    requires System(v)
    ensures |t| == ROOT_ENTRIES
  {
    Slots(Content(v.d, ROOT_DIR_SECTOR))
  }

  ghost predicate DirOk(v: Volume)
    requires System(v)
  {
    && TableOk(Table(v))
    && SectorsOf(Table(v)) <= v.live
  }

  ghost predicate VolumeOk(v: Volume) {
    // Named, so that the verifier takes the conjunction as one assertion.
    var ok :=
      Owned(v) && System(v) && MapCovered(v) && DirOk(v);
    ok
  }

  lemma SystemSectors(v: Volume)
    requires VolumeOk(v)
    ensures |v.d| >= 2 && |v.d| < WORD && AllMarked(Bits(v), v.owner.Keys)
    ensures Owns(v.d, v.owner, FREE_MAP_SECTOR) && Owns(v.d, v.owner, ROOT_DIR_SECTOR)
  {
  }

  /** What users see of a volume: the directory, and the bytes of every live file. */
  datatype Files = Files(dir: seq<Slot>, contents: map<nat, seq<byte>>)

  ghost function FilesOf(v: Volume): Files
    requires VolumeOk(v)
  {
    Files(Table(v), map s | s in v.live && s >= 2 :: Content(v.d, s))
  }

  lemma FilesAre(v: Volume, files: Files)
    requires VolumeOk(v)
    requires files.dir == Table(v)
    requires forall s :: s in files.contents <==> s in v.live && s >= 2
    requires forall s :: s in files.contents ==> files.contents[s] == Content(v.d, s)
    ensures FilesOf(v) == files
  {
    hide Slots, BitsOf, WordsOf;
    assert FilesOf(v).contents == files.contents;
  }

  /** Distinct live inodes share no sector, and all their sectors are marked. */
  lemma SectorsDisjoint(v: Volume, s: nat, t: nat, k: nat)
    requires VolumeOk(v) && s in v.live && t in v.live && s != t
    requires k == s || StartOf(v.d[s]) <= k < StartOf(v.d[s]) + SectorCnt(LengthOf(v.d[s]))
    ensures k < |v.d| && Bits(v)[k]
    ensures k != t && !(StartOf(v.d[t]) <= k < StartOf(v.d[t]) + SectorCnt(LengthOf(v.d[t])))
  {
    assert Owns(v.d, v.owner, s) && Owns(v.d, v.owner, t);
    assert k in v.owner && v.owner[k] == s;
  }

  // ----- How volumes change -----

  /** Only the extent of `s` changed. */
  ghost predicate OnlyExtent(v: Volume, d': seq<Sector>, s: nat)
    requires Owns(v.d, v.owner, s)
  {
    SameOutside(v.d, d', StartOf(v.d[s]), SectorCnt(LengthOf(v.d[s])))
  }

  /** No inode sector of a live file changed. */
  ghost predicate SameInodes(v: Volume, d': seq<Sector>) {
    forall t :: t in v.live && t < |v.d| && t < |d'| ==> d'[t] == v.d[t]
  }

  lemma OthersAgree(v: Volume, d': seq<Sector>, s: nat)
    requires Owned(v) && s in v.live && Owns(v.d, v.owner, s) && OnlyExtent(v, d', s)
    ensures d'[s] == v.d[s] && Owns(d', v.owner, s) && SameInodes(v, d')
    ensures forall t :: t in v.live && t != s ==>
      Owns(v.d, v.owner, t) && Owns(d', v.owner, t) && Content(d', t) == Content(v.d, t)
  {
    assert s in v.owner && v.owner[s] == s;
    forall t | t in v.live && t != s
      ensures Owns(v.d, v.owner, t) && Owns(d', v.owner, t) && Content(d', t) == Content(v.d, t)
    {
      assert Owns(v.d, v.owner, t);
      assert Agree(v.d, d', v.owner, t);
      AgreeKeeps(v.d, d', v.owner, t);
    }
  }

  lemma RewriteOwned(v: Volume, d': seq<Sector>, s: nat)
    requires Owned(v) && s in v.live && Owns(v.d, v.owner, s) && OnlyExtent(v, d', s)
    ensures Owned(v.(d := d'))
  {
    OthersAgree(v, d', s);
    assert Bits(v.(d := d')) == Bits(v);
  }

  /** Writing through one file changes that file's bytes and nothing else a user can see. */
  lemma WriteUserFile(v: Volume, d': seq<Sector>, s: nat)
    requires VolumeOk(v) && s in v.live && s >= 2
    requires Owns(v.d, v.owner, s) && OnlyExtent(v, d', s)
    ensures d'[s] == v.d[s] && Owns(d', v.owner, s) && VolumeOk(v.(d := d'))
    ensures SameInodes(v, d') && Table(v.(d := d')) == Table(v)
    ensures FilesOf(v.(d := d')) == FilesOf(v).(contents := FilesOf(v).contents[s := Content(d', s)])
  {
    hide Slots, BitsOf, WordsOf, TableOk;
    var v' := v.(d := d');
    OthersAgree(v, d', s);
    RewriteOwned(v, d', s);
    assert System(v') && MapCovered(v') && Table(v') == Table(v);
    FilesAre(v', FilesOf(v).(contents := FilesOf(v).contents[s := Content(d', s)]));
  }

  /** Rewriting the free map file touches neither inodes nor the directory. */
  lemma MapRewritten(v: Volume, d': seq<Sector>, elems': seq<uint32>)
    requires VolumeOk(v)
    requires |elems'| == |v.elems| && OnlyExtent(v, d', FREE_MAP_SECTOR)
    ensures d'[FREE_MAP_SECTOR] == v.d[FREE_MAP_SECTOR]
    ensures System(v.(d := d', elems := elems')) && DirOk(v.(d := d', elems := elems'))
    ensures SameInodes(v, d') && Table(v.(d := d', elems := elems')) == Table(v)
  {
    hide BitsOf, Slots, TableOk;
    OthersAgree(v, d', FREE_MAP_SECTOR);
  }

  /** Other marks in memory, and a free map file that covers them. */
  lemma RewriteMap(v: Volume, d': seq<Sector>, elems': seq<uint32>)
    requires VolumeOk(v)
    requires |elems'| == |v.elems| && OnlyExtent(v, d', FREE_MAP_SECTOR)
    requires AllMarked(BitsOf(elems', |v.d|), v.owner.Keys)
    requires System(v.(d := d', elems := elems')) && MapCovered(v.(d := d', elems := elems'))
    ensures VolumeOk(v.(d := d', elems := elems'))
    ensures FilesOf(v.(d := d', elems := elems')) == FilesOf(v)
    ensures SameInodes(v, d')
  {
    hide BitsOf, Slots, TableOk, MapCovered, Owns, SectorsOf, Table;
    OthersAgree(v, d', FREE_MAP_SECTOR);
    MapRewritten(v, d', elems');
    MarksChanged(v, d', elems');
    FilesAre(v.(d := d', elems := elems'), FilesOf(v));
  }

  lemma MarksChanged(v: Volume, d': seq<Sector>, elems': seq<uint32>)
    requires VolumeOk(v)
    requires |elems'| == |v.elems| && OnlyExtent(v, d', FREE_MAP_SECTOR)
    requires AllMarked(BitsOf(elems', |v.d|), v.owner.Keys)
    ensures Owned(v.(d := d', elems := elems'))
  {
    hide BitsOf, AllMarked, Covers, Slots, WordsOf, Content;
    RewriteOwned(v, d', FREE_MAP_SECTOR);
  }

  /** Reading the free map file back, as mounting does, keeps the volume well formed: at worst
      sectors that nobody owns stay marked. */
  lemma ReloadMap(v: Volume, elems': seq<uint32>)
    requires VolumeOk(v) && |elems'| == |v.elems| && BitsOf(elems', |v.d|) == StoredBits(v)
    ensures VolumeOk(v.(elems := elems')) && MapStored(v.(elems := elems'))
    ensures FilesOf(v.(elems := elems')) == FilesOf(v) && Table(v.(elems := elems')) == Table(v)
  {
    hide BitsOf, Slots, TableOk, WordsOf, Owns, SectorsOf;
    var v' := v.(elems := elems');
    assert Owned(v') && System(v') && DirOk(v') && MapCovered(v');
    FilesAre(v', FilesOf(v));
  }

  /** Rewriting the root directory. */
  lemma RewriteDir(v: Volume, d': seq<Sector>)
    requires VolumeOk(v)
    requires OnlyExtent(v, d', ROOT_DIR_SECTOR)
    requires d'[ROOT_DIR_SECTOR] == v.d[ROOT_DIR_SECTOR]
    requires var t' := Slots(Content(d', ROOT_DIR_SECTOR)); TableOk(t') && SectorsOf(t') <= v.live
    ensures VolumeOk(v.(d := d')) && SameInodes(v, d')
    ensures FilesOf(v.(d := d')) == FilesOf(v).(dir := Slots(Content(d', ROOT_DIR_SECTOR)))
  {
    OthersAgree(v, d', ROOT_DIR_SECTOR);
    RewriteOwned(v, d', ROOT_DIR_SECTOR);
    FilesAre(v.(d := d'), FilesOf(v).(dir := Slots(Content(d', ROOT_DIR_SECTOR))));
  }

  /** The sectors of an inode that was just written belong to nobody else. */
  ghost predicate Unowned(v: Volume, k: nat) { k !in v.owner }

  lemma UnownedAgree(v: Volume, k: nat, data: Sector, t: nat)
    requires Owned(v) && k < |v.d| && Unowned(v, k) && t in v.live
    ensures Owns(v.d, v.owner, t)
    ensures Owns(v.d[k := data], v.owner, t) && Content(v.d[k := data], t) == Content(v.d, t)
  {
    assert Owns(v.d, v.owner, t);
    assert Agree(v.d, v.d[k := data], v.owner, t);
    AgreeKeeps(v.d, v.d[k := data], v.owner, t);
  }

  /** A sector that belongs to nobody may be overwritten. */
  lemma WriteUnowned(v: Volume, k: nat, data: Sector)
    requires VolumeOk(v) && k < |v.d| && Unowned(v, k)
    ensures VolumeOk(v.(d := v.d[k := data]))
    ensures FilesOf(v.(d := v.d[k := data])) == FilesOf(v)
    ensures SameInodes(v, v.d[k := data]) && Table(v.(d := v.d[k := data])) == Table(v)
  {
    hide Slots, BitsOf, WordsOf, TableOk;
    var v' := v.(d := v.d[k := data]);
    forall t | t in v.live
      ensures Owns(v.d, v.owner, t) && Owns(v'.d, v.owner, t) && Content(v'.d, t) == Content(v.d, t)
    {
      UnownedAgree(v, k, data, t);
    }
    assert Bits(v') == Bits(v);
    assert System(v') && MapCovered(v') && Table(v') == Table(v);
    FilesAre(v', FilesOf(v));
  }

  /** A fresh inode whose sectors are all zero holds a file of zeros. */
  lemma ZeroContent(d: seq<Sector>, s: nat)
    requires s < |d| && ExtentFits(d, StartOf(d[s]), LengthOf(d[s]))
    requires forall k :: StartOf(d[s]) <= k < StartOf(d[s]) + SectorCnt(LengthOf(d[s])) ==> d[k] == ZeroSector()
    ensures Content(d, s) == Zeros(LengthOf(d[s]))
  {
    var a, b := Content(d, s), Zeros(LengthOf(d[s]));
    forall i | 0 <= i < |a|
      ensures a[i] == b[i]
    {
      var k := StartOf(d[s]) + i / SECTOR_SIZE;
      assert k < StartOf(d[s]) + SectorCnt(LengthOf(d[s]));
      assert d[k] == ZeroSector();
    }
  }

  ghost function AdoptOwner(owner: map<nat, nat>, s: nat, start: nat, cnt: nat): map<nat, nat> {
    map k | k in owner.Keys + Range(start, cnt) + {s} ::
      if k == s || start <= k < start + cnt then s else owner[k]
  }

  /** An inode in sector `s` that is complete on disk, with marked sectors nobody owns. */
  ghost predicate Adoptable(v: Volume, s: nat)
    requires |v.elems| == ElemCnt(|v.d|)
  {
    // Named, so that the verifier takes the conjunction as one assertion.
    var ok :=
      && 2 <= s < |v.d| && Unowned(v, s) && Bits(v)[s]
      && LengthOf(v.d[s]) <= OFF_MAX && ExtentFits(v.d, StartOf(v.d[s]), LengthOf(v.d[s]))
      && forall k :: StartOf(v.d[s]) <= k < StartOf(v.d[s]) + SectorCnt(LengthOf(v.d[s])) ==>
           k != s && Unowned(v, k) && Bits(v)[k];
    ok
  }

  /** An inode just written over a cleared extent can be adopted, and its file is all zeros. */
  lemma FreshInode(v: Volume, s: nat, start: uint32, length: nat)
    requires |v.elems| == ElemCnt(|v.d|) && length <= OFF_MAX
    requires 2 <= s < |v.d| && Unowned(v, s) && Bits(v)[s] && v.d[s] == InodeSector(start, length)
    requires start + SectorCnt(length) <= |v.d|
    requires forall k :: start <= k < start + SectorCnt(length) ==>
      k != s && Unowned(v, k) && Bits(v)[k] && v.d[k] == ZeroSector()
    ensures Adoptable(v, s) && StartOf(v.d[s]) == start && LengthOf(v.d[s]) == length
    ensures Content(v.d, s) == Zeros(length)
  {
    InodeSectorRoundTrip(start, length);
    ZeroContent(v.d, s);
  }

  lemma AdoptableSector(v: Volume, s: nat)
    requires |v.elems| == ElemCnt(|v.d|) && Adoptable(v, s)
    ensures 2 <= s < |v.d| && Unowned(v, s) && Bits(v)[s]
    ensures ExtentFits(v.d, StartOf(v.d[s]), LengthOf(v.d[s]))
  {
  }

  ghost function Adopted(v: Volume, s: nat): Volume
    requires s < |v.d|
  {
    v.(owner := AdoptOwner(v.owner, s, StartOf(v.d[s]), SectorCnt(LengthOf(v.d[s]))), live := v.live + {s})
  }

  lemma AdoptKeeps(v: Volume, s: nat, t: nat)
    requires Owned(v) && Adoptable(v, s) && t in v.live
    ensures t != s && Owns(v.d, v.owner, t) && Owns(v.d, Adopted(v, s).owner, t)
  {
    assert Owns(v.d, v.owner, t);
  }

  lemma AdoptSelf(v: Volume, s: nat)
    requires |v.elems| == ElemCnt(|v.d|) && Adoptable(v, s)
    ensures Owns(v.d, Adopted(v, s).owner, s)
  {
  }

  lemma AdoptOwned(v: Volume, s: nat)
    requires Owned(v) && Adoptable(v, s)
    ensures Owned(Adopted(v, s))
  {
    hide Owns, BitsOf;
    var v' := Adopted(v, s);
    forall t | t in v.live
      ensures Owns(v.d, v'.owner, t)
    {
      AdoptKeeps(v, s, t);
    }
    AdoptSelf(v, s);
    assert Bits(v') == Bits(v);
  }

  lemma AdoptOk(v: Volume, s: nat)
    requires VolumeOk(v) && Adoptable(v, s)
    ensures s !in v.live && VolumeOk(Adopted(v, s)) && Table(Adopted(v, s)) == Table(v)
  {
    AdoptOwned(v, s);
    if s in v.live { AdoptKeeps(v, s, s); }
    AdoptKeeps(v, s, FREE_MAP_SECTOR);
    AdoptKeeps(v, s, ROOT_DIR_SECTOR);
  }

  /** Such an inode becomes live: one file more, and no other change. */
  lemma {:induction false} AdoptInode(v: Volume, s: nat)
    requires VolumeOk(v) && Adoptable(v, s)
    ensures s !in v.live && VolumeOk(Adopted(v, s)) && Table(Adopted(v, s)) == Table(v)
    ensures FilesOf(Adopted(v, s)) == FilesOf(v).(contents := FilesOf(v).contents[s := Content(v.d, s)])
  {
    hide BitsOf, Slots, WordsOf, TableOk, Owned, System, MapCovered, DirOk, Content;
    AdoptOk(v, s);
    FilesAre(Adopted(v, s), FilesOf(v).(contents := FilesOf(v).contents[s := Content(v.d, s)]));
  }

  /** An entry for an adopted inode keeps the table well formed. */
  lemma AdoptedEntry(v: Volume, s: nat, j: nat, name: Name)
    requires VolumeOk(v) && Adoptable(v, s) && j < ROOT_ENTRIES
    requires IsCString(name) && NameFits(name)
    ensures var t := Table(v)[j := Used(name, s)];
      && TableOk(t) && SectorsOf(t) == SectorsOf(Table(v)) - SectorIn(Table(v)[j]) + {s}
      && SectorIn(Table(v)[j]) !! SectorsOf(t) && SectorIn(Table(v)[j]) <= SectorsOf(Table(v)) <= v.live && s !in v.live
  {
    hide VolumeOk, Adoptable, Table, SectorsOf, TableOk;
    TableIs(v);
    AdoptOk(v, s);
    AdoptableSector(v, s);
    StoreKeepsTable(Table(v), j, name, s);
    SectorsAfterStore(Table(v), j, Used(name, s));
    SlotListed(Table(v), j);
  }

  lemma TableIs(v: Volume)
    requires VolumeOk(v)
    ensures System(v) && TableOk(Table(v)) && SectorsOf(Table(v)) <= v.live && |v.elems| == ElemCnt(|v.d|)
  {
  }

  lemma SlotListed(t: seq<Slot>, j: nat)
    requires j < |t|
    ensures SectorIn(t[j]) <= SectorsOf(t)
  {
  }

  ghost function DropOwner(owner: map<nat, nat>, s: nat): map<nat, nat> {
    map k | k in owner && owner[k] != s :: owner[k]
  }

  ghost function Dropped(v: Volume, s: nat): Volume {
    v.(owner := DropOwner(v.owner, s), live := v.live - {s})
  }

  lemma DropKeeps(v: Volume, s: nat, t: nat)
    requires Owned(v) && t in v.live && t != s
    ensures Owns(v.d, v.owner, t) && Owns(v.d, DropOwner(v.owner, s), t)
  {
    assert Owns(v.d, v.owner, t);
  }

  lemma DropOwned(v: Volume, s: nat)
    requires Owned(v) && s in v.live
    ensures Owned(Dropped(v, s))
  {
    hide Owns;
    forall t | t in v.live && t != s
      ensures Owns(v.d, DropOwner(v.owner, s), t)
    {
      DropKeeps(v, s, t);
    }
    assert Bits(Dropped(v, s)) == Bits(v);
  }

  /** An inode that no entry names stops being live: its file is gone, no other is touched, and
      its sectors, all still marked, belong to nobody. */
  lemma DropInode(v: Volume, s: nat)
    requires VolumeOk(v) && s in v.live && s >= 2 && s !in SectorsOf(Table(v))
    ensures VolumeOk(Dropped(v, s))
    ensures FilesOf(Dropped(v, s)) == FilesOf(v).(contents := FilesOf(v).contents - {s})
    ensures Table(Dropped(v, s)) == Table(v)
  {
    var v' := Dropped(v, s);
    DropOwned(v, s);
    DropKeeps(v, s, FREE_MAP_SECTOR);
    DropKeeps(v, s, ROOT_DIR_SECTOR);
    assert System(v') && MapCovered(v') && Table(v') == Table(v);
    FilesAre(v', FilesOf(v).(contents := FilesOf(v).contents - {s}));
  }

  /** An inode sector and an extent apart from it, all marked and belonging to nobody. */
  ghost predicate Releasable(bits: seq<bool>, owner: map<nat, nat>, s: nat, start: nat, cnt: nat) {
    // Named, so that the verifier takes the conjunction as one assertion.
    var ok :=
      && s < |bits| && bits[s] && s !in owner
      && start + cnt <= |bits| && AllAre(bits, start, cnt, true)
      && forall k :: start <= k < start + cnt ==> k != s && k !in owner;
    ok
  }

  /** They can be released one after the other. */
  lemma ReleasableParts(bits: seq<bool>, owner: map<nat, nat>, s: nat, start: nat, cnt: nat)
    requires Releasable(bits, owner, s, start, cnt)
    ensures s + 1 <= |bits| && AllAre(bits, s, 1, true) && forall k :: s <= k < s + 1 ==> k !in owner
    ensures start + cnt <= |bits| && AllAre(SetRange(bits, s, 1, false), start, cnt, true)
    ensures forall k :: start <= k < start + cnt ==> k !in owner
  {
  }

  /** The sectors of a dropped inode may be released. */
  lemma DroppedExtent(v: Volume, s: nat)
    requires VolumeOk(v) && s in v.live
    ensures s < |v.d|
    ensures Releasable(Bits(v), DropOwner(v.owner, s), s, StartOf(v.d[s]), SectorCnt(LengthOf(v.d[s])))
  {
    assert Owns(v.d, v.owner, s);
  }

  // ----- The free map over an operation -----

  /** filesys_create takes the first free sector `s` for the inode and then the first run that is
      long enough, at `start`, for its bytes. */
  ghost predicate Takes(bits: seq<bool>, size: nat, s: nat, start: nat) {
    && IsFirstRun(bits, 0, 1, false, s)
    && IsFirstRun(SetRange(bits, s, 1, true), 0, SectorCnt(size), false, start)
  }

  /** There is a free sector for an inode and, besides it, room for its bytes. */
  ghost predicate HasRoom(bits: seq<bool>, size: nat) {
    exists s: nat, start: nat :: Takes(bits, size, s, start)
  }

  /** The disk lets filesys_create allocate its sectors: there is room, and the free map can be
      written both times. */
  ghost predicate RoomOn(v: Volume, size: nat, mem: Memory)
    requires |v.elems| == ElemCnt(|v.d|)
  {
    && HasRoom(Bits(v), size)
    && Succeeds(|v.d|, mem.inodeMap) && Succeeds(|v.d|, mem.extentMap)
  }

  /** The marks that filesys_create leaves.  One that gives up before dir_add leaves none; one
      that dir_add refuses loses its extent. */
  ghost predicate MarksCreated(bits: seq<bool>, size: nat, reached: bool, ok: bool, bits': seq<bool>) {
    if !reached then bits' == bits
    else exists s: nat, start: nat ::
      && Takes(bits, size, s, start)
      && bits' == SetRange(if ok then SetRange(bits, s, 1, true) else bits, start, SectorCnt(size), true)
  }

  /** The marks once the inode in sector `s` and its extent are released. */
  ghost predicate MarksReleased(v: Volume, s: nat, bits': seq<bool>) {
    && |v.elems| == ElemCnt(|v.d|) && s < |v.d|
    && StartOf(v.d[s]) + SectorCnt(LengthOf(v.d[s])) <= |v.d|
    && bits' == SetRange(SetRange(Bits(v), s, 1, false), StartOf(v.d[s]), SectorCnt(LengthOf(v.d[s])), false)
  }

  /** Writing to a file or the directory does not change what releasing an inode would free. */
  lemma ReleasesSame(v: Volume, v': Volume, s: nat, bits: seq<bool>)
    requires v'.elems == v.elems && |v'.d| == |v.d| && SameInodes(v, v'.d) && s in v.live
    requires MarksReleased(v', s, bits)
    ensures MarksReleased(v, s, bits)
  {
  }

  lemma FirstRunIs(bits: seq<bool>, cnt: nat, i: nat, j: nat)
    requires IsFirstRun(bits, 0, cnt, false, i) && IsFirstRun(bits, 0, cnt, false, j)
    ensures i == j
  {
  }

  lemma RunHasFirst(bits: seq<bool>, start: nat, cnt: nat, value: bool)
    requires HasRun(bits, start, cnt, value)
    ensures exists r: nat :: IsFirstRun(bits, start, cnt, value, r)
  {
    var i: nat :| start <= i && i + cnt <= |bits| && AllAre(bits, i, cnt, value);
    var r := start;
    while !AllAre(bits, r, cnt, value)
      invariant start <= r <= i
      invariant forall k :: start <= k < r ==> !AllAre(bits, k, cnt, value)
      decreases i - r
    {
      r := r + 1;
    }
    assert IsFirstRun(bits, start, cnt, value, r);
  }

  /** Room, as the two scans find it. */
  lemma RoomIs(bits: seq<bool>, size: nat, r: Option<nat>)
    requires ScanResult(bits, 0, 1, false, r)
    ensures HasRoom(bits, size) <==> r.Some? && HasRun(SetRange(bits, r.value, 1, true), 0, SectorCnt(size), false)
  {
    if HasRoom(bits, size) {
      var s: nat, start: nat :| Takes(bits, size, s, start);
      assert AllAre(bits, s, 1, false);
      FirstRunIs(bits, 1, s, r.value);
    }
    if r.Some? && HasRun(SetRange(bits, r.value, 1, true), 0, SectorCnt(size), false) {
      RunHasFirst(SetRange(bits, r.value, 1, true), 0, SectorCnt(size), false);
      var start: nat :| IsFirstRun(SetRange(bits, r.value, 1, true), 0, SectorCnt(size), false, start);
      assert Takes(bits, size, r.value, start);
    }
  }

  /** A create that dir_add refuses gives the inode's sector back but not the extent. */
  lemma MarksAfter(bits: seq<bool>, size: nat, s: nat, start: nat, ok: bool)
    requires Takes(bits, size, s, start)
    ensures
      var taken := SetRange(SetRange(bits, s, 1, true), start, SectorCnt(size), true);
      MarksCreated(bits, size, true, ok, if ok then taken else SetRange(taken, s, 1, false))
  {
    var cnt := SectorCnt(size);
    var marked := SetRange(bits, s, 1, true);
    var taken := SetRange(marked, start, cnt, true);
    assert AllAre(bits, s, 1, false) && AllAre(marked, start, cnt, false);
    assert marked[s];
    assert SetRange(taken, s, 1, false) == SetRange(bits, start, cnt, true);
  }
}
