/** The directory file (src/filesys/directory.c): fixed-size entries, and the table of names
    that they hold. */
module Directory {
  import opened Words
  import opened Inodes

  const NAME_MAX: nat := 14
  const ENTRY_SIZE: int := 20
  const ROOT_ENTRIES: nat := 16

  /** A file name as a C string: the bytes before the terminator. */
  type Name = seq<byte>

  /** The test dir_add makes before it looks for a slot. */
  predicate NameFits(name: Name) { name != [] && |name| <= NAME_MAX }

  datatype Slot = Free | Used(name: Name, sector: nat)

  /** struct dir_entry: sector number, name, in_use. */
  function SlotOf(e: seq<byte>): (r: Slot)
    requires |e| == ENTRY_SIZE
  {
    if e[19] == 0 then Free
    else Used(CString(e[4..19]), FromLittleEndian(e[0], e[1], e[2], e[3]))
  }

  function Slots(content: seq<byte>): (r: seq<Slot>)
    ensures |r| == |content| / ENTRY_SIZE
  {
    seq(|content| / ENTRY_SIZE, j requires 0 <= j < |content| / ENTRY_SIZE =>
      SlotOf(content[ENTRY_SIZE * j .. ENTRY_SIZE * j + ENTRY_SIZE]))
  }

  /** The entry dir_add stores; strlcpy leaves the bytes after the terminator as they were. */
  function NewEntry(e: seq<byte>, name: Name, sector: uint32): (r: seq<byte>)
    requires |e| == ENTRY_SIZE && |name| <= NAME_MAX
    ensures |r| == ENTRY_SIZE
  {
    LittleEndian(sector) + name + [0] + e[5 + |name|..19] + [1]
  }

  lemma NewEntrySlot(e: seq<byte>, name: Name, sector: uint32)
    requires |e| == ENTRY_SIZE && |name| <= NAME_MAX && IsCString(name)
    ensures SlotOf(NewEntry(e, name, sector)) == Used(name, sector)
  {
    var n := NewEntry(e, name, sector);
    var rest := e[5 + |name|..19];
    assert n[4..19] == name + [0] + rest;
    CStringOf(name, rest);
    LittleEndianRoundTrip(sector);
    var b := LittleEndian(sector);
    assert n[0] == b[0] && n[1] == b[1] && n[2] == b[2] && n[3] == b[3];
  }

  /** Storing one entry changes one slot of the table. */
  lemma StoreSlot(content: seq<byte>, j: nat, e: seq<byte>)
    requires |content| % ENTRY_SIZE == 0 && ENTRY_SIZE * j + ENTRY_SIZE <= |content|
    requires |e| == ENTRY_SIZE
    ensures Slots(Overwrite(content, ENTRY_SIZE * j, e)) == Slots(content)[j := SlotOf(e)]
  {
    var c' := Overwrite(content, ENTRY_SIZE * j, e);
    forall i | 0 <= i < |content| / ENTRY_SIZE
      ensures c'[ENTRY_SIZE * i .. ENTRY_SIZE * i + ENTRY_SIZE]
           == if i == j then e else content[ENTRY_SIZE * i .. ENTRY_SIZE * i + ENTRY_SIZE]
    {
    }
  }

  // ----- The directory as a table of slots -----

  /** Names fit, and no two slots have the same inode.  Two slots may have the same name: see
      NameTables for when that comes about. */
  ghost predicate TableOk(t: seq<Slot>) {
    && (forall j :: 0 <= j < |t| && t[j].Used? ==> IsCString(t[j].name) && NameFits(t[j].name) && t[j].sector >= 2)
    && (forall i, j :: 0 <= i < j < |t| && t[i].Used? && t[j].Used? ==> t[i].sector != t[j].sector)
  }

  predicate Holds(t: seq<Slot>, j: int, name: Name) {
    0 <= j < |t| && t[j].Used? && t[j].name == name
  }

  /** What lookup finds when it can read the first `reach` entries: the first of them that holds
      the name. */
  function Find(t: seq<Slot>, name: Name, reach: nat): (r: Option<nat>)
    ensures r.Some? ==>
      r.value < reach && Holds(t, r.value, name) && forall i :: 0 <= i < r.value ==> !Holds(t, i, name)
    ensures r.None? ==> forall i :: 0 <= i < reach ==> !Holds(t, i, name)
  {
    if reach == 0 then None
    else
      var r := Find(t, name, reach - 1);
      if r.None? && Holds(t, reach - 1, name) then Some(reach - 1) else r
  }

  /** The inode sector in the entry that lookup finds, or 0. */
  function SectorFound(t: seq<Slot>, name: Name, reach: nat): nat {
    var r := Find(t, name, reach);
    if r.Some? then t[r.value].sector else 0
  }

  /** The table without the entry that lookup finds. */
  function Erased(t: seq<Slot>, name: Name, reach: nat): seq<Slot> {
    var r := Find(t, name, reach);
    if r.Some? then t[r.value := Free] else t
  }

  lemma FoundAt(t: seq<Slot>, name: Name, reach: nat, j: nat)
    requires j < reach && Holds(t, j, name) && forall i :: 0 <= i < j ==> !Holds(t, i, name)
    ensures Find(t, name, reach) == Some(j)
  {
  }

  lemma NotFound(t: seq<Slot>, name: Name, reach: nat, stop: nat)
    requires stop >= reach || stop >= |t|
    requires forall i :: 0 <= i < stop ==> !Holds(t, i, name)
    ensures Find(t, name, reach) == None
  {
  }

  /** Where the search of dir_add for a free slot ends when it can read the first `reach`
      entries. */
  function FreeSlot(t: seq<Slot>, reach: nat): (r: nat)
    ensures r <= |t| && r <= reach
    ensures forall j :: 0 <= j < r ==> t[j].Used?
    ensures r < |t| && r < reach ==> t[r].Free?
  {
    if t == [] || reach == 0 || t[0].Free? then 0 else 1 + FreeSlot(t[1..], reach - 1)
  }

  /** The slot where the search ends, if that is before the end of the table. */
  function SlotEntered(t: seq<Slot>, reach: nat): Slot {
    if FreeSlot(t, reach) < |t| then t[FreeSlot(t, reach)] else Free
  }

  /** The table with an entry there. */
  function Entered(t: seq<Slot>, reach: nat, name: Name, sector: nat): (r: seq<Slot>)
    ensures |r| == |t|
  {
    if FreeSlot(t, reach) < |t| then t[FreeSlot(t, reach) := Used(name, sector)] else t
  }

  lemma EnteredIs(t: seq<Slot>, reach: nat, name: Name, sector: nat)
    requires FreeSlot(t, reach) < |t|
    ensures SlotEntered(t, reach) == t[FreeSlot(t, reach)]
    ensures Entered(t, reach, name, sector) == t[FreeSlot(t, reach) := Used(name, sector)]
  {
  }

  lemma FreeSlotIs(t: seq<Slot>, reach: nat, j: nat)
    requires j <= |t| && j <= reach && forall i :: 0 <= i < j ==> t[i].Used?
    requires j == |t| || j == reach || t[j].Free?
    ensures FreeSlot(t, reach) == j
  {
  }

  ghost function SectorsOf(t: seq<Slot>): set<nat> {
    set j | 0 <= j < |t| && t[j].Used? :: t[j].sector
  }

  ghost function SectorIn(s: Slot): set<nat> { if s.Used? then {s.sector} else {} }

  /** Storing an entry for a new inode, over whatever the slot held. */
  lemma StoreKeepsTable(t: seq<Slot>, j: nat, name: Name, sector: nat)
    requires TableOk(t) && j < |t| && IsCString(name) && NameFits(name)
    requires sector >= 2 && sector !in SectorsOf(t)
    ensures TableOk(t[j := Used(name, sector)])
  {
    forall i | 0 <= i < |t| && t[i].Used?
      ensures t[i].sector != sector
    {
      assert t[i].sector in SectorsOf(t);
    }
  }

  lemma SectorsAfterStore(t: seq<Slot>, j: nat, s: Slot)
    requires j < |t| && TableOk(t)
    ensures SectorsOf(t[j := s]) == SectorsOf(t) - SectorIn(t[j]) + SectorIn(s)
  {
    var t' := t[j := s];
    forall x | x in SectorsOf(t')
      ensures x in SectorsOf(t) - SectorIn(t[j]) + SectorIn(s)
    {
      var i :| 0 <= i < |t'| && t'[i].Used? && t'[i].sector == x;
      if i != j {
        assert t[i] == t'[i];
        assert t[j].Used? ==> (i < j ==> t[i].sector != t[j].sector) && (j < i ==> t[j].sector != t[i].sector);
      }
    }
    forall x | x in SectorsOf(t) && x !in SectorIn(t[j])
      ensures x in SectorsOf(t')
    {
      var i :| 0 <= i < |t| && t[i].Used? && t[i].sector == x;
      assert t'[i] == t[i];
    }
    if s.Used? { assert t'[j].sector in SectorsOf(t'); }
  }
}
