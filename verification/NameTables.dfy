/** The names that a directory's slots give to files, and when dir_add keeps its promise to add
    exactly one (src/filesys/directory.c:141-179).

    A comment in dir_add says that inode_read_at returns a short read only at the end of the
    file.  It also does so when the bounce buffer cannot be allocated, and every directory entry
    needs one.  dir_add then takes the entry it could not read for the end of the directory. */
module NameTables {
  import opened Words
  import opened Directory

  /** No two slots have the same name. */
  ghost predicate Unique(t: seq<Slot>) {
    forall i, j :: 0 <= i < j < |t| && t[i].Used? && t[j].Used? ==> t[i].name != t[j].name
  }

  /** The file names of a table and the sectors of their inodes. */
  ghost function Names(t: seq<Slot>): map<Name, nat> {
    if t == [] then map[]
    else
      var m := Names(t[..|t| - 1]);
      if t[|t| - 1].Used? then m[t[|t| - 1].name := t[|t| - 1].sector] else m
  }

  lemma {:induction false} SlotOfName(t: seq<Slot>, n: Name) returns (j: int)
    requires n in Names(t)
    ensures Holds(t, j, n) && t[j].sector == Names(t)[n]
  {
    j := |t| - 1;
    if !Holds(t, j, n) {
      j := SlotOfName(t[..j], n);
    }
  }

  lemma {:induction false} NameIsThere(t: seq<Slot>, j: nat)
    requires j < |t| && t[j].Used?
    ensures t[j].name in Names(t)
  {
    if j < |t| - 1 {
      assert t[..|t| - 1][j] == t[j];
      NameIsThere(t[..|t| - 1], j);
    }
  }

  lemma NameAt(t: seq<Slot>, j: nat)
    requires Unique(t) && j < |t| && t[j].Used?
    ensures t[j].name in Names(t) && Names(t)[t[j].name] == t[j].sector
  {
    NameIsThere(t, j);
    var i := SlotOfName(t, t[j].name);
    assert t[i].name == t[j].name && i == j;
  }

  /** A name is there exactly when a lookup that can read every entry finds it, and then the
      lookup finds the inode that the name stands for. */
  lemma FindIsNames(t: seq<Slot>, name: Name, reach: nat)
    requires Unique(t)
    ensures Find(t, name, reach).Some? ==> name in Names(t) && Names(t)[name] == t[Find(t, name, reach).value].sector
    ensures name in Names(t) && reach >= |t| ==> Find(t, name, reach).Some?
  {
    if Find(t, name, reach).Some? {
      NameAt(t, Find(t, name, reach).value);
    } else if name in Names(t) {
      var j := SlotOfName(t, name);
      assert j < |t|;
    }
  }

  /** A free slot filled with a new name adds exactly that name. */
  lemma AddName(t: seq<Slot>, j: nat, name: Name, sector: nat)
    requires Unique(t) && j < |t| && t[j].Free? && name !in Names(t)
    ensures Unique(t[j := Used(name, sector)])
    ensures Names(t[j := Used(name, sector)]) == Names(t)[name := sector]
  {
    var t' := t[j := Used(name, sector)];
    forall i | 0 <= i < |t| && t[i].Used?
      ensures t[i].name != name
    {
      NameIsThere(t, i);
    }
    NameAt(t', j);
    forall n | n in Names(t)
      ensures n in Names(t') && Names(t')[n] == Names(t)[n]
    {
      var i := SlotOfName(t, n);
      assert t'[i] == t[i];
      NameAt(t', i);
    }
    forall n | n in Names(t') && n != name
      ensures n in Names(t)
    {
      var i := SlotOfName(t', n);
      assert t[i] == t'[i];
      NameIsThere(t, i);
    }
  }

  /** Clearing in_use of a slot removes exactly its name. */
  lemma EraseName(t: seq<Slot>, j: nat)
    requires Unique(t) && j < |t| && t[j].Used?
    ensures Unique(t[j := Free])
    ensures Names(t[j := Free]) == Names(t) - {t[j].name}
  {
    var t' := t[j := Free];
    assert Unique(t');
    forall n | n in Names(t')
      ensures n in Names(t) && n != t[j].name && Names(t')[n] == Names(t)[n]
    {
      var i := SlotOfName(t', n);
      assert i != j && t[i] == t'[i];
      NameAt(t, i);
    }
    forall n | n in Names(t) && n != t[j].name
      ensures n in Names(t')
    {
      var i := SlotOfName(t, n);
      assert t'[i] == t[i];
      NameIsThere(t', i);
    }
  }

  lemma NoNames(t: seq<Slot>)
    requires forall j :: 0 <= j < |t| ==> t[j].Free?
    ensures Names(t) == map[] && Unique(t)
  {
    if n :| n in Names(t) {
      var j := SlotOfName(t, n);
    }
  }

  // ----- What dir_add promises -----

  /** dir_add stores an entry when its lookup can read the first `lookup` entries and its search
      the first `search`. */
  predicate Stores(t: seq<Slot>, name: Name, lookup: nat, search: nat) {
    NameFits(name) && Find(t, name, lookup).None? && FreeSlot(t, search) < |t|
  }

  /** The entry goes wrong: the name is in a slot that the lookup could not reach, or the search
      could not read the slot that the entry is stored in, which is in use. */
  predicate GoesWrong(t: seq<Slot>, name: Name, lookup: nat, search: nat) {
    && Stores(t, name, lookup, search)
    && (Find(t, name, |t|).Some? || t[FreeSlot(t, search)].Used?)
  }

  /** One new name, and no other name touched. */
  ghost predicate AddsName(t: seq<Slot>, name: Name, sector: nat, t': seq<Slot>) {
    name !in Names(t) && Unique(t') && Names(t') == Names(t)[name := sector]
  }

  /** An entry that dir_add stores adds exactly its name if and only if it does not go wrong. */
  lemma AddsNameIff(t: seq<Slot>, name: Name, sector: nat, lookup: nat, search: nat)
    requires Unique(t) && Stores(t, name, lookup, search)
    ensures AddsName(t, name, sector, t[FreeSlot(t, search) := Used(name, sector)]) <==>
      !GoesWrong(t, name, lookup, search)
  {
    var j := FreeSlot(t, search);
    FindIsNames(t, name, |t|);
    if name !in Names(t) {
      if t[j].Free? {
        AddName(t, j, name, sector);
      } else {
        NameIsThere(t, j);
        Overwritten(t, j, name, sector);
      }
    }
  }

  /** An entry stored over one in use erases that one's name. */
  lemma Overwritten(t: seq<Slot>, j: nat, name: Name, sector: nat)
    requires Unique(t) && j < |t| && t[j].Used? && t[j].name != name
    ensures t[j].name in Names(t) && t[j].name !in Names(t[j := Used(name, sector)])
  {
    NameIsThere(t, j);
    var t' := t[j := Used(name, sector)];
    forall i | 0 <= i < |t'| && t'[i].Used?
      ensures t'[i].name != t[j].name
    {
      assert i < j ==> t[i].name != t[j].name;
      assert j < i ==> t[j].name != t[i].name;
    }
    if t[j].name in Names(t') {
      var i := SlotOfName(t', t[j].name);
    }
  }

  /** When every entry can be read, nothing goes wrong. */
  lemma AllRead(t: seq<Slot>, name: Name, lookup: nat, search: nat)
    requires lookup >= |t| && search >= |t|
    ensures !GoesWrong(t, name, lookup, search)
  {
  }

  /** A root directory whose first slot names "a". */
  function OneName(): (t: seq<Slot>)
    ensures |t| == ROOT_ENTRIES
  {
    [Used([97], 6)] + seq(ROOT_ENTRIES - 1, i => Free)
  }

  /** Adding "b" when the search cannot read the first entry takes "a" away; adding "a" when the
      lookup cannot read it makes a second "a". */
  lemma LostName()
    ensures var t := OneName(); |t| == ROOT_ENTRIES && TableOk(t) && Unique(t) && [97] in Names(t)
    ensures var t := OneName(); GoesWrong(t, [98], ROOT_ENTRIES, 0) && FreeSlot(t, 0) == 0
    ensures [97] !in Names(OneName()[0 := Used([98], 8)])
    ensures GoesWrong(OneName(), [97], 0, ROOT_ENTRIES)
  {
    var t := OneName();
    assert t[0] == Used([97], 6) && forall j :: 0 < j < |t| ==> t[j].Free?;
    assert !Holds(t, 0, [98]) && Holds(t, 0, [97]) && t[1].Free?;
    FreeSlotIs(t, ROOT_ENTRIES, 1);
    Overwritten(t, 0, [98], 8);
  }
}
