/** What the file system's callers see, without disks or inodes: the slots of the directory, files
    as byte strings, and open handles.  A file lives as long as a slot or a handle refers to it. */
module FileModel {
  import opened Words
  import opened Inodes
  import opened Directory
  import opened NameTables
  import opened Allocations

  /** An open handle: the file it is on, its position, and whether it denies writes. */
  datatype Handle = Handle(id: nat, pos: nat, deny: bool)

  datatype State = State(dir: seq<Slot>, contents: map<nat, seq<byte>>, handles: map<nat, Handle>)

  const EMPTY: State := State(seq(ROOT_ENTRIES, i => Free), map[], map[])

  datatype Op =
    | Create(name: Name, size: nat)
    | Remove(name: Name)
    | Open(name: Name)
    | Reopen(fd: nat)
    | Close(fd: nat)
    | Read(fd: nat, size: nat)
    | Write(fd: nat, buffer: seq<byte>)
    | Seek(fd: nat, pos: nat)
    | Deny(fd: nat)
    | Allow(fd: nat)

  datatype Result = Failed | Done | Opened(fd: nat) | Bytes(data: seq<byte>) | Count(n: nat)

  /** An unsigned size passed as an off_t: sizes from 2^31 on become negative. */
  function ToOff(n: nat): (r: int)
    ensures r <= n && (n <= OFF_MAX ==> r == n) && (OFF_MAX < n < WORD ==> r == n - 0x1_0000_0000 < 0)
  {
    if n % WORD <= OFF_MAX then n % WORD else n % WORD - WORD
  }

  ghost predicate IsOpen(a: State, id: nat) {
    exists fd :: fd in a.handles && a.handles[fd].id == id
  }

  ghost predicate Referenced(a: State, id: nat) {
    id in SectorsOf(a.dir) || IsOpen(a, id)
  }

  /** Files that nothing refers to are gone. */
  ghost function Collect(a: State): State {
    a.(contents := map id | id in a.contents && Referenced(a, id) :: a.contents[id])
  }

  ghost predicate Denied(a: State, id: nat) {
    exists fd :: fd in a.handles && a.handles[fd].id == id && a.handles[fd].deny
  }

  /** The root directory can be opened: between operations it never is open already. */
  predicate RootOpens(m: Memory) { m.rootInode && m.rootDir }

  /** The name leads to a file whose inode is open or can be allocated. */
  ghost predicate Reaches(a: State, name: Name, m: Memory) {
    && RootOpens(m) && Find(a.dir, name, m.lookup).Some?
    && (m.inode || IsOpen(a, SectorFound(a.dir, name, m.lookup)))
  }

  /** A create succeeds; `room` is what the disk has to say. */
  ghost predicate Creates(a: State, name: Name, m: Memory, room: bool) {
    RootOpens(m) && m.diskInode && room && Stores(a.dir, name, m.lookup, m.search) && m.entry
  }

  /** One operation.  An operation fails, and then changes nothing, exactly when the name or handle
      is not there (for a create: is there) or one of the allocations that it makes fails. */
  ghost predicate Step(a: State, op: Op, m: Memory, room: bool, res: Result, a': State) {
    match op
    case Create(name, size) =>
      if Creates(a, name, m, room) then res == Done && exists id :: Created(a, name, size, m.search, id, a')
      else res == Failed && a' == a
    case Remove(name) =>
      if Reaches(a, name, m) && m.entry then res == Done && a' == Collect(a.(dir := Erased(a.dir, name, m.lookup)))
      else res == Failed && a' == a
    case Open(name) =>
      if Reaches(a, name, m) && m.file then
        && res.Opened? && res.fd !in a.handles
        && a' == a.(handles := a.handles[res.fd := Handle(SectorFound(a.dir, name, m.lookup), 0, false)])
      else res == Failed && a' == a
    case Reopen(fd) =>
      if fd in a.handles && m.file then
        && res.Opened? && res.fd !in a.handles
        && a' == a.(handles := a.handles[res.fd := Handle(a.handles[fd].id, 0, false)])
      else res == Failed && a' == a
    case Close(fd) =>
      if fd !in a.handles then res == Failed && a' == a
      else res == Done && a' == Collect(a.(handles := a.handles - {fd}))
    case Read(fd, size) =>
      if fd !in a.handles then res == Failed && a' == a
      else res.Bytes? && Reads(a, fd, size, m.transfer, res.data, a')
    case Write(fd, buffer) =>
      if fd !in a.handles then res == Failed && a' == a
      else res.Count? && Writes(a, fd, buffer, m.transfer, res.n, a')
    case Seek(fd, pos) =>
      if fd !in a.handles then res == Failed && a' == a
      else res == Done && a' == a.(handles := a.handles[fd := a.handles[fd].(pos := pos)])
    case Deny(fd) =>
      if fd !in a.handles then res == Failed && a' == a
      else res == Done && a' == a.(handles := a.handles[fd := a.handles[fd].(deny := true)])
    case Allow(fd) =>
      if fd !in a.handles then res == Failed && a' == a
      else res == Done && a' == a.(handles := a.handles[fd := a.handles[fd].(deny := false)])
  }

  /** A new file of zeros, with an entry in the slot where the search ended. */
  ghost predicate Created(a: State, name: Name, size: nat, search: nat, id: nat, a': State) {
    && id !in a.contents && id !in SectorsOf(a.dir)
    && a' == Collect(a.(dir := Entered(a.dir, search, name, id), contents := a.contents[id := seq(size, i => 0)]))
  }

  ghost predicate Reads(a: State, fd: nat, size: nat, bounceOk: bool, data: seq<byte>, a': State)
    requires fd in a.handles
  {
    var h := a.handles[fd];
    && h.id in a.contents
    && |data| == TransferCnt(|a.contents[h.id]|, ToOff(size), h.pos, bounceOk)
    && (data != [] ==> h.pos + |data| <= |a.contents[h.id]| && data == a.contents[h.id][h.pos .. h.pos + |data|])
    && a' == a.(handles := a.handles[fd := h.(pos := h.pos + |data|)])
  }

  ghost predicate Writes(a: State, fd: nat, buffer: seq<byte>, bounceOk: bool, n: nat, a': State)
    requires fd in a.handles
  {
    var h := a.handles[fd];
    && h.id in a.contents && n <= |buffer|
    && n == (if Denied(a, h.id) then 0 else TransferCnt(|a.contents[h.id]|, ToOff(|buffer|), h.pos, bounceOk))
    && a' == a.(contents := a.contents[h.id := Overwrite(a.contents[h.id], h.pos, buffer[..n])],
                handles := a.handles[fd := h.(pos := h.pos + n)])
  }

  /** A run: the states between which the operations step. */
  ghost predicate IsRun(states: seq<State>, ops: seq<Op>, mems: seq<Memory>, rooms: seq<bool>, results: seq<Result>) {
    && |states| == |ops| + 1 && |results| == |mems| == |rooms| == |ops|
    && forall i :: 0 <= i < |ops| ==> Step(states[i], ops[i], mems[i], rooms[i], results[i], states[i + 1])
  }

  // ----- What every run keeps -----

  ghost predicate DistinctIds(t: seq<Slot>) {
    forall i, j :: 0 <= i < j < |t| && t[i].Used? && t[j].Used? ==> t[i].sector != t[j].sector
  }

  /** Exactly the referenced files exist, and no two slots share a file. */
  ghost predicate Sound(a: State) {
    (forall id :: id in a.contents <==> Referenced(a, id)) && DistinctIds(a.dir)
  }

  /** Operations on a descriptor that is not open fail and change nothing. */
  lemma NotOpen(a: State, fd: nat, m: Memory, room: bool)
    requires fd !in a.handles
    ensures Step(a, Close(fd), m, room, Failed, a) && Step(a, Reopen(fd), m, room, Failed, a)
  {
  }

  lemma CreateFails(a: State, name: Name, size: nat, m: Memory, room: bool)
    requires !Creates(a, name, m, room)
    ensures Step(a, Create(name, size), m, room, Failed, a)
  {
  }

  lemma NameOpFails(a: State, name: Name, m: Memory, room: bool)
    ensures !(Reaches(a, name, m) && m.entry) ==> Step(a, Remove(name), m, room, Failed, a)
    ensures !(Reaches(a, name, m) && m.file) ==> Step(a, Open(name), m, room, Failed, a)
  {
  }

  lemma OpenIs(a: State, name: Name, fd: nat, m: Memory, room: bool, a': State)
    requires Reaches(a, name, m) && m.file && fd !in a.handles && a'.dir == a.dir && a'.contents == a.contents
    requires a'.handles == a.handles[fd := Handle(SectorFound(a.dir, name, m.lookup), 0, false)]
    ensures Step(a, Open(name), m, room, Opened(fd), a')
  {
  }

  lemma ReopenIs(a: State, fd: nat, fe: nat, m: Memory, room: bool, a': State)
    requires fd in a.handles && m.file && fe !in a.handles && a'.dir == a.dir && a'.contents == a.contents
    requires a'.handles == a.handles[fe := Handle(a.handles[fd].id, 0, false)]
    ensures Step(a, Reopen(fd), m, room, Opened(fe), a')
  {
  }

  lemma ReopenFails(a: State, fd: nat, m: Memory, room: bool)
    requires fd !in a.handles || !m.file
    ensures Step(a, Reopen(fd), m, room, Failed, a)
  {
  }

  lemma TransferFails(a: State, fd: nat, size: nat, buffer: seq<byte>, m: Memory, room: bool)
    requires fd !in a.handles
    ensures Step(a, Read(fd, size), m, room, Failed, a) && Step(a, Write(fd, buffer), m, room, Failed, a)
  {
  }

  lemma ReadIs(a: State, fd: nat, size: nat, m: Memory, room: bool, data: seq<byte>, a': State)
    requires fd in a.handles && a.handles[fd].id in a.contents
    requires
      var h := a.handles[fd];
      var content := a.contents[h.id];
      && |data| == TransferCnt(|content|, ToOff(size), h.pos, m.transfer)
      && (data != [] ==> h.pos + |data| <= |content| && data == content[h.pos .. h.pos + |data|])
      && a' == a.(handles := a.handles[fd := h.(pos := h.pos + |data|)])
    ensures Step(a, Read(fd, size), m, room, Bytes(data), a')
  {
    hide TransferCnt, ToOff;
    assert Reads(a, fd, size, m.transfer, data, a');
  }

  lemma WriteIs(a: State, fd: nat, buffer: seq<byte>, m: Memory, room: bool, n: nat, a': State)
    requires fd in a.handles && a.handles[fd].id in a.contents && n <= |buffer|
    requires
      var h := a.handles[fd];
      var content := a.contents[h.id];
      && n == (if Denied(a, h.id) then 0 else TransferCnt(|content|, ToOff(|buffer|), h.pos, m.transfer))
      && a' == a.(contents := a.contents[h.id := Overwrite(content, h.pos, buffer[..n])],
                  handles := a.handles[fd := h.(pos := h.pos + n)])
    ensures Step(a, Write(fd, buffer), m, room, Count(n), a')
  {
    hide TransferCnt, ToOff, Overwrite, Denied;
    assert Writes(a, fd, buffer, m.transfer, n, a');
  }

  /** Dropping files so that exactly the referenced ones remain is collecting. */
  lemma CollectIs(a: State, b: State)
    requires b.dir == a.dir && b.handles == a.handles && b.contents.Keys <= a.contents.Keys
    requires forall id :: id in b.contents ==> b.contents[id] == a.contents[id]
    requires forall id :: id in b.contents <==> Referenced(b, id)
    ensures b == Collect(a)
  {
    forall id
      ensures Referenced(a, id) <==> Referenced(b, id)
    {
    }
    assert b.contents == Collect(a).contents;
  }

  lemma CreateIs(a: State, name: Name, size: nat, m: Memory, room: bool, id: nat, lost: set<nat>, a': State)
    requires Creates(a, name, m, room) && id !in a.contents && id !in SectorsOf(a.dir) && id !in lost
    requires a'.dir == Entered(a.dir, m.search, name, id) && a'.handles == a.handles
    requires a'.contents == (a.contents - lost)[id := seq(size, i => 0)]
    requires forall x :: x in a'.contents <==> Referenced(a', x)
    ensures Step(a, Create(name, size), m, room, Done, a')
  {
    hide Stores, FreeSlot, Referenced, SectorsOf, Find;
    var whole := a.(dir := a'.dir, contents := a.contents[id := seq(size, i => 0)]);
    CollectIs(whole, a');
    assert Created(a, name, size, m.search, id, a') by { CreatedIs(a, name, size, m, id, a'); }
  }

  lemma CreatedIs(a: State, name: Name, size: nat, m: Memory, id: nat, a': State)
    requires Stores(a.dir, name, m.lookup, m.search) && id !in a.contents && id !in SectorsOf(a.dir)
    requires a' == Collect(a.(dir := Entered(a.dir, m.search, name, id),
                              contents := a.contents[id := seq(size, i => 0)]))
    ensures Created(a, name, size, m.search, id, a')
  {
  }

  lemma RemoveIs(a: State, name: Name, m: Memory, room: bool, a': State)
    requires Reaches(a, name, m) && m.entry && a'.handles == a.handles
    requires a'.dir == Erased(a.dir, name, m.lookup)
    requires a'.contents == a.contents || a'.contents == a.contents - {SectorFound(a.dir, name, m.lookup)}
    requires forall id :: id in a'.contents <==> Referenced(a', id)
    ensures Step(a, Remove(name), m, room, Done, a')
  {
    CollectIs(a.(dir := a'.dir), a');
  }

  lemma CloseIs(a: State, fd: nat, m: Memory, room: bool, a': State)
    requires fd in a.handles && a'.dir == a.dir && a'.handles == a.handles - {fd}
    requires a'.contents.Keys <= a.contents.Keys && forall id :: id in a'.contents ==> a'.contents[id] == a.contents[id]
    requires forall id :: id in a'.contents <==> Referenced(a', id)
    ensures Step(a, Close(fd), m, room, Done, a')
  {
    CollectIs(a.(handles := a.handles - {fd}), a');
  }

  /** Collecting a state in which every reference is to a file leaves a sound one. */
  lemma CollectSound(a: State)
    requires DistinctIds(a.dir) && forall id :: Referenced(a, id) ==> id in a.contents
    ensures Sound(Collect(a))
  {
    var c := Collect(a);
    forall id
      ensures Referenced(c, id) <==> Referenced(a, id)
    {
    }
  }

  lemma SameReferences(a: State, a': State)
    requires Sound(a) && a'.dir == a.dir && a'.contents.Keys == a.contents.Keys
    requires a'.handles.Keys == a.handles.Keys && forall fd :: fd in a.handles ==> a'.handles[fd].id == a.handles[fd].id
    ensures Sound(a')
  {
    forall id
      ensures Referenced(a', id) <==> Referenced(a, id)
    {
      if fd :| fd in a.handles && a.handles[fd].id == id { assert a'.handles[fd].id == id; }
      if fd :| fd in a'.handles && a'.handles[fd].id == id { assert a.handles[fd].id == id; }
    }
  }

  lemma NewHandleSound(a: State, fd: nat, h: Handle)
    requires Sound(a) && fd !in a.handles && h.id in a.contents
    ensures Sound(a.(handles := a.handles[fd := h]))
  {
    var a' := a.(handles := a.handles[fd := h]);
    forall id
      ensures Referenced(a', id) <==> Referenced(a, id)
    {
      if g :| g in a.handles && a.handles[g].id == id { assert a'.handles[g].id == id; }
      if g :| g in a'.handles && a'.handles[g].id == id {
        if g != fd { assert a.handles[g].id == id; } else { assert id in a.contents; }
      }
    }
  }

  /** Another slot, or one slot less, and fewer handles: what is referred to is still there. */
  lemma ReslotSound(a: State, j: nat, s: Slot, a': State)
    requires Sound(a) && j < |a.dir| && a'.dir == a.dir[j := s]
    requires s.Used? ==> s.sector in a'.contents && s.sector !in SectorsOf(a.dir)
    requires a.contents.Keys <= a'.contents.Keys && a'.handles == a.handles
    ensures Sound(Collect(a'))
  {
    forall i | 0 <= i < |a.dir| && a.dir[i].Used?
      ensures a.dir[i].sector in SectorsOf(a.dir)
    {
    }
    forall id | Referenced(a', id)
      ensures id in a'.contents
    {
      if id in SectorsOf(a'.dir) {
        var i :| 0 <= i < |a'.dir| && a'.dir[i].Used? && a'.dir[i].sector == id;
        if i != j {
          assert a.dir[i].sector in SectorsOf(a.dir);
          assert Referenced(a, id);
        }
      } else {
        assert Referenced(a, id);
      }
    }
    CollectSound(a');
  }

  lemma ClosedSound(a: State, fd: nat)
    requires Sound(a) && fd in a.handles
    ensures Sound(Collect(a.(handles := a.handles - {fd})))
  {
    var a' := a.(handles := a.handles - {fd});
    forall id | Referenced(a', id)
      ensures id in a'.contents
    {
      if g :| g in a'.handles && a'.handles[g].id == id { assert a.handles[g].id == id; }
      assert Referenced(a, id);
    }
    CollectSound(a');
  }

  /** Every operation keeps the soundness of the state, whatever allocations fail. */
  lemma StepSound(a: State, op: Op, m: Memory, room: bool, res: Result, a': State)
    requires Sound(a) && Step(a, op, m, room, res, a')
    ensures Sound(a')
  {
    hide Find, FreeSlot, SectorsOf, DistinctIds, TransferCnt, Overwrite;
    match op
    case Create(name, size) =>
      if res == Done {
        var id :| Created(a, name, size, m.search, id, a');
        var j := FreeSlot(a.dir, m.search);
        var data := seq(size, i => 0);
        ReslotSound(a, j, Used(name, id),
          a.(dir := a.dir[j := Used(name, id)], contents := a.contents[id := data]));
      }
    case Remove(name) =>
      if res == Done {
        var j := Find(a.dir, name, m.lookup).value;
        ReslotSound(a, j, Free, a.(dir := a.dir[j := Free]));
      }
    case Open(name) =>
      if res.Opened? {
        SlotReferenced(a, Find(a.dir, name, m.lookup).value);
        NewHandleSound(a, res.fd, Handle(SectorFound(a.dir, name, m.lookup), 0, false));
      }
    case Reopen(fd) =>
      if res.Opened? {
        assert Referenced(a, a.handles[fd].id);
        NewHandleSound(a, res.fd, Handle(a.handles[fd].id, 0, false));
      }
    case Close(fd) =>
      if fd in a.handles { ClosedSound(a, fd); }
    case _ =>
      SameReferences(a, a');
  }

  lemma SlotReferenced(a: State, j: nat)
    requires j < |a.dir| && a.dir[j].Used?
    ensures Referenced(a, a.dir[j].sector)
  {
  }

  /** In every run from the empty file system, exactly the referenced files exist. */
  lemma {:induction false} RunSound(states: seq<State>, ops: seq<Op>, mems: seq<Memory>, rooms: seq<bool>,
      results: seq<Result>, i: nat)
    requires IsRun(states, ops, mems, rooms, results) && states[0] == EMPTY && i < |states|
    ensures Sound(states[i])
  {
    if i > 0 {
      RunSound(states, ops, mems, rooms, results, i - 1);
      StepSound(states[i - 1], ops[i - 1], mems[i - 1], rooms[i - 1], results[i - 1], states[i]);
    }
  }

  // ----- What is promised about names -----

  /** What create, remove and open promise, in terms of names: a create adds one name and one file,
      a remove takes one name away, and an open finds the file that the name stands for. */
  ghost predicate Promised(a: State, op: Op, res: Result, a': State) {
    match op
    case Create(name, size) =>
      (res == Failed && a' == a) ||
      (res == Done && NameFits(name) && a'.handles == a.handles &&
       exists id :: AddsName(a.dir, name, id, a'.dir) && id !in a.contents
                    && a'.contents == a.contents[id := seq(size, i => 0)])
    case Remove(name) =>
      (res == Failed && a' == a) ||
      (res == Done && name in Names(a.dir) && Names(a'.dir) == Names(a.dir) - {name}
       && a' == Collect(a.(dir := a'.dir)))
    case Open(name) =>
      (res == Failed && a' == a) ||
      (res.Opened? && name in Names(a.dir) && res.fd !in a.handles &&
       a' == a.(handles := a.handles[res.fd := Handle(Names(a.dir)[name], 0, false)]))
    case _ => true
  }

  /** A create will succeed and store an entry that goes wrong: everything it needs is there, but
      it cannot read far enough to see that the name is taken or that a slot is. */
  ghost predicate Wrong(a: State, op: Op, m: Memory, room: bool) {
    op.Create? && Creates(a, op.name, m, room) && GoesWrong(a.dir, op.name, m.lookup, m.search)
  }

  /** Nothing is lost when an entry goes into a free slot. */
  lemma NothingLost(a: State, j: nat, name: Name, id: nat, data: seq<byte>)
    requires Sound(a) && j < |a.dir| && a.dir[j].Free? && id !in a.contents
    ensures
      var b := a.(dir := a.dir[j := Used(name, id)], contents := a.contents[id := data]);
      Collect(b).contents == b.contents
  {
    var b := a.(dir := a.dir[j := Used(name, id)], contents := a.contents[id := data]);
    forall x | x in b.contents
      ensures Referenced(b, x)
    {
      if x == id {
        assert b.dir[j].sector == id;
      } else {
        assert Referenced(a, x);
        if x in SectorsOf(a.dir) {
          var i :| 0 <= i < |a.dir| && a.dir[i].Used? && a.dir[i].sector == x;
          assert b.dir[i] == a.dir[i];
        }
      }
    }
  }

  lemma CreatePromisedIff(a: State, name: Name, size: nat, m: Memory, room: bool, a': State)
    requires Sound(a) && Unique(a.dir) && Step(a, Create(name, size), m, room, Done, a')
    ensures Promised(a, Create(name, size), Done, a') <==> !GoesWrong(a.dir, name, m.lookup, m.search)
    ensures Promised(a, Create(name, size), Done, a') ==> Unique(a'.dir)
  {
    hide Find, SectorsOf, Names, Unique, Referenced, FreeSlot;
    var id :| Created(a, name, size, m.search, id, a');
    var j := FreeSlot(a.dir, m.search);
    if !GoesWrong(a.dir, name, m.lookup, m.search) {
      AddsNameIff(a.dir, name, id, m.lookup, m.search);
      NothingLost(a, j, name, id, seq(size, i => 0));
      assert AddsName(a.dir, name, id, a'.dir) && a'.contents == a.contents[id := seq(size, i => 0)];
    } else {
      forall x | AddsName(a.dir, name, x, a'.dir)
        ensures x == id
      {
        StoredName(a.dir, j, name, id);
      }
      AddsNameIff(a.dir, name, id, m.lookup, m.search);
    }
  }

  lemma StoredName(t: seq<Slot>, j: nat, name: Name, id: nat)
    requires j < |t|
    ensures Unique(t[j := Used(name, id)]) ==>
      name in Names(t[j := Used(name, id)]) && Names(t[j := Used(name, id)])[name] == id
  {
    if Unique(t[j := Used(name, id)]) { NameAt(t[j := Used(name, id)], j); }
  }

  /** With unique names before it, an operation keeps its promise exactly when it does not go wrong,
      and then names stay unique. */
  lemma StepPromisedIff(a: State, op: Op, m: Memory, room: bool, res: Result, a': State)
    requires Sound(a) && Unique(a.dir) && Step(a, op, m, room, res, a')
    ensures Promised(a, op, res, a') <==> !Wrong(a, op, m, room)
    ensures Promised(a, op, res, a') ==> Unique(a'.dir)
  {
    hide Find, Names, Unique, GoesWrong, Stores, AddsName, FreeSlot;
    match op
    case Create(name, size) =>
      if res == Done { CreatePromisedIff(a, name, size, m, room, a'); }
    case Remove(name) =>
      if res == Done {
        FindIsNames(a.dir, name, m.lookup);
        EraseName(a.dir, Find(a.dir, name, m.lookup).value);
      }
    case Open(name) =>
      if res.Opened? { FindIsNames(a.dir, name, m.lookup); }
    case _ =>
  }

  /** In every run from the empty file system, every operation keeps its promise about names if and
      only if no create goes wrong; and then names are unique throughout. */
  lemma {:induction false} RunPromisedIff(states: seq<State>, ops: seq<Op>, mems: seq<Memory>, rooms: seq<bool>,
      results: seq<Result>, n: nat)
    requires IsRun(states, ops, mems, rooms, results) && states[0] == EMPTY && n <= |ops|
    ensures (forall i :: 0 <= i < n ==> Promised(states[i], ops[i], results[i], states[i + 1]))
       <==> (forall i :: 0 <= i < n ==> !Wrong(states[i], ops[i], mems[i], rooms[i]))
    ensures (forall i :: 0 <= i < n ==> !Wrong(states[i], ops[i], mems[i], rooms[i])) ==> Unique(states[n].dir)
  {
    hide Step, Promised, Wrong, Unique;
    if n == 0 {
      NoNames(EMPTY.dir);
    } else {
      RunPromisedIff(states, ops, mems, rooms, results, n - 1);
      if forall i :: 0 <= i < n - 1 ==> !Wrong(states[i], ops[i], mems[i], rooms[i]) {
        RunSound(states, ops, mems, rooms, results, n - 1);
        StepPromisedIff(states[n - 1], ops[n - 1], mems[n - 1], rooms[n - 1], results[n - 1], states[n]);
      }
    }
  }

  /** In particular while every entry can be read. */
  lemma AllReadPromised(a: State, op: Op, m: Memory, room: bool)
    requires m.lookup >= |a.dir| && m.search >= |a.dir|
    ensures !Wrong(a, op, m, room)
  {
    if op.Create? { AllRead(a.dir, op.name, m.lookup, m.search); }
  }

  /** While every entry can be read, the file system is a finite map from names to files.  A create
      succeeds exactly when the name has 1 to 14 bytes and is not there, the directory has a free
      slot, the disk has room and the allocations that it makes succeed; a remove and an open,
      exactly when the name is there, its inode is open or can be allocated, and the other
      allocations that they make succeed. */
  lemma SucceedsIff(a: State, op: Op, m: Memory, room: bool, res: Result, a': State)
    requires Unique(a.dir) && m.lookup >= |a.dir| && m.search >= |a.dir| && Step(a, op, m, room, res, a')
    ensures op.Create? ==>
      (res == Done <==>
        && 1 <= |op.name| <= 14 && op.name !in Names(a.dir) && (exists j :: 0 <= j < |a.dir| && a.dir[j].Free?)
        && m.rootInode && m.rootDir && m.diskInode && m.entry && room)
    ensures op.Remove? ==>
      (res == Done <==>
        && op.name in Names(a.dir)
        && (m.inode || exists fd :: fd in a.handles && a.handles[fd].id == Names(a.dir)[op.name])
        && m.rootInode && m.rootDir && m.entry)
    ensures op.Open? ==>
      (res.Opened? <==>
        && op.name in Names(a.dir)
        && (m.inode || exists fd :: fd in a.handles && a.handles[fd].id == Names(a.dir)[op.name])
        && m.rootInode && m.rootDir && m.file)
    ensures op.Reopen? ==> (res.Opened? <==> op.fd in a.handles && m.file)
    ensures !op.Create? && !op.Remove? && !op.Open? && !op.Reopen? ==> (res == Failed <==> op.fd !in a.handles)
    ensures res == Failed ==> a' == a
  {
    hide Find, Names, Unique, SectorsOf, Collect;
    if op.Create? || op.Remove? || op.Open? { FindIsNames(a.dir, op.name, m.lookup); }
  }

  // ----- Isolation and persistence -----

  /** The operation writes to the file `id`. */
  ghost predicate WritesTo(a: State, op: Op, id: nat) {
    op.Write? && op.fd in a.handles && a.handles[op.fd].id == id
  }

  /** One operation other than a write to the file leaves an open file's bytes alone, even if it
      removes or overwrites the file's entry; and its handle stays unless it is closed. */
  lemma StepKeeps(a: State, op: Op, m: Memory, room: bool, res: Result, a': State, fd: nat)
    requires Sound(a) && Step(a, op, m, room, res, a') && fd in a.handles && op != Close(fd)
    requires !WritesTo(a, op, a.handles[fd].id)
    ensures fd in a'.handles && a'.handles[fd].id == a.handles[fd].id
    ensures a.handles[fd].id in a.contents && a.handles[fd].id in a'.contents
    ensures a'.contents[a.handles[fd].id] == a.contents[a.handles[fd].id]
  {
    hide SectorsOf, Find, FreeSlot, TransferCnt, Overwrite, DistinctIds, Stores;
    var id := a.handles[fd].id;
    assert Referenced(a, id);
    StepSound(a, op, m, room, res, a');
    assert fd in a'.handles && a'.handles[fd].id == id;
    assert Referenced(a', id);
  }

  /** Whatever else happens - removal of its name, creation and deletion of other files, writes to
      them, failing allocations - an open file keeps its bytes until its handle is closed or it is
      written to. */
  lemma {:induction false} OpenFilePersists(
    states: seq<State>, ops: seq<Op>, mems: seq<Memory>, rooms: seq<bool>, results: seq<Result>, fd: nat, i: nat)
    requires IsRun(states, ops, mems, rooms, results) && Sound(states[0]) && i < |states| && fd in states[0].handles
    requires forall k :: 0 <= k < i ==> ops[k] != Close(fd) && !WritesTo(states[k], ops[k], states[0].handles[fd].id)
    ensures Sound(states[i]) && fd in states[i].handles && states[i].handles[fd].id == states[0].handles[fd].id
    ensures states[0].handles[fd].id in states[0].contents && states[0].handles[fd].id in states[i].contents
    ensures states[i].contents[states[0].handles[fd].id] == states[0].contents[states[0].handles[fd].id]
  {
    hide Step, SectorsOf;
    assert Referenced(states[0], states[0].handles[fd].id);
    if i > 0 {
      OpenFilePersists(states, ops, mems, rooms, results, fd, i - 1);
      StepKeeps(states[i - 1], ops[i - 1], mems[i - 1], rooms[i - 1], results[i - 1], states[i], fd);
      StepSound(states[i - 1], ops[i - 1], mems[i - 1], rooms[i - 1], results[i - 1], states[i]);
    }
  }

  /** What a read of an open file returns: nothing if the size is negative as an off_t; otherwise, with
      a bounce buffer, the bytes from the position on, as many as were asked for and are there. */
  lemma ReadExact(a: State, fd: nat, size: nat, m: Memory, room: bool, data: seq<byte>, b: State)
    requires Step(a, Read(fd, size), m, room, Bytes(data), b) && size < WORD && m.transfer
    ensures fd in a.handles && a.handles[fd].id in a.contents
    ensures
      var content, pos := a.contents[a.handles[fd].id], a.handles[fd].pos;
      data == if size > OFF_MAX || pos >= |content| then [] else content[pos .. pos + Min(size, |content| - pos)]
  {
    var content, pos := a.contents[a.handles[fd].id], a.handles[fd].pos;
    TransferIs(|content|, ToOff(size), pos, m.transfer);
  }

  /** What a write to an open file does, unless writes are denied: with a bounce buffer it stores the
      bytes up to the end of the file, and no other byte changes. */
  lemma WriteExact(a: State, fd: nat, buffer: seq<byte>, m: Memory, room: bool, n: nat, b: State)
    requires Step(a, Write(fd, buffer), m, room, Count(n), b) && |buffer| <= OFF_MAX && m.transfer
    ensures fd in a.handles && a.handles[fd].id in a.contents
    ensures
      var id, pos := a.handles[fd].id, a.handles[fd].pos;
      var content := a.contents[id];
      var denied := exists fe :: fe in a.handles && a.handles[fe].id == id && a.handles[fe].deny;
      && n == (if denied || pos >= |content| then 0 else Min(|buffer|, |content| - pos))
      && b == a.(contents := b.contents, handles := a.handles[fd := Handle(id, pos + n, a.handles[fd].deny)])
      && b.contents.Keys == a.contents.Keys
      && (forall x :: x in a.contents && x != id ==> b.contents[x] == a.contents[x])
      && |b.contents[id]| == |content|
      && forall i :: 0 <= i < |content| ==>
           b.contents[id][i] == if pos <= i < pos + n then buffer[i - pos] else content[i]
  {
    var id, pos := a.handles[fd].id, a.handles[fd].pos;
    TransferIs(|a.contents[id]|, |buffer|, pos, m.transfer);
    forall i | 0 <= i < |a.contents[id]|
      ensures b.contents[id][i] == if pos <= i < pos + n then buffer[i - pos] else a.contents[id][i]
    {
      OverwriteAt(a.contents[id], pos, buffer[..n], i);
    }
  }

  /** What was written is read back at the same place: a read of as many bytes returns exactly them. */
  lemma ReadBack(a: State, fd: nat, buffer: seq<byte>, n: nat, b: State, c: State, data: seq<byte>, d: State,
                 m: Memory, room: bool)
    requires fd in a.handles && |buffer| <= OFF_MAX && m.transfer
    requires Step(a, Write(fd, buffer), m, room, Count(n), b)
    requires Step(b, Seek(fd, a.handles[fd].pos), m, room, Done, c)
    requires Step(c, Read(fd, n), m, room, Bytes(data), d)
    ensures data == buffer[..n]
  {
    hide Step, Denied;
    WriteExact(a, fd, buffer, m, room, n, b);
    SeekIs(b, fd, a.handles[fd].pos, m, room, c);
    ReadExact(c, fd, n, m, room, data, d);
  }

  lemma SeekIs(a: State, fd: nat, pos: nat, m: Memory, room: bool, b: State)
    requires Step(a, Seek(fd, pos), m, room, Done, b)
    ensures fd in a.handles && b == a.(handles := a.handles[fd := a.handles[fd].(pos := pos)])
  {
  }
}
