/** Every run of the file system is a run of FileModel: file descriptors as in
    src/userprog/syscall.c over the operations of FileSystem. */
module Sessions {
  import opened Words
  import opened Inodes
  import opened Directory
  import opened NameTables
  import opened StoredMaps
  import opened Volumes
  import opened Allocations
  import opened Bitmaps
  import opened FileSystem
  import opened Format
  import M = FileModel

  /** The arguments that the operations accept: 32-bit sizes, of which those of a new file and those
      sought must not be negative as an off_t, which inode_create and file_seek assert. */
  predicate Accepts(op: M.Op) {
    match op
    case Create(name, size) => IsCString(name) && size <= OFF_MAX
    case Seek(fd, pos) => pos <= OFF_MAX
    case Read(fd, size) => size < WORD
    case Write(fd, buffer) => |buffer| < WORD
    case _ => true
  }

  /** What the disk has to say about an operation: whether a create can allocate its sectors. */
  ghost predicate Room(v: Volume, op: M.Op, mem: Memory) {
    op.Create? && |v.elems| == ElemCnt(|v.d|) && RoomOn(v, op.size, mem)
  }

  /** How the free map changes.  Only a create marks sectors: the ones that it takes.  Removing a
      file that is not open releases exactly its sectors, and the last close of a file without a
      name may. */
  ghost predicate MarksStep(v: Volume, a: M.State, op: M.Op, mem: Memory, res: M.Result, v': Volume) {
    && |v.elems| == |v'.elems| == ElemCnt(|v.d|) && |v'.d| == |v.d|
    && match op
       case Create(name, size) =>
         var reached := M.RootOpens(mem) && mem.diskInode && RoomOn(v, size, mem);
         MarksCreated(Bits(v), size, reached, res == M.Done, Bits(v'))
       case Remove(name) =>
         var id := SectorFound(a.dir, name, mem.lookup);
         if res == M.Done && !M.IsOpen(a, id) then MarksReleased(v, id, Bits(v')) else Bits(v') == Bits(v)
       case Close(fd) =>
         Bits(v') == Bits(v) ||
         (fd in a.handles && !M.Referenced(a.(handles := a.handles - {fd}), a.handles[fd].id) &&
          MarksReleased(v, a.handles[fd].id, Bits(v')))
       case _ => Bits(v') == Bits(v)
  }

  /** One operation, on the model's state and on the disk. */
  ghost predicate DiskStep(
    v: Volume, a: M.State, op: M.Op, mem: Memory, res: M.Result, v': Volume, a': M.State)
  {
    M.Step(a, op, mem, Room(v, op, mem), res, a') && MarksStep(v, a, op, mem, res, v')
  }

  lemma SameMarks(v: Volume, a: M.State, op: M.Op, mem: Memory, res: M.Result, v': Volume)
    requires |v'.d| == |v.d| && v'.elems == v.elems && |v.elems| == ElemCnt(|v.d|) && !op.Create?
    requires op.Remove? ==> res != M.Done
    ensures MarksStep(v, a, op, mem, res, v')
  {
    hide BitsOf, M.Referenced, MarksReleased;
  }

  lemma CloseMarks(v: Volume, a: M.State, fd: nat, mem: Memory, v': Volume)
    requires |v.elems| == |v'.elems| == ElemCnt(|v.d|) && |v'.d| == |v.d| && fd in a.handles
    requires Bits(v') == Bits(v) || MarksReleased(v, a.handles[fd].id, Bits(v'))
    requires M.Referenced(a.(handles := a.handles - {fd}), a.handles[fd].id) ==> Bits(v') == Bits(v)
    ensures MarksStep(v, a, M.Close(fd), mem, M.Done, v')
  {
    hide BitsOf, M.Referenced, MarksReleased;
  }

  lemma CreateMarks(v: Volume, a: M.State, name: Name, size: nat, mem: Memory, reached: bool, res: M.Result, v': Volume)
    requires |v.elems| == |v'.elems| == ElemCnt(|v.d|) && |v'.d| == |v.d|
    requires reached <==> M.RootOpens(mem) && mem.diskInode && RoomOn(v, size, mem)
    requires MarksCreated(Bits(v), size, reached, res == M.Done, Bits(v'))
    ensures MarksStep(v, a, M.Create(name, size), mem, res, v')
  {
    hide BitsOf, RoomOn, MarksCreated;
  }

  /** A well-formed disk that holds the directory and the files of the state. */
  ghost predicate HoldsState(v: Volume, a: M.State) {
    VolumeOk(v) && FilesOf(v) == Files(a.dir, a.contents)
  }

  class Session {
    const fs: FileSys
    var fds: map<nat, File>
    var nextFd: nat

    constructor (fs: FileSys)
      requires fs.files == {}
      ensures this.fs == fs && fds == map[] && Linked()
    {
      this.fs := fs;
      fds := map[];
      nextFd := 2;
    }

    /** The descriptors in use are those of the open files, one each. */
    ghost predicate Linked()
      reads this, fs`files
    {
      // Named, so that the verifier takes the conjunction as one assertion.
      var ok :=
        && (forall fd :: fd in fds ==> fd < nextFd && fds[fd] in fs.files)
        && (forall fd, fe :: fd in fds && fe in fds && fds[fd] == fds[fe] ==> fd == fe)
        && (forall f :: f in fs.files ==> f in fds.Values);
      ok
    }

    ghost predicate Valid()
      reads this, fs, fs.dev, fs.freeMap.elems, fs.freeMapFile.inode, fs.openInodes, fs.files
    {
      fs.Valid() && fs.AtRest() && Linked()
    }

    ghost function HandleOf(f: File): M.Handle
      reads f
    {
      M.Handle(f.inode.sector, f.pos, f.denyWrite)
    }

    ghost function Handles(): map<nat, M.Handle>
      requires Linked()
      reads this, fs`files, fs.files
    {
      map fd | fd in fds :: HandleOf(fds[fd])
    }

    /** What the file system looks like to its callers. */
    ghost function Abs(): M.State
      requires Valid()
      reads this, fs, fs.dev, fs.freeMap.elems, fs.freeMapFile.inode, fs.openInodes, fs.files
    {
      M.State(fs.Files().dir, fs.Files().contents, Handles())
    }

    lemma OpenOnIs(id: nat)
      requires Valid()
      ensures fs.OpenOn(id) <==> M.IsOpen(Abs(), id)
    {
      hide FileSys.Valid, FileSys.Files;
      if fs.OpenOn(id) {
        var f :| f in fs.files && f.inode.sector == id;
        assert f in fds.Values;
        var fd :| fd in fds && fds[fd] == f;
        assert Abs().handles[fd].id == id;
      }
      if fd :| fd in Abs().handles && Abs().handles[fd].id == id {
        assert fds[fd] in fs.files;
      }
    }

    /** The files that exist are those referred to. */
    lemma Existing(id: nat)
      requires Valid()
      ensures id in Abs().contents <==> M.Referenced(Abs(), id)
    {
      hide FileSys.Valid, FileSys.Files;
      fs.LiveFiles(id);
      OpenOnIs(id);
    }

    /** What a descriptor in use stands for. */
    lemma HandleIs(fd: nat)
      requires Linked() && fd in fds
      ensures fds[fd] in fs.files && fd in Handles() && Handles()[fd] == HandleOf(fds[fd])
    {
    }

    lemma UsedIs()
      requires Linked()
      ensures Handles().Keys == fds.Keys
    {
    }

    /** Descriptors and the files behind them are as they were. */
    twostate lemma SameHandles()
      requires old(Linked()) && fds == old(fds) && nextFd == old(nextFd) && fs.files == old(fs.files)
      requires forall f :: f in fs.files ==> f.pos == old(f.pos) && f.denyWrite == old(f.denyWrite)
      ensures Linked() && Handles() == old(Handles())
    {
    }

    /** Whether the name leads to a file, on the disk and in the model. */
    lemma ReachesIs(name: Name, mem: Memory)
      requires Valid()
      ensures fs.Mounted() && fs.Tab() == Abs().dir
      ensures RootOpens(fs.openInodes, mem) <==> M.RootOpens(mem)
      ensures RootOpens(fs.openInodes, mem) && fs.InodeOpens(name, mem) <==> M.Reaches(Abs(), name, mem)
      ensures M.Reaches(Abs(), name, mem) ==> Find(Abs().dir, name, mem.lookup).Some?
      ensures Find(Abs().dir, name, mem.lookup).Some? ==>
        (SectorFound(Abs().dir, name, mem.lookup) in OpenSectors(fs.openInodes) <==>
         M.IsOpen(Abs(), SectorFound(Abs().dir, name, mem.lookup)))
    {
      hide FileSys.Valid, FileSys.Files, FileSys.AtRest, FileSys.InodeOpens, FileSys.Tab, Find, SectorFound,
        OpenSectors, RootOpens, Linked, Handles, FileSys.Mounted;
      fs.IsMounted();
      fs.OpensFound(name, mem);
      fs.RootIsClosed(mem);
      if Find(Abs().dir, name, mem.lookup).Some? {
        fs.OpenIsHeld(SectorFound(Abs().dir, name, mem.lookup));
        OpenOnIs(SectorFound(Abs().dir, name, mem.lookup));
      }
    }

    /** Whether a create succeeds, on the disk and in the model. */
    lemma CreatesIs(name: Name, size: nat, mem: Memory)
      requires Valid()
      ensures fs.Mounted() && fs.Tab() == Abs().dir
      ensures |fs.V().elems| == ElemCnt(|fs.V().d|)
      ensures fs.ReachesAdd(size, mem) <==> mem.diskInode && RoomOn(fs.V(), size, mem)
      ensures RootOpens(fs.openInodes, mem) <==> M.RootOpens(mem)
      ensures RootOpens(fs.openInodes, mem) && fs.ReachesAdd(size, mem) && fs.AddStores(name, mem)
        <==> M.Creates(Abs(), name, mem, Room(fs.V(), M.Create(name, size), mem))
    {
      hide FileSys.Valid, FileSys.Files, FileSys.AtRest, FileSys.AddStores, FileSys.Tab, Stores, OpenSectors,
        RootOpens, Linked, Handles, FileSys.Mounted, RoomOn, BitsOf;
      fs.IsMounted();
      fs.MapSize();
      fs.StoresEntry(name, mem);
      fs.RootIsClosed(mem);
    }

    method Create(name: Name, size: nat, mem: Memory) returns (res: M.Result)
      requires Valid() && IsCString(name) && size <= OFF_MAX
      modifies fs, fs.inodes, fs.dev, fs.freeMap.elems
      ensures Valid() && DiskStep(old(fs.V()), old(Abs()), M.Create(name, size), mem, res, fs.V(), Abs())
      ensures fresh(fs.inodes - old(fs.inodes)) && fs.files == old(fs.files)
    {
      hide FileSys.Valid, FileSys.Files, FileSys.ReachesAdd, M.Step, FreeSlot, Find, FileSys.Tab, M.Creates,
        RoomOn, Room, Linked, Handles, FileSys.AtRest, FileSys.AddStores, SectorsOf, FileSys.LostWith, Entered,
        SlotEntered, FileSys.Mounted, RootOpens, OpenSectors, Zeros, HandleOf, MarksCreated, BitsOf, M.RootOpens,
        MarksStep;
      ghost var room := Room(fs.V(), M.Create(name, size), mem);
      fs.UsersAreLive();
      CreatesIs(name, size, mem);
      ghost var lost := fs.LostWith(SlotEntered(fs.Tab(), mem.search));
      LostListed(mem);
      fs.MapSize();
      ghost var v, reached := fs.V(), RootOpens(fs.openInodes, mem) && fs.ReachesAdd(size, mem);
      var ok, sector := fs.Create(name, size, mem);
      SameHandles();
      fs.MapSize();
      if ok {
        res := M.Done;
        CreateStep(name, size, mem, room, sector, lost);
      } else {
        res := M.Failed;
        M.CreateFails(Abs(), name, size, mem, room);
      }
      CreateMarks(v, old(Abs()), name, size, mem, reached, res, fs.V());
    }

    twostate lemma CreateStep(
      new name: Name, new size: nat, new mem: Memory, new room: bool, new id: nat, new lost: set<nat>)
      requires old(Valid()) && Valid() && Abs().handles == old(Abs()).handles
      requires M.Creates(old(Abs()), name, mem, room)
      requires id !in old(Abs()).contents && id !in SectorsOf(old(Abs()).dir) && lost <= SectorsOf(old(Abs()).dir)
      requires Abs().dir == Entered(old(Abs()).dir, mem.search, name, id)
      requires Abs().contents == (old(Abs()).contents - lost)[id := Zeros(size)]
      ensures M.Step(old(Abs()), M.Create(name, size), mem, room, M.Done, Abs())
    {
      hide FileSys.Valid, FileSys.Files, M.Step, Linked, HandleOf, Handles, FreeSlot, Find, SectorsOf, M.Creates,
        Abs, Entered;
      forall x
        ensures x in Abs().contents <==> M.Referenced(Abs(), x)
      {
        Existing(x);
      }
      M.CreateIs(old(Abs()), name, size, mem, room, id, lost, Abs());
    }

    lemma LostListed(mem: Memory)
      requires Valid()
      ensures fs.LostWith(SlotEntered(Abs().dir, mem.search)) <= SectorsOf(Abs().dir)
    {
      hide FileSys.Valid, FileSys.Files, FreeSlot;
    }

    twostate lemma RemoveStep(new name: Name, new mem: Memory)
      requires old(Valid()) && Valid() && Handles() == old(Handles()) && M.Reaches(old(Abs()), name, mem) && mem.entry
      requires fs.Files().dir == Erased(old(fs.Files()).dir, name, mem.lookup)
      requires fs.Files().contents == old(fs.Files()).contents
        || fs.Files().contents == old(fs.Files()).contents - {SectorFound(old(fs.Files()).dir, name, mem.lookup)}
      ensures M.Step(old(Abs()), M.Remove(name), mem, false, M.Done, Abs())
    {
      hide FileSys.Valid, FileSys.Files, M.Step, Linked, HandleOf, Handles, Find, SectorFound, Erased, M.Reaches;
      forall id
        ensures id in Abs().contents <==> M.Referenced(Abs(), id)
      {
        Existing(id);
      }
      M.RemoveIs(old(Abs()), name, mem, false, Abs());
    }

    method Remove(name: Name, mem: Memory) returns (res: M.Result)
      requires Valid()
      modifies fs, fs.inodes, fs.dev, fs.freeMap.elems
      ensures Valid() && DiskStep(old(fs.V()), old(Abs()), M.Remove(name), mem, res, fs.V(), Abs())
      ensures fresh(fs.inodes - old(fs.inodes)) && fs.files == old(fs.files)
    {
      hide FileSys.Valid, FileSys.Files, FileSys.InodeOpens, M.Collect, Find, SectorFound, Erased, FileSys.Tab,
        M.Step, OpenSectors, M.Reaches, RootOpens, MarksReleased, BitsOf, Linked, Handles, FileSys.AtRest,
        M.IsOpen, FileSys.Mounted;
      ReachesIs(name, mem);
      fs.MapSize();
      var ok := fs.Remove(name, mem);
      fs.MapSize();
      SameHandles();
      if ok {
        res := M.Done;
        RemoveStep(name, mem);
      } else {
        res := M.Failed;
        M.NameOpFails(Abs(), name, mem, false);
      }
    }

    /** All open files but `file` have a descriptor, and their handles are `before`. */
    ghost predicate AllBut(file: File, before: map<nat, M.Handle>)
      reads this, fs`files, fds.Values
    {
      // Named, so that the verifier takes the conjunction as one assertion.
      var ok :=
        && file in fs.files && file !in fds.Values
        && (forall d :: d in fds ==> d < nextFd && fds[d] in fs.files)
        && (forall d, e :: d in fds && e in fds && fds[d] == fds[e] ==> d == e)
        && (forall f :: f in fs.files ==> f in fds.Values || f == file)
        && before.Keys == fds.Keys && (forall d :: d in fds ==> before[d] == HandleOf(fds[d]));
      ok
    }

    twostate lemma FileAdded(new file: File)
      requires old(Linked()) && fds == old(fds) && nextFd == old(nextFd)
      requires file !in old(fs.files) && fs.files == old(fs.files) + {file}
      requires forall f :: f in old(fs.files) ==> f.pos == old(f.pos) && f.denyWrite == old(f.denyWrite)
      ensures AllBut(file, old(Handles()))
    {
      assert forall d :: d in fds ==> fds[d] in old(fs.files);
    }

    twostate lemma Installed(file: File, new fd: nat, new before: map<nat, M.Handle>)
      requires old(AllBut(file, before)) && fs.files == old(fs.files) && unchanged(fs.files)
      requires fd == old(nextFd) && nextFd == fd + 1 && fds == old(fds)[fd := file]
      ensures Linked() && fd !in before && Handles() == before[fd := HandleOf(file)]
    {
      forall f | f in fs.files
        ensures f in fds.Values
      {
        if f == file { assert fds[fd] == f; }
        else {
          var d :| d in old(fds) && old(fds)[d] == f;
          assert fds[d] == f;
        }
      }
    }

    /** A new descriptor for a new file. */
    method Install(file: File, ghost a: M.State) returns (fd: nat)
      requires fs.Valid() && fs.AtRest() && AllBut(file, a.handles) && fs.Files() == Files(a.dir, a.contents)
      modifies this
      ensures Valid() && fd !in a.handles && Abs() == a.(handles := a.handles[fd := HandleOf(file)])
    {
      hide FileSys.Valid, FileSys.AtRest, FileSys.Files, AllBut, Linked, Handles;
      fd := nextFd;
      nextFd := nextFd + 1;
      fds := fds[fd := file];
      Installed(file, fd, a.handles);
    }

    method Open(name: Name, mem: Memory) returns (res: M.Result)
      requires Valid()
      modifies this, fs, fs.inodes, fs.dev, fs.freeMap.elems
      ensures Valid() && DiskStep(old(fs.V()), old(Abs()), M.Open(name), mem, res, fs.V(), Abs())
      ensures fresh(fs.inodes - old(fs.inodes)) && fresh(fs.files - old(fs.files))
    {
      hide FileSys.Valid, FileSys.AtRest, FileSys.InodeOpens, FilesOf, Find, FileSys.Tab, OpenSectors, AllBut, Linked,
        M.Step, M.Reaches, RootOpens, MarksStep, FileSys.Mounted, SectorFound;
      ReachesIs(name, mem);
      fs.MapSize();
      ghost var a := Abs();
      var file := fs.Open(name, mem);
      if file == null {
        SameHandles();
        M.NameOpFails(Abs(), name, mem, false);
        res := M.Failed;
      } else {
        FileAdded(file);
        var fd := Install(file, a);
        M.OpenIs(a, name, fd, mem, false, Abs());
        res := M.Opened(fd);
      }
      SameMarks(old(fs.V()), old(Abs()), M.Open(name), mem, res, fs.V());
    }

    method Reopen(fd: nat, mem: Memory) returns (res: M.Result)
      requires Valid()
      modifies this, fs, fs.inodes, fs.dev, fs.freeMap.elems
      ensures Valid() && DiskStep(old(fs.V()), old(Abs()), M.Reopen(fd), mem, res, fs.V(), Abs())
      ensures fresh(fs.inodes - old(fs.inodes)) && fresh(fs.files - old(fs.files))
    {
      hide FileSys.Valid, FileSys.AtRest, FilesOf, M.Step, MarksStep;
      if fd !in fds {
        M.ReopenFails(Abs(), fd, mem, false);
        fs.MapSize();
        SameMarks(fs.V(), Abs(), M.Reopen(fd), mem, M.Failed, fs.V());
        return M.Failed;
      }
      res := ReopenOpen(fd, mem);
    }

    method ReopenOpen(fd: nat, mem: Memory) returns (res: M.Result)
      requires Valid() && fd in fds
      modifies this, fs`openInodes, fs`pins, fs`files, fs`owner, fs`live, fs.inodes, fs.dev, fs.freeMap.elems
      ensures Valid() && DiskStep(old(fs.V()), old(Abs()), M.Reopen(fd), mem, res, fs.V(), Abs())
      ensures fresh(fs.files - old(fs.files))
    {
      hide FileSys.Valid, FileSys.AtRest, FilesOf, M.Step, AllBut, Linked, Handles, MarksStep;
      HandleIs(fd);
      fs.MapSize();
      ghost var a := Abs();
      var file := fs.Reopen(fds[fd], mem);
      if file == null {
        SameHandles();
        M.ReopenFails(Abs(), fd, mem, false);
        res := M.Failed;
      } else {
        FileAdded(file);
        var fe := Install(file, a);
        M.ReopenIs(a, fd, fe, mem, false, Abs());
        res := M.Opened(fe);
      }
      SameMarks(old(fs.V()), old(Abs()), M.Reopen(fd), mem, res, fs.V());
    }

    method Close(fd: nat, mem: Memory) returns (res: M.Result)
      requires Valid()
      modifies this, fs, fs.inodes, fs.files, fs.dev, fs.freeMap.elems
      ensures Valid() && DiskStep(old(fs.V()), old(Abs()), M.Close(fd), mem, res, fs.V(), Abs())
      ensures fresh(fs.inodes - old(fs.inodes)) && fresh(fs.files - old(fs.files))
    {
      hide FileSys.Valid, FileSys.Files, M.Step, Linked, Handles, FileSys.AtRest, SectorsOf, MarksStep,
        MarksReleased, BitsOf, FileSys.OpenElsewhere;
      UsedIs();
      fs.MapSize();
      if fd !in fds {
        M.NotOpen(Abs(), fd, mem, false);
        SameMarks(fs.V(), Abs(), M.Close(fd), mem, M.Failed, fs.V());
        return M.Failed;
      }
      HandleIs(fd);
      var f := fds[fd];
      ReferencedIs(fd);
      fs.Close(f, mem);
      fds := fds - {fd};
      fs.MapSize();
      Uninstalled(fd);
      CloseStep(fd, mem);
      CloseMarks(old(fs.V()), old(Abs()), fd, mem, fs.V());
      return M.Done;
    }

    /** What still refers to the file behind a descriptor once that is gone. */
    lemma ReferencedIs(fd: nat)
      requires Valid() && fd in fds
      ensures
        var a, id := Abs(), fds[fd].inode.sector;
        M.Referenced(a.(handles := a.handles - {fd}), id) ==>
          id in SectorsOf(fs.Files().dir) || fs.OpenElsewhere(id, fds[fd])
    {
      hide FileSys.Valid, FileSys.Files, FileSys.AtRest;
      var a, id := Abs(), fds[fd].inode.sector;
      var b := a.(handles := a.handles - {fd});
      if d :| d in b.handles && b.handles[d].id == id {
        assert fds[d] in fs.files && fds[d] != fds[fd];
      }
    }

    twostate lemma CloseStep(new fd: nat, new mem: Memory)
      requires old(Valid()) && Valid() && fd in old(fds) && Handles() == old(Handles()) - {fd}
      requires fs.Files().dir == old(fs.Files()).dir
      requires fs.Files().contents.Keys <= old(fs.Files()).contents.Keys
      requires forall id :: id in fs.Files().contents ==> fs.Files().contents[id] == old(fs.Files()).contents[id]
      ensures M.Step(old(Abs()), M.Close(fd), mem, false, M.Done, Abs())
    {
      hide FileSys.Valid, FileSys.Files, M.Step, HandleOf;
      forall id
        ensures id in Abs().contents <==> M.Referenced(Abs(), id)
      {
        Existing(id);
      }
      M.CloseIs(old(Abs()), fd, mem, false, Abs());
    }

    twostate lemma Uninstalled(fd: nat)
      requires old(Linked()) && fd in old(fds) && fds == old(fds) - {fd} && nextFd == old(nextFd)
      requires fs.files == old(fs.files) - {old(fds)[fd]}
      requires forall f :: f in fs.files ==> f.pos == old(f.pos) && f.denyWrite == old(f.denyWrite)
      ensures Linked() && Handles() == old(Handles()) - {fd}
    {
      forall f | f in fs.files
        ensures f in fds.Values
      {
        var d :| d in old(fds) && old(fds)[d] == f;
        assert fds[d] == f;
      }
    }

    /** Only the file behind `fd` moved or changed its mind about writes. */
    twostate lemma OneHandle(fd: nat)
      requires old(Linked()) && fd in fds && fds == old(fds) && nextFd == old(nextFd) && fs.files == old(fs.files)
      requires forall f :: f in fs.files && f != fds[fd] ==> f.pos == old(f.pos) && f.denyWrite == old(f.denyWrite)
      ensures Linked() && Handles() == old(Handles())[fd := HandleOf(fds[fd])]
    {
    }

    method Seek(fd: nat, pos: nat, mem: Memory) returns (res: M.Result)
      requires Valid()
      modifies fs.files
      ensures Valid() && DiskStep(old(fs.V()), old(Abs()), M.Seek(fd, pos), mem, res, fs.V(), Abs())
    {
      hide FileSys.Valid, FileSys.Files, MarksStep;
      fs.MapSize();
      SameMarks(fs.V(), Abs(), M.Seek(fd, pos), mem, if fd in fds then M.Done else M.Failed, fs.V());
      if fd !in fds {
        return M.Failed;
      }
      fs.Seek(fds[fd], pos);
      OneHandle(fd);
      return M.Done;
    }

    method Deny(fd: nat, mem: Memory) returns (res: M.Result)
      requires Valid()
      modifies fs.files, fs.inodes
      ensures Valid() && DiskStep(old(fs.V()), old(Abs()), M.Deny(fd), mem, res, fs.V(), Abs())
    {
      hide FileSys.Valid, MarksStep;
      fs.MapSize();
      SameMarks(fs.V(), Abs(), M.Deny(fd), mem, if fd in fds then M.Done else M.Failed, fs.V());
      if fd !in fds {
        return M.Failed;
      }
      fs.FileInode(fds[fd]);
      fs.DenyWrite(fds[fd]);
      OneHandle(fd);
      return M.Done;
    }

    method Allow(fd: nat, mem: Memory) returns (res: M.Result)
      requires Valid()
      modifies fs.files, fs.inodes
      ensures Valid() && DiskStep(old(fs.V()), old(Abs()), M.Allow(fd), mem, res, fs.V(), Abs())
    {
      hide FileSys.Valid, MarksStep;
      fs.MapSize();
      SameMarks(fs.V(), Abs(), M.Allow(fd), mem, if fd in fds then M.Done else M.Failed, fs.V());
      if fd !in fds {
        return M.Failed;
      }
      fs.FileInode(fds[fd]);
      fs.AllowWrite(fds[fd]);
      OneHandle(fd);
      return M.Done;
    }

    method Read(fd: nat, size: nat, mem: Memory) returns (res: M.Result)
      requires Valid()
      modifies fs.files
      ensures Valid() && DiskStep(old(fs.V()), old(Abs()), M.Read(fd, size), mem, res, fs.V(), Abs())
    {
      hide FileSys.Valid, FileSys.Files, TransferCnt, Linked, M.Step, Handles, FileSys.AtRest, M.ToOff, MarksStep;
      UsedIs();
      fs.MapSize();
      if fd !in fds {
        M.TransferFails(Abs(), fd, size, [], mem, false);
        SameMarks(fs.V(), Abs(), M.Read(fd, size), mem, M.Failed, fs.V());
        return M.Failed;
      }
      HandleIs(fd);
      var data := fs.ReadFile(fds[fd], M.ToOff(size), mem.transfer);
      OneHandle(fd);
      res := M.Bytes(data);
      M.ReadIs(old(Abs()), fd, size, mem, false, data, Abs());
      SameMarks(old(fs.V()), old(Abs()), M.Read(fd, size), mem, res, fs.V());
    }

    lemma DeniedIs(fd: nat)
      requires Valid() && fd in fds
      ensures M.Denied(Abs(), Abs().handles[fd].id) <==> fs.DeniedOn(fds[fd].inode.sector)
    {
      hide FileSys.Valid, FileSys.Files;
      var id := fds[fd].inode.sector;
      if fs.DeniedOn(id) {
        var f :| f in fs.files && f.inode.sector == id && f.denyWrite;
        assert f in fds.Values;
        var d :| d in fds && fds[d] == f;
        assert Abs().handles[d].deny && Abs().handles[d].id == id;
      }
      if d :| d in Abs().handles && Abs().handles[d].id == id && Abs().handles[d].deny {
        assert fds[d] in fs.files;
      }
    }

    method Write(fd: nat, buffer: seq<byte>, mem: Memory) returns (res: M.Result)
      requires Valid()
      modifies fs.files, fs.dev
      ensures Valid() && DiskStep(old(fs.V()), old(Abs()), M.Write(fd, buffer), mem, res, fs.V(), Abs())
    {
      hide FileSys.Valid, FileSys.Files, TransferCnt, Overwrite, M.Denied, FileSys.DeniedOn, DenyingOf, Linked,
        M.Step, Handles, FileSys.AtRest, M.ToOff, MarksStep;
      UsedIs();
      fs.MapSize();
      if fd !in fds {
        M.TransferFails(Abs(), fd, 0, buffer, mem, false);
        SameMarks(fs.V(), Abs(), M.Write(fd, buffer), mem, M.Failed, fs.V());
        return M.Failed;
      }
      HandleIs(fd);
      DeniedIs(fd);
      fs.DenialIs(fds[fd]);
      var n := fs.WriteFile(fds[fd], buffer, M.ToOff(|buffer|), mem.transfer);
      fs.MapSize();
      OneHandle(fd);
      res := M.Count(n);
      M.WriteIs(old(Abs()), fd, buffer, mem, false, n, Abs());
      SameMarks(old(fs.V()), old(Abs()), M.Write(fd, buffer), mem, res, fs.V());
    }

    lemma SizeIs()
      requires Valid()
      ensures |fs.dev.sectors| == fs.freeMap.bitCnt
    {
      fs.SizeIs();
    }

    lemma StartsEmpty()
      requires Valid() && fds == map[] && fs.Files() == Files(NoEntries(), map[])
      ensures Abs() == M.EMPTY
    {
      hide FileSys.Valid, FileSys.Files;
      assert Handles() == map[];
      assert NoEntries() == M.EMPTY.dir;
    }

    /** The volume at the end of a run. */
    lemma Ends()
      requires Valid()
      ensures HoldsState(fs.V(), Abs())
      ensures fds == map[] <==> Abs().handles == map[]
      ensures fds == map[] ==> Closed(fs.V())
    {
      hide FileSys.InodesOk, VolumeOk, FilesOf, SectorsOf, Table, FileSys.CountsOk;
      fs.VolumeIs();
      assert fds.Keys == Abs().handles.Keys;
      if fds == map[] {
        assert fs.files == {};
        fs.NoneOpen();
      }
    }

    /** One operation of a run. */
    method Apply(op: M.Op, mem: Memory) returns (res: M.Result)
      requires Valid() && Accepts(op)
      modifies this, fs, fs.inodes, fs.files, fs.dev, fs.freeMap.elems
      ensures Valid() && DiskStep(old(fs.V()), old(Abs()), op, mem, res, fs.V(), Abs())
      ensures fresh(fs.inodes - old(fs.inodes)) && fresh(fs.files - old(fs.files))
    {
      hide FileSys.Valid, FileSys.Files, M.Step, FileSys.AtRest, Linked, DiskStep;
      match op
      case Create(name, size) => res := Create(name, size, mem);
      case Remove(name) => res := Remove(name, mem);
      case Open(name) => res := Open(name, mem);
      case Reopen(fd) => res := Reopen(fd, mem);
      case Close(fd) => res := Close(fd, mem);
      case Read(fd, size) => res := Read(fd, size, mem);
      case Write(fd, buffer) => res := Write(fd, buffer, mem);
      case Seek(fd, pos) => res := Seek(fd, pos, mem);
      case Deny(fd) => res := Deny(fd, mem);
      case Allow(fd) => res := Allow(fd, mem);
    }
  }

  /** What the disk says to each operation. */
  ghost function Rooms(disks: seq<Volume>, ops: seq<M.Op>, mems: seq<Memory>): (r: seq<bool>)
    requires |disks| == |ops| + 1 && |mems| == |ops|
    ensures |r| == |ops|
  {
    seq(|ops|, i requires 0 <= i < |ops| => Room(disks[i], ops[i], mems[i]))
  }

  /** A run on a disk: between the operations it holds the model's states, and its free map
      changes as the operations say. */
  ghost predicate IsDiskRun(
    disks: seq<Volume>, states: seq<M.State>, ops: seq<M.Op>, mems: seq<Memory>, results: seq<M.Result>)
  {
    && |disks| == |states| == |ops| + 1 && |mems| == |results| == |ops|
    && M.IsRun(states, ops, mems, Rooms(disks, ops, mems), results)
    && (forall i :: 0 <= i <= |ops| ==> HoldsState(disks[i], states[i]))
    && (forall i :: 0 <= i < |ops| ==> MarksStep(disks[i], states[i], ops[i], mems[i], results[i], disks[i + 1]))
  }

  lemma DiskRunIs(
    disks: seq<Volume>, states: seq<M.State>, ops: seq<M.Op>, mems: seq<Memory>, results: seq<M.Result>)
    requires |disks| == |states| == |ops| + 1 && |mems| == |results| == |ops|
    requires forall i :: 0 <= i <= |ops| ==> HoldsState(disks[i], states[i])
    requires forall i :: 0 <= i < |ops| ==>
      DiskStep(disks[i], states[i], ops[i], mems[i], results[i], disks[i + 1], states[i + 1])
    ensures IsDiskRun(disks, states, ops, mems, results)
  {
    hide M.Step, MarksStep, Room, HoldsState;
    forall i | 0 <= i < |ops|
      ensures M.Step(states[i], ops[i], mems[i], Rooms(disks, ops, mems)[i], results[i], states[i + 1])
      ensures MarksStep(disks[i], states[i], ops[i], mems[i], results[i], disks[i + 1])
    {
      assert DiskStep(disks[i], states[i], ops[i], mems[i], results[i], disks[i + 1], states[i + 1]);
    }
  }

  /** Operations in sequence, whichever allocations fail. */
  method RunOps(session: Session, ops: seq<M.Op>, mems: seq<Memory>)
    returns (results: seq<M.Result>, ghost states: seq<M.State>, ghost disks: seq<Volume>)
    requires session.Valid() && |mems| == |ops| && forall i :: 0 <= i < |ops| ==> Accepts(ops[i])
    modifies session, session.fs, session.fs.inodes, session.fs.files, session.fs.dev, session.fs.freeMap.elems
    ensures session.Valid() && |session.fs.dev.sectors| == |old(session.fs.dev.sectors)|
    ensures IsDiskRun(disks, states, ops, mems, results)
    ensures states[0] == old(session.Abs()) && states[|ops|] == session.Abs()
    ensures disks[0] == old(session.fs.V()) && disks[|ops|] == session.fs.V()
  {
    hide FileSys.Valid, FileSys.Files, FileSys.AtRest, Session.Valid, Session.Abs, DiskStep, HoldsState, IsDiskRun,
      Closed;
    var fs := session.fs;
    session.SizeIs();
    session.Ends();
    results, states, disks := [], [session.Abs()], [fs.V()];
    var i := 0;
    while i < |ops|
      invariant 0 <= i <= |ops| && session.Valid()
      invariant fresh(fs.inodes - old(session.fs.inodes)) && fresh(fs.files - old(session.fs.files))
      invariant |fs.dev.sectors| == fs.freeMap.bitCnt
      invariant |results| == i && |states| == i + 1 && states[0] == old(session.Abs()) && states[i] == session.Abs()
      invariant |disks| == i + 1 && disks[0] == old(session.fs.V()) && disks[i] == fs.V()
      invariant forall k :: 0 <= k <= i ==> HoldsState(disks[k], states[k])
      invariant forall k :: 0 <= k < i ==>
        DiskStep(disks[k], states[k], ops[k], mems[k], results[k], disks[k + 1], states[k + 1])
    {
      var res := session.Apply(ops[i], mems[i]);
      session.SizeIs();
      session.Ends();
      results := results + [res];
      states := states + [session.Abs()];
      disks := disks + [fs.V()];
      i := i + 1;
    }
    DiskRunIs(disks, states, ops, mems, results);
  }

  /** Every run of operations on a freshly formatted disk, whichever allocations fail, is a run of
      the model from the empty state: `disks` are the volumes that hold its states, the first with
      nothing marked but the two system files, the last what is then on the disk. */
  method Run(dev: Device, mem: FormatMemory, ops: seq<M.Op>, mems: seq<Memory>)
    returns (formatted: bool, results: seq<M.Result>, closed: bool, ghost states: seq<M.State>,
      ghost disks: seq<Volume>)
    requires 2 <= |dev.sectors| < WORD && |mems| == |ops|
    requires forall i :: 0 <= i < |ops| ==> Accepts(ops[i])
    modifies dev
    ensures |dev.sectors| == |old(dev.sectors)|
    ensures formatted <==> Suffices(mem, |dev.sectors|) && 2 + MapSectors(|dev.sectors|) + 1 <= |dev.sectors|
    ensures formatted ==> IsDiskRun(disks, states, ops, mems, results) && states[0] == M.EMPTY
    ensures formatted ==>
      && |disks[0].d| == |dev.sectors| && |disks[0].elems| == ElemCnt(|disks[0].d|)
      && Prefix(Bits(disks[0]), 2 + MapSectors(|dev.sectors|) + 1)
    ensures formatted ==>
      && disks[|ops|].d == dev.sectors
      && (closed <==> states[|ops|].handles == map[]) && (closed ==> Closed(disks[|ops|]))
  {
    hide FileSys.Valid, FileSys.Files, FileSys.AtRest, MapSectors, VolumeOk, FilesOf, Closed, Prefix,
      FileSys.UpToDate, Suffices, BitsOf, MarksStep, M.IsRun, HoldsState;
    results, closed, states, disks := [], false, [], [];
    var fs := FormatDisk(dev, mem);
    if fs == null {
      return false, results, closed, states, disks;
    }
    var session := new Session(fs);
    session.StartsEmpty();
    fs.MapSize();
    results, states, disks := RunOps(session, ops, mems);
    formatted := true;
    closed := session.fds == map[];
    session.Ends();
  }

  /** Files survive a shutdown: when a run has closed everything, mounting the disk again gives the
      directory and the files of the run's last state, however far the free map file had fallen
      behind. */
  method Restart(dev: Device, mem: FormatMemory, ops: seq<M.Op>, mems: seq<Memory>, bounceOk: bool)
    returns (fs: FileSys?, results: seq<M.Result>, ghost states: seq<M.State>, ghost disks: seq<Volume>)
    requires 2 <= |dev.sectors| < WORD && |mems| == |ops|
    requires forall i :: 0 <= i < |ops| ==> Accepts(ops[i])
    requires Suffices(mem, |dev.sectors|) && Succeeds(|dev.sectors|, bounceOk)
    requires 2 + MapSectors(|dev.sectors|) + 1 <= |dev.sectors|
    modifies dev
    ensures IsDiskRun(disks, states, ops, mems, results) && states[0] == M.EMPTY
    ensures |disks[0].d| == |dev.sectors| && |disks[0].elems| == ElemCnt(|disks[0].d|)
    ensures Prefix(Bits(disks[0]), 2 + MapSectors(|dev.sectors|) + 1)
    ensures fs != null <==> states[|ops|].handles == map[]
    ensures fs != null ==>
      && fs.Valid() && fs.AtRest() && fs.UpToDate()
      && fs.Files() == Files(states[|ops|].dir, states[|ops|].contents)
  {
    hide FileSys.Valid, FileSys.Files, FileSys.AtRest, MapSectors, VolumeOk, FilesOf, Closed, FileSys.UpToDate,
      Suffices, Succeeds, MarksStep, M.IsRun, Prefix, BitsOf;
    var _, out, closed, run, vs := Run(dev, mem, ops, mems);
    results, states, disks := out, run, vs;
    fs := null;
    if closed {
      assert HoldsState(disks[|ops|], states[|ops|]);
      fs := MountDisk(dev, bounceOk, disks[|ops|]);
    }
  }
}
