/** Page directories (src/userprog/pagedir.c): two-level tables that amount to a flat map from user
    pages to frames, for any number of page directories at once. */
module Pagedir {
  import opened Words
  import opened Masks
  import opened PageTables
  import opened Sequences
  import opened Vaddr

  /** Entries of a directory or table, and of a directory for user addresses. */
  const ENTRIES: nat := 1024
  const USER: nat := 768
  const USER_PAGES: nat := 0xc_0000

  /** The page number that an entry points to. */
  function PageOf(e: uint32): nat { KERNEL + e / 4096 }

  lemma PageOfIs(e: uint32)
    ensures PdeGetPt(e) == PageOf(e) * 4096 == PteGetPage(e)
  {
    hide Pow2, And;
    Pow12();
    AndHigh(e / 4096, e % 4096, 0xf_ffff, 12);
    AndMask(e / 4096, 20);
  }

  /** What a page of entries is for: a directory, or the table of entry `i` of one. */
  datatype Use = Dir | Table(pd: nat, i: nat)

  /** The pages that hold directories and tables. */
  datatype Tables = Tables(words: map<nat, seq<uint32>>, use: map<nat, Use>)

  ghost predicate IsDir(t: Tables, pd: nat) { pd in t.use && t.use[pd] == Dir }

  /** An entry of the user half of a directory is zero or points to the table made for it. */
  ghost predicate PdeOk(t: Tables, pd: nat, i: nat)
    requires pd in t.words && i < |t.words[pd]|
  {
    var e := t.words[pd][i];
    e == 0 || (Present(e) && PageOf(e) in t.use && t.use[PageOf(e)] == Table(pd, i))
  }

  /** The kernel half of a directory is that of init_page_dir. */
  ghost predicate DirOk(t: Tables, init: seq<uint32>, pd: nat)
    requires pd in t.words && |t.words[pd]| == ENTRIES == |init|
  {
    && (forall i :: 0 <= i < USER ==> PdeOk(t, pd, i))
    && (forall i :: USER <= i < ENTRIES ==> t.words[pd][i] == init[i])
  }

  ghost predicate TablesOk(t: Tables, init: seq<uint32>) {
    && |init| == ENTRIES && t.use.Keys == t.words.Keys
    && (forall p :: p in t.words ==> KERNEL <= p < 0x10_0000 && |t.words[p]| == ENTRIES)
    && (forall p :: IsDir(t, p) ==> DirOk(t, init, p))
    && (forall p :: p in t.use && t.use[p].Table? ==>
          IsDir(t, t.use[p].pd) && t.use[p].i < USER && PointsAt(t, t.use[p].pd, t.use[p].i, p))
  }

  ghost predicate PointsAt(t: Tables, pd: nat, i: nat, p: nat) {
    pd in t.words && i < |t.words[pd]| && t.words[pd][i] != 0 && PageOf(t.words[pd][i]) == p
  }

  datatype Frame = Frame(no: nat, writable: bool)

  ghost function FrameOf(e: uint32): Option<Frame> {
    if Present(e) then Some(Frame(PageOf(e), Writable(e))) else None
  }

  /** The flat map: what a directory makes of user page `u`. */
  ghost function Lookup(t: Tables, init: seq<uint32>, pd: nat, u: nat): Option<Frame>
    requires TablesOk(t, init) && IsDir(t, pd) && u < USER_PAGES
  {
    assert DirOk(t, init, pd) && PdeOk(t, pd, u / ENTRIES);
    var e := t.words[pd][u / ENTRIES];
    if e == 0 then None else FrameOf(t.words[PageOf(e)][u % ENTRIES])
  }

  // ----- Changes -----

  /** A page table entry is written. */
  ghost function WithPte(t: Tables, pt: nat, j: nat, e: uint32): Tables
    requires pt in t.words && j < |t.words[pt]|
  {
    var page: seq<uint32> := t.words[pt][j := e];
    t.(words := t.words[pt := page])
  }

  lemma PutPte(t: Tables, init: seq<uint32>, pd: nat, u: nat, e: uint32)
    requires TablesOk(t, init) && IsDir(t, pd) && u < USER_PAGES && t.words[pd][u / ENTRIES] != 0
    ensures PageOf(t.words[pd][u / ENTRIES]) in t.words
    ensures var t' := WithPte(t, PageOf(t.words[pd][u / ENTRIES]), u % ENTRIES, e);
      && TablesOk(t', init)
      && (forall qd, v: nat :: IsDir(t, qd) && v < USER_PAGES ==>
           Lookup(t', init, qd, v) == if qd == pd && v == u then FrameOf(e) else Lookup(t, init, qd, v))
  {
    var i := u / ENTRIES;
    assert DirOk(t, init, pd) && PdeOk(t, pd, i);
    var pt := PageOf(t.words[pd][i]);
    var t' := WithPte(t, pt, u % ENTRIES, e);
    PteKeeps(t, init, pt, u % ENTRIES, e);
    forall qd, v: nat | IsDir(t, qd) && v < USER_PAGES
      ensures Lookup(t', init, qd, v) == if qd == pd && v == u then FrameOf(e) else Lookup(t, init, qd, v)
    {
      assert DirOk(t, init, qd) && PdeOk(t, qd, v / ENTRIES);
      SamePage(u, v);
    }
  }

  lemma SamePage(u: nat, v: nat)
    ensures u == v <==> u / ENTRIES == v / ENTRIES && u % ENTRIES == v % ENTRIES
  {
  }

  lemma PteKeeps(t: Tables, init: seq<uint32>, pt: nat, j: nat, e: uint32)
    requires TablesOk(t, init) && pt in t.use && t.use[pt].Table? && j < ENTRIES
    ensures TablesOk(WithPte(t, pt, j, e), init)
  {
    var t' := WithPte(t, pt, j, e);
    forall p | IsDir(t', p)
      ensures DirOk(t', init, p)
    {
      assert DirOk(t, init, p);
      forall i | 0 <= i < USER
        ensures PdeOk(t', p, i)
      {
        assert PdeOk(t, p, i);
      }
    }
  }

  function Zeros(): (z: seq<uint32>)
    ensures |z| == ENTRIES && forall i :: 0 <= i < ENTRIES ==> z[i] == 0
  {
    seq(ENTRIES, i => 0)
  }

  /** An empty table is made for entry `i` of a directory. */
  ghost function WithTable(t: Tables, pd: nat, i: nat, p: KernelPage): Tables
    requires pd in t.words && i < |t.words[pd]|
  {
    PdeIs(p);
    var dir: seq<uint32> := t.words[pd][i := PdeCreate(p * 4096)];
    Tables(t.words[pd := dir][p := Zeros()], t.use[p := Table(pd, i)])
  }

  lemma DirsOk(t: Tables, init: seq<uint32>)
    requires TablesOk(t, init)
    ensures forall qd :: IsDir(t, qd) ==> DirOk(t, init, qd)
  {
  }

  lemma AddTableOk(t: Tables, init: seq<uint32>, pd: nat, i: nat, p: KernelPage)
    requires TablesOk(t, init) && IsDir(t, pd) && i < USER && t.words[pd][i] == 0 && p !in t.words
    ensures TablesOk(WithTable(t, pd, i, p), init)
  {
    hide Present, PdeCreate, Writable, Zeros;
    PdeIs(p);
    ZeroIsAbsent();
    var t' := WithTable(t, pd, i, p);
    assert PageOf(PdeCreate(p * 4096)) == p;
    forall qd | IsDir(t', qd)
      ensures DirOk(t', init, qd)
    {
      assert DirOk(t, init, qd);
      forall k | 0 <= k < USER
        ensures PdeOk(t', qd, k)
      {
        assert PdeOk(t, qd, k);
      }
    }
  }

  lemma AddTable(t: Tables, init: seq<uint32>, pd: nat, i: nat, p: KernelPage)
    requires TablesOk(t, init) && IsDir(t, pd) && i < USER && t.words[pd][i] == 0 && p !in t.words
    ensures var t' := WithTable(t, pd, i, p);
      && TablesOk(t', init) && t'.words[pd][i] != 0 && PageOf(t'.words[pd][i]) == p
      && (forall qd :: IsDir(t', qd) <==> IsDir(t, qd))
      && (forall qd, v: nat :: IsDir(t, qd) && v < USER_PAGES ==> Lookup(t', init, qd, v) == Lookup(t, init, qd, v))
  {
    hide Present, PdeCreate, Writable, Zeros;
    PdeIs(p);
    ZeroIsAbsent();
    var t' := WithTable(t, pd, i, p);
    assert PageOf(PdeCreate(p * 4096)) == p;
    AddTableOk(t, init, pd, i, p);
    DirsOk(t, init);
    forall qd, v: nat | IsDir(t, qd) && v < USER_PAGES
      ensures Lookup(t', init, qd, v) == Lookup(t, init, qd, v)
    {
      AddTableLookup(t, init, pd, i, p, qd, v);
    }
  }

  lemma AddTableLookup(t: Tables, init: seq<uint32>, pd: nat, i: nat, p: KernelPage, qd: nat, v: nat)
    requires TablesOk(t, init) && IsDir(t, pd) && i < USER && t.words[pd][i] == 0 && p !in t.words
    requires TablesOk(WithTable(t, pd, i, p), init) && IsDir(t, qd) && v < USER_PAGES
    ensures Lookup(WithTable(t, pd, i, p), init, qd, v) == Lookup(t, init, qd, v)
  {
    hide Present, PdeCreate, Writable, Zeros;
    PdeIs(p);
    ZeroIsAbsent();
    assert PageOf(PdeCreate(p * 4096)) == p;
    assert DirOk(t, init, qd) && PdeOk(t, qd, v / ENTRIES);
  }

  ghost predicate NoUserPart(init: seq<uint32>) { forall i :: 0 <= i < USER && i < |init| ==> init[i] == 0 }

  /** A new directory is a copy of init_page_dir. */
  ghost function WithDir(t: Tables, init: seq<uint32>, p: nat): Tables {
    Tables(t.words[p := init], t.use[p := Dir])
  }

  lemma AddDirOk(t: Tables, init: seq<uint32>, p: KernelPage)
    requires TablesOk(t, init) && NoUserPart(init) && p !in t.words
    ensures TablesOk(WithDir(t, init, p), init)
  {
    hide Present, Writable, PageOf;
    var t' := WithDir(t, init, p);
    forall qd | IsDir(t', qd)
      ensures DirOk(t', init, qd)
    {
      if qd != p {
        assert DirOk(t, init, qd);
        forall k | 0 <= k < USER
          ensures PdeOk(t', qd, k)
        {
          assert PdeOk(t, qd, k);
        }
      }
    }
  }

  lemma AddDir(t: Tables, init: seq<uint32>, p: KernelPage)
    requires TablesOk(t, init) && NoUserPart(init) && p !in t.words
    ensures var t' := WithDir(t, init, p);
      && TablesOk(t', init) && (forall qd :: IsDir(t', qd) <==> IsDir(t, qd) || qd == p)
      && (forall v: nat :: v < USER_PAGES ==> Lookup(t', init, p, v) == None)
      && (forall qd, v: nat :: IsDir(t, qd) && v < USER_PAGES ==> Lookup(t', init, qd, v) == Lookup(t, init, qd, v))
  {
    hide Present, Writable, PageOf;
    var t' := WithDir(t, init, p);
    AddDirOk(t, init, p);
    forall qd, v: nat | IsDir(t, qd) && v < USER_PAGES
      ensures Lookup(t', init, qd, v) == Lookup(t, init, qd, v)
    {
      assert DirOk(t, init, qd) && PdeOk(t, qd, v / ENTRIES);
    }
  }

  // ----- The operations -----

  class Mmu {
    /** init_page_dir, which never changes. */
    const init: seq<uint32>
    const ramPages: nat
    var words: map<nat, seq<uint32>>
    ghost var use: map<nat, Use>
    /** The pages that the page allocator has given out. */
    ghost var used: set<nat>

    constructor (init: seq<uint32>, ramPages: nat, ghost used: set<nat>)
      requires |init| == ENTRIES && NoUserPart(init) && ramPages <= 0x4_0000
      ensures Valid() && words == map[] && this.used == used && this.init == init && this.ramPages == ramPages
    {
      this.init, this.ramPages, words, use := init, ramPages, map[], map[];
      this.used := used;
    }

    ghost function T(): Tables
      reads this`words, this`use
    {
      Tables(words, use)
    }

    ghost predicate Sound()
      reads this`words, this`use
    {
      TablesOk(T(), init) && NoUserPart(init) && ramPages <= 0x4_0000
    }

    ghost predicate Valid()
      reads this
    {
      Sound() && use.Keys <= used
    }

    ghost predicate IsPagedir(pd: nat)
      reads this`words, this`use
    {
      IsDir(T(), pd)
    }

    /** The frame that a directory maps user page `u` to. */
    ghost function Map(pd: nat, u: nat): Option<Frame>
      requires Sound() && IsPagedir(pd) && u < USER_PAGES
      reads this`words, this`use
    {
      Lookup(T(), init, pd, u)
    }

    /** palloc_get_page: `page` is what the page allocator comes up with. */
    ghost method Allocate(page: KernelPage)
      requires page !in used
      modifies this`used
      ensures used == old(used) + {page as nat}
    {
      used := used + {page};
    }

    /** pagedir_create.  `page` is the page that can be allocated, if there is one. */
    method Create(page: Option<KernelPage>) returns (pd: Option<nat>)
      requires Valid() && (page.Some? ==> page.value !in used)
      modifies this`words, this`use, this`used
      ensures Valid() && (pd.Some? <==> page.Some?)
      ensures pd.None? ==> words == old(words) && use == old(use) && used == old(used)
      ensures pd.Some? ==> !old(IsPagedir(pd.value)) && used == old(used) + {pd.value}
      ensures forall qd: nat :: IsPagedir(qd) <==> old(IsPagedir(qd)) || pd == Some(qd)
      ensures pd.Some? ==> forall v: nat :: v < USER_PAGES ==> Map(pd.value, v) == None
      ensures forall qd, v: nat :: old(IsPagedir(qd)) && v < USER_PAGES ==> Map(qd, v) == old(Map(qd, v))
    {
      hide TablesOk, Lookup, NoUserPart;
      if page.None? {
        return None;
      }
      KeysAre(T(), init);
      AddDir(T(), init, page.value);
      Allocate(page.value);
      words, use := words[page.value := init], use[page.value := Dir];
      return Some(page.value);
    }

    /** lookup_page: the page table and the index of the entry for user page `u`; `None` if there is
        no table and none is created. */
    method LookupPage(pd: nat, u: nat, create: bool, page: Option<KernelPage>) returns (pte: Option<(nat, nat)>)
      requires Valid() && IsPagedir(pd) && u < USER_PAGES && (page.Some? ==> page.value !in used)
      modifies this`words, this`use, this`used
      ensures Valid() && forall qd :: IsPagedir(qd) <==> old(IsPagedir(qd))
      ensures forall qd, v: nat :: old(IsPagedir(qd)) && v < USER_PAGES ==> Map(qd, v) == old(Map(qd, v))
      ensures !create ==> words == old(words) && use == old(use) && used == old(used)
      ensures pte.None? <==> old(HasNoTable(pd, u)) && (!create || page.None?)
      ensures pte.Some? ==> !HasNoTable(pd, u) && pte.value == (PageOf(words[pd][u / ENTRIES]), u % ENTRIES)
      ensures pte.None? ==> words == old(words) && use == old(use) && used == old(used)
    {
      hide TablesOk, Lookup, NoUserPart;
      KeysAre(T(), init);
      var i, j := PdNo(u * 4096), PtNo(u * 4096);
      AddressIs(u * 4096);
      var pde := words[pd][i];
      if pde == 0 {
        if !create || page.None? {
          return None;
        }
        var p: nat := page.value;
        AddTable(T(), init, pd, i, p);
        Allocate(p);
        PdeIs(p);
        var dir: seq<uint32> := words[pd][i := PdeCreate(p * 4096)];
        words, use := words[pd := dir][p := Zeros()], use[p := Table(pd, i)];
      }
      PageOfIs(words[pd][i]);
      return Some((PdeGetPt(words[pd][i]) / 4096, j));
    }

    ghost predicate HasNoTable(pd: nat, u: nat)
      requires Valid() && IsPagedir(pd) && u < USER_PAGES
      reads this
    {
      words[pd][u / ENTRIES] == 0
    }

    /** pagedir_set_page.  The page must not be mapped, and the frame must exist. */
    method SetPage(pd: nat, u: nat, k: KernelPage, writable: bool, page: Option<KernelPage>) returns (ok: bool)
      requires Valid() && IsPagedir(pd) && u < USER_PAGES && (page.Some? ==> page.value !in used)
      requires k - KERNEL < ramPages && Map(pd, u) == None
      modifies this`words, this`use, this`used
      ensures Valid() && forall qd :: IsPagedir(qd) <==> old(IsPagedir(qd))
      ensures !ok <==> old(HasNoTable(pd, u)) && page.None?
      ensures forall qd, v: nat :: old(IsPagedir(qd)) && v < USER_PAGES ==>
        Map(qd, v) == if ok && qd == pd && v == u then Some(Frame(k, writable)) else old(Map(qd, v))
    {
      hide TablesOk, Lookup, NoUserPart, PteCreateUser, Present, Writable;
      var pte := LookupPage(pd, u, true, page);
      if pte.None? {
        return false;
      }
      PteIs(k, writable);
      var e: uint32 := PteCreateUser(k * 4096, writable);
      assert FrameOf(e) == Some(Frame(k, writable));
      KeysAre(T(), init);
      PutPte(T(), init, pd, u, e);
      WritePte(pte.value.0, pte.value.1, e);
      return true;
    }

    method WritePte(pt: nat, j: nat, e: uint32)
      requires pt in words && j < |words[pt]|
      modifies this`words
      ensures T() == WithPte(old(T()), pt, j, e)
    {
      var page: seq<uint32> := words[pt][j := e];
      words := words[pt := page];
    }

    /** pagedir_get_page: the kernel address of the byte at user address `uaddr`, or null. */
    method GetPage(pd: nat, uaddr: nat) returns (kaddr: nat)
      requires Valid() && IsPagedir(pd) && uaddr < PHYS_BASE
      modifies this`words, this`use, this`used
      ensures words == old(words) && use == old(use) && used == old(used)
      ensures kaddr == match Map(pd, uaddr / 4096) case Some(f) => f.no * 4096 + uaddr % 4096 case None => 0
    {
      hide TablesOk, NoUserPart, Present, Writable;
      var pte := LookupPage(pd, uaddr / 4096, false, None);
      EntryAt(T(), init, pd, uaddr / 4096);
      if pte.Some? && Present(words[pte.value.0][pte.value.1]) {
        PageOfIs(words[pte.value.0][pte.value.1]);
        kaddr := PteGetPage(words[pte.value.0][pte.value.1]) + uaddr % 4096;
      } else {
        kaddr := 0;
      }
    }

    /** pagedir_clear_page */
    method ClearPage(pd: nat, u: nat)
      requires Valid() && IsPagedir(pd) && u < USER_PAGES
      modifies this`words, this`use, this`used
      ensures Valid() && forall qd :: IsPagedir(qd) <==> old(IsPagedir(qd))
      ensures used == old(used)
      ensures forall qd, v: nat :: old(IsPagedir(qd)) && v < USER_PAGES ==>
        Map(qd, v) == if qd == pd && v == u then None else old(Map(qd, v))
    {
      hide TablesOk, NoUserPart, Present, Writable;
      var pte := LookupPage(pd, u, false, None);
      EntryAt(T(), init, pd, u);
      if pte.Some? && Present(words[pte.value.0][pte.value.1]) {
        var e := words[pte.value.0][pte.value.1];
        ClearPresent(e);
        PutPte(T(), init, pd, u, And(e, Not32(PTE_P)));
        WritePte(pte.value.0, pte.value.1, And(e, Not32(PTE_P)));
      }
    }

    // ----- pagedir_destroy -----

    /** No frame is mapped twice: `at` gives the page that each one is mapped at.  The frames are
        among the pages `was` in use, and none of them holds a directory or table. */
    ghost predicate MappedOnce(pd: nat, at: map<nat, nat>, was: set<nat>)
      requires Sound() && IsPagedir(pd)
      reads this`words, this`use
    {
      && use.Keys <= was
      && forall u: nat :: u < USER_PAGES && Map(pd, u).Some? ==>
           (var no := Map(pd, u).value.no; no in was && no !in use && no in at && at[no] == u)
    }

    /** Table `i` of a directory exists and is page `x`. */
    ghost predicate IsTable(pd: nat, i: nat, x: nat)
      reads this`use
    {
      x in use && use[x] == Table(pd, i)
    }

    ghost predicate IsFrame(pd: nat, u: nat, x: nat)
      requires Sound() && IsPagedir(pd)
      reads this`words, this`use
    {
      u < USER_PAGES && Map(pd, u).Some? && Map(pd, u).value.no == x
    }

    /** What has been freed once the first `i` tables and the first `n` user pages are done. */
    ghost predicate Freed(pd: nat, i: nat, n: nat, freed: seq<nat>)
      requires Sound() && IsPagedir(pd)
      reads this`words, this`use
    {
      && NoDup(freed)
      && (forall x :: x in freed ==>
            (exists k: nat :: k < i && IsTable(pd, k, x)) || (exists u: nat :: u < n && IsFrame(pd, u, x)))
      && (forall k: nat, x: nat :: k < i && IsTable(pd, k, x) ==> x in freed)
      && (forall u: nat, x: nat :: u < n && IsFrame(pd, u, x) ==> x in freed)
    }

    lemma FreeFrame(pd: nat, i: nat, u: nat, freed: seq<nat>, at: map<nat, nat>, was: set<nat>, x: nat)
      requires Sound() && IsPagedir(pd) && Freed(pd, i, u, freed) && MappedOnce(pd, at, was) && IsFrame(pd, u, x)
      ensures x in was && x !in freed && Freed(pd, i, u + 1, freed + [x])
    {
      hide TablesOk, Lookup, NoUserPart;
      assert forall v: nat :: IsFrame(pd, v, x) ==> at[x] == v;
      assert x !in freed;
    }

    lemma SkipFrame(pd: nat, i: nat, u: nat, freed: seq<nat>)
      requires Sound() && IsPagedir(pd) && u < USER_PAGES && Freed(pd, i, u, freed) && Map(pd, u) == None
      ensures Freed(pd, i, u + 1, freed)
    {
      hide TablesOk, Lookup, NoUserPart;
    }

    lemma FreeTable(pd: nat, i: nat, freed: seq<nat>, at: map<nat, nat>, was: set<nat>, x: nat)
      requires Sound() && IsPagedir(pd) && Freed(pd, i, (i + 1) * ENTRIES, freed) && MappedOnce(pd, at, was)
      requires IsTable(pd, i, x)
      requires forall y: nat :: IsTable(pd, i, y) ==> y == x
      ensures x in was && x !in freed && Freed(pd, i + 1, (i + 1) * ENTRIES, freed + [x])
    {
      hide TablesOk, Lookup, NoUserPart;
      assert forall u: nat :: IsFrame(pd, u, x) ==> x !in use;
      assert x !in freed;
    }

    /** A directory entry that is zero stands for no table and no frames. */
    lemma SkipTable(pd: nat, i: nat, freed: seq<nat>)
      requires Sound() && IsPagedir(pd) && i < USER && Freed(pd, i, i * ENTRIES, freed) && words[pd][i] == 0
      ensures Freed(pd, i + 1, (i + 1) * ENTRIES, freed)
    {
      forall u: nat | i * ENTRIES <= u < (i + 1) * ENTRIES
        ensures Map(pd, u) == None
      {
        assert u / ENTRIES == i;
      }
      assert forall x: nat :: IsTable(pd, i, x) ==> PointsAt(T(), pd, i, x);
    }

    /** palloc_free_page of a page that is in use. */
    ghost method Free(x: nat)
      requires x in used
      modifies this`used
      ensures used == old(used) - {x}
    {
      used := used - {x};
    }

    /** The inner loop of pagedir_destroy: the pages that table `i` maps. */
    method DestroyTable(pd: nat, i: nat, pt: nat, before: seq<nat>, ghost was: set<nat>, ghost at: map<nat, nat>)
      returns (freed: seq<nat>)
      requires Sound() && IsPagedir(pd) && MappedOnce(pd, at, was) && i < USER
      requires pd in words && |words[pd]| == ENTRIES && words[pd][i] != 0 && pt == PageOf(words[pd][i])
      requires Freed(pd, i, i * ENTRIES, before) && used == was - Elements(before)
      modifies this`used
      ensures Freed(pd, i, (i + 1) * ENTRIES, freed) && used == was - Elements(freed)
    {
      hide TablesOk, NoUserPart, Present, Freed, MappedOnce;
      freed := before;
      var j := 0;
      while j < ENTRIES
        invariant 0 <= j <= ENTRIES && used == was - Elements(freed)
        invariant Freed(pd, i, i * ENTRIES + j, freed)
      {
        ghost var u := i * ENTRIES + j;
        EntryAt(T(), init, pd, u);
        if Present(words[pt][j]) {
          PageOfIs(words[pt][j]);
          var page := PteGetPage(words[pt][j]) / 4096;
          FreeFrame(pd, i, u, freed, at, was, page);
          Free(page);
          freed := freed + [page];
        } else {
          SkipFrame(pd, i, u, freed);
        }
        j := j + 1;
      }
    }

    /** The directory, its tables and the frames that it maps. */
    ghost predicate AllOf(pd: nat, freed: seq<nat>)
      requires Sound() && IsPagedir(pd)
      reads this`words, this`use
    {
      forall x: nat :: x in freed <==>
        x == pd || (exists i: nat :: IsTable(pd, i, x)) || (exists u: nat :: IsFrame(pd, u, x))
    }

    /** The loops of pagedir_destroy. */
    method FreePages(pd: nat, ghost at: map<nat, nat>) returns (freed: seq<nat>)
      requires Valid() && IsPagedir(pd) && MappedOnce(pd, at, used)
      modifies this`used
      ensures NoDup(freed) && used == old(used) - Elements(freed)
      ensures AllOf(pd, freed)
    {
      hide TablesOk, Lookup, NoUserPart, Freed, MappedOnce, NoDup, AllOf;
      ghost var was := used;
      KeysAre(T(), init);
      NothingFreed(pd);
      freed := [];
      var i := 0;
      while i < USER
        invariant 0 <= i <= USER && used == was - Elements(freed)
        invariant Freed(pd, i, i * ENTRIES, freed)
      {
        var pde := words[pd][i];
        if pde != 0 {
          PageOfIs(pde);
          var pt := PdeGetPt(pde) / 4096;
          freed := DestroyTable(pd, i, pt, freed, was, at);
          TableOf(T(), init, pd, i);
          FreeTable(pd, i, freed, at, was, pt);
          Free(pt);
          freed := freed + [pt];
        } else {
          SkipTable(pd, i, freed);
        }
        i := i + 1;
      }
      FreeDir(pd, freed, at, was);
      Free(pd);
      freed := freed + [pd];
    }

    /** pagedir_destroy: frees each page that the directory maps, each of its tables and the
        directory, once each, and leaves other directories alone. */
    method Destroy(pd: nat, ghost at: map<nat, nat>) returns (freed: seq<nat>)
      requires Valid() && IsPagedir(pd) && MappedOnce(pd, at, used)
      modifies this`words, this`use, this`used
      ensures NoDup(freed) && used == old(used) - Elements(freed)
      ensures old(AllOf(pd, freed))
      ensures Valid() && forall qd :: IsPagedir(qd) <==> old(IsPagedir(qd)) && qd != pd
      ensures forall qd, v: nat :: IsPagedir(qd) && v < USER_PAGES ==> Map(qd, v) == old(Map(qd, v))
    {
      hide TablesOk, Lookup, NoUserPart, MappedOnce, NoDup, WithoutDir, AllOf, Keep;
      ghost var was := used;
      freed := FreePages(pd, at);
      DropDir(T(), init, pd);
      OwnPages(pd, freed, at, was);
      StillUsed(freed, was);
      words, use := Keep(words, freed), Keep(use, freed);
      assert T() == WithoutDir(old(T()), pd);
    }

    lemma StillUsed(freed: seq<nat>, was: set<nat>)
      requires use.Keys <= was
      ensures Keep(use, freed).Keys <= was - Elements(freed)
    {
    }

    /** The pages freed are, among those of directories and tables, the directory's own. */
    lemma OwnPages(pd: nat, freed: seq<nat>, at: map<nat, nat>, was: set<nat>)
      requires Sound() && IsPagedir(pd) && MappedOnce(pd, at, was)
      requires AllOf(pd, freed)
      ensures WithoutDir(T(), pd) == Tables(Keep(words, freed), Keep(use, freed))
    {
      hide Lookup, NoUserPart;
      forall p: nat | p in use
        ensures p in freed <==> OwnedBy(T(), pd, p)
      {
        assert forall u: nat :: IsFrame(pd, u, p) ==> p !in use;
        if OwnedBy(T(), pd, p) && p != pd {
          assert IsTable(pd, use[p].i, p);
        }
      }
      assert WithoutDir(T(), pd).words == Keep(words, freed);
      assert WithoutDir(T(), pd).use == Keep(use, freed);
    }

    lemma NothingFreed(pd: nat)
      requires Sound() && IsPagedir(pd)
      ensures Freed(pd, 0, 0, [])
    {
    }

    lemma FreeDir(pd: nat, freed: seq<nat>, at: map<nat, nat>, was: set<nat>)
      requires Sound() && IsPagedir(pd) && Freed(pd, USER, USER_PAGES, freed) && MappedOnce(pd, at, was)
      ensures pd in was && pd !in freed && NoDup(freed + [pd]) && AllOf(pd, freed + [pd])
    {
      hide Lookup, NoUserPart;
      assert forall u: nat :: IsFrame(pd, u, pd) ==> pd !in use;
      assert pd !in freed;
      assert forall i: nat, x: nat :: IsTable(pd, i, x) ==> i < USER;
    }
  }

  lemma KeysAre(t: Tables, init: seq<uint32>)
    requires TablesOk(t, init)
    ensures t.use.Keys == t.words.Keys && |init| == ENTRIES
    ensures forall p :: p in t.words ==> KERNEL <= p < 0x10_0000 && |t.words[p]| == ENTRIES
  {
  }

  lemma EntryAt(t: Tables, init: seq<uint32>, pd: nat, u: nat)
    requires TablesOk(t, init) && IsDir(t, pd) && u < USER_PAGES
    ensures pd in t.words && |t.words[pd]| == ENTRIES
    ensures var e := t.words[pd][u / ENTRIES];
      e != 0 ==> PageOf(e) in t.words && |t.words[PageOf(e)]| == ENTRIES
  {
    assert DirOk(t, init, pd) && PdeOk(t, pd, u / ENTRIES);
  }

  function Keep<V>(m: map<nat, V>, freed: seq<nat>): map<nat, V> {
    map p | p in m && p !in freed :: m[p]
  }

  ghost predicate OwnedBy(t: Tables, pd: nat, p: nat) {
    p in t.use && (p == pd || (t.use[p].Table? && t.use[p].pd == pd))
  }

  /** A directory and its tables are gone. */
  ghost function WithoutDir(t: Tables, pd: nat): Tables {
    Tables(
      map p | p in t.words && !OwnedBy(t, pd, p) :: t.words[p],
      map p | p in t.use && !OwnedBy(t, pd, p) :: t.use[p])
  }

  lemma DropDir(t: Tables, init: seq<uint32>, pd: nat)
    requires TablesOk(t, init) && IsDir(t, pd)
    ensures var t' := WithoutDir(t, pd);
      && TablesOk(t', init) && (forall qd :: IsDir(t', qd) <==> IsDir(t, qd) && qd != pd)
      && (forall qd, v: nat :: IsDir(t', qd) && v < USER_PAGES ==> Lookup(t', init, qd, v) == Lookup(t, init, qd, v))
  {
    hide Present, Writable;
    var t' := WithoutDir(t, pd);
    forall qd | IsDir(t', qd)
      ensures DirOk(t', init, qd)
    {
      assert DirOk(t, init, qd);
      forall i | 0 <= i < USER
        ensures PdeOk(t', qd, i)
      {
        assert PdeOk(t, qd, i);
      }
    }
    forall qd, v: nat | IsDir(t', qd) && v < USER_PAGES
      ensures Lookup(t', init, qd, v) == Lookup(t, init, qd, v)
    {
      assert DirOk(t, init, qd) && PdeOk(t, qd, v / ENTRIES);
    }
  }

  lemma TableOf(t: Tables, init: seq<uint32>, pd: nat, i: nat)
    requires TablesOk(t, init) && IsDir(t, pd) && i < USER && t.words[pd][i] != 0
    ensures PageOf(t.words[pd][i]) in t.use && t.use[PageOf(t.words[pd][i])] == Table(pd, i)
    ensures forall y :: y in t.use && t.use[y] == Table(pd, i) ==> y == PageOf(t.words[pd][i])
  {
    assert DirOk(t, init, pd) && PdeOk(t, pd, i);
    assert forall y :: y in t.use && t.use[y] == Table(pd, i) ==> PointsAt(t, pd, i, y);
  }
}
