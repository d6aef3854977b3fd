/** What the heap of src/threads/malloc.c consists of, and what keeps it well-formed: arenas, free
    lists, blocks in use and the pages they stand in. */
module Heaps {
  import opened Sequences
  import opened Vaddr
  import opened Blocks

  /** struct arena: an arena of small blocks, or one big block. */
  datatype Arena = Small(d: nat, freeCnt: nat) | Big(pageCnt: nat)

  function PagesOf(a: Arena): nat { if a.Small? then 1 else a.pageCnt }

  /** Arenas by page number, a free list per descriptor, the addresses of the blocks in use, and
      for every page of an arena the number of the arena's first page. */
  datatype Heap = Heap(arenas: map<nat, Arena>, lists: seq<seq<nat>>, live: set<nat>, owner: map<nat, nat>)

  ghost predicate OnArena(arenas: map<nat, Arena>, b: nat, d: nat)
    requires d < DESC_CNT
  {
    PgNo(b) in arenas && arenas[PgNo(b)].Small? && arenas[PgNo(b)].d == d && IsBlock(b, d)
  }

  ghost predicate ListOk(h: Heap, d: nat)
    requires d < DESC_CNT && |h.lists| == DESC_CNT
  {
    NoDup(h.lists[d]) && forall b :: b in h.lists[d] ==> OnArena(h.arenas, b, d)
  }

  /** The count of an arena of small blocks is the number of its blocks in the free list; a big
      block is in use. */
  ghost predicate ArenaOk(h: Heap, no: nat)
    requires |h.lists| == DESC_CNT && no in h.arenas
  {
    match h.arenas[no]
    case Small(d, freeCnt) => d < DESC_CNT && freeCnt == |FreeIn(h.lists[d], no)|
    case Big(pageCnt) => pageCnt > 0 && no * PGSIZE + HEADER in h.live
  }

  /** A block in use is a block of its arena and not free. */
  ghost predicate InUseOk(h: Heap, b: nat)
    requires |h.lists| == DESC_CNT
  {
    && PgNo(b) in h.arenas
    && match h.arenas[PgNo(b)]
       case Small(d, _) => d < DESC_CNT && IsBlock(b, d) && b !in h.lists[d]
       case Big(_) => PgOfs(b) == HEADER
  }

  /** Every block of every arena is in use or free. */
  ghost predicate Complete(h: Heap)
    requires |h.lists| == DESC_CNT
  {
    forall b: nat, d: nat :: d < DESC_CNT && OnArena(h.arenas, b, d) ==> b in h.live || b in h.lists[d]
  }

  ghost predicate OwnsPages(owner: map<nat, nat>, no: nat, cnt: nat) {
    forall k :: no <= k < no + cnt ==> k in owner && owner[k] == no
  }

  /** Arenas stand in pages of their own. */
  ghost predicate PagesOk(arenas: map<nat, Arena>, owner: map<nat, nat>) {
    && (forall no :: no in arenas ==> OwnsPages(owner, no, PagesOf(arenas[no])))
    && (forall k :: k in owner ==> owner[k] in arenas && owner[k] <= k < owner[k] + PagesOf(arenas[owner[k]]))
  }

  ghost predicate HeapOk(h: Heap) {
    // Named, so that the verifier takes the conjunction as one assertion.
    var ok :=
      && |h.lists| == DESC_CNT
      && (forall d: nat :: d < DESC_CNT ==> ListOk(h, d))
      && (forall no :: no in h.arenas ==> ArenaOk(h, no))
      && (forall b :: b in h.live ==> InUseOk(h, b))
      && Complete(h)
      && PagesOk(h.arenas, h.owner);
    ok
  }

  lemma Shape(h: Heap)
    requires HeapOk(h)
    ensures |h.lists| == DESC_CNT
  {
  }

  /** Every arena of small blocks has a block in use. */
  ghost predicate Tight(arenas: map<nat, Arena>) {
    forall no :: no in arenas && arenas[no].Small? ==>
      arenas[no].d < DESC_CNT && arenas[no].freeCnt < PerArena(arenas[no].d)
  }

  /** block_size: the bytes that belong to a block. */
  function Capacity(arenas: map<nat, Arena>, b: nat): nat
    requires PgNo(b) in arenas
  {
    match arenas[PgNo(b)]
    case Small(d, _) => if d < DESC_CNT then BlockSize(d) else 0
    case Big(pageCnt) => if PgOfs(b) <= PGSIZE * pageCnt then PGSIZE * pageCnt - PgOfs(b) else 0
  }

  // ----- Blocks do not overlap -----

  ghost predicate Disjoint(a: nat, m: nat, b: nat, n: nat) { a + m <= b || b + n <= a }

  /** A block and everything in it stands in the pages of its arena, after the header. */
  lemma InArena(h: Heap, b: nat)
    requires HeapOk(h) && (b in h.live || exists d: nat :: d < DESC_CNT && b in h.lists[d])
    ensures PgNo(b) in h.arenas && PgOfs(b) >= HEADER
    ensures b + Capacity(h.arenas, b) <= (PgNo(b) + PagesOf(h.arenas[PgNo(b)])) * PGSIZE
    ensures h.arenas[PgNo(b)].Small? ==> h.arenas[PgNo(b)].d < DESC_CNT && IsBlock(b, h.arenas[PgNo(b)].d)
    ensures h.arenas[PgNo(b)].Big? ==> b == PgNo(b) * PGSIZE + HEADER
  {
    var no := PgNo(b);
    if d: nat :| d < DESC_CNT && b in h.lists[d] {
      assert ListOk(h, d);
    }
    assert no in h.arenas;
    assert ArenaOk(h, no);
    match h.arenas[no] {
      case Small(d, _) =>
        BlockIs(b, d);
      case Big(n) =>
        assert b == no * PGSIZE + HEADER;
    }
  }

  /** Arenas do not overlap. */
  lemma ArenasApart(h: Heap, no: nat, mo: nat)
    requires HeapOk(h) && no in h.arenas && mo in h.arenas && no < mo
    ensures no + PagesOf(h.arenas[no]) <= mo
  {
    assert ArenaOk(h, mo);
    assert OwnsPages(h.owner, no, PagesOf(h.arenas[no])) && OwnsPages(h.owner, mo, PagesOf(h.arenas[mo]));
    assert mo in h.owner && h.owner[mo] == mo;
  }

  /** Two blocks, in use or free, do not overlap, and no block overlaps an arena header. */
  lemma BlocksDisjoint(h: Heap, b: nat, c: nat)
    requires HeapOk(h) && b != c
    requires b in h.live || exists d: nat :: d < DESC_CNT && b in h.lists[d]
    requires c in h.live || exists d: nat :: d < DESC_CNT && c in h.lists[d]
    ensures PgNo(b) in h.arenas && PgNo(c) in h.arenas
    ensures Disjoint(b, Capacity(h.arenas, b), c, Capacity(h.arenas, c))
  {
    InArena(h, b);
    InArena(h, c);
    if PgNo(b) == PgNo(c) {
      var d := h.arenas[PgNo(b)].d;
      if b < c { BlocksApart(b, c, d); } else { BlocksApart(c, b, d); }
    } else if PgNo(b) < PgNo(c) {
      ArenasApart(h, PgNo(b), PgNo(c));
      PagesBefore(PgNo(b) + PagesOf(h.arenas[PgNo(b)]), c);
    } else {
      ArenasApart(h, PgNo(c), PgNo(b));
      PagesBefore(PgNo(c) + PagesOf(h.arenas[PgNo(c)]), b);
    }
  }

  lemma PagesBefore(no: nat, b: nat)
    requires no <= PgNo(b)
    ensures no * PGSIZE <= b - PgOfs(b)
  {
  }

  lemma HeadersDisjoint(h: Heap, b: nat, no: nat)
    requires HeapOk(h) && (b in h.live || exists d: nat :: d < DESC_CNT && b in h.lists[d]) && no in h.arenas
    ensures PgNo(b) in h.arenas && Disjoint(b, Capacity(h.arenas, b), no * PGSIZE, HEADER)
  {
    InArena(h, b);
    if PgNo(b) < no {
      ArenasApart(h, PgNo(b), no);
    }
  }

  // ----- Changes to one arena -----

  ghost predicate SameElsewhere(h: Heap, h': Heap, no: nat)
    requires |h.lists| == |h'.lists| == DESC_CNT
  {
    && (forall k :: k != no ==> (k in h'.arenas <==> k in h.arenas))
    && (forall k :: k != no && k in h.arenas ==> h'.arenas[k] == h.arenas[k])
    && (forall d: nat, b: nat :: d < DESC_CNT && PgNo(b) != no ==> (b in h'.lists[d] <==> b in h.lists[d]))
    && (forall b: nat :: PgNo(b) != no ==> (b in h'.live <==> b in h.live))
  }

  /** What HeapOk says about the arena at page `no`, if there is one. */
  ghost predicate LocalOk(h: Heap, no: nat)
    requires |h.lists| == DESC_CNT
  {
    && (no in h.arenas ==> ArenaOk(h, no))
    && (forall d: nat, b: nat :: d < DESC_CNT && b in h.lists[d] && PgNo(b) == no ==> OnArena(h.arenas, b, d))
    && (forall b: nat :: b in h.live && PgNo(b) == no ==> InUseOk(h, b))
    && (forall b: nat, d: nat :: d < DESC_CNT && PgNo(b) == no && OnArena(h.arenas, b, d) ==>
          b in h.live || b in h.lists[d])
  }

  /** A change to one arena keeps the heap well-formed if that arena is. */
  lemma OneArena(h: Heap, h': Heap, no: nat)
    requires HeapOk(h) && |h'.lists| == DESC_CNT && SameElsewhere(h, h', no) && LocalOk(h', no)
    requires forall d: nat :: d < DESC_CNT ==> NoDup(h'.lists[d])
    requires PagesOk(h'.arenas, h'.owner)
    ensures HeapOk(h')
  {
    hide PagesOk, NoDup, IsBlock;
    forall d: nat | d < DESC_CNT
      ensures ListOk(h', d)
    {
      assert ListOk(h, d);
    }
    forall k | k in h'.arenas
      ensures ArenaOk(h', k)
    {
      if k != no {
        OtherArena(h, h', no, k);
      }
    }
    forall b | b in h'.live
      ensures InUseOk(h', b)
    {
      if PgNo(b) != no {
        assert InUseOk(h, b);
      }
    }
    forall b: nat, d: nat | d < DESC_CNT && OnArena(h'.arenas, b, d)
      ensures b in h'.live || b in h'.lists[d]
    {
      if PgNo(b) != no {
        assert OnArena(h.arenas, b, d);
      }
    }
  }

  lemma OtherArena(h: Heap, h': Heap, no: nat, k: nat)
    requires HeapOk(h) && |h'.lists| == DESC_CNT && SameElsewhere(h, h', no) && k != no && k in h'.arenas
    ensures ArenaOk(h', k)
  {
    hide PagesOk, Complete, ListOk, InUseOk, OnArena;
    assert ArenaOk(h, k);
    match h.arenas[k] {
      case Small(d, _) => assert FreeIn(h'.lists[d], k) == FreeIn(h.lists[d], k);
      case Big(_) => assert PgNo(k * PGSIZE + HEADER) == k;
    }
  }

  // ----- The steps of malloc and free -----

  /** A page becomes an arena of small blocks, all of them free. */
  ghost function WithSmall(h: Heap, no: nat, d: nat): Heap
    requires d < DESC_CNT && |h.lists| == DESC_CNT
  {
    h.(arenas := h.arenas[no := Small(d, PerArena(d))], lists := h.lists[d := AllBlocks(no, d)],
       owner := WithPages(h.owner, no, 1))
  }

  lemma NotArena(h: Heap, no: nat)
    requires HeapOk(h) && no !in h.owner
    ensures no !in h.arenas
    ensures forall b :: b in h.live ==> PgNo(b) != no
    ensures forall b, d: nat :: d < DESC_CNT && b in h.lists[d] ==> PgNo(b) != no
  {
    assert no in h.arenas ==> ArenaOk(h, no) && OwnsPages(h.owner, no, PagesOf(h.arenas[no]));
    assert forall b :: b in h.live ==> InUseOk(h, b);
    forall b, d: nat | d < DESC_CNT && b in h.lists[d]
      ensures PgNo(b) != no
    {
      assert ListOk(h, d) && OnArena(h.arenas, b, d);
    }
  }

  lemma AddSmall(h: Heap, no: nat, d: nat)
    requires HeapOk(h) && d < DESC_CNT && h.lists[d] == [] && no !in h.owner
    ensures HeapOk(WithSmall(h, no, d)) && no !in h.arenas
  {
    hide LocalOk, SameElsewhere, ListOk, ArenaOk, InUseOk, Complete, PagesOk, NoDup, AllBlocks, PerArena;
    NotArena(h, no);
    SmallLocal(h, no, d);
    AddPages(h.arenas, h.owner, no, Small(d, PerArena(d)));
    OneArena(h, WithSmall(h, no, d), no);
  }

  lemma SmallLocal(h: Heap, no: nat, d: nat)
    requires HeapOk(h) && d < DESC_CNT && h.lists[d] == [] && no !in h.owner && no !in h.arenas
    ensures var h' := WithSmall(h, no, d);
      LocalOk(h', no) && SameElsewhere(h, h', no) && forall e: nat :: e < DESC_CNT ==> NoDup(h'.lists[e])
  {
    hide PagesOk, Complete, WithPages, AllBlocks, PerArena, IsBlock, BlockSize;
    var h' := WithSmall(h, no, d);
    NotArena(h, no);
    AllBlocksAre(no, d);
    ArenaFull(h'.lists[d], no, d);
    assert forall e: nat :: e < DESC_CNT ==> ListOk(h, e);
    assert ArenaOk(h', no);
    assert SameElsewhere(h, h', no);
    forall b: nat, e: nat | e < DESC_CNT && PgNo(b) == no && OnArena(h'.arenas, b, e)
      ensures b in h'.lists[e]
    {
      assert e == d && IsBlock(b, d);
    }
    forall b: nat, e: nat | e < DESC_CNT && PgNo(b) == no && b in h'.lists[e]
      ensures OnArena(h'.arenas, b, e)
    {
      assert e == d;
    }
    forall e: nat | e < DESC_CNT
      ensures NoDup(h'.lists[e])
    {
      assert ListOk(h, e);
    }
    assert forall b: nat :: b in h'.live ==> PgNo(b) != no;
    assert LocalOk(h', no);
  }

  ghost function WithPages(owner: map<nat, nat>, no: nat, cnt: nat): map<nat, nat> {
    map k | k in owner.Keys + Range(no, cnt) :: if InRange(k, no, cnt) then no else owner[k]
  }

  lemma AddPages(arenas: map<nat, Arena>, owner: map<nat, nat>, no: nat, a: Arena)
    requires PagesOk(arenas, owner) && forall k :: no <= k < no + PagesOf(a) ==> k !in owner
    requires no !in arenas
    ensures PagesOk(arenas[no := a], WithPages(owner, no, PagesOf(a)))
  {
    var arenas', owner' := arenas[no := a], WithPages(owner, no, PagesOf(a));
    forall mo | mo in arenas'
      ensures OwnsPages(owner', mo, PagesOf(arenas'[mo]))
    {
      assert mo != no ==> OwnsPages(owner, mo, PagesOf(arenas[mo]));
    }
    forall k | k in owner'
      ensures owner'[k] in arenas' && owner'[k] <= k < owner'[k] + PagesOf(arenas'[owner'[k]])
    {
      assert k in owner ==> owner[k] in arenas;
    }
  }

  /** The first free block of a descriptor is taken. */
  ghost function Taken(h: Heap, d: nat): Heap
    requires HeapOk(h) && d < DESC_CNT && h.lists[d] != []
  {
    var b := h.lists[d][0];
    FirstFree(h, d);
    h.(arenas := h.arenas[PgNo(b) := Small(d, h.arenas[PgNo(b)].freeCnt - 1)], lists := h.lists[d := h.lists[d][1..]],
       live := h.live + {b})
  }

  lemma FirstFree(h: Heap, d: nat)
    requires HeapOk(h) && d < DESC_CNT && h.lists[d] != []
    ensures var b := h.lists[d][0];
      && OnArena(h.arenas, b, d) && b !in h.live && b !in h.lists[d][1..]
      && h.arenas[PgNo(b)].freeCnt == |FreeIn(h.lists[d], PgNo(b))|
      && |FreeIn(h.lists[d], PgNo(b))| == |FreeIn(h.lists[d][1..], PgNo(b))| + 1
      && 0 < h.arenas[PgNo(b)].freeCnt <= PerArena(d)
  {
    hide PagesOk, Complete, IsBlock, PerArena;
    var b := h.lists[d][0];
    assert ListOk(h, d) && OnArena(h.arenas, b, d) && ArenaOk(h, PgNo(b));
    assert b in h.live ==> InUseOk(h, b);
    FreeInHead(b, h.lists[d][1..]);
    assert h.lists[d] == [b] + h.lists[d][1..];
    forall c | c in h.lists[d] && PgNo(c) == PgNo(b)
      ensures IsBlock(c, d)
    {
      assert OnArena(h.arenas, c, d);
    }
    ArenaFull(h.lists[d], PgNo(b), d);
  }

  lemma FreeInHead(b: nat, s: seq<nat>)
    ensures FreeIn([b] + s, PgNo(b)) == FreeIn(s, PgNo(b)) + {b}
    ensures b !in s ==> |FreeIn([b] + s, PgNo(b))| == |FreeIn(s, PgNo(b))| + 1
  {
    assert FreeIn([b] + s, PgNo(b)) == FreeIn(s, PgNo(b)) + {b};
  }

  lemma Take(h: Heap, d: nat)
    requires HeapOk(h) && d < DESC_CNT && h.lists[d] != []
    ensures HeapOk(Taken(h, d))
  {
    hide PagesOk, Complete, FreeIn, PerArena, ArenaOk, InUseOk, IsBlock;
    FirstFree(h, d);
    assert ListOk(h, d) && h.lists[d] == [h.lists[d][0]] + h.lists[d][1..];
    MovedBlock(h, Taken(h, d), h.lists[d][0], d);
  }

  /** One block changes between free and in use, with the count of its arena. */
  lemma MovedBlock(h: Heap, h': Heap, b: nat, d: nat)
    requires HeapOk(h) && d < DESC_CNT && OnArena(h.arenas, b, d)
    requires |h'.lists| == DESC_CNT && (forall e: nat :: e < DESC_CNT && e != d ==> h'.lists[e] == h.lists[e])
    requires NoDup(h'.lists[d])
    requires forall c :: c != b ==> (c in h'.lists[d] <==> c in h.lists[d])
    requires forall c :: c != b ==> (c in h'.live <==> c in h.live)
    requires b in h'.live <==> b !in h'.lists[d]
    requires h'.arenas == h.arenas[PgNo(b) := Small(d, |FreeIn(h'.lists[d], PgNo(b))|)] && h'.owner == h.owner
    ensures HeapOk(h')
  {
    hide LocalOk, SameElsewhere, PagesOk, IsBlock, FreeIn, Complete, ArenaOk, InUseOk;
    MovedLocal(h, h', b, d);
    SamePages(h, h', PgNo(b));
    forall e: nat | e < DESC_CNT
      ensures NoDup(h'.lists[e])
    {
      assert ListOk(h, e);
    }
    OneArena(h, h', PgNo(b));
  }

  lemma SamePages(h: Heap, h': Heap, no: nat)
    requires HeapOk(h) && h'.arenas.Keys == h.arenas.Keys && h'.owner == h.owner
    requires forall k :: k in h.arenas ==> PagesOf(h'.arenas[k]) == PagesOf(h.arenas[k])
    ensures PagesOk(h'.arenas, h'.owner)
  {
    hide ListOk, ArenaOk, InUseOk, Complete, OwnsPages;
  }

  lemma MovedLocal(h: Heap, h': Heap, b: nat, d: nat)
    requires HeapOk(h) && d < DESC_CNT && OnArena(h.arenas, b, d)
    requires |h'.lists| == DESC_CNT && (forall e: nat :: e < DESC_CNT && e != d ==> h'.lists[e] == h.lists[e])
    requires forall c :: c != b ==> (c in h'.lists[d] <==> c in h.lists[d])
    requires forall c :: c != b ==> (c in h'.live <==> c in h.live)
    requires b in h'.live <==> b !in h'.lists[d]
    requires h'.arenas == h.arenas[PgNo(b) := Small(d, |FreeIn(h'.lists[d], PgNo(b))|)]
    ensures LocalOk(h', PgNo(b)) && SameElsewhere(h, h', PgNo(b))
  {
    hide PagesOk, IsBlock;
    forall e: nat, c: nat | e < DESC_CNT && c in h'.lists[e] && PgNo(c) == PgNo(b)
      ensures OnArena(h'.arenas, c, e)
    {
      if c != b {
        assert ListOk(h, e) && OnArena(h.arenas, c, e);
      }
      assert c == b && e != d ==> ListOk(h, e) && OnArena(h.arenas, c, e);
    }
    forall c: nat | c in h'.live && PgNo(c) == PgNo(b)
      ensures InUseOk(h', c)
    {
      if c != b {
        assert InUseOk(h, c);
      }
    }
    forall c: nat, e: nat | e < DESC_CNT && PgNo(c) == PgNo(b) && OnArena(h'.arenas, c, e)
      ensures c in h'.live || c in h'.lists[e]
    {
      assert OnArena(h.arenas, c, e);
    }
  }

  /** A block in use is given back to the front of its free list. */
  ghost function Given(h: Heap, b: nat, d: nat): Heap
    requires HeapOk(h) && b in h.live && d < DESC_CNT && OnArena(h.arenas, b, d)
  {
    h.(arenas := h.arenas[PgNo(b) := Small(d, h.arenas[PgNo(b)].freeCnt + 1)], lists := h.lists[d := [b] + h.lists[d]],
       live := h.live - {b})
  }

  lemma Give(h: Heap, b: nat, d: nat)
    requires HeapOk(h) && b in h.live && d < DESC_CNT && OnArena(h.arenas, b, d)
    ensures HeapOk(Given(h, b, d)) && b !in h.lists[d]
    ensures h.arenas[PgNo(b)].freeCnt + 1 <= PerArena(d)
    ensures h.arenas[PgNo(b)].freeCnt + 1 == PerArena(d) <==>
      forall c: nat :: PgNo(c) == PgNo(b) && IsBlock(c, d) ==> c in Given(h, b, d).lists[d]
  {
    hide PagesOk, Complete, IsBlock, PerArena, FreeIn;
    var h' := Given(h, b, d);
    assert InUseOk(h, b) && ArenaOk(h, PgNo(b)) && ListOk(h, d);
    FreeInHead(b, h.lists[d]);
    MovedBlock(h, h', b, d);
    FullArena(h', PgNo(b), d);
  }

  lemma FullArena(h: Heap, no: nat, d: nat)
    requires HeapOk(h) && d < DESC_CNT && no in h.arenas && h.arenas[no].Small? && h.arenas[no].d == d
    ensures h.arenas[no].freeCnt <= PerArena(d)
    ensures h.arenas[no].freeCnt == PerArena(d) <==> forall c: nat :: PgNo(c) == no && IsBlock(c, d) ==> c in h.lists[d]
  {
    hide PagesOk, Complete, IsBlock, PerArena, FreeIn;
    assert ArenaOk(h, no) && ListOk(h, d);
    forall c | c in h.lists[d] && PgNo(c) == no
      ensures IsBlock(c, d)
    {
      assert OnArena(h.arenas, c, d);
    }
    ArenaFull(h.lists[d], no, d);
  }

  ghost function WithoutPages(owner: map<nat, nat>, no: nat): map<nat, nat> {
    map k | k in owner && owner[k] != no :: owner[k]
  }

  lemma DropPages(arenas: map<nat, Arena>, owner: map<nat, nat>, no: nat)
    requires PagesOk(arenas, owner)
    ensures PagesOk(arenas - {no}, WithoutPages(owner, no))
  {
  }

  /** An arena whose blocks are all free is given up; `list` is its descriptor's list without them. */
  ghost function WithoutSmall(h: Heap, no: nat, d: nat, list: seq<nat>): Heap
    requires d < DESC_CNT && |h.lists| == DESC_CNT
  {
    h.(arenas := h.arenas - {no}, lists := h.lists[d := list], owner := WithoutPages(h.owner, no))
  }

  lemma DropSmall(h: Heap, no: nat, d: nat, list: seq<nat>)
    requires HeapOk(h) && d < DESC_CNT && no in h.arenas && h.arenas[no].Small? && h.arenas[no].d == d
    requires h.arenas[no].freeCnt == PerArena(d)
    requires NoDup(list) && forall b :: b in list <==> b in h.lists[d] && PgNo(b) != no
    ensures HeapOk(WithoutSmall(h, no, d, list))
    ensures forall b :: b in h.live ==> PgNo(b) != no
  {
    hide PagesOk, Complete, PerArena, IsBlock, NoDup;
    var h' := WithoutSmall(h, no, d, list);
    DropPages(h.arenas, h.owner, no);
    FullArena(h, no, d);
    forall b | b in h.live
      ensures PgNo(b) != no
    {
      assert InUseOk(h, b);
    }
    forall e: nat, b | e < DESC_CNT && b in h'.lists[e]
      ensures PgNo(b) != no
    {
      assert ListOk(h, e) && (e != d ==> OnArena(h.arenas, b, e));
    }
    forall e: nat | e < DESC_CNT
      ensures NoDup(h'.lists[e])
    {
      assert ListOk(h, e);
    }
    OneArena(h, h', no);
  }

  /** Pages become one big block in use. */
  ghost function WithBig(h: Heap, no: nat, cnt: nat): Heap {
    h.(arenas := h.arenas[no := Big(cnt)], live := h.live + {no * PGSIZE + HEADER},
       owner := WithPages(h.owner, no, cnt))
  }

  lemma AddBig(h: Heap, no: nat, cnt: nat)
    requires HeapOk(h) && cnt > 0 && forall k :: no <= k < no + cnt ==> k !in h.owner
    ensures HeapOk(WithBig(h, no, cnt)) && no !in h.arenas && no * PGSIZE + HEADER !in h.live
  {
    hide PagesOk, Complete, IsBlock, NoDup, WithPages, FreeIn;
    var h' := WithBig(h, no, cnt);
    var b := no * PGSIZE + HEADER;
    assert PgNo(b) == no && PgOfs(b) == HEADER;
    NotArena(h, no);
    AddPages(h.arenas, h.owner, no, Big(cnt));
    forall e: nat | e < DESC_CNT
      ensures NoDup(h'.lists[e])
    {
      assert ListOk(h, e);
    }
    assert LocalOk(h', no) && SameElsewhere(h, h', no);
    OneArena(h, h', no);
  }

  ghost function WithoutBig(h: Heap, no: nat): Heap {
    h.(arenas := h.arenas - {no}, live := h.live - {no * PGSIZE + HEADER}, owner := WithoutPages(h.owner, no))
  }

  lemma DropBig(h: Heap, no: nat)
    requires HeapOk(h) && no in h.arenas && h.arenas[no].Big?
    ensures HeapOk(WithoutBig(h, no))
    ensures forall b :: b in h.live && b != no * PGSIZE + HEADER ==> PgNo(b) != no
  {
    hide PagesOk, Complete, IsBlock, NoDup, WithoutPages, FreeIn;
    var h' := WithoutBig(h, no);
    DropPages(h.arenas, h.owner, no);
    forall b | b in h'.live
      ensures PgNo(b) != no
    {
      assert InUseOk(h, b);
    }
    forall e: nat, b | e < DESC_CNT && b in h'.lists[e]
      ensures PgNo(b) != no
    {
      assert ListOk(h, e) && OnArena(h.arenas, b, e);
    }
    forall e: nat | e < DESC_CNT
      ensures NoDup(h'.lists[e])
    {
      assert ListOk(h, e);
    }
    assert PgNo(no * PGSIZE + HEADER) == no;
    assert LocalOk(h', no);
    assert SameElsewhere(h, h', no);
    OneArena(h, h', no);
  }

  /** With no block in use there is no arena, and so no page belongs to the heap. */
  lemma NothingInUse(h: Heap)
    requires HeapOk(h) && Tight(h.arenas) && h.live == {}
    ensures h.arenas == map[] && h.owner == map[] && forall d: nat, b :: d < DESC_CNT ==> b !in h.lists[d]
  {
    forall no | no in h.arenas
      ensures false
    {
      assert ArenaOk(h, no);
      if h.arenas[no].Small? {
        var d := h.arenas[no].d;
        forall c: nat | PgNo(c) == no && IsBlock(c, d)
          ensures c in h.lists[d]
        {
          assert OnArena(h.arenas, c, d);
        }
        FullArena(h, no, d);
      }
    }
    forall d: nat, b | d < DESC_CNT
      ensures b !in h.lists[d]
    {
      assert ListOk(h, d) && (b in h.lists[d] ==> OnArena(h.arenas, b, d));
    }
  }

  /** A block stands clear of every other arena. */
  lemma ArenaDisjoint(h: Heap, b: nat, no: nat)
    requires HeapOk(h) && b in h.live && no in h.arenas && PgNo(b) != no
    ensures PgNo(b) in h.arenas && Disjoint(b, Capacity(h.arenas, b), no * PGSIZE, PagesOf(h.arenas[no]) * PGSIZE)
  {
    InArena(h, b);
    if PgNo(b) < no {
      ArenasApart(h, PgNo(b), no);
    } else {
      ArenasApart(h, no, PgNo(b));
      PagesBefore(no + PagesOf(h.arenas[no]), b);
    }
  }
}
