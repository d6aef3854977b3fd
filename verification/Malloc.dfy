/** malloc, realloc and free (src/threads/malloc.c) over the kernel pool of the page allocator. */
module Malloc {
  import opened Words
  import opened Bitmaps
  import opened Sequences
  import opened Vaddr
  import opened Palloc
  import opened Blocks
  import opened Heaps

  /** struct desc, without its free list. */
  datatype Desc = Desc(blockSize: nat, blocksPerArena: nat)

  ghost predicate DescsOk(descs: seq<Desc>) {
    |descs| == DESC_CNT && forall d: nat :: d < DESC_CNT ==> descs[d] == Desc(BlockSize(d), PerArena(d))
  }

  /** malloc_init: the descriptors, which fit in the array of ten. */
  method InitDescs() returns (descs: seq<Desc>)
    ensures DescsOk(descs) && |descs| <= 10
  {
    descs := [];
    var blockSize := 16;
    while blockSize < PGSIZE / 2
      invariant |descs| <= DESC_CNT
      invariant blockSize == if |descs| < DESC_CNT then BlockSize(|descs|) else 2048
      invariant forall d: nat :: d < |descs| ==> descs[d] == Desc(BlockSize(d), PerArena(d))
      decreases 2048 - blockSize
    {
      descs := descs + [Desc(blockSize, (PGSIZE - HEADER) / blockSize)];
      blockSize := blockSize * 2;
    }
  }

  // ----- How much a request is granted -----

  /** The pages for a big block, in 32-bit arithmetic. */
  function PageCnt(size: nat): nat {
    (((size + HEADER) % WORD + PGSIZE - 1) % WORD) / PGSIZE
  }

  predicate IsClass(size: nat, d: nat) {
    && d <= DESC_CNT && (d < DESC_CNT ==> size <= BlockSize(d))
    && forall e: nat :: e < d && e < DESC_CNT ==> BlockSize(e) < size
  }

  /** The descriptor of the smallest blocks that are big enough; DESC_CNT if there is none. */
  function ClassOf(size: nat): (d: nat)
    ensures IsClass(size, d)
  {
    if size <= 16 then 0 else if size <= 32 then 1 else if size <= 64 then 2 else if size <= 128 then 3
    else if size <= 256 then 4 else if size <= 512 then 5 else if size <= 1024 then 6 else DESC_CNT
  }

  /** The bytes in the block that a request gets. */
  function Granted(size: nat): nat {
    if ClassOf(size) < DESC_CNT then BlockSize(ClassOf(size))
    else if PageCnt(size) == 0 then 0 else PGSIZE * PageCnt(size) - HEADER
  }

  /** A block that is granted holds the request exactly when adding the header to the request does
      not wrap past zero. */
  lemma GrantedEnough(size: nat)
    requires 0 < size < WORD && Granted(size) > 0
    ensures Granted(size) >= size <==> size + HEADER <= WORD
  {
    if ClassOf(size) == DESC_CNT {
      var x := (size + HEADER) % WORD;
      if size + HEADER >= WORD {
        assert x == size + HEADER - WORD < HEADER;
        assert PageCnt(size) <= 1;
      } else {
        assert x + PGSIZE - 1 < WORD ==> PageCnt(size) == (x + PGSIZE - 1) / PGSIZE;
        assert PGSIZE * ((x + PGSIZE - 1) / PGSIZE) >= x;
      }
    }
  }

  /** The request for 0xffffffff bytes gets a block of one page. */
  lemma WrappedRequest()
    ensures Granted(0xffffffff) == PGSIZE - HEADER
  {
  }

  /** realloc to `size` bytes copies no more than the new block holds, when the old one holds `cap`. */
  predicate CopyFits(size: nat, cap: nat) { size + HEADER <= WORD || cap <= PGSIZE - HEADER }

  lemma CopyFitsIff(size: nat, cap: nat)
    requires 0 < size < WORD && Granted(size) > 0
    ensures Min(size, cap) <= Granted(size) <==> CopyFits(size, cap)
  {
    GrantedEnough(size);
    if size + HEADER > WORD {
      assert (size + HEADER) % WORD == size + HEADER - WORD;
    }
  }

  /** Growing a block of two pages to 0xffffffff bytes copies past the block of one page that malloc
      gives for them. */
  lemma CopiesTooFar()
    ensures Min(0xffffffff, 2 * PGSIZE - HEADER) > Granted(0xffffffff)
  {
    WrappedRequest();
  }

  // ----- What a request is due -----

  /** Blocks of 16 * 2^d bytes are the smallest that hold the request. */
  ghost predicate JustSmall(size: nat, d: nat) {
    d < 7 && size <= 16 * Pow2(d) && (d > 0 ==> 16 * Pow2(d - 1) < size)
  }

  /** `k` pages just hold the request and a header of 12 bytes. */
  ghost predicate JustHolds(size: nat, k: nat) { 4096 * k - 4096 < size + 12 <= 4096 * k }

  /** What malloc should answer when the pages `used` are in use and the free lists are `lists`: the
      size of the block, or `None` for a null pointer, and the number of pages that it takes from
      the pool.  The last two cases are those in which the arithmetic wraps. */
  ghost predicate Due(size: nat, used: seq<bool>, lists: seq<seq<nat>>, cap: Option<nat>, pages: nat)
    requires |lists| == 7
  {
    if size == 0 then cap == None && pages == 0
    else if size <= 1024 then
      exists d: nat :: JustSmall(size, d) &&
        if lists[d] == [] && !HasRun(used, 0, 1, false) then cap == None && pages == 0
        else cap == Some(16 * Pow2(d)) && pages == if lists[d] == [] then 1 else 0
    else if size + 12 + 4095 < 0x1_0000_0000 then
      exists k: nat :: JustHolds(size, k) &&
        if HasRun(used, 0, k, false) then cap == Some(4096 * k - 12) && pages == k else cap == None && pages == 0
    else if size + 12 > 0x1_0000_0000 && HasRun(used, 0, 1, false) then cap == Some(4096 - 12) && pages == 1
    else cap == None && pages == 0
  }

  /** The first free run of `pages` pages is taken from the pool. */
  ghost predicate PagesTaken(used: seq<bool>, pages: nat, used': seq<bool>) {
    if pages == 0 then used' == used
    else exists i: nat :: IsFirstRun(used, 0, pages, false, i) && used' == SetRange(used, i, pages, true)
  }

  /** The answer is the one that is due, and so is what the pool looks like afterwards. */
  ghost predicate GetsDue(
    size: nat, used: seq<bool>, lists: seq<seq<nat>>, cap: Option<nat>, used': seq<bool>)
  {
    |lists| == 7 && exists pages: nat :: Due(size, used, lists, cap, pages) && PagesTaken(used, pages, used')
  }

  ghost predicate IsDue(size: nat, used: seq<bool>, lists: seq<seq<nat>>, cap: Option<nat>) {
    |lists| == 7 && exists pages: nat :: Due(size, used, lists, cap, pages)
  }

  /** The pages that malloc takes, as it computes them. */
  ghost function PagesDue(size: nat, used: seq<bool>, lists: seq<seq<nat>>): nat
    requires |lists| == DESC_CNT
  {
    if NoMemory(size, used, lists) then 0
    else if ClassOf(size) == DESC_CNT then PageCnt(size)
    else if lists[ClassOf(size)] == [] then 1 else 0
  }

  lemma Pow2Small()
    ensures Pow2(0) == 1 && Pow2(1) == 2 && Pow2(2) == 4 && Pow2(3) == 8 && Pow2(4) == 16 && Pow2(5) == 32
    ensures Pow2(6) == 64
  {
  }

  lemma BlockSizeIs(d: nat)
    requires d < DESC_CNT
    ensures BlockSize(d) == 16 * Pow2(d)
  {
    Pow2Small();
  }

  /** As many blocks as fit behind the header of a page. */
  lemma PerArenaIs(d: nat)
    requires d < DESC_CNT
    ensures PerArena(d) * (16 * Pow2(d)) <= 4096 - 12 < (PerArena(d) + 1) * (16 * Pow2(d))
  {
    hide Pow2, BlockSize;
    BlockSizeIs(d);
    Quotient(4096 - 12, 16 * Pow2(d));
  }

  lemma Quotient(x: nat, s: nat)
    requires s > 0
    ensures (x / s) * s <= x < (x / s + 1) * s
  {
  }

  /** A big request gets the fewest pages that hold it. */
  lemma PageCntIs(size: nat)
    requires 1024 < size < WORD
    ensures size + 12 + 4095 < 0x1_0000_0000 ==> JustHolds(size, PageCnt(size))
    ensures 0x1_0000_0000 <= size + 12 + 4095 && size + 12 <= 0x1_0000_0000 ==> PageCnt(size) == 0
    ensures size + 12 > 0x1_0000_0000 ==> PageCnt(size) == 1
  {
    if size + 12 > 0x1_0000_0000 { assert (size + 12) % WORD == size + 12 - WORD; }
  }

  /** What malloc computes is what is due. */
  lemma DueIs(size: nat, used: seq<bool>, lists: seq<seq<nat>>)
    requires size < WORD && |lists| == DESC_CNT
    ensures
      var cap := if NoMemory(size, used, lists) then None else Some(Granted(size));
      Due(size, used, lists, cap, PagesDue(size, used, lists))
  {
    hide PageCnt, HasRun, BlockSize, Pow2;
    if 0 < size <= 1024 {
      var d := ClassOf(size);
      SmallIs(size, d);
      assert JustSmall(size, d);
    } else if size > 1024 {
      PageCntIs(size);
      if size + 12 + 4095 < 0x1_0000_0000 { assert JustHolds(size, PageCnt(size)); }
    }
  }

  lemma ZeroDue(used: seq<bool>, lists: seq<seq<nat>>)
    requires |lists| == DESC_CNT
    ensures NoMemory(0, used, lists) && PagesDue(0, used, lists) == 0 && PagesTaken(used, 0, used)
  {
  }

  lemma SmallIs(size: nat, d: nat)
    requires 0 < size <= 1024 && d == ClassOf(size)
    ensures d < DESC_CNT && JustSmall(size, d) && BlockSize(d) == 16 * Pow2(d)
  {
    Pow2Small();
  }

  // ----- The pool -----

  /** The pages in use are those of the heap's arenas and those that others allocated. */
  ghost predicate PoolOk(used: seq<bool>, base: nat, owner: map<nat, nat>, other: set<nat>) {
    // Named, so that the verifier takes the conjunction as one assertion.
    var ok :=
      && (forall i :: 0 <= i < |used| ==> (used[i] <==> base + i in owner || base + i in other))
      && (forall k :: k in owner ==> base <= k < base + |used| && k !in other);
    ok
  }

  lemma PoolTake(used: seq<bool>, base: nat, owner: map<nat, nat>, other: set<nat>, no: nat, cnt: nat)
    requires PoolOk(used, base, owner, other) && base <= no && no + cnt <= base + |used|
    requires AllAre(used, no - base, cnt, false)
    ensures PoolOk(SetRange(used, no - base, cnt, true), base, WithPages(owner, no, cnt), other)
    ensures forall k :: no <= k < no + cnt ==> k !in owner
  {
    forall k | no <= k < no + cnt
      ensures k !in owner && k !in other
    {
      assert !used[k - base];
    }
  }

  lemma PoolGive(used: seq<bool>, base: nat, h: Heap, other: set<nat>, no: nat)
    requires PoolOk(used, base, h.owner, other) && HeapOk(h) && no in h.arenas
    ensures var cnt := PagesOf(h.arenas[no]);
      && cnt > 0 && base <= no && no + cnt <= base + |used| && AllAre(used, no - base, cnt, true)
      && PoolOk(SetRange(used, no - base, cnt, false), base, WithoutPages(h.owner, no), other)
  {
    hide ListOk, InUseOk, Complete;
    var cnt := PagesOf(h.arenas[no]);
    assert ArenaOk(h, no) && OwnsPages(h.owner, no, cnt);
    assert no in h.owner && no + cnt - 1 in h.owner;
    forall i | no - base <= i < no - base + cnt
      ensures used[i]
    {
      assert base + i in h.owner;
    }
    assert forall k :: k in h.owner && h.owner[k] == no ==> no <= k < no + cnt;
  }

  // ----- Bytes -----

  type Bytes = nat -> byte

  /** Where the allocator itself writes: arena headers and the links in free blocks. */
  ghost predicate IsBook(h: Heap, a: nat)
    requires |h.lists| == DESC_CNT
  {
    || (PgNo(a) in h.arenas && PgOfs(a) < HEADER)
    || exists d: nat, b :: d < DESC_CNT && b in h.lists[d] && b <= a < b + 8
  }

  /** The memory once the allocator has written `junk` there. */
  ghost function Booked(h: Heap, mem: Bytes, junk: Bytes): Bytes
    requires |h.lists| == DESC_CNT
  {
    a => if IsBook(h, a) then junk(a) else mem(a)
  }

  ghost function Stored(mem: Bytes, lo: nat, n: nat, data: Bytes): Bytes {
    (a: nat) => if lo <= a < lo + n then data(a) else mem(a)
  }

  /** The `n` bytes at `dst` are those that were at `src`. */
  ghost predicate SameBytes(mem': Bytes, dst: nat, mem: Bytes, src: nat, n: nat) {
    forall a: nat :: dst <= a < dst + n ==> mem'(a) == mem(src + (a - dst))
  }

  /** memcpy */
  ghost function Copied(mem: Bytes, dst: nat, src: nat, n: nat): Bytes {
    (a: nat) => if dst <= a < dst + n then mem(src + (a - dst)) else mem(a)
  }

  /** The blocks in use in both heaps are the same blocks with the same bytes. */
  ghost predicate Undisturbed(h: Heap, mem: Bytes, h': Heap, mem': Bytes) {
    forall b :: b in h.live && b in h'.live ==>
      && PgNo(b) in h.arenas && PgNo(b) in h'.arenas && Capacity(h'.arenas, b) == Capacity(h.arenas, b)
      && forall a: nat :: b <= a < b + Capacity(h.arenas, b) ==> mem'(a) == mem(a)
  }

  /** The allocator's own data is never inside a block in use. */
  lemma NotBook(h: Heap, b: nat, a: nat)
    requires HeapOk(h) && b in h.live
    ensures PgNo(b) in h.arenas && (b <= a < b + Capacity(h.arenas, b) ==> !IsBook(h, a))
  {
    hide HeapOk, Capacity;
    InArena(h, b);
    Shape(h);
    if b <= a < b + Capacity(h.arenas, b) {
      if PgNo(a) in h.arenas {
        HeadersDisjoint(h, b, PgNo(a));
      }
      forall d: nat, c | d < DESC_CNT && c in h.lists[d]
        ensures !(c <= a < c + 8)
      {
        NotLinked(h, b, a, d, c);
      }
    }
  }

  lemma NotLinked(h: Heap, b: nat, a: nat, d: nat, c: nat)
    requires HeapOk(h) && b in h.live && PgNo(b) in h.arenas && b <= a < b + Capacity(h.arenas, b)
    requires d < DESC_CNT && c in h.lists[d]
    ensures !(c <= a < c + 8)
  {
    hide Complete, PagesOk;
    assert ListOk(h, d) && OnArena(h.arenas, c, d);
    assert InUseOk(h, b);
    BlocksDisjoint(h, b, c);
  }

  ghost predicate Alike(a: Arena, a': Arena) {
    a == a' || (a.Small? && a'.Small? && a.d == a'.d)
  }

  lemma SameCapacities(h: Heap, h': Heap, mem: Bytes)
    requires HeapOk(h)
    requires forall b :: b in h.live && b in h'.live && PgNo(b) in h.arenas ==>
      PgNo(b) in h'.arenas && Alike(h.arenas[PgNo(b)], h'.arenas[PgNo(b)])
    ensures Undisturbed(h, mem, h', mem)
  {
    hide ListOk, ArenaOk, Complete, PagesOk;
    forall b | b in h.live && b in h'.live
      ensures PgNo(b) in h.arenas
    {
      assert InUseOk(h, b);
    }
  }

  lemma BookedKeeps(h: Heap, mem: Bytes, junk: Bytes)
    requires HeapOk(h)
    ensures Undisturbed(h, mem, h, Booked(h, mem, junk))
  {
    hide HeapOk, IsBook, Capacity;
    Shape(h);
    forall b | b in h.live
      ensures PgNo(b) in h.arenas
      ensures forall a: nat :: b <= a < b + Capacity(h.arenas, b) ==> Booked(h, mem, junk)(a) == mem(a)
    {
      NotBook(h, b, b);
      forall a: nat | b <= a < b + Capacity(h.arenas, b)
        ensures Booked(h, mem, junk)(a) == mem(a)
      {
        NotBook(h, b, a);
      }
    }
  }

  lemma StoredKeeps(h: Heap, mem: Bytes, lo: nat, n: nat, data: Bytes, h': Heap)
    requires Undisturbed(h, mem, h', mem)
    requires forall b :: b in h.live && b in h'.live && PgNo(b) in h.arenas ==>
      Disjoint(b, Capacity(h.arenas, b), lo, n)
    ensures Undisturbed(h, mem, h', Stored(mem, lo, n, data))
  {
  }

  lemma Compose(h: Heap, mem: Bytes, h': Heap, mem': Bytes, h'': Heap, mem'': Bytes)
    requires Undisturbed(h, mem, h', mem') && Undisturbed(h', mem', h'', mem'') && h.live * h''.live <= h'.live
    ensures Undisturbed(h, mem, h'', mem'')
  {
    hide Capacity;
  }

  // ----- The allocator -----

  class Allocator {
    const pages: PageAllocator
    const descs: seq<Desc>
    var arenas: map<nat, Arena>
    var lists: seq<seq<nat>>
    ghost var live: set<nat>
    ghost var owner: map<nat, nat>
    ghost var other: set<nat>
    ghost var mem: Bytes

    /** malloc_init over a pool in which only others have pages. */
    constructor (pages: PageAllocator, descs: seq<Desc>, ghost other: set<nat>, ghost mem: Bytes)
      requires pages.Valid() && DescsOk(descs) && PoolOk(pages.kernel.Used(), PgNo(pages.kernel.base), map[], other)
      ensures Valid() && live == {} && this.pages == pages && this.other == other && this.mem == mem
    {
      this.pages, this.descs := pages, descs;
      arenas, lists := map[], seq(DESC_CNT, d => []);
      live, owner := {}, map[];
      this.other, this.mem := other, mem;
    }

    ghost function H(): Heap
      reads this
    {
      Heap(arenas, lists, live, owner)
    }

    ghost function Used(): seq<bool>
      requires pages.Valid()
      reads pages.kernel.usedMap.elems, pages.user.usedMap.elems
    {
      pages.kernel.Used()
    }

    function Base(): nat { PgNo(pages.kernel.base) }

    /** All but that every arena has a block in use. */
    ghost predicate Sound()
      reads this, pages.kernel.usedMap.elems, pages.user.usedMap.elems
    {
      // Named, so that the verifier takes the conjunction as one assertion.
      var ok :=
        && pages.Valid() && DescsOk(descs) && HeapOk(H()) && PoolOk(Used(), Base(), owner, other);
      ok
    }

    ghost predicate Valid()
      reads this, pages.kernel.usedMap.elems, pages.user.usedMap.elems
    {
      Sound() && Tight(arenas)
    }

    /** A new arena of small blocks, all of them free.  The order of the free blocks is that of
        their addresses. */
    method NewArena(d: nat) returns (ok: bool)
      requires Valid() && d < DESC_CNT && lists[d] == []
      modifies this`arenas, this`lists, this`owner, pages.kernel.usedMap.elems
      ensures Sound()
      ensures ok <==> HasRun(old(Used()), 0, 1, false)
      ensures !ok ==> H() == old(H()) && Used() == old(Used())
      ensures ok ==> PagesTaken(old(Used()), 1, Used())
      ensures ok ==> exists no :: no !in old(owner) && H() == WithSmall(old(H()), no, d)
    {
      hide HeapOk, PoolOk, Tight, HasRun, IsFirstRun, WithPages, AllBlocks, SetRange;
      var page := pages.GetMultiple(false, 1);
      if page == 0 {
        return false;
      }
      ghost var h := H();
      Shape(h);
      var no := PgNo(page);
      FoundPages(old(Used()), Base(), no, 1);
      PoolTake(old(Used()), Base(), owner, other, no, 1);
      AddSmall(h, no, d);
      arenas := arenas[no := Small(d, descs[d].blocksPerArena)];
      owner := WithPages(owner, no, 1);
      PushBlocks(no, d);
      assert H() == WithSmall(h, no, d);
      return true;
    }

    /** The loop of malloc that adds the blocks of a new arena to the free list. */
    method PushBlocks(no: nat, d: nat)
      requires DescsOk(descs) && d < DESC_CNT && |lists| == DESC_CNT && lists[d] == []
      modifies this`lists
      ensures lists == old(lists)[d := AllBlocks(no, d)]
    {
      var i := 0;
      while i < descs[d].blocksPerArena
        invariant 0 <= i <= PerArena(d)
        invariant lists == old(lists)[d := AllBlocks(no, d)[..i]]
      {
        assert AllBlocks(no, d)[..i + 1] == AllBlocks(no, d)[..i] + [BlockAt(no, d, i)];
        lists := lists[d := lists[d] + [BlockAt(no, d, i)]];
        i := i + 1;
      }
      assert AllBlocks(no, d)[..i] == AllBlocks(no, d);
    }

    /** The end of malloc for a small block: the first free block is taken. */
    method TakeBlock(d: nat) returns (b: nat)
      requires Sound() && d < DESC_CNT && lists[d] != []
      modifies this`arenas, this`lists, this`live
      ensures Sound() && H() == Taken(old(H()), d) && b == old(lists[d][0])
    {
      hide HeapOk, PoolOk, PerArena;
      Shape(H());
      FirstFree(H(), d);
      Take(H(), d);
      b := lists[d][0];
      lists := lists[d := lists[d][1..]];
      var no := PgNo(PgRoundDown(b));
      assert no == PgNo(b);
      arenas := arenas[no := arenas[no].(freeCnt := arenas[no].freeCnt - 1)];
      live := live + {b};
    }

    method FindDesc(size: nat) returns (d: nat)
      requires DescsOk(descs)
      ensures d == ClassOf(size)
    {
      d := 0;
      while d < |descs| && descs[d].blockSize < size
        invariant d <= DESC_CNT && forall e: nat :: e < d ==> BlockSize(e) < size
      {
        d := d + 1;
      }
      ClassUnique(size, d);
    }

    /** malloc of a block with a descriptor. */
    method MallocSmall(size: nat, d: nat, ghost junk: Bytes) returns (p: nat)
      requires Valid() && 0 < size && d == ClassOf(size) < DESC_CNT
      modifies this`arenas, this`lists, this`live, this`owner, this`mem, pages.kernel.usedMap.elems
      ensures Valid()
      ensures p == 0 <==> NoMemory(size, old(Used()), old(lists))
      ensures p == 0 ==> H() == old(H()) && Used() == old(Used()) && mem == old(mem)
      ensures p != 0 ==> p !in old(live) && live == old(live) + {p}
      ensures p != 0 ==> PgNo(p) in arenas && Capacity(arenas, p) == Granted(size)
      ensures PagesTaken(old(Used()), PagesDue(size, old(Used()), old(lists)), Used())
      ensures Undisturbed(old(H()), old(mem), H(), mem)
    {
      hide HeapOk, PoolOk, Tight, HasRun, Undisturbed, Booked, PerArena, WithSmall, Taken, IsBlock;
      ghost var h := H();
      Shape(h);
      if lists[d] == [] {
        var ok := NewArena(d);
        if !ok {
          Untouched(h, mem);
          return 0;
        }
        ghost var no :| no !in h.owner && H() == WithSmall(h, no, d);
        NewSmallStep(h, no, d, mem);
      } else {
        Untouched(h, mem);
        TakeTight(h, d);
      }
      ghost var h', m := H(), mem;
      Shape(h');
      mem := Booked(h', mem, junk);
      BookedKeeps(h', m, junk);
      TakeStep(h', d, mem);
      p := TakeBlock(d);
      Compose(h, m, h', m, h', mem);
      Compose(h, m, h', mem, H(), mem);
    }

    /** malloc of pages of its own. */
    method MallocBig(size: nat, ghost junk: Bytes) returns (p: nat)
      requires Valid() && 0 < size && ClassOf(size) == DESC_CNT
      modifies this`arenas, this`live, this`owner, this`mem, pages.kernel.usedMap.elems
      ensures Valid()
      ensures p == 0 <==> NoMemory(size, old(Used()), old(lists))
      ensures p == 0 ==> H() == old(H()) && Used() == old(Used()) && mem == old(mem)
      ensures p != 0 ==> p !in old(live) && live == old(live) + {p}
      ensures p != 0 ==> PgNo(p) in arenas && Capacity(arenas, p) == Granted(size)
      ensures PagesTaken(old(Used()), PagesDue(size, old(Used()), old(lists)), Used())
      ensures Undisturbed(old(H()), old(mem), H(), mem)
    {
      hide HeapOk, PoolOk, Tight, HasRun, IsFirstRun, Undisturbed, Booked, WithPages, SetRange, PageCnt, ClassOf,
        DescsOk, AllAre;
      ghost var h, m := H(), mem;
      Shape(h);
      var pageCnt := PageCnt(size);
      var page := pages.GetMultiple(false, pageCnt);
      if page == 0 {
        Untouched(h, mem);
        return 0;
      }
      var no := PgNo(page);
      BigPages(old(Used()), Base(), h, other, no, pageCnt, mem);
      arenas := arenas[no := Big(pageCnt)];
      p := page + HEADER;
      assert p == no * PGSIZE + HEADER;
      live := live + {p};
      owner := WithPages(owner, no, pageCnt);
      mem := Booked(H(), mem, junk);
      BookedKeeps(H(), m, junk);
      Compose(h, m, H(), m, H(), mem);
    }

    /** malloc */
    method Malloc(size: uint32, ghost junk: Bytes) returns (p: nat)
      requires Valid()
      modifies this`arenas, this`lists, this`live, this`owner, this`mem, pages.kernel.usedMap.elems
      ensures Valid()
      ensures p == 0 <==> NoMemory(size, old(Used()), old(lists))
      ensures p == 0 ==> H() == old(H()) && Used() == old(Used()) && mem == old(mem)
      ensures p != 0 ==> p !in old(live) && live == old(live) + {p}
      ensures p != 0 ==> PgNo(p) in arenas && Capacity(arenas, p) == Granted(size)
      ensures GetsDue(size, old(Used()), old(lists), if p == 0 then None else Some(Capacity(arenas, p)), Used())
      ensures Undisturbed(old(H()), old(mem), H(), mem)
    {
      hide HeapOk, PoolOk, Tight, HasRun, Undisturbed, ClassOf, PageCnt, PagesTaken, Due, Capacity, NoMemory, PagesDue;
      Shape(H());
      ZeroDue(old(Used()), old(lists));
      DueIs(size, old(Used()), old(lists));
      if size == 0 {
        Untouched(H(), mem);
        return 0;
      }
      var d := FindDesc(size);
      if d < DESC_CNT {
        p := MallocSmall(size, d, junk);
      } else {
        p := MallocBig(size, junk);
      }
    }

    /** This moment. */
    ghost function At(held: seq<nat>): Moment
      requires pages.Valid()
      reads this, pages.kernel.usedMap.elems, pages.user.usedMap.elems
    {
      Moment(H(), mem, Used(), held)
    }

    lemma NowOk(held: seq<nat>)
      requires Valid() && live == Elements(held) && NoDup(held)
      ensures pages.Valid() && MomentOk(At(held), Base(), other) && |Used()| == pages.kernel.usedMap.bitCnt
    {
    }

    lemma ListCount()
      requires Valid()
      ensures |lists| == DESC_CNT
    {
    }

    lemma NullNotHeld()
      requires Valid()
      ensures 0 !in live
    {
      hide HeapOk;
      NullIsNoBlock(H());
    }

    /** realloc.  The bytes that fit move along; on failure nothing changes. */
    method Realloc(old_: nat, newSize: uint32, ghost junk: Bytes) returns (p: nat)
      requires Valid() && (old_ == 0 || old_ in live)
      requires old_ != 0 && PgNo(old_) in arenas ==> CopyFits(newSize, Capacity(arenas, old_))
      modifies this`arenas, this`lists, this`live, this`owner, this`mem, pages.kernel.usedMap.elems
      ensures Valid()
      ensures newSize == 0 ==> p == 0 && live == old(live) - {old_}
      ensures newSize > 0 ==> (p == 0 <==> NoMemory(newSize, old(Used()), old(lists)))
      ensures newSize > 0 && p == 0 ==> H() == old(H()) && Used() == old(Used()) && mem == old(mem)
      ensures p != 0 ==> p !in old(live) && live == old(live) - {old_} + {p}
      ensures p != 0 ==> PgNo(p) in arenas && Capacity(arenas, p) == Granted(newSize)
      ensures p != 0 && old_ != 0 ==> PgNo(old_) in old(arenas)
      ensures p != 0 && old_ != 0 ==> SameBytes(mem, p, old(mem), old_, Min(newSize, Capacity(old(arenas), old_)))
      ensures newSize > 0 ==>
        IsDue(newSize, old(Used()), old(lists), if p == 0 then None else Some(Capacity(arenas, p)))
      ensures Undisturbed(old(H()), old(mem), H(), mem)
    {
      hide HeapOk, PoolOk, Tight, Undisturbed, NoMemory, Granted, Capacity, IsBlock, CopyFits, SameBytes;
      ghost var h, m := H(), mem;
      NullIsNoBlock(h);
      Shape(h);
      if newSize == 0 {
        Free(old_, junk);
        return 0;
      }
      p := Malloc(newSize, junk);
      if old_ != 0 && p != 0 {
        OldBlock(h, m, H(), mem, old_);
        GrantedIs(newSize, old(Used()), old(lists));
        MoveBlock(old_, p, newSize, h, m, junk);
      }
    }

    /** The end of realloc, once it has the new block `p`: the bytes that fit are copied to it and
        the old block is freed.  `h` and `m` are the heap and the memory before. */
    method MoveBlock(old_: nat, p: nat, newSize: uint32, ghost h: Heap, ghost m: Bytes, ghost junk: Bytes)
      requires Valid() && newSize > 0 && HeapOk(h) && h.live + {p} == live && p !in h.live && old_ in h.live
      requires PgNo(p) in arenas && Capacity(arenas, p) == Granted(newSize) > 0 && Undisturbed(h, m, H(), mem)
      requires PgNo(old_) in h.arenas && CopyFits(newSize, Capacity(h.arenas, old_))
      modifies this`arenas, this`lists, this`live, this`owner, this`mem, pages.kernel.usedMap.elems
      ensures Valid() && live == old(live) - {old_}
      ensures PgNo(p) in arenas && Capacity(arenas, p) == Granted(newSize)
      ensures SameBytes(mem, p, m, old_, Min(newSize, Capacity(h.arenas, old_)))
      ensures Undisturbed(h, m, H(), mem)
    {
      hide HeapOk, PoolOk, Tight, Undisturbed, Granted, Copied, Capacity, IsBlock, CopyFits;
      ghost var h', m' := H(), mem;
      OldBlock(h, m, h', m', old_);
      var no := BlockToArena(old_);
      var oldSize := Capacity(arenas, old_);
      var minSize := Min(newSize, oldSize);
      CopyFitsIff(newSize, oldSize);
      CopyStep(h, m, h', m', p, old_, minSize);
      mem := Copied(mem, p, old_, minSize);
      ghost var m'' := mem;
      Free(old_, junk);
      OldBlock(h', m'', H(), mem, p);
      Compose(h, m, h', m'', H(), mem);
    }

    /** The owner of a block writes to it. */
    ghost method Fill(held: seq<nat>, b: nat, data: Bytes)
      requires Valid() && b in live
      modifies this`mem
      ensures Valid() && PgNo(b) in arenas && mem == Stored(old(mem), b, Capacity(arenas, b), data)
      ensures Keeps(old(At(held)), At(held), b)
    {
      hide HeapOk, Capacity;
      InHeap(H(), b);
      mem := Stored(mem, b, Capacity(arenas, b), data);
      forall c | c in live && c != b
        ensures SameBlock(old(At(held)), At(held), c)
      {
        BlocksDisjoint(H(), c, b);
      }
    }

    lemma Unchanged(held: seq<nat>)
      requires Valid()
      ensures Keeps(At(held), At(held), 0)
    {
      hide HeapOk, Undisturbed;
      Untouched(H(), mem);
      KeepsIs(At(held), At(held));
    }

    /** Whether a call is not a realloc that copies too far; the sizes of blocks are known. */
    method CallFits(held: seq<nat>, call: Call) returns (fits: bool)
      requires Valid() && live == Elements(held)
      ensures !fits ==> call.Resize? && call.i < |held| && PgNo(held[call.i]) in arenas
      ensures call.Resize? && call.i < |held| && PgNo(held[call.i]) in arenas ==>
        (fits <==> CopyFits(call.size, Capacity(arenas, held[call.i])))
    {
      hide HeapOk, Capacity, PoolOk, Tight;
      fits := true;
      if call.Resize? && call.i < |held| {
        InHeap(H(), held[call.i]);
        fits := CopyFits(call.size, Capacity(arenas, held[call.i]));
      }
    }

    /** block_to_arena; the page number of the arena.  The assertions of the source hold. */
    method BlockToArena(b: nat) returns (no: nat)
      requires Valid() && b in live
      ensures no == PgNo(b) && no in arenas
      ensures arenas[no].Small? ==> arenas[no].d < DESC_CNT && OnArena(arenas, b, arenas[no].d)
      ensures arenas[no].Big? ==> b == no * PGSIZE + HEADER && PagesOf(arenas[no]) > 0
    {
      hide ListOk, Complete, PagesOk;
      assert InUseOk(H(), b) && ArenaOk(H(), PgNo(b));
      var a := PgRoundDown(b);
      no := PgNo(a);
      assert no == PgNo(b) && no in arenas;
      assert arenas[no].Big? || (PgOfs(b) - HEADER) % descs[arenas[no].d].blockSize == 0;
      assert arenas[no].Small? || PgOfs(b) == HEADER;
    }

    /** free */
    method Free(p: nat, ghost junk: Bytes)
      requires Valid() && (p == 0 || p in live)
      modifies this`arenas, this`lists, this`live, this`owner, this`mem, pages.kernel.usedMap.elems
      ensures Valid() && live == old(live) - {p}
      ensures p == 0 ==> H() == old(H()) && Used() == old(Used()) && mem == old(mem)
      ensures Undisturbed(old(H()), old(mem), H(), mem)
    {
      hide HeapOk, PoolOk, Tight, Undisturbed, IsBlock;
      if p == 0 {
        NullIsNoBlock(H());
        Untouched(H(), mem);
        return;
      }
      var no := BlockToArena(p);
      if arenas[no].Small? {
        FreeSmall(p, no, arenas[no].d, junk);
      } else {
        FreeBig(p, no, junk);
      }
    }

    /** free of a small block. */
    method FreeSmall(b: nat, no: nat, d: nat, ghost junk: Bytes)
      requires Valid() && b in live && no == PgNo(b) && d < DESC_CNT && OnArena(arenas, b, d)
      modifies this`arenas, this`lists, this`live, this`owner, this`mem, pages.kernel.usedMap.elems
      ensures Valid() && live == old(live) - {b}
      ensures Undisturbed(old(H()), old(mem), H(), mem)
    {
      hide HeapOk, PoolOk, Tight, Undisturbed, Booked, PerArena, IsBlock, FreeIn, Stored, NoDup;
      ghost var h, m := H(), mem;
      Shape(h);
      GiveStep(h, b, d, mem, junk);
      mem := Stored(mem, b, BlockSize(d), junk);
      lists := lists[d := [b] + lists[d]];
      arenas := arenas[no := arenas[no].(freeCnt := arenas[no].freeCnt + 1)];
      live := live - {b};
      ghost var h', m' := H(), mem;
      assert h' == Given(h, b, d);
      mem := Booked(h', mem, junk);
      BookedKeeps(h', m', junk);
      Compose(h, m, h', m', h', mem);
      if arenas[no].freeCnt >= descs[d].blocksPerArena {
        assert arenas[no].freeCnt == descs[d].blocksPerArena;
        DropArena(no, d, junk);
        Compose(h, m, h', Booked(h', m', junk), H(), mem);
      } else {
        StillTight(h, b, d);
      }
    }

    /** The end of free: an arena whose blocks are all free goes back to the page allocator. */
    method DropArena(no: nat, d: nat, ghost junk: Bytes)
      requires Sound() && d < DESC_CNT && no in arenas && arenas[no] == Small(d, PerArena(d))
      requires Tight(arenas - {no})
      modifies this`arenas, this`lists, this`owner, this`mem, pages.kernel.usedMap.elems
      ensures Valid()
      ensures Undisturbed(old(H()), old(mem), H(), mem)
    {
      hide HeapOk, PoolOk, Tight, Undisturbed, PerArena, IsBlock, FreeIn, NoDup, WithoutPages, SetRange, Stored,
        AllAre, DescsOk;
      ghost var h, m := H(), mem;
      Shape(h);
      PoolGive(Used(), Base(), h, other, no);
      RemoveBlocks(no, d);
      DropSmall(h, no, d, lists[d]);
      DropStep(h, no, WithoutSmall(h, no, d, lists[d]), m, junk);
      PageAddress(no);
      pages.FreeMultiple(no * PGSIZE, 1, false);
      mem := Stored(mem, no * PGSIZE, PGSIZE, junk);
      arenas := arenas - {no};
      owner := WithoutPages(owner, no);
    }

    /** The loop of free that takes the blocks of an unused arena off the free list. */
    method RemoveBlocks(no: nat, d: nat)
      requires DescsOk(descs) && HeapOk(H()) && d < DESC_CNT && no in arenas && arenas[no] == Small(d, PerArena(d))
      modifies this`lists
      ensures |lists| == DESC_CNT && lists == old(lists)[d := lists[d]] && NoDup(lists[d])
      ensures forall b :: b in lists[d] <==> b in old(lists[d]) && PgNo(b) != no
    {
      hide ListOk, ArenaOk, InUseOk, Complete, PagesOk, IsBlock, PerArena, NoDup, BlockSize;
      FullArena(H(), no, d);
      ListIs(H(), d);
      var i := 0;
      while i < descs[d].blocksPerArena
        invariant 0 <= i <= PerArena(d) && |lists| == DESC_CNT && lists == old(lists)[d := lists[d]]
        invariant NoDup(lists[d])
        invariant forall b :: b in lists[d] <==> b in old(lists[d]) && !(PgNo(b) == no && InPrefix(b, d, i))
      {
        var b := BlockAt(no, d, i);
        BlockAtIs(no, d, i);
        assert b in lists[d];
        WithoutIs(lists[d], b);
        PrefixGrows(no, d, i);
        lists := lists[d := Without(lists[d], b)];
        i := i + 1;
      }
      WholePrefix(old(H()), no, d);
    }

    /** free of a big block. */
    method FreeBig(b: nat, no: nat, ghost junk: Bytes)
      requires Valid() && b in live && no == PgNo(b) && no in arenas && arenas[no].Big? && b == no * PGSIZE + HEADER
      modifies this`arenas, this`live, this`owner, this`mem, pages.kernel.usedMap.elems
      ensures Valid() && live == old(live) - {b}
      ensures Undisturbed(old(H()), old(mem), H(), mem)
    {
      hide HeapOk, PoolOk, Undisturbed, WithoutPages, SetRange, Stored;
      ghost var h, m := H(), mem;
      PoolGive(Used(), Base(), h, other, no);
      DropBig(h, no);
      DropStep(h, no, WithoutBig(h, no), m, junk);
      PageAddress(no);
      mem := Stored(mem, no * PGSIZE, PagesOf(arenas[no]) * PGSIZE, junk);
      pages.FreeMultiple(no * PGSIZE, arenas[no].pageCnt, false);
      arenas := arenas - {no};
      live := live - {b};
      owner := WithoutPages(owner, no);
    }
  }

  /** A call: malloc; free or realloc of the `i`th block that the caller holds, or of a null pointer
      when it holds fewer; or the caller fills that block with bytes of its own. */
  datatype Call = Alloc(size: uint32) | Release(i: nat) | Resize(i: nat, size: uint32) | Fill(i: nat, data: Bytes)

  /** One moment: the heap, the memory, the pages in use, and the blocks that the caller holds in the
      order in which it obtained them. */
  datatype Moment = Moment(h: Heap, mem: Bytes, used: seq<bool>, held: seq<nat>)

  /** The heap is well formed, its blocks in use are those held, every arena has one of them, and the
      pages in use are those of the arenas and those of others. */
  ghost predicate MomentOk(m: Moment, base: nat, other: set<nat>) {
    && HeapOk(m.h) && Tight(m.h.arenas) && PoolOk(m.used, base, m.h.owner, other)
    && m.h.live == Elements(m.held) && NoDup(m.held)
  }

  function HeldAt(held: seq<nat>, i: nat): nat { if i < |held| then held[i] else 0 }

  /** The blocks held once `b` is given up and `p` obtained, either of which may be null. */
  function Held(held: seq<nat>, b: nat, p: nat): seq<nat> { Without(held, b) + if p == 0 then [] else [p] }

  /** From one moment to the next, the blocks in use in both keep their size and bytes, except for
      `filled`. */
  ghost predicate Keeps(m: Moment, m': Moment, filled: nat) {
    forall b :: b in m.h.live && b in m'.h.live && b != filled ==> SameBlock(m, m', b)
  }

  ghost predicate SameBlock(m: Moment, m': Moment, b: nat) {
    && PgNo(b) in m.h.arenas && PgNo(b) in m'.h.arenas && Capacity(m'.h.arenas, b) == Capacity(m.h.arenas, b)
    && forall a: nat :: b <= a < b + Capacity(m.h.arenas, b) ==> m'.mem(a) == m.mem(a)
  }

  /** malloc of `size` bytes, or realloc of `b` to that size: a new block of the size granted, with
      the bytes of `b` that fit, in its place; or, exactly when there is no memory, a null pointer
      and no change at all. */
  ghost predicate Obtains(m: Moment, b: nat, size: uint32, p: nat, m': Moment) {
    && |m.h.lists| == DESC_CNT && (p == 0 <==> NoMemory(size, m.used, m.h.lists))
    && (p == 0 ==> m' == m)
    && (p != 0 ==>
          && p !in m.h.live && PgNo(p) in m'.h.arenas && Capacity(m'.h.arenas, p) == Granted(size)
          && m'.held == Held(m.held, b, p))
    && (p != 0 && b != 0 ==>
          && PgNo(b) in m.h.arenas
          && SameBytes(m'.mem, p, m.mem, b, Min(size, Capacity(m.h.arenas, b))))
  }

  /** What one call does, and the pointer that it returns. */
  ghost predicate CallStep(m: Moment, call: Call, p: nat, m': Moment) {
    match call
    case Alloc(size) => Obtains(m, 0, size, p, m') && Keeps(m, m', 0)
    case Release(i) =>
      var b := HeldAt(m.held, i);
      p == 0 && m'.held == Held(m.held, b, 0) && (b == 0 ==> m' == m) && Keeps(m, m', 0)
    case Resize(i, size) =>
      var b := HeldAt(m.held, i);
      && (if size == 0 then p == 0 && m'.held == Held(m.held, b, 0) else Obtains(m, b, size, p, m'))
      && Keeps(m, m', 0)
    case Fill(i, data) =>
      var b := HeldAt(m.held, i);
      && p == 0
      && (b == 0 ==> m' == m)
      && (b != 0 ==> PgNo(b) in m.h.arenas && m' == m.(mem := Stored(m.mem, b, Capacity(m.h.arenas, b), data)))
      && Keeps(m, m', b)
  }

  /** A history: the moments between calls. */
  ghost predicate History(ms: seq<Moment>, calls: seq<Call>, results: seq<nat>) {
    && |ms| == |calls| + 1 && |results| == |calls|
    && forall i :: 0 <= i < |calls| ==> CallStep(ms[i], calls[i], results[i], ms[i + 1])
  }

  /** The block is held from moment `i` to moment `j`, and the caller does not fill it meanwhile. */
  ghost predicate HeldFrom(ms: seq<Moment>, calls: seq<Call>, i: nat, j: nat, b: nat)
    requires |ms| == |calls| + 1 && i <= j < |ms|
  {
    && (forall k :: i <= k <= j ==> b in ms[k].h.live)
    && (forall k :: i <= k < j && calls[k].Fill? ==> HeldAt(ms[k].held, calls[k].i) != b)
  }

  /** A block keeps its bytes for as long as it is held and its owner does not change them. */
  lemma {:induction false} BlockKept(ms: seq<Moment>, calls: seq<Call>, results: seq<nat>, i: nat, j: nat, b: nat)
    requires History(ms, calls, results) && i <= j < |ms| && HeapOk(ms[i].h) && HeldFrom(ms, calls, i, j, b)
    ensures SameBlock(ms[i], ms[j], b)
    decreases j
  {
    hide Capacity, HeapOk, Obtains, Held, HeldAt;
    if i < j {
      BlockKept(ms, calls, results, i, j - 1, b);
      assert CallStep(ms[j - 1], calls[j - 1], results[j - 1], ms[j]);
      NullIsNoBlock(ms[i].h);
      assert SameBlock(ms[j - 1], ms[j], b);
    } else {
      InHeap(ms[i].h, b);
    }
  }

  lemma KeepsIs(m: Moment, m': Moment)
    requires Undisturbed(m.h, m.mem, m'.h, m'.mem)
    ensures Keeps(m, m', 0)
  {
  }

  /** Any run of calls from an empty heap is a history: each call does what it promises, every moment
      of it is well formed, and whenever the caller holds nothing the pool is as it was.  The run
      stops before a realloc that would copy too far. */
  method Run(a: Allocator, calls: seq<Call>, ghost junk: Bytes)
    returns (results: seq<nat>, held: seq<nat>, ghost ms: seq<Moment>)
    requires a.Valid() && a.live == {}
    modifies a`arenas, a`lists, a`live, a`owner, a`mem, a.pages.kernel.usedMap.elems
    ensures a.Valid() && a.live == Elements(held)
    ensures |results| <= |calls| && History(ms, calls[..|results|], results)
    ensures ms[0] == old(a.At([])) && ms[|results|] == a.At(held)
    ensures forall k :: 0 <= k < |ms| ==> MomentOk(ms[k], a.Base(), old(a.other))
    ensures forall k :: 0 <= k < |ms| && ms[k].held == [] ==> ms[k].used == ms[0].used
    ensures |results| < |calls| ==>
      var call := calls[|results|];
      && call.Resize? && call.i < |held| && PgNo(held[call.i]) in a.arenas
      && !CopyFits(call.size, Capacity(a.arenas, held[call.i]))
  {
    hide Allocator.Sound, Tight, Capacity, CallStep, HeapOk, PoolOk, MomentOk;
    a.NowOk([]);
    results, held, ms := [], [], [a.At([])];
    while |results| < |calls|
      invariant |results| <= |calls| && a.Valid() && a.live == Elements(held) && NoDup(held)
      invariant |ms| == |results| + 1 && ms[0] == old(a.At([])) && ms[|results|] == a.At(held)
      invariant forall i :: 0 <= i < |results| ==> CallStep(ms[i], calls[i], results[i], ms[i + 1])
      invariant forall k :: 0 <= k < |ms| ==> MomentOk(ms[k], a.Base(), a.other) && |ms[k].used| == |ms[0].used|
      decreases |calls| - |results|
    {
      var fits := a.CallFits(held, calls[|results|]);
      if !fits {
        break;
      }
      var p;
      held, p := Apply(a, held, calls[|results|], junk);
      a.NowOk(held);
      results, ms := results + [p], ms + [a.At(held)];
    }
    forall k | 0 <= k < |ms| && ms[k].held == []
      ensures ms[k].used == ms[0].used
    {
      SamePool(ms[k], ms[0], a.Base(), a.other);
    }
  }

  /** Two moments with no block in use have the same pages in use. */
  lemma SamePool(m: Moment, m': Moment, base: nat, other: set<nat>)
    requires MomentOk(m, base, other) && MomentOk(m', base, other) && m.held == m'.held == [] && |m.used| == |m'.used|
    ensures m.used == m'.used
  {
    hide HeapOk, Tight;
    NothingInUse(m.h);
    NothingInUse(m'.h);
  }

  /** One call of a run. */
  method Apply(a: Allocator, held: seq<nat>, call: Call, ghost junk: Bytes) returns (held': seq<nat>, p: nat)
    requires a.Valid() && a.live == Elements(held) && NoDup(held)
    requires call.Resize? && call.i < |held| && PgNo(held[call.i]) in a.arenas ==>
      CopyFits(call.size, Capacity(a.arenas, held[call.i]))
    modifies a`arenas, a`lists, a`live, a`owner, a`mem, a.pages.kernel.usedMap.elems
    ensures a.Valid() && a.live == Elements(held') && NoDup(held')
    ensures CallStep(old(a.At(held)), call, p, a.At(held'))
  {
    hide Allocator.Sound, Tight, Undisturbed, NoMemory, Granted, Capacity, Keeps, Without, NoDup, SameBytes, Stored,
      MomentOk;
    a.NowOk(held);
    ghost var m := a.At(held);
    a.NullNotHeld();
    a.ListCount();
    p := 0;
    match call {
      case Alloc(size) =>
        p := a.Malloc(size, junk);
        held' := Hold(held, 0, p);
        KeepsIs(m, a.At(held'));
      case Release(i) =>
        a.Free(HeldAt(held, i), junk);
        held' := Hold(held, HeldAt(held, i), 0);
        KeepsIs(m, a.At(held'));
      case Resize(i, size) =>
        p := a.Realloc(HeldAt(held, i), size, junk);
        held' := Hold(held, if p != 0 || size == 0 then HeldAt(held, i) else 0, p);
        KeepsIs(m, a.At(held'));
      case Fill(i, data) =>
        held' := held;
        if i < |held| {
          a.Fill(held, held[i], data);
        } else {
          a.Unchanged(held);
        }
    }
  }

  method Hold(held: seq<nat>, b: nat, p: nat) returns (r: seq<nat>)
    requires NoDup(held) && 0 !in held && (p == 0 || p !in held)
    ensures r == Held(held, b, p) && (b !in held && p == 0 ==> r == held)
    ensures NoDup(r) && Elements(r) == Elements(held) - {b} + (if p == 0 then {} else {p})
  {
    WithoutIs(held, b);
    r := Without(held, b);
    if b !in held { WithoutAbsent(held, b); }
    if p != 0 {
      r := r + [p];
    }
  }

  /** When malloc returns a null pointer. */
  ghost predicate NoMemory(size: nat, used: seq<bool>, lists: seq<seq<nat>>)
    requires |lists| == DESC_CNT
  {
    var d := ClassOf(size);
    || size == 0
    || (d < DESC_CNT && lists[d] == [] && !HasRun(used, 0, 1, false))
    || (d == DESC_CNT && (PageCnt(size) == 0 || !HasRun(used, 0, PageCnt(size), false)))
  }

  lemma FoundPages(used: seq<bool>, base: nat, no: nat, cnt: nat)
    requires base <= no && IsFirstRun(used, 0, cnt, false, no - base)
    ensures no + cnt <= base + |used| && AllAre(used, no - base, cnt, false) && HasRun(used, 0, cnt, false)
  {
  }

  lemma ClassUnique(size: nat, d: nat)
    requires IsClass(size, d)
    ensures d == ClassOf(size)
  {
    assert BlockSize(0) == 16 && BlockSize(1) == 32 && BlockSize(2) == 64 && BlockSize(3) == 128;
    assert BlockSize(4) == 256 && BlockSize(5) == 512 && BlockSize(6) == 1024;
  }

  lemma Untouched(h: Heap, mem: Bytes)
    requires HeapOk(h)
    ensures Undisturbed(h, mem, h, mem)
  {
    SameCapacities(h, h, mem);
  }

  lemma NewSmallStep(h: Heap, no: nat, d: nat, mem: Bytes)
    requires HeapOk(h) && Tight(h.arenas) && d < DESC_CNT && h.lists[d] == [] && no !in h.owner
    ensures var h' := WithSmall(h, no, d);
      && HeapOk(h') && h'.lists[d] != [] && h'.live == h.live
      && Undisturbed(h, mem, h', mem) && Tight(Taken(h', d).arenas)
  {
    hide ListOk, ArenaOk, InUseOk, Complete, PagesOk, WithPages, Undisturbed;
    var h' := WithSmall(h, no, d);
    AddSmall(h, no, d);
    BlockAtIs(no, d, 0);
    assert h'.lists[d][0] == BlockAt(no, d, 0);
    SameCapacities(h, h', mem);
  }

  lemma TakeTight(h: Heap, d: nat)
    requires HeapOk(h) && Tight(h.arenas) && d < DESC_CNT && h.lists[d] != []
    ensures Tight(Taken(h, d).arenas)
  {
    hide ListOk, ArenaOk, InUseOk, Complete, PagesOk, PerArena, IsBlock;
    FirstFree(h, d);
  }

  lemma TakeStep(h: Heap, d: nat, mem: Bytes)
    requires HeapOk(h) && d < DESC_CNT && h.lists[d] != []
    ensures var h', b := Taken(h, d), h.lists[d][0];
      && b != 0 && b !in h.live && h'.live == h.live + {b} && Undisturbed(h, mem, h', mem)
      && PgNo(b) in h'.arenas && Capacity(h'.arenas, b) == BlockSize(d)
  {
    hide ListOk, ArenaOk, InUseOk, Complete, PagesOk, PerArena, Undisturbed;
    FirstFree(h, d);
    SameCapacities(h, Taken(h, d), mem);
  }

  lemma NewBigStep(h: Heap, no: nat, cnt: nat, mem: Bytes)
    requires HeapOk(h) && Tight(h.arenas) && cnt > 0 && forall k :: no <= k < no + cnt ==> k !in h.owner
    ensures var h', b := WithBig(h, no, cnt), no * PGSIZE + HEADER;
      && HeapOk(h') && b !in h.live && h'.live == h.live + {b} && Undisturbed(h, mem, h', mem) && Tight(h'.arenas)
      && PgNo(b) == no && Capacity(h'.arenas, b) == PGSIZE * cnt - HEADER
  {
    hide ListOk, ArenaOk, InUseOk, Complete, PagesOk, WithPages, Undisturbed;
    AddBig(h, no, cnt);
    assert PgNo(no * PGSIZE + HEADER) == no && PgOfs(no * PGSIZE + HEADER) == HEADER;
    SameCapacities(h, WithBig(h, no, cnt), mem);
  }

  /** Pages found free become those of a new big block. */
  lemma BigPages(used: seq<bool>, base: nat, h: Heap, other: set<nat>, no: nat, cnt: nat, mem: Bytes)
    requires PoolOk(used, base, h.owner, other) && HeapOk(h) && Tight(h.arenas) && cnt > 0
    requires base <= no && IsFirstRun(used, 0, cnt, false, no - base)
    ensures no + cnt <= base + |used| && HasRun(used, 0, cnt, false)
    ensures PoolOk(SetRange(used, no - base, cnt, true), base, WithPages(h.owner, no, cnt), other)
    ensures var h', b := WithBig(h, no, cnt), no * PGSIZE + HEADER;
      && HeapOk(h') && b !in h.live && h'.live == h.live + {b} && Undisturbed(h, mem, h', mem) && Tight(h'.arenas)
      && PgNo(b) == no && Capacity(h'.arenas, b) == PGSIZE * cnt - HEADER
  {
    hide HeapOk, Tight, Undisturbed, PoolOk, WithPages, SetRange, Capacity;
    FoundPages(used, base, no, cnt);
    PoolTake(used, base, h.owner, other, no, cnt);
    NewBigStep(h, no, cnt, mem);
  }

  lemma PageAddress(no: nat)
    ensures PgOfs(no * PGSIZE) == 0 && PgNo(no * PGSIZE) == no
  {
  }

  lemma InHeap(h: Heap, b: nat)
    requires HeapOk(h) && b in h.live
    ensures PgNo(b) in h.arenas
  {
    InArena(h, b);
  }

  lemma NullIsNoBlock(h: Heap)
    requires HeapOk(h)
    ensures 0 !in h.live
  {
    hide ListOk, Complete, PagesOk, IsBlock;
    if 0 in h.live {
      InArena(h, 0);
    }
  }

  lemma GiveStep(h: Heap, b: nat, d: nat, mem: Bytes, junk: Bytes)
    requires HeapOk(h) && Tight(h.arenas) && b in h.live && d < DESC_CNT && OnArena(h.arenas, b, d)
    ensures var h' := Given(h, b, d);
      && HeapOk(h') && h'.arenas[PgNo(b)].freeCnt <= PerArena(d) && Tight(h'.arenas - {PgNo(b)})
      && Undisturbed(h, mem, h', Stored(mem, b, BlockSize(d), junk))
  {
    hide ListOk, ArenaOk, InUseOk, Complete, PagesOk, PerArena, Undisturbed, IsBlock;
    var h' := Given(h, b, d);
    Give(h, b, d);
    SameCapacities(h, h', mem);
    forall c | c in h.live && c in h'.live && PgNo(c) in h.arenas
      ensures Disjoint(c, Capacity(h.arenas, c), b, BlockSize(d))
    {
      BlocksDisjoint(h, c, b);
    }
    StoredKeeps(h, mem, b, BlockSize(d), junk, h');
  }

  lemma StillTight(h: Heap, b: nat, d: nat)
    requires HeapOk(h) && Tight(h.arenas) && b in h.live && d < DESC_CNT && OnArena(h.arenas, b, d)
    requires h.arenas[PgNo(b)].freeCnt + 1 < PerArena(d)
    ensures Tight(Given(h, b, d).arenas)
  {
    hide HeapOk;
  }

  lemma DropStep(h: Heap, no: nat, h': Heap, mem: Bytes, junk: Bytes)
    requires HeapOk(h) && no in h.arenas && h'.arenas == h.arenas - {no} && h'.live <= h.live
    requires forall b :: b in h'.live ==> PgNo(b) != no
    ensures Undisturbed(h, mem, h', Stored(mem, no * PGSIZE, PagesOf(h.arenas[no]) * PGSIZE, junk))
  {
    hide HeapOk, Undisturbed;
    SameCapacities(h, h', mem);
    forall b | b in h.live && b in h'.live && PgNo(b) in h.arenas
      ensures Disjoint(b, Capacity(h.arenas, b), no * PGSIZE, PagesOf(h.arenas[no]) * PGSIZE)
    {
      ArenaDisjoint(h, b, no);
    }
    StoredKeeps(h, mem, no * PGSIZE, PagesOf(h.arenas[no]) * PGSIZE, junk, h');
  }

  lemma ListIs(h: Heap, d: nat)
    requires HeapOk(h) && d < DESC_CNT
    ensures NoDup(h.lists[d]) && forall b :: b in h.lists[d] ==> OnArena(h.arenas, b, d)
  {
    assert ListOk(h, d);
  }

  /** One of the first `i` blocks of an arena of descriptor `d`. */
  ghost predicate InPrefix(b: nat, d: nat, i: nat)
    requires d < DESC_CNT
  {
    IsBlock(b, d) && IndexOf(b, d) < i
  }

  lemma PrefixGrows(no: nat, d: nat, i: nat)
    requires d < DESC_CNT && i < PerArena(d)
    ensures forall b: nat :: PgNo(b) == no ==> (InPrefix(b, d, i + 1) <==> InPrefix(b, d, i) || b == BlockAt(no, d, i))
    ensures !InPrefix(BlockAt(no, d, i), d, i)
  {
    BlockAtIs(no, d, i);
    forall b: nat | PgNo(b) == no
      ensures InPrefix(b, d, i + 1) <==> InPrefix(b, d, i) || b == BlockAt(no, d, i)
    {
      if IsBlock(b, d) { BlockIs(b, d); }
    }
  }

  lemma WholePrefix(h: Heap, no: nat, d: nat)
    requires HeapOk(h) && d < DESC_CNT
    ensures forall b :: b in h.lists[d] && PgNo(b) == no ==> InPrefix(b, d, PerArena(d))
  {
    ListIs(h, d);
    forall b | b in h.lists[d] && PgNo(b) == no
      ensures InPrefix(b, d, PerArena(d))
    {
      BlockIs(b, d);
    }
  }

  lemma GrantedIs(size: nat, used: seq<bool>, lists: seq<seq<nat>>)
    requires 0 < size < WORD && |lists| == DESC_CNT && !NoMemory(size, used, lists)
    ensures Granted(size) > 0
  {
  }

  lemma OldBlock(h: Heap, mem: Bytes, h': Heap, mem': Bytes, b: nat)
    requires Undisturbed(h, mem, h', mem') && b in h.live && b in h'.live
    ensures PgNo(b) in h.arenas && PgNo(b) in h'.arenas && Capacity(h'.arenas, b) == Capacity(h.arenas, b)
    ensures forall a: nat :: b <= a < b + Capacity(h.arenas, b) ==> mem'(a) == mem(a)
  {
  }

  /** Copying into a new block disturbs no older block. */
  lemma CopyStep(h: Heap, mem: Bytes, h': Heap, mem': Bytes, dst: nat, src: nat, n: nat)
    requires Undisturbed(h, mem, h', mem') && HeapOk(h') && dst in h'.live && dst !in h.live
    requires PgNo(dst) in h'.arenas && n <= Capacity(h'.arenas, dst)
    ensures Undisturbed(h, mem, h', Copied(mem', dst, src, n))
    ensures SameBytes(Copied(mem', dst, src, n), dst, mem', src, n)
  {
    hide HeapOk, Capacity;
    forall b | b in h.live && b in h'.live
      ensures PgNo(b) in h.arenas && PgNo(b) in h'.arenas
      ensures Disjoint(b, Capacity(h.arenas, b), dst, Capacity(h'.arenas, dst))
    {
      BlocksDisjoint(h', b, dst);
    }
  }
}
