/** The page allocator (src/threads/palloc.c): a kernel pool and a user pool of pages, each with a
    bitmap of the pages in use. */
module Palloc {
  import opened Words
  import opened Bitmaps
  import opened Vaddr

  /** The bits of `used` that stand for pages `no .. no + cnt`. */
  ghost predicate InPool(base: nat, used: seq<bool>, no: nat, cnt: nat) {
    base <= no && no + cnt <= base + |used|
  }

  class Pool {
    const base: nat
    const usedMap: Bitmap

    constructor (base: nat, usedMap: Bitmap)
      ensures this.base == base && this.usedMap == usedMap
    {
      this.base, this.usedMap := base, usedMap;
    }

    ghost predicate Valid()
      reads usedMap.elems
    {
      usedMap.Valid() && base > 0 && PgOfs(base) == 0
    }

    ghost function Used(): seq<bool>
      requires Valid()
      reads usedMap.elems
    {
      usedMap.Bits()
    }

    /** page_from_pool */
    predicate Holds(page: nat) {
      PgNo(base) <= PgNo(page) < PgNo(base) + usedMap.bitCnt
    }
  }

  class PageAllocator {
    const kernel: Pool
    const user: Pool

    constructor (kernel: Pool, user: Pool)
      requires kernel.Valid() && user.Valid() && kernel.usedMap.elems != user.usedMap.elems
      requires PgNo(kernel.base) + kernel.usedMap.bitCnt <= PgNo(user.base)
      ensures this.kernel == kernel && this.user == user && Valid()
    {
      this.kernel, this.user := kernel, user;
    }

    ghost predicate Valid()
      reads kernel.usedMap.elems, user.usedMap.elems
    {
      && kernel.Valid() && user.Valid() && kernel.usedMap.elems != user.usedMap.elems
      && PgNo(kernel.base) + kernel.usedMap.bitCnt <= PgNo(user.base)
    }

    function PoolOf(isUser: bool): Pool { if isUser then user else kernel }

    /** palloc_get_multiple without PAL_ASSERT: the first group of free pages that is long enough. */
    method GetMultiple(isUser: bool, pageCnt: nat) returns (pages: nat)
      requires Valid()
      modifies PoolOf(isUser).usedMap.elems
      ensures Valid() && PgOfs(pages) == 0
      ensures var pool := PoolOf(isUser); var was := old(pool.Used());
        if pages == 0 then pool.Used() == was && (pageCnt == 0 || !HasRun(was, 0, pageCnt, false))
        else
          && pageCnt > 0 && PgNo(pages) >= PgNo(pool.base)
          && IsFirstRun(was, 0, pageCnt, false, PgNo(pages) - PgNo(pool.base))
          && pool.Used() == SetRange(was, PgNo(pages) - PgNo(pool.base), pageCnt, true)
    {
      hide BitsOf, IsFirstRun, HasRun;
      if pageCnt == 0 {
        return 0;
      }
      var pool := PoolOf(isUser);
      var pageIdx := pool.usedMap.ScanAndFlip(0, pageCnt, false);
      if pageIdx.Some? {
        pages := pool.base + PGSIZE * pageIdx.value;
        PageAt(pool.base, pageIdx.value);
      } else {
        pages := 0;
      }
    }

    /** palloc_free_multiple.  The pages must all be in use and in one pool, which is what the
        source asserts. */
    method FreeMultiple(pages: nat, pageCnt: nat, ghost isUser: bool)
      requires Valid() && PgOfs(pages) == 0
      requires pages != 0 && pageCnt != 0 ==>
        var pool := PoolOf(isUser);
        InPool(PgNo(pool.base), pool.Used(), PgNo(pages), pageCnt) &&
        AllAre(pool.Used(), PgNo(pages) - PgNo(pool.base), pageCnt, true)
      modifies PoolOf(isUser).usedMap.elems
      ensures Valid()
      ensures var pool := PoolOf(isUser);
        pool.Used() == if pages == 0 || pageCnt == 0 then old(pool.Used())
                       else SetRange(old(pool.Used()), PgNo(pages) - PgNo(pool.base), pageCnt, false)
    {
      hide BitsOf;
      if pages == 0 || pageCnt == 0 {
        return;
      }
      var pool;
      if kernel.Holds(pages) {
        pool := kernel;
      } else {
        assert user.Holds(pages);
        pool := user;
      }
      assert pool == PoolOf(isUser);
      var pageIdx := PgNo(pages) - PgNo(pool.base);
      var unused := pool.usedMap.Contains(pageIdx, pageCnt, false);
      assert !unused;
      pool.usedMap.SetMultiple(pageIdx, pageCnt, false);
    }
  }

  lemma PageAt(base: nat, idx: nat)
    requires PgOfs(base) == 0
    ensures PgOfs(base + PGSIZE * idx) == 0 && PgNo(base + PGSIZE * idx) == PgNo(base) + idx
  {
  }

  // ----- Initialization -----

  /** The pages that the bitmap of a pool takes. */
  function BitmapPages(pageCnt: nat): nat { (8 + 4 * ElemCnt(pageCnt) + PGSIZE - 1) / PGSIZE }

  /** The bitmap leaves room in every pool but an empty one. */
  lemma BitmapFits(pageCnt: nat)
    ensures BitmapPages(pageCnt) > pageCnt <==> pageCnt == 0
  {
    if pageCnt > 0 {
      assert ElemCnt(pageCnt) <= pageCnt;
      assert 8 + 4 * pageCnt + PGSIZE - 1 < PGSIZE * (pageCnt + 1);
    }
  }

  /** Just as many pages as hold the bitmap: 8 bytes, and 4 for every 32 pages. */
  lemma BitmapPagesIs(pageCnt: nat)
    ensures var bytes := 8 + 4 * ElemCnt(pageCnt);
      4096 * (BitmapPages(pageCnt) - 1) < bytes <= 4096 * BitmapPages(pageCnt)
    ensures 32 * ElemCnt(pageCnt) - 32 < pageCnt <= 32 * ElemCnt(pageCnt)
  {
  }

  /** The user pool takes no more than half of the pages above 1 MB and than its limit, and one of these
      in full. */
  lemma UserPagesIs(ramPages: nat, userPageLimit: nat)
    requires 256 <= ramPages
    ensures var u := UserPages(ramPages, userPageLimit);
      2 * u <= ramPages - 256 && u <= userPageLimit && (u == userPageLimit || ramPages - 256 <= 2 * u + 1)
  {
  }

  /** The pages of the user pool: half of what is above 1 MB, or the limit. */
  function UserPages(ramPages: nat, userPageLimit: nat): nat
    requires 256 <= ramPages
  {
    if (ramPages - 256) / 2 > userPageLimit then userPageLimit else (ramPages - 256) / 2
  }

  /** init_pool for `pageCnt` pages from `base` on: the bitmap takes the first pages.  `None` is the
      panic when it does not fit. */
  method InitPool(base: nat, pageCnt: nat) returns (pool: Option<Pool>)
    requires PgOfs(base) == 0 && base > 0
    ensures pool.Some? ==>
      && pool.value.Valid() && fresh(pool.value.usedMap.elems)
      && base <= pool.value.base && PgNo(pool.value.base) + pool.value.usedMap.bitCnt == PgNo(base) + pageCnt
      && AllAre(pool.value.Used(), 0, pool.value.usedMap.bitCnt, false)
    ensures pool.Some? ==> 8 + 4 * ElemCnt(pool.value.usedMap.bitCnt) <= pool.value.base - base
    ensures pool.Some? ==> pool.value.usedMap.bitCnt + BitmapPages(pageCnt) == pageCnt
    ensures pool.None? <==> pageCnt == 0
  {
    BitmapFits(pageCnt);
    var bmPages := (8 + 4 * ElemCnt(pageCnt) + PGSIZE - 1) / PGSIZE;
    if bmPages > pageCnt {
      return None;
    }
    var usedMap := new Bitmap(pageCnt - bmPages);
    PageAt(base, bmPages);
    var p := new Pool(base + PGSIZE * bmPages, usedMap);
    return Some(p);
  }

  /** palloc_init: the memory above 1 MB is divided into the two pools, which do not overlap each
      other, their bitmaps or anything outside that memory. */
  method Init(ramPages: nat, userPageLimit: nat) returns (pages: Option<PageAllocator>)
    requires 256 <= ramPages
    ensures pages.Some? ==>
      var kernel, user := pages.value.kernel, pages.value.user;
      && pages.value.Valid()
      && PHYS_BASE + 0x100000 <= kernel.base && PgNo(user.base) + user.usedMap.bitCnt == PgNo(PHYS_BASE) + ramPages
      && AllAre(kernel.Used(), 0, kernel.usedMap.bitCnt, false) && AllAre(user.Used(), 0, user.usedMap.bitCnt, false)
      && user.usedMap.bitCnt <= userPageLimit
    ensures pages.Some? ==>
      var userPages := UserPages(ramPages, userPageLimit);
      && pages.value.user.usedMap.bitCnt + BitmapPages(userPages) == userPages
      && pages.value.kernel.usedMap.bitCnt + BitmapPages(ramPages - 256 - userPages) == ramPages - 256 - userPages
    ensures pages.None? <==> ramPages < 258 || userPageLimit == 0
  {
    var freeStart := PHYS_BASE + 1024 * 1024;
    var freeEnd := PHYS_BASE + ramPages * PGSIZE;
    var freePages := (freeEnd - freeStart) / PGSIZE;
    assert freePages == ramPages - 256;
    var userPages := freePages / 2;
    if userPages > userPageLimit {
      userPages := userPageLimit;
    }
    var kernelPages := freePages - userPages;
    var kernel := InitPool(freeStart, kernelPages);
    if kernel.None? {
      return None;
    }
    PageAt(freeStart, kernelPages);
    var user := InitPool(freeStart + PGSIZE * kernelPages, userPages);
    if user.None? {
      return None;
    }
    var p := new PageAllocator(kernel.value, user.value);
    return Some(p);
  }
}
