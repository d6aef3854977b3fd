/** The layout of arenas (src/threads/malloc.c): where the blocks of an arena are, and sets of
    blocks kept in free lists. */
module Blocks {
  import opened Sequences
  import opened Vaddr

  const HEADER: nat := 12
  const DESC_CNT: nat := 7

  /** Blocks come in sizes that are powers of two, from 16 to 1024 bytes. */
  function BlockSize(d: nat): nat
    requires d < DESC_CNT
  {
    if d == 0 then 16 else if d == 1 then 32 else if d == 2 then 64 else if d == 3 then 128
    else if d == 4 then 256 else if d == 5 then 512 else 1024
  }

  function PerArena(d: nat): nat
    requires d < DESC_CNT
  {
    (PGSIZE - HEADER) / BlockSize(d)
  }

  /** arena_to_block, for the arena at the page numbered `no`. */
  function BlockAt(no: nat, d: nat, idx: nat): nat
    requires d < DESC_CNT
  {
    no * PGSIZE + HEADER + idx * BlockSize(d)
  }

  /** The blocks of a page that is an arena of descriptor `d`. */
  predicate IsBlock(b: nat, d: nat)
    requires d < DESC_CNT
  {
    && PgOfs(b) >= HEADER && (PgOfs(b) - HEADER) % BlockSize(d) == 0
    && (PgOfs(b) - HEADER) / BlockSize(d) < PerArena(d)
  }

  function IndexOf(b: nat, d: nat): nat
    requires d < DESC_CNT && IsBlock(b, d)
  {
    (PgOfs(b) - HEADER) / BlockSize(d)
  }

  /** Blocks follow the header and end within the page. */
  lemma BlockFits(idx: nat, d: nat)
    requires d < DESC_CNT && idx < PerArena(d)
    ensures 0 <= idx * BlockSize(d) && HEADER + idx * BlockSize(d) + BlockSize(d) <= PGSIZE
    ensures (idx * BlockSize(d)) % BlockSize(d) == 0 && (idx * BlockSize(d)) / BlockSize(d) == idx
  {
    var s := BlockSize(d);
    DivideTimes(idx, s);
    assert PerArena(d) * s <= PGSIZE - HEADER;
    assert (idx + 1) * s <= PerArena(d) * s;
  }

  lemma DivideTimes(i: int, s: int)
    requires s > 0
    ensures (i * s) / s == i && (i * s) % s == 0
  {
    var k := i - (i * s) / s;
    assert k * s == (i * s) % s;
    assert k >= 1 ==> k * s >= s;
    assert k <= -1 ==> k * s <= -s;
  }

  lemma BlockAtIs(no: nat, d: nat, idx: nat)
    requires d < DESC_CNT && idx < PerArena(d)
    ensures var b := BlockAt(no, d, idx);
      PgNo(b) == no && PgOfs(b) == HEADER + idx * BlockSize(d) && IsBlock(b, d) && IndexOf(b, d) == idx
  {
    BlockFits(idx, d);
    var ofs := HEADER + idx * BlockSize(d);
    assert (no * PGSIZE + ofs) / PGSIZE == no && (no * PGSIZE + ofs) % PGSIZE == ofs;
  }

  /** arena_to_block undoes the address arithmetic of block_to_arena. */
  lemma BlockIs(b: nat, d: nat)
    requires d < DESC_CNT && IsBlock(b, d)
    ensures b == BlockAt(PgNo(b), d, IndexOf(b, d)) && IndexOf(b, d) < PerArena(d)
    ensures HEADER <= PgOfs(b) && PgOfs(b) + BlockSize(d) <= PGSIZE
  {
    var x, s := PgOfs(b) - HEADER, BlockSize(d);
    assert x == (x / s) * s;
    BlockFits(IndexOf(b, d), d);
  }

  /** Different blocks of one arena do not overlap. */
  lemma BlocksApart(b: nat, c: nat, d: nat)
    requires d < DESC_CNT && IsBlock(b, d) && IsBlock(c, d) && PgNo(b) == PgNo(c) && b < c
    ensures b + BlockSize(d) <= c
  {
    BlockIs(b, d);
    BlockIs(c, d);
    var i, j, s := IndexOf(b, d), IndexOf(c, d), BlockSize(d);
    LessTimes(i, j, s);
    assert (i + 1) * s <= j * s;
  }

  lemma LessTimes(i: int, j: int, s: int)
    requires s > 0 && i * s < j * s
    ensures i < j
  {
    assert (j - i) * s > 0;
  }

  // ----- Free lists as sequences -----

  /** The blocks of the page numbered `no` that are in a free list. */
  ghost function FreeIn(s: seq<nat>, no: nat): set<nat> {
    set b | b in s && PgNo(b) == no
  }

  /** All the blocks of an arena, in order. */
  function AllBlocks(no: nat, d: nat): (r: seq<nat>)
    requires d < DESC_CNT
    ensures |r| == PerArena(d)
  {
    seq(PerArena(d), i requires 0 <= i < PerArena(d) => BlockAt(no, d, i))
  }

  lemma AllBlocksAre(no: nat, d: nat)
    requires d < DESC_CNT
    ensures NoDup(AllBlocks(no, d))
    ensures forall b: nat :: b in AllBlocks(no, d) <==> PgNo(b) == no && IsBlock(b, d)
  {
    var s := AllBlocks(no, d);
    forall i, j | 0 <= i < j < |s|
      ensures s[i] != s[j]
    {
      BlockAtIs(no, d, i);
      BlockAtIs(no, d, j);
    }
    forall b: nat
      ensures b in s <==> PgNo(b) == no && IsBlock(b, d)
    {
      if b in s {
        var i :| 0 <= i < |s| && s[i] == b;
        BlockAtIs(no, d, i);
      }
      if PgNo(b) == no && IsBlock(b, d) {
        BlockIs(b, d);
        assert s[IndexOf(b, d)] == b;
      }
    }
  }

  /** An arena has at most PerArena free blocks; when it has that many, every block is free. */
  lemma ArenaFull(s: seq<nat>, no: nat, d: nat)
    requires d < DESC_CNT && forall b :: b in s && PgNo(b) == no ==> IsBlock(b, d)
    ensures |FreeIn(s, no)| <= PerArena(d)
    ensures |FreeIn(s, no)| == PerArena(d) <==> forall b: nat :: PgNo(b) == no && IsBlock(b, d) ==> b in s
  {
    var all := Elements(AllBlocks(no, d));
    AllBlocksAre(no, d);
    SeqSize(AllBlocks(no, d));
    SubsetSize(FreeIn(s, no), all);
    if |FreeIn(s, no)| == PerArena(d) {
      forall b: nat | PgNo(b) == no && IsBlock(b, d)
        ensures b in s
      {
        assert b in AllBlocks(no, d) && b in FreeIn(s, no);
      }
    }
    if forall b: nat :: PgNo(b) == no && IsBlock(b, d) ==> b in s {
      assert FreeIn(s, no) == all;
    }
  }
}
