/** The free map's copy on disk (bitmap_write, src/lib/kernel/bitmap.c:356-361, as free-map.c
    calls it).  A write that finds no bounce buffer stops after the whole sectors, so the copy
    may fall behind the map in memory. */
module StoredMaps {
  import opened Words
  import opened Bitmaps
  import opened Inodes

  /** The marks in a free map file with the given bytes. */
  ghost function MapBits(content: seq<byte>, bitCnt: nat): (r: seq<bool>)
    requires |content| == 4 * ElemCnt(bitCnt)
    ensures |r| == bitCnt
  {
    BitsOf(WordsOf(content), bitCnt)
  }

  /** Every mark in memory is also on disk. */
  ghost predicate Covers(stored: seq<bool>, bits: seq<bool>) {
    |stored| == |bits| && forall k :: 0 <= k < |bits| && bits[k] ==> stored[k]
  }

  /** What is on disk after the first `m` bits of the map were written over it. */
  ghost function Synced(stored: seq<bool>, bits: seq<bool>, m: nat): (r: seq<bool>)
    requires |stored| == |bits|
    ensures |r| == |bits|
  {
    seq(|bits|, k requires 0 <= k < |bits| => if k < m then bits[k] else stored[k])
  }

  /** The bytes that a write of a map of `bitCnt` bits moves. */
  function WrittenBytes(bitCnt: nat, bounceOk: bool): (r: nat)
    ensures r % 4 == 0 && r <= 4 * ElemCnt(bitCnt)
  {
    TransferCnt(4 * ElemCnt(bitCnt), 4 * ElemCnt(bitCnt), 0, bounceOk)
  }

  /** The bits among them. */
  function Written(bitCnt: nat, bounceOk: bool): nat { 8 * WrittenBytes(bitCnt, bounceOk) }

  /** The write reports success. */
  predicate Succeeds(bitCnt: nat, bounceOk: bool) {
    bounceOk || 4 * ElemCnt(bitCnt) % SECTOR_SIZE == 0
  }

  lemma ElemBounds(bitCnt: nat)
    ensures 32 * ElemCnt(bitCnt) - 32 < bitCnt <= 32 * ElemCnt(bitCnt)
  {
  }

  lemma WholeSectors(e: nat)
    ensures 4 * e % SECTOR_SIZE == 4 * (e % 128) && e == 128 * (e / 128) + e % 128
  {
  }

  /** A write succeeds exactly when it reaches every bit; otherwise it reaches those in whole
      sectors, 4096 in each, and misses at least one. */
  lemma WrittenIs(bitCnt: nat, bounceOk: bool)
    ensures Succeeds(bitCnt, bounceOk) <==> WrittenBytes(bitCnt, bounceOk) == 4 * ElemCnt(bitCnt)
    ensures Succeeds(bitCnt, bounceOk) <==> bitCnt <= Written(bitCnt, bounceOk)
    ensures !Succeeds(bitCnt, bounceOk) ==> Written(bitCnt, bounceOk) == 4096 * (ElemCnt(bitCnt) / 128) < bitCnt
  {
    hide ElemCnt;
    ElemBounds(bitCnt);
    WholeSectors(ElemCnt(bitCnt));
  }

  lemma SyncedWord(content: seq<byte>, elems: seq<uint32>, n: nat, i: nat)
    requires |content| == 4 * |elems| && n % 4 == 0 && n <= |content| && i < |elems|
    ensures WordsOf(Overwrite(content, 0, Image(elems)[..n]))[i] == if 4 * i < n then elems[i] else WordsOf(content)[i]
  {
    var c := Overwrite(content, 0, Image(elems)[..n]);
    if 4 * i < n {
      assert c[4 * i .. 4 * i + 4] == Image(elems)[4 * i .. 4 * i + 4];
      ImageAt(elems, i);
      WordAt(c, i, elems[i]);
    }
  }

  /** The first `n` bytes of the map's image replace its first `8 * n` bits on disk. */
  lemma SyncedBits(content: seq<byte>, elems: seq<uint32>, bitCnt: nat, n: nat)
    requires |content| == 4 * |elems| && n % 4 == 0 && n <= |content| && |elems| == ElemCnt(bitCnt)
    ensures MapBits(Overwrite(content, 0, Image(elems)[..n]), bitCnt)
         == Synced(MapBits(content, bitCnt), BitsOf(elems, bitCnt), 8 * n)
  {
    hide WordsOf, Overwrite, Image, Bit;
    var words := WordsOf(Overwrite(content, 0, Image(elems)[..n]));
    var l, r := BitsOf(words, bitCnt), Synced(BitsOf(WordsOf(content), bitCnt), BitsOf(elems, bitCnt), 8 * n);
    forall k | 0 <= k < bitCnt
      ensures l[k] == r[k]
    {
      SyncedWord(content, elems, n, k / ELEM_BITS);
    }
  }

  /** Marks that a write adds or takes away never make the copy on disk lose a mark that memory
      keeps. */
  lemma SyncedCovers(stored: seq<bool>, was: seq<bool>, written: seq<bool>, bits: seq<bool>, m: nat)
    requires Covers(stored, was) && Covers(was, bits) && Covers(written, bits)
    ensures Covers(Synced(stored, written, m), bits)
  {
  }

  lemma SelfCovers(bits: seq<bool>)
    ensures Covers(bits, bits)
  {
  }

  lemma SyncedFully(stored: seq<bool>, bits: seq<bool>, m: nat)
    requires |stored| == |bits| <= m
    ensures Synced(stored, bits, m) == bits
  {
  }

  lemma ClearedCovers(bits: seq<bool>, start: nat, cnt: nat)
    requires start + cnt <= |bits|
    ensures Covers(bits, bits) && Covers(bits, SetRange(bits, start, cnt, false))
    ensures Covers(SetRange(bits, start, cnt, true), bits)
  {
  }

  /** Whether the copy on disk, up to date before a release, is so after it. */
  lemma ReleasedIff(bits: seq<bool>, start: nat, cnt: nat, m: nat)
    requires start + cnt <= |bits| && AllAre(bits, start, cnt, true)
    ensures Synced(bits, SetRange(bits, start, cnt, false), m) == SetRange(bits, start, cnt, false)
       <==> cnt == 0 || start + cnt <= m
  {
    var freed := SetRange(bits, start, cnt, false);
    if cnt > 0 && m < start + cnt {
      var k := start + cnt - 1;
      assert Synced(bits, freed, m)[k] && !freed[k];
    }
  }

  /** Whether the copy on disk, up to date before, is so after an allocation that is rolled back
      in memory only. */
  lemma RolledBackIff(bits: seq<bool>, start: nat, cnt: nat, m: nat)
    requires start + cnt <= |bits| && AllAre(bits, start, cnt, false)
    ensures Synced(bits, SetRange(bits, start, cnt, true), m) == bits <==> cnt == 0 || m <= start
  {
    var taken := SetRange(bits, start, cnt, true);
    if cnt > 0 && start < m {
      assert Synced(bits, taken, m)[start] && !bits[start];
    }
  }
}
