/** Bitmaps (src/lib/kernel/bitmap.c): an array of 32-bit elements that stands for a
    sequence of bits.  The `orl` and `andl` instructions are modelled by the bitwise
    operations their comments document. */
module Bitmaps {
  import opened Words

  const ELEM_BITS: nat := 32

  function ElemCnt(bitCnt: nat): nat { (bitCnt + ELEM_BITS - 1) / ELEM_BITS }

  /** The element with only bit `idx % ELEM_BITS` turned on. */
  function BitMask(idx: nat): (r: uint32)
    ensures r == Pow2(idx % ELEM_BITS)
  {
    Pow2Monotone(idx % ELEM_BITS, 31);
    Pow2Values();
    Pow2(idx % ELEM_BITS)
  }

  /** The bits that `elems` stands for. */
  ghost function BitsOf(elems: seq<uint32>, bitCnt: nat): (r: seq<bool>)
    requires |elems| == ElemCnt(bitCnt)
    ensures |r| == bitCnt
  {
    seq(bitCnt, k requires 0 <= k < bitCnt => Bit(elems[k / ELEM_BITS], k % ELEM_BITS))
  }

  /** Bits `start..start + cnt` replaced by `value`. */
  function SetRange(bits: seq<bool>, start: nat, cnt: nat, value: bool): (r: seq<bool>)
    requires start + cnt <= |bits|
    ensures |r| == |bits|
  {
    seq(|bits|, k requires 0 <= k < |bits| => if start <= k < start + cnt then value else bits[k])
  }

  predicate AllAre(bits: seq<bool>, start: nat, cnt: nat, value: bool)
    requires start + cnt <= |bits|
  {
    forall k :: start <= k < start + cnt ==> bits[k] == value
  }

  /** `r` is the first index at or after `start` where `cnt` bits equal to `value` begin. */
  ghost predicate IsFirstRun(bits: seq<bool>, start: nat, cnt: nat, value: bool, r: nat) {
    && start <= r
    && r + cnt <= |bits|
    && AllAre(bits, r, cnt, value)
    && forall i :: start <= i < r ==> !AllAre(bits, i, cnt, value)
  }

  ghost predicate HasRun(bits: seq<bool>, start: nat, cnt: nat, value: bool) {
    exists i :: start <= i && i + cnt <= |bits| && AllAre(bits, i, cnt, value)
  }

  /** What bitmap_scan answers: the first run, or BITMAP_ERROR (`None`) when there is none. */
  ghost predicate ScanResult(bits: seq<bool>, start: nat, cnt: nat, value: bool, r: Option<nat>) {
    match r
    case Some(i) => IsFirstRun(bits, start, cnt, value, i)
    case None => !HasRun(bits, start, cnt, value)
  }

  lemma Unflip(bits: seq<bool>, start: nat, cnt: nat)
    requires start + cnt <= |bits| && AllAre(bits, start, cnt, false)
    ensures SetRange(SetRange(bits, start, cnt, true), start, cnt, false) == bits
  {
  }

  // ----- Bit-level facts -----

  /** What `orl` leaves in an element. */
  lemma MarkBit(elem: uint32, idx: nat)
    ensures Or(elem, BitMask(idx)) < WORD
    ensures forall j :: 0 <= j < ELEM_BITS ==>
      (Bit(Or(elem, BitMask(idx)), j) <==> j == idx % ELEM_BITS || Bit(elem, j))
  {
    Pow2Values();
    OrBound(elem, BitMask(idx), 32);
    forall j | 0 <= j < ELEM_BITS
      ensures Bit(Or(elem, BitMask(idx)), j) <==> j == idx % ELEM_BITS || Bit(elem, j)
    {
      OrBit(elem, BitMask(idx), j);
      Pow2Bit(idx % ELEM_BITS, j);
    }
  }

  /** What `andl` with the complement leaves in an element. */
  lemma ResetBit(elem: uint32, idx: nat)
    ensures And(elem, Not32(BitMask(idx))) < WORD
    ensures forall j :: 0 <= j < ELEM_BITS ==>
      (Bit(And(elem, Not32(BitMask(idx))), j) <==> j != idx % ELEM_BITS && Bit(elem, j))
  {
    Pow2Values();
    AndBound(elem, Not32(BitMask(idx)));
    forall j | 0 <= j < ELEM_BITS
      ensures Bit(And(elem, Not32(BitMask(idx))), j) <==> j != idx % ELEM_BITS && Bit(elem, j)
    {
      AndBit(elem, Not32(BitMask(idx)), j);
      ComplementBit(32, BitMask(idx), j);
      Pow2Bit(idx % ELEM_BITS, j);
    }
  }

  /** Testing an element against a mask tests one bit. */
  lemma MaskTests(elem: uint32, idx: nat)
    ensures And(elem, BitMask(idx)) != 0 <==> Bit(elem, idx % ELEM_BITS)
  {
    var k := idx % ELEM_BITS;
    AndBit(elem, BitMask(idx), k);
    Pow2Bit(k, k);
    ZeroHasNoBit(k);
    if !Bit(elem, k) {
      Pow2Values();
      AndBound(elem, BitMask(idx));
      forall j | 0 <= j < 32
        ensures Bit(And(elem, BitMask(idx)), j) <==> Bit(0, j)
      {
        AndBit(elem, BitMask(idx), j);
        Pow2Bit(k, j);
        ZeroHasNoBit(j);
      }
      BitDecides(And(elem, BitMask(idx)), 0, 32);
    }
  }

  /** last_mask: the bits of the last element that are in use. */
  function LastMask(bitCnt: nat): (r: uint32)
  {
    var lastBits := bitCnt % ELEM_BITS;
    Pow2Monotone(lastBits, 31);
    Pow2Values();
    if lastBits != 0 then Pow2(lastBits) - 1 else WORD - 1
  }

  /** How many bits of the last element are in use. */
  function UsedBits(bitCnt: nat): nat { if bitCnt % ELEM_BITS != 0 then bitCnt % ELEM_BITS else ELEM_BITS }

  lemma LastMaskIs(bitCnt: nat)
    ensures LastMask(bitCnt) == Pow2(UsedBits(bitCnt)) - 1 && Pow2(UsedBits(bitCnt)) > 0
  {
    hide Pow2;
    Pow2Values();
  }

  lemma UsedBitsIs(bitCnt: nat)
    requires bitCnt > 0
    ensures UsedBits(bitCnt) == (bitCnt - 1) % ELEM_BITS + 1
  {
  }

  lemma LastMaskKeeps(elem: uint32, bitCnt: nat)
    requires bitCnt > 0
    ensures And(elem, LastMask(bitCnt)) < WORD
    ensures forall j :: 0 <= j <= (bitCnt - 1) % ELEM_BITS ==> (Bit(And(elem, LastMask(bitCnt)), j) <==> Bit(elem, j))
  {
    hide LastMask, Bit, And, Pow2;
    AndBound(elem, LastMask(bitCnt));
    var m := UsedBits(bitCnt);
    LastMaskIs(bitCnt);
    UsedBitsIs(bitCnt);
    forall j | 0 <= j <= (bitCnt - 1) % ELEM_BITS
      ensures Bit(And(elem, LastMask(bitCnt)), j) <==> Bit(elem, j)
    {
      AndBit(elem, LastMask(bitCnt), j);
      ComplementBit(m, 0, j);
      ZeroHasNoBit(j);
    }
  }

  // ----- The bitmap object -----

  class Bitmap {
    const bitCnt: nat
    const elems: array<uint32>

    ghost predicate Valid() {
      elems.Length == ElemCnt(bitCnt)
    }

    ghost function Bits(): (r: seq<bool>)
      requires Valid()
      reads elems
      ensures |r| == bitCnt
    {
      BitsOf(elems[..], bitCnt)
    }

    /** bitmap_create: the storage holds arbitrary values before it is cleared, so bits of
        the last element past `bitCnt` stay arbitrary. */
    constructor (bitCnt: nat)
      ensures Valid() && this.bitCnt == bitCnt
      ensures fresh(elems)
      ensures Bits() == SetRange(Bits(), 0, bitCnt, false)
    {
      this.bitCnt := bitCnt;
      elems := new uint32[ElemCnt(bitCnt)];
      new;
      SetMultiple(0, bitCnt, false);
    }

    method Mark(idx: nat)
      requires Valid() && idx < bitCnt
      modifies elems
      ensures Bits() == old(Bits())[idx := true]
    {
      var i := idx / ELEM_BITS;
      MarkBit(elems[i], idx);
      elems[i] := Or(elems[i], BitMask(idx));
      forall k | 0 <= k < bitCnt
        ensures Bits()[k] == old(Bits())[idx := true][k]
      {
        assert k / ELEM_BITS == i && k % ELEM_BITS == idx % ELEM_BITS ==> k == idx;
      }
    }

    method Reset(idx: nat)
      requires Valid() && idx < bitCnt
      modifies elems
      ensures Bits() == old(Bits())[idx := false]
    {
      var i := idx / ELEM_BITS;
      ResetBit(elems[i], idx);
      elems[i] := And(elems[i], Not32(BitMask(idx)));
      forall k | 0 <= k < bitCnt
        ensures Bits()[k] == old(Bits())[idx := false][k]
      {
        assert k / ELEM_BITS == i && k % ELEM_BITS == idx % ELEM_BITS ==> k == idx;
      }
    }

    method Test(idx: nat) returns (r: bool)
      requires Valid() && idx < bitCnt
      ensures r == Bits()[idx]
    {
      MaskTests(elems[idx / ELEM_BITS], idx);
      r := And(elems[idx / ELEM_BITS], BitMask(idx)) != 0;
    }

    method SetMultiple(start: nat, cnt: nat, value: bool)
      requires Valid() && start + cnt <= bitCnt
      modifies elems
      ensures Bits() == SetRange(old(Bits()), start, cnt, value)
    {
      var i := 0;
      while i < cnt
        invariant 0 <= i <= cnt
        invariant Bits() == SetRange(old(Bits()), start, i, value)
      {
        if value {
          Mark(start + i);
        } else {
          Reset(start + i);
        }
        i := i + 1;
      }
    }

    method Contains(start: nat, cnt: nat, value: bool) returns (r: bool)
      requires Valid() && start + cnt <= bitCnt
      ensures r <==> !AllAre(Bits(), start, cnt, !value)
    {
      var i := 0;
      while i < cnt
        invariant 0 <= i <= cnt
        invariant AllAre(Bits(), start, i, !value)
      {
        var b := Test(start + i);
        if b == value {
          return true;
        }
        i := i + 1;
      }
      return false;
    }

    method Scan(start: nat, cnt: nat, value: bool) returns (r: Option<nat>)
      requires Valid() && start <= bitCnt
      ensures ScanResult(Bits(), start, cnt, value, r)
    {
      if cnt <= bitCnt {
        var last := bitCnt - cnt;
        var i := start;
        while i <= last
          invariant start <= i
          invariant forall k :: start <= k < i && k + cnt <= bitCnt ==> !AllAre(Bits(), k, cnt, value)
        {
          var other := Contains(i, cnt, !value);
          if !other {
            return Some(i);
          }
          i := i + 1;
        }
      }
      return None;
    }

    method ScanAndFlip(start: nat, cnt: nat, value: bool) returns (r: Option<nat>)
      requires Valid() && start <= bitCnt
      modifies elems
      ensures ScanResult(old(Bits()), start, cnt, value, r)
      ensures r.Some? ==> Bits() == SetRange(old(Bits()), r.value, cnt, !value)
      ensures r.None? ==> elems[..] == old(elems[..])
    {
      r := Scan(start, cnt, value);
      if r.Some? {
        SetMultiple(r.value, cnt, !value);
      }
    }

    /** bitmap_read: the elements come from the file's bytes, and the unused bits of the last one
        are cleared. */
    method Load(image: seq<byte>)
      requires Valid() && |image| == 4 * elems.Length
      modifies elems
      ensures Bits() == BitsOf(WordsOf(image), bitCnt)
    {
      hide BitsOf, WordsOf, And, LastMask;
      var words := WordsOf(image);
      CopyIn(words);
      if bitCnt > 0 {
        var last := elems.Length - 1;
        LastMaskKeeps(elems[last], bitCnt);
        MaskedBits(words, bitCnt);
        elems[last] := And(elems[last], LastMask(bitCnt));
        assert elems[..] == words[last := And(words[last], LastMask(bitCnt))];
      }
    }

    /** The elements come from memory that holds `words`. */
    method CopyIn(words: seq<uint32>)
      requires |words| == elems.Length
      modifies elems
      ensures elems[..] == words
    {
      var i := 0;
      while i < elems.Length
        invariant 0 <= i <= elems.Length
        invariant elems[..i] == words[..i]
      {
        elems[i] := words[i];
        i := i + 1;
      }
    }
  }

  /** Clearing the unused bits of the last element changes no bit. */
  lemma MaskedBits(words: seq<uint32>, bitCnt: nat)
    requires bitCnt > 0 && |words| == ElemCnt(bitCnt)
    ensures And(words[|words| - 1], LastMask(bitCnt)) < WORD
    ensures BitsOf(words[|words| - 1 := And(words[|words| - 1], LastMask(bitCnt))], bitCnt) == BitsOf(words, bitCnt)
  {
    hide And, LastMask, Bit;
    var last := |words| - 1;
    LastMaskKeeps(words[last], bitCnt);
    var masked := words[last := And(words[last], LastMask(bitCnt))];
    forall k | 0 <= k < bitCnt
      ensures BitsOf(masked, bitCnt)[k] == BitsOf(words, bitCnt)[k]
    {
      LastBits(bitCnt, k);
    }
  }

  lemma LastBits(bitCnt: nat, k: nat)
    requires k < bitCnt
    ensures k / ELEM_BITS == ElemCnt(bitCnt) - 1 ==> k % ELEM_BITS <= (bitCnt - 1) % ELEM_BITS
  {
  }
}
