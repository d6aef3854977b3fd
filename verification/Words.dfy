/** Unsigned machine words as natural numbers: the bitwise operators the kernel uses, defined
    bit by bit, and the little-endian layout of 32-bit words in memory and on disk. */
module Words {

  type byte = b: int | 0 <= b < 256

  const WORD: int := 0x1_0000_0000

  type uint32 = w: int | 0 <= w < WORD

  datatype Option<+T> = None | Some(value: T)

  function Min(a: int, b: int): int { if a < b then a else b }

  /** Bit `k` of `w`. */
  predicate Bit(w: nat, k: nat)
    decreases k
  {
    if k == 0 then w % 2 == 1 else Bit(w / 2, k - 1)
  }

  function Pow2(k: nat): (r: nat)
    ensures r >= 1
  {
    if k == 0 then 1 else 2 * Pow2(k - 1)
  }

  function Or(a: nat, b: nat): nat
    decreases a + b
  {
    if a == 0 then b
    else if b == 0 then a
    else 2 * Or(a / 2, b / 2) + (if a % 2 == 1 || b % 2 == 1 then 1 else 0)
  }

  function And(a: nat, b: nat): nat
    decreases a
  {
    if a == 0 || b == 0 then 0
    else 2 * And(a / 2, b / 2) + (if a % 2 == 1 && b % 2 == 1 then 1 else 0)
  }

  /** `~w` of a 32-bit word. */
  function Not32(w: uint32): uint32 { WORD - 1 - w }

  lemma {:induction false} ZeroHasNoBit(k: nat)
    ensures !Bit(0, k)
  {
    if k > 0 { ZeroHasNoBit(k - 1); }
  }

  lemma {:induction false} OrBit(a: nat, b: nat, k: nat)
    ensures Bit(Or(a, b), k) <==> Bit(a, k) || Bit(b, k)
    decreases k
  {
    ZeroHasNoBit(k);
    if a != 0 && b != 0 && k > 0 {
      OrBit(a / 2, b / 2, k - 1);
    }
  }

  lemma {:induction false} AndBit(a: nat, b: nat, k: nat)
    ensures Bit(And(a, b), k) <==> Bit(a, k) && Bit(b, k)
    decreases k
  {
    ZeroHasNoBit(k);
    if a != 0 && b != 0 && k > 0 {
      AndBit(a / 2, b / 2, k - 1);
    }
  }

  lemma {:induction false} Pow2Bit(n: nat, k: nat)
    ensures Bit(Pow2(n), k) <==> k == n
  {
    if n == 0 {
      if k > 0 { ZeroHasNoBit(k - 1); }
    } else if k > 0 {
      Pow2Bit(n - 1, k - 1);
    }
  }

  lemma {:induction false} ComplementBit(n: nat, w: nat, k: nat)
    requires w < Pow2(n) && k < n
    ensures Bit(Pow2(n) - 1 - w, k) <==> !Bit(w, k)
    decreases n
  {
    HalfComplement(Pow2(n - 1), w);
    if k > 0 {
      ComplementBit(n - 1, w / 2, k - 1);
    }
  }

  lemma HalfComplement(q: nat, w: nat)
    requires w < 2 * q
    ensures (2 * q - 1 - w) / 2 == q - 1 - w / 2 && (2 * q - 1 - w) % 2 == 1 - w % 2
  {
  }

  lemma {:induction false} BitDecides(a: nat, b: nat, n: nat)
    requires a < Pow2(n) && b < Pow2(n)
    requires forall k :: 0 <= k < n ==> (Bit(a, k) <==> Bit(b, k))
    ensures a == b
  {
    if n > 0 {
      assert Bit(a, 0) <==> Bit(b, 0);
      forall k | 0 <= k < n - 1
        ensures Bit(a / 2, k) <==> Bit(b / 2, k)
      {
        assert Bit(a, k + 1) <==> Bit(b, k + 1);
      }
      BitDecides(a / 2, b / 2, n - 1);
    }
  }

  lemma {:induction false} OrBound(a: nat, b: nat, n: nat)
    requires a < Pow2(n) && b < Pow2(n)
    ensures Or(a, b) < Pow2(n)
    decreases n
  {
    if a != 0 && b != 0 && n > 0 {
      OrBound(a / 2, b / 2, n - 1);
    }
  }

  lemma {:induction false} AndBound(a: nat, b: nat)
    ensures And(a, b) <= a && And(a, b) <= b
    decreases a
  {
    if a != 0 && b != 0 {
      AndBound(a / 2, b / 2);
    }
  }

  lemma Pow2Values()
    ensures Pow2(4) == 16 && Pow2(5) == 32 && Pow2(12) == 4096
    ensures Pow2(16) == 0x1_0000 && Pow2(31) == 0x8000_0000 && Pow2(32) == WORD
  {
    assert Pow2(4) == 16;
    assert Pow2(8) == 256;
    assert Pow2(12) == 4096;
    assert Pow2(16) == 0x1_0000;
    assert Pow2(20) == 0x10_0000;
    assert Pow2(24) == 0x100_0000;
    assert Pow2(28) == 0x1000_0000;
    assert Pow2(31) == 0x8000_0000;
  }

  lemma {:induction false} Pow2Monotone(a: nat, b: nat)
    requires a <= b
    ensures Pow2(a) <= Pow2(b)
    decreases b
  {
    if a < b { Pow2Monotone(a, b - 1); }
  }

  // ----- Little-endian layout -----

  function LittleEndian(w: uint32): (r: seq<byte>)
    ensures |r| == 4
  {
    [w % 0x100, w / 0x100 % 0x100, w / 0x1_0000 % 0x100, w / 0x100_0000]
  }

  function FromLittleEndian(b0: byte, b1: byte, b2: byte, b3: byte): uint32 {
    b0 + 0x100 * b1 + 0x1_0000 * b2 + 0x100_0000 * b3
  }

  lemma LittleEndianRoundTrip(w: uint32)
    ensures var b := LittleEndian(w); FromLittleEndian(b[0], b[1], b[2], b[3]) == w
  {
    var x := w / 0x100;
    var y := x / 0x100;
    assert w / 0x1_0000 == y && w / 0x100_0000 == y / 0x100;
  }

  /** The bytes of an array of words in memory. */
  function Image(words: seq<uint32>): (r: seq<byte>)
    ensures |r| == 4 * |words|
  {
    seq(4 * |words|, k requires 0 <= k < 4 * |words| => LittleEndian(words[k / 4])[k % 4])
  }

  /** The words that a block of bytes holds. */
  function WordsOf(image: seq<byte>): (r: seq<uint32>)
    requires |image| % 4 == 0
    ensures |r| == |image| / 4
  {
    seq(|image| / 4, k requires 0 <= k < |image| / 4 =>
      FromLittleEndian(image[4 * k], image[4 * k + 1], image[4 * k + 2], image[4 * k + 3]))
  }

  lemma ImageAt(words: seq<uint32>, k: nat)
    requires k < |words|
    ensures Image(words)[4 * k .. 4 * k + 4] == LittleEndian(words[k])
  {
    forall i | 0 <= i < 4
      ensures Image(words)[4 * k + i] == LittleEndian(words[k])[i]
    {
      assert (4 * k + i) / 4 == k && (4 * k + i) % 4 == i;
    }
  }

  lemma ImageRoundTrip(words: seq<uint32>)
    ensures WordsOf(Image(words)) == words
  {
    forall k | 0 <= k < |words|
      ensures WordsOf(Image(words))[k] == words[k]
    {
      ImageAt(words, k);
      WordAt(Image(words), k, words[k]);
    }
  }

  lemma WordAt(image: seq<byte>, k: nat, w: uint32)
    requires |image| % 4 == 0 && 4 * k + 4 <= |image|
    requires image[4 * k .. 4 * k + 4] == LittleEndian(w)
    ensures WordsOf(image)[k] == w
  {
    var b := image[4 * k .. 4 * k + 4];
    LittleEndianRoundTrip(w);
    assert image[4 * k] == b[0] && image[4 * k + 1] == b[1] && image[4 * k + 2] == b[2] && image[4 * k + 3] == b[3];
  }

  // ----- C strings -----

  /** The bytes of a C string before its terminator. */
  predicate IsCString(s: seq<byte>) { forall k :: 0 <= k < |s| ==> s[k] != 0 }

  /** The C string that starts a block of bytes. */
  function CString(b: seq<byte>): (r: seq<byte>)
    ensures IsCString(r) && |r| <= |b| && r == b[..|r|]
    ensures |r| < |b| ==> b[|r|] == 0
  {
    if b == [] || b[0] == 0 then [] else [b[0]] + CString(b[1..])
  }

  lemma {:induction false} CStringOf(s: seq<byte>, rest: seq<byte>)
    requires IsCString(s)
    ensures CString(s + [0] + rest) == s
  {
    if s != [] {
      var b := s + [0] + rest;
      assert b[1..] == s[1..] + [0] + rest;
      CStringOf(s[1..], rest);
      assert b[0] == s[0];
    }
  }
}
