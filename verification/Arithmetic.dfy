/** 64-bit division from 32-bit division (src/lib/arithmetic.c).  64-bit values are numbers below
    2^64; every operation that could wrap does so explicitly. */
module Arithmetic {
  import opened Words

  const DWORD: nat := 0x1_0000_0000_0000_0000
  const HALF: int := 0x8000_0000_0000_0000

  type uint64 = x: int | 0 <= x < 0x1_0000_0000_0000_0000
  type int64 = x: int | -0x8000_0000_0000_0000 <= x < 0x8000_0000_0000_0000

  /** The DIVL instruction, which traps unless the quotient fits in 32 bits. */
  function Divl(n: uint64, d: uint32): (q: uint32)
    requires d != 0 && n / d < WORD
  {
    n / d
  }

  function Shl32(x: uint32, k: nat): uint32 { (x * Pow2(k)) % WORD }

  function Shl(x: uint64, k: nat): uint64 { (x * Pow2(k)) % DWORD }

  function Shr(x: nat, k: nat): nat {
    QuotientNat(x, Pow2(k));
    x / Pow2(k)
  }

  lemma QuotientNat(n: int, d: int)
    requires n >= 0 && d > 0
    ensures 0 <= n / d <= n
  {
    var q := n / d;
    Quotient(n, d);
    if q < 0 {
      TimesLess(q, -1, d);
    } else {
      TimesLess(1, d, q);
    }
  }

  // ----- Facts about division -----

  lemma {:induction false} Pow2Sum(a: nat, b: nat)
    ensures Pow2(a + b) == Pow2(a) * Pow2(b)
  {
    if b > 0 {
      Pow2Sum(a, b - 1);
      Twice(Pow2(a), Pow2(b - 1));
      assert a + b - 1 == a + (b - 1);
    }
  }

  lemma Twice(p: nat, q: nat)
    ensures p * (2 * q) == 2 * (p * q)
  {
  }

  /** The quotient is the only number that fits. */
  lemma QuotientIs(n: int, d: int, q: int)
    requires d > 0 && q * d <= n < q * d + d
    ensures n / d == q
  {
    var m := n / d;
    Quotient(n, d);
    PlusOne(m, d);
    PlusOne(q, d);
    if m < q {
      TimesLess(m + 1, q, d);
    } else if q < m {
      TimesLess(q + 1, m, d);
    }
  }

  lemma PlusOne(q: int, d: int)
    ensures (q + 1) * d == q * d + d
  {
  }

  lemma Quotient(n: int, d: int)
    requires d > 0
    ensures (n / d) * d <= n < (n / d) * d + d
  {
  }

  /** Dividing in two steps. */
  lemma DivideTwice(n: nat, a: nat, b: nat)
    requires a > 0 && b > 0
    ensures a * b > 0 && (n / a) / b == n / (a * b)
  {
    var x := n / a;
    var q := x / b;
    Quotient(n, a);
    Quotient(x, b);
    assert q * (a * b) == (q * b) * a;
    TimesLess(q * b, x, a);
    TimesLess(x + 1, q * b + b, a);
    assert (q * b + b) * a == q * (a * b) + a * b;
    assert (x + 1) * a == x * a + a;
    QuotientIs(n, a * b, q);
  }

  lemma TimesLess(x: int, y: int, a: int)
    requires x <= y && a >= 0
    ensures x * a <= y * a
  {
  }

  lemma DivideMore(n: nat, a: nat, b: nat)
    requires 0 < a <= b
    ensures n / b <= n / a
  {
    Quotient(n, a);
    Quotient(n, b);
    var p, q := n / a, n / b;
    QuotientNat(n, b);
    PlusOne(p, a);
    TimesLess(a, b, q);
    if p < q {
      TimesLess(p + 1, q, a);
    }
  }

  // ----- nlz -----

  /** nlz: the shift that brings the highest bit of `x` to the top. */
  method Nlz(x0: uint32) returns (n: nat)
    requires x0 > 0
    ensures n <= 31 && 0x8000_0000 <= x0 * Pow2(n) < WORD
  {
    hide Pow2, Shl32;
    SmallPowers();
    var x := x0;
    n := 0;
    n, x := Raise(x0, n, x, 16, 0x1_0000, 0x0000_FFFF);
    n, x := Raise(x0, n, x, 8, 0x100, 0x00FF_FFFF);
    n, x := Raise(x0, n, x, 4, 0x10, 0x0FFF_FFFF);
    n, x := Raise(x0, n, x, 2, 4, 0x3FFF_FFFF);
    n, x := Raise(x0, n, x, 1, 2, 0x7FFF_FFFF);
  }

  /** One step of nlz: a number up to `limit` is shifted left by `k` bits. */
  method Raise(x0: uint32, n: nat, x: uint32, k: nat, p: nat, limit: uint32) returns (m: nat, y: uint32)
    requires p == Pow2(k) && (limit + 1) * p == WORD && x == x0 * Pow2(n) && limit < x * p
    ensures y == x0 * Pow2(m) && limit < y && m <= n + k
  {
    hide Pow2, Shl32;
    m, y := n, x;
    if x <= limit {
      BelowLimit(x, limit, p);
      ShiftUp(x0, n, x, k);
      m, y := n + k, Shl32(x, k);
    }
  }

  lemma BelowLimit(x: int, limit: int, p: int)
    requires x <= limit && p > 0 && (limit + 1) * p == WORD
    ensures x * p < WORD
  {
    TimesLess(x, limit, p);
    PlusOne(limit, p);
  }

  lemma SmallPowers()
    ensures Pow2(0) == 1 && Pow2(1) == 2 && Pow2(2) == 4 && Pow2(4) == 16 && Pow2(8) == 256 && Pow2(16) == 0x1_0000
  {
    Pow2Values();
  }

  lemma ShiftUp(x0: nat, n: nat, x: uint32, k: nat)
    requires x == x0 * Pow2(n) && x * Pow2(k) < WORD
    ensures Shl32(x, k) == x * Pow2(k) == x0 * Pow2(n + k)
  {
    hide Pow2;
    Pow2Sum(n, k);
    Associate(x0, Pow2(n), Pow2(k));
    TimesLess(0, x, Pow2(k));
  }

  // ----- udiv64 -----

  function Wrap64(x: int): uint64 { x % DWORD }

  /** A divisor of 32 bits: long division by two digits, and DIVL does not trap. */
  lemma TwoDigits(n1: nat, n0: nat, d: nat)
    requires d > 0 && n0 < WORD
    ensures var x := WORD * (n1 % d) + n0;
      0 <= x < d * WORD && 0 <= x / d < WORD && x / d + WORD * (n1 / d) == (WORD * n1 + n0) / d
  {
    var r, t := n1 % d, n1 / d;
    var x := WORD * r + n0;
    Quotient(n1, d);
    assert r == n1 - t * d;
    assert x < d * WORD;
    NotMore(x, d, WORD);
    QuotientNat(x, d);
    Quotient(x, d);
    var q := x / d;
    Distribute(q, WORD * t, d);
    Associate(WORD, t, d);
    QuotientIs(WORD * n1 + n0, d, q + WORD * t);
  }

  lemma Associate(a: int, b: int, c: int)
    ensures (a * b) * c == a * (b * c)
  {
  }

  /** The divisor that is used for a wide one: its top 32 bits, with w in place of what is cut off. */
  lemma Normalized(d: uint64, s: nat, d1: nat)
    requires d1 == d / WORD && 0 < d1 && s <= 31 && 0x8000_0000 <= d1 * Pow2(s) < WORD
    ensures d * Pow2(s) < DWORD
    ensures var v, w := (d * Pow2(s)) / WORD, Pow2(32 - s);
      0x8000_0000 <= v < WORD && 2 <= w && v * w <= d < v * w + w && w == 2 * Pow2(31 - s)
  {
    Pow2Sum(s, 32 - s);
    Pow2Values();
    assert Pow2(32 - s) == 2 * Pow2(31 - s);
    NormalizedBy(d, d1, Pow2(s), Pow2(32 - s));
  }

  lemma NormalizedBy(d: nat, d1: nat, p: nat, w: nat)
    requires p * w == WORD && d1 == d / WORD && 0x8000_0000 <= d1 * p < WORD && w > 0
    ensures d * p < DWORD
    ensures var v := (d * p) / WORD; 0x8000_0000 <= v < WORD && v * w <= d < v * w + w
  {
    Scaled(d, d1, p, w);
    var v := (d * p) / WORD;
    Quotient(d * p, WORD);
    Regroup(v, w, p);
    Cancel(v * w, d, p);
    Distribute(v * w, w, p);
    LessFactor(d, v * w + w, p);
  }

  /** Scaling the divisor moves its top digit and loses nothing. */
  lemma Scaled(d: nat, d1: nat, p: nat, w: nat)
    requires p * w == WORD && d1 == d / WORD && d1 * p < WORD && w > 0
    ensures p > 0 && (d1 * p) * WORD <= d * p < DWORD
  {
    assert p > 0;
    var r := d % WORD;
    LessFactor(d1, w, p);
    TimesLess(d1, w - 1, p);
    PlusOne(w - 1, p);
    assert d == d1 * WORD + r;
    Spread(d1, r, p);
    TimesLess(d1 * p, WORD - p, WORD);
    TimesLess(r + 1, WORD, p);
    PlusOne(r, p);
    TimesLess(0, r, p);
  }

  lemma Distribute(a: int, b: int, p: int)
    ensures (a + b) * p == a * p + b * p
  {
  }

  lemma Spread(d1: int, r: int, p: int)
    ensures (d1 * WORD + r) * p == (d1 * p) * WORD + r * p
  {
  }

  lemma Regroup(v: int, w: int, p: int)
    requires p * w == WORD
    ensures (v * w) * p == v * WORD
  {
    assert (v * w) * p == v * (w * p);
  }

  lemma LessFactor(a: int, b: int, p: int)
    requires p > 0 && a * p < b * p
    ensures a < b
  {
    if b <= a {
      TimesLess(b, a, p);
    }
  }

  lemma Cancel(a: int, b: int, p: int)
    requires p > 0 && a * p <= b * p
    ensures a <= b
  {
    PlusOne(b, p);
    if b < a {
      TimesLess(b + 1, a, p);
    }
  }

  /** The estimate of the quotient is right or one too big. */
  lemma Estimate(n: nat, d: nat, v: nat, w: nat)
    requires n < DWORD && 0x8000_0000 <= v && 2 <= w && v * w <= d < v * w + w
    ensures v * w > 0 && n / d <= n / (v * w) <= n / d + 1
  {
    var e := v * w;
    TimesLess(0x8000_0000, v, w);
    DivideMore(n, e, d);
    SmallExcess(n, d, e, w);
    Quotient(n, d);
    Quotient(n, e);
    QuotientNat(n, d);
    PlusOne(n / d, d);
    Overshoot(n, d, e, n / d);
    NotMore(n, e, n / d + 2);
  }

  lemma NotMore(n: nat, e: nat, k: int)
    requires e > 0 && n < k * e
    ensures n / e < k
  {
    Quotient(n, e);
    if k <= n / e {
      TimesLess(k, n / e, e);
    }
  }

  lemma SmallExcess(n: nat, d: nat, e: nat, w: nat)
    requires n < DWORD && 2 <= w && 0x8000_0000 * w <= e <= d < e + w
    ensures n * (d - e) <= d * e
  {
    TimesLess(n, DWORD, d - e);
    TimesLess(d - e, w - 1, DWORD);
    Square(w);
    TimesLess(0x8000_0000 * w, e, 0x8000_0000 * w);
    TimesLess(0x8000_0000 * w, e, e);
    TimesLess(e, d, e);
  }

  /** 4 (w - 1) <= w w */
  lemma Square(w: nat)
    ensures DWORD * (w - 1) <= (0x8000_0000 * w) * (0x8000_0000 * w)
  {
    assert (w - 2) * (w - 2) >= 0;
    assert (w - 2) * (w - 2) == w * w - 4 * w + 4;
    assert (0x8000_0000 * w) * (0x8000_0000 * w) == 0x4000_0000_0000_0000 * (w * w);
  }

  lemma Overshoot(n: nat, d: nat, e: nat, q: nat)
    requires 0 < e <= d && n < (q + 1) * d && n * (d - e) <= d * e
    ensures n < (q + 2) * e
  {
    assert n * d == n * e + n * (d - e);
    assert n * d <= n * e + d * e;
    LessTimes(n, (q + 1) * d, e);
    assert ((q + 1) * d) * e + d * e == ((q + 2) * e) * d;
    LessFactor(n, (q + 2) * e, d);
  }

  lemma LessTimes(a: int, b: int, e: int)
    requires a < b && e > 0
    ensures a * e < b * e
  {
  }

  /** udiv64 */
  method Udiv64(n: uint64, d: uint64) returns (q: uint64)
    requires d != 0
    ensures q == n / d
  {
    hide Pow2, Wrap64;
    if d / WORD == 0 {
      var b, n1, n0, d0: uint32 := WORD, n / WORD, n % WORD, d % WORD;
      TwoDigits(n1, n0, d0);
      QuotientNat(n, d);
      assert n == WORD * n1 + n0;
      Wrap64Small(n / d);
      q := Wrap64(Divl(b * (n1 % d0) + n0, d0) + b * (n1 / d0));
    } else if n < d {
      QuotientIs(n, d, 0);
      q := 0;
    } else {
      q := WideDivisor(n, d);
    }
  }

  /** The second part of udiv64: a divisor of more than 32 bits. */
  method WideDivisor(n: uint64, d: uint64) returns (q: uint64)
    requires WORD <= d <= n
    ensures q == n / d
  {
    hide Pow2, Shl, Shr;
    var d1: uint32 := d / WORD;
    var s := Nlz(d1);
    Normalized(d, s, d1);
    ShiftedDivisor(d, s);
    var v := Shr(Shl(d, s), 32);
    EstimateFits(n, v);
    var e := Divl(n / 2, v);
    ShiftedEstimate(n, v, s);
    Estimate(n, d, v, Pow2(32 - s));
    e := Shr(e, 31 - s);
    AtLeastOne(n, d);
    Correction(n, d, e);
    q := if Wrap64(n - Wrap64((e - 1) * d)) < d then e - 1 else e;
  }

  lemma ShiftedDivisor(d: uint64, s: nat)
    requires d * Pow2(s) < DWORD
    ensures Shr(Shl(d, s), 32) == (d * Pow2(s)) / WORD
  {
    hide Pow2;
    Pow2Values();
    assert d * Pow2(s) >= 0;
  }

  lemma EstimateFits(n: uint64, v: nat)
    requires 0x8000_0000 <= v
    ensures (n / 2) / v < WORD
  {
    assert WORD * v >= 0x8000_0000 * WORD > n / 2;
    NotMore(n / 2, v, WORD);
  }

  /** Shifting right after the division divides by a power of two more. */
  lemma ShiftedEstimate(n: uint64, v: nat, s: nat)
    requires 0x8000_0000 <= v && s <= 31
    ensures v * Pow2(32 - s) > 0 && (n / 2) / v >= 0 && Shr((n / 2) / v, 31 - s) == n / (v * Pow2(32 - s))
  {
    var w := Pow2(31 - s);
    QuotientNat(n / 2, v);
    DivideTwice(n, 2, v);
    DivideTwice(n, 2 * v, w);
    assert (2 * v) * w == v * (2 * w);
  }

  lemma AtLeastOne(n: nat, d: nat)
    requires 0 < d <= n
    ensures 1 <= n / d <= n
  {
    QuotientNat(n, d);
    Quotient(n, d);
  }

  lemma Correction(n: uint64, d: uint64, e: int)
    requires d > 0 && 1 <= n / d <= e <= n / d + 1
    ensures Wrap64((e - 1) * d) == (e - 1) * d && Wrap64(n - (e - 1) * d) == n - (e - 1) * d
    ensures n / d == if n - (e - 1) * d < d then e - 1 else e
  {
    hide Wrap64;
    Quotient(n, d);
    var q := n / d;
    PlusOne(q - 1, d);
    TimesLess(e - 1, q, d);
    TimesLess(0, e - 1, d);
    Wrap64Small((e - 1) * d);
    Wrap64Small(n - (e - 1) * d);
    assert e - 1 == q || e - 1 == q - 1;
  }

  lemma Wrap64Small(x: int)
    requires 0 <= x < DWORD
    ensures Wrap64(x) == x
  {
  }

  // ----- umod64, sdiv64, smod64 -----

  /** umod64: the remainder cut to 32 bits. */
  method Umod64(n: uint64, d: uint64) returns (r: uint32)
    requires d != 0
    ensures r == Remainder(n, d) % WORD
  {
    hide Wrap64;
    var q := Udiv64(n, d);
    RemainderIs(n, d);
    Wrap64Small(d * q);
    Wrap64Small(n - d * q);
    r := Wrap64(n - Wrap64(d * q)) % WORD;
  }

  lemma RemainderIs(n: uint64, d: uint64)
    requires d != 0
    ensures 0 <= d * (n / d) <= n && n - d * (n / d) == n % d && 0 <= n % d < d
  {
    Quotient(n, d);
    QuotientNat(n, d);
    TimesLess(0, n / d, d);
  }

  /** The result is the remainder, for all dividends, exactly when the divisor is at most 2^32. */
  lemma Umod64Exact(d: uint64)
    requires d != 0
    ensures (forall n: uint64 :: Remainder(n, d) % WORD == Remainder(n, d)) <==> d <= WORD
  {
    if d <= WORD {
      forall n: uint64
        ensures Remainder(n, d) % WORD == Remainder(n, d)
      {
        RemainderIs(n, d);
      }
    } else {
      RemainderOfSmall(WORD, d);
      assert Remainder(WORD, d) % WORD != Remainder(WORD, d);
    }
  }

  function Remainder(n: nat, d: nat): nat
    requires d != 0
  {
    n % d
  }

  lemma RemainderOfSmall(n: nat, d: nat)
    requires n < d
    ensures Remainder(n, d) == n
  {
    QuotientIs(n, d, 0);
  }

  /** 2^32 divided by 2^32 + 1 leaves 2^32, of which umod64 returns 0. */
  lemma Umod64Cut()
    ensures Remainder(0x1_0000_0000, 0x1_0000_0001) == 0x1_0000_0000
    ensures Remainder(0x1_0000_0000, 0x1_0000_0001) % WORD == 0
  {
  }

  /** Conversion to int64_t. */
  function ToInt64(x: int): int64 {
    var y := x % DWORD;
    if y < HALF then y else y - DWORD
  }

  function ToInt32(x: int): int {
    var y := x % WORD;
    if y < 0x8000_0000 then y else y - WORD
  }

  function Abs(x: int): nat { if x >= 0 then x else -x }

  /** Division as in C: toward zero. */
  function Truncated(n: int, d: int): int
    requires d != 0
  {
    if (n < 0) == (d < 0) then Abs(n) / Abs(d) else -(Abs(n) / Abs(d))
  }

  /** The truncated quotient is the number of times that `d` fits, with a remainder that is smaller
      than `d` and has the sign of `n`. */
  lemma TruncatedIs(n: int, d: int)
    requires d != 0
    ensures var r := n - d * Truncated(n, d); Abs(r) < Abs(d) && (r == 0 || (r < 0 <==> n < 0))
  {
    Quotient(Abs(n), Abs(d));
    var q := Abs(n) / Abs(d);
    assert d * -q == -(d * q) && (-d) * q == -(d * q);
  }

  /** sdiv64 */
  method Sdiv64(n: int64, d: int64) returns (q: int64)
    requires d != 0
    ensures q == ToInt64(Truncated(n, d))
  {
    var nAbs: uint64 := if n >= 0 then n else Wrap64(-(n as int));
    var dAbs: uint64 := if d >= 0 then d else Wrap64(-(d as int));
    AbsIs(n);
    AbsIs(d);
    var qAbs := Udiv64(nAbs, dAbs);
    QuotientNat(nAbs, dAbs);
    NegateTwice(qAbs);
    q := if (n < 0) == (d < 0) then ToInt64(qAbs) else ToInt64(-(ToInt64(qAbs) as int));
  }

  lemma AbsIs(x: int64)
    ensures Abs(x) <= HALF && (x < 0 ==> Wrap64(-(x as int)) == Abs(x))
  {
  }

  lemma NegateTwice(q: int)
    requires 0 <= q <= HALF
    ensures ToInt64(-(ToInt64(q) as int)) == ToInt64(-q)
  {
    if q < HALF {
      assert ToInt64(q) == q;
    } else {
      assert ToInt64(q) == -HALF;
    }
  }

  /** It is the quotient for all operands but one pair, whose quotient does not fit. */
  lemma Sdiv64Exact(n: int64, d: int64)
    requires d != 0
    ensures ToInt64(Truncated(n, d)) == Truncated(n, d) <==> !(n == -HALF && d == -1)
  {
    QuotientNat(Abs(n), Abs(d));
    AbsIs(n);
    FullQuotient(Abs(n), Abs(d));
    Fits(Truncated(n, d));
  }

  /** The quotient is 2^63 only for 2^63 by 1. */
  lemma FullQuotient(n: int, d: int)
    requires 0 <= n <= HALF && d > 0
    ensures n / d == HALF <==> n == HALF && d == 1
  {
    Quotient(n, d);
    if d >= 2 {
      QuotientNat(n, d);
      TimesLess(2, d, n / d);
    }
  }

  lemma Fits(q: int)
    requires -HALF <= q <= HALF
    ensures ToInt64(q) == q <==> q != HALF
  {
  }

  /** The remainder as in C: what truncated division leaves. */
  function SignedRemainder(n: int, d: int): int
    requires d != 0
  {
    n - d * Truncated(n, d)
  }

  /** The result of smod64 is the remainder, for all dividends, exactly when the divisor is at most
      2^31 in size. */
  lemma Smod64Exact(d: int64)
    requires d != 0
    ensures (forall n: int64 :: ToInt32(SignedRemainder(n, d)) == SignedRemainder(n, d)) <==> Abs(d) <= 0x8000_0000
  {
    hide SignedRemainder;
    if Abs(d) <= 0x8000_0000 {
      forall n: int64
        ensures ToInt32(SignedRemainder(n, d)) == SignedRemainder(n, d)
      {
        RemainderBound(n, d);
      }
    } else {
      SignedRemainderOfSmall(0x8000_0000, d);
      assert ToInt32(SignedRemainder(0x8000_0000, d)) == -0x8000_0000;
    }
  }

  lemma RemainderBound(n: int, d: int)
    requires d != 0
    ensures Abs(SignedRemainder(n, d)) < Abs(d)
  {
    TruncatedIs(n, d);
  }

  lemma SignedRemainderOfSmall(n: nat, d: int)
    requires n < Abs(d)
    ensures SignedRemainder(n, d) == n
  {
    QuotientIs(n, Abs(d), 0);
  }

  /** 2^31 divided by 2^31 + 1 leaves 2^31, of which smod64 returns -2^31. */
  lemma Smod64Cut()
    ensures SignedRemainder(0x8000_0000, 0x8000_0001) == 0x8000_0000
    ensures ToInt32(SignedRemainder(0x8000_0000, 0x8000_0001)) == -0x8000_0000
  {
    SignedRemainderOfSmall(0x8000_0000, 0x8000_0001);
  }

  /** smod64: the remainder cut to 32 bits. */
  method Smod64(n: int64, d: int64) returns (r: int)
    requires d != 0
    ensures r == ToInt32(SignedRemainder(n, d))
  {
    var q := Sdiv64(n, d);
    SameLowBits(n, d, Truncated(n, d));
    r := ToInt32(ToInt64(n - (ToInt64(d * q) as int)));
  }

  /** Cutting to 64 bits on the way does not change the low 32. */
  lemma SameLowBits(n: int64, d: int64, t: int)
    ensures ToInt32(ToInt64(n - (ToInt64(d * (ToInt64(t) as int)) as int))) == ToInt32(n - d * t)
  {
    var t' := ToInt64(t) as int;
    WrapDiffers(t);
    var k := (t' - t) / DWORD;
    Shift(d, t, k);
    WrapDiffers(d * t');
    var a := ToInt64(d * t') as int;
    WrapDiffers(n - a);
    var b := ToInt64(n - a) as int;
    var m := (b - (n - d * t)) / DWORD;
    assert b - (n - d * t) == (b - (n - a)) - (a - d * t') - (d * t' - d * t);
    SameWord(b, n - d * t, (b - (n - a)) / DWORD - (a - d * t') / DWORD - d * k);
  }

  lemma Shift(d: int, t: int, k: int)
    ensures d * (t + k * DWORD) == d * t + (d * k) * DWORD
  {
    assert d * (k * DWORD) == (d * k) * DWORD;
  }

  lemma WrapDiffers(x: int)
    ensures (ToInt64(x) as int) - x == (((ToInt64(x) as int) - x) / DWORD) * DWORD
  {
  }

  lemma SameWord(a: int, b: int, k: int)
    requires a == b + k * DWORD
    ensures ToInt32(a) == ToInt32(b)
  {
    assert a == b + (k * WORD) * WORD;
    ModShift(b, k * WORD);
  }

  lemma ModShift(b: int, k: int)
    ensures (b + k * WORD) % WORD == b % WORD
  {
  }
}
