/** Masks and shifts: what `&` and `|` with aligned constants do to a number. */
module Masks {
  import opened Words

  lemma {:induction false} AndSelf(x: nat)
    ensures And(x, x) == x
  {
    if x > 0 { AndSelf(x / 2); }
  }

  lemma {:induction false} AndMask(x: nat, k: nat)
    ensures Pow2(k) > 0 && And(x, Pow2(k) - 1) == x % Pow2(k)
  {
    if k > 0 {
      AndMask(x / 2, k - 1);
      AndOdd(x, Pow2(k - 1));
      ModTwice(x, Pow2(k - 1));
    }
  }

  lemma AndOdd(x: nat, p: nat)
    requires p > 0
    ensures And(x, 2 * p - 1) == 2 * And(x / 2, p - 1) + x % 2
  {
    assert (2 * p - 1) / 2 == p - 1 && (2 * p - 1) % 2 == 1;
  }

  lemma ModTwice(x: nat, p: nat)
    requires p > 0
    ensures x % (2 * p) == 2 * ((x / 2) % p) + x % 2
  {
    var q, r := (x / 2) / p, (x / 2) % p;
    assert x == 2 * (q * p + r) + x % 2;
    assert x == q * (2 * p) + (2 * r + x % 2);
    ModIs(x, 2 * p, q, 2 * r + x % 2);
  }

  lemma ModIs(x: int, m: int, q: int, r: int)
    requires m > 0 && 0 <= r < m && x == q * m + r
    ensures x % m == r
  {
    var k := q - x / m;
    assert k * m == x % m - r;
    assert k >= 1 ==> k * m >= m;
    assert k <= -1 ==> k * m <= -m;
  }

  /** A mask that stands `k` bits higher drops the low bits and masks the rest. */
  lemma {:induction false} AndHigh(h: nat, l: nat, m: nat, k: nat)
    requires l < Pow2(k)
    ensures And(h * Pow2(k) + l, m * Pow2(k)) == And(h, m) * Pow2(k)
  {
    if k > 0 {
      var p := Pow2(k - 1);
      AndHigh(h, l / 2, m, k - 1);
      Double(h, p);
      Double(m, p);
      Double(And(h, m), p);
      HalfMask(h * p + l / 2, l % 2, m * p);
    }
  }

  lemma Double(a: nat, p: nat)
    ensures a * (2 * p) == 2 * (a * p)
  {
  }

  lemma HalfMask(y: nat, bit: nat, m: nat)
    requires bit < 2
    ensures And(2 * y + bit, 2 * m) == 2 * And(y, m)
  {
    assert (2 * y + bit) / 2 == y && (2 * m) / 2 == m && (2 * m) % 2 == 0;
  }

  /** Low bits put into a number that has none. */
  lemma {:induction false} OrLow(a: nat, k: nat, f: nat)
    requires f < Pow2(k)
    ensures Or(a * Pow2(k), f) == a * Pow2(k) + f
  {
    if k > 0 {
      var p := Pow2(k - 1);
      OrLow(a, k - 1, f / 2);
      Double(a, p);
      OrEven(a * p, f);
    }
  }

  lemma OrEven(a: nat, f: nat)
    ensures Or(2 * a, f) == 2 * Or(a, f / 2) + f % 2
  {
    assert (2 * a) / 2 == a && (2 * a) % 2 == 0;
  }
}
