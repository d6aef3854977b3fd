/** The 17.14 fixed-point arithmetic of the multi-level feedback queue scheduler
    (src/threads/fixed-point.h) and the formulas of src/threads/thread.c that use it. */
module FixedPoint {
  /** 1 as a fixed-point number. */
  const F: int := 16384
  const PRI_MIN: int := 0
  const PRI_MAX: int := 63
  const NICE_MIN: int := -20
  const NICE_MAX: int := 20
  const TIMER_FREQ: nat := 100

  /** Division as in C, toward zero. */
  function TDiv(a: int, b: int): int
    requires b > 0
  {
    if a >= 0 then a / b else -(-a / b)
  }

  function FromInt(n: int, d: int): int
    requires d > 0
  {
    TDiv(n * F, d)
  }

  function Mul(x: int, y: int): int { TDiv(x * y, F) }

  function Div(x: int, y: int): int
    requires y > 0
  {
    TDiv(x * F, y)
  }

  function AddInt(x: int, n: int): int { x + n * F }

  /** update_load_avg */
  function NewLoadAvg(loadAvg: int, ready: nat): int {
    Mul(FromInt(59, 60), loadAvg) + FromInt(1, 60) * ready
  }

  /** The coefficient in update_recent_cpu. */
  function Decay(loadAvg: int): int
    requires loadAvg >= 0
  {
    Div(2 * loadAvg, AddInt(2 * loadAvg, 1))
  }

  /** update_recent_cpu */
  function NewRecentCpu(recentCpu: int, nice: int, loadAvg: int): int
    requires loadAvg >= 0
  {
    AddInt(Mul(Decay(loadAvg), recentCpu), nice)
  }

  /** update_priority */
  function NewPriority(recentCpu: int, nice: int): (p: int)
    ensures PRI_MIN <= p <= PRI_MAX
  {
    var p := TDiv(FromInt(PRI_MAX, 1) - TDiv(recentCpu, 4) - FromInt(2 * nice, 1), F);
    if p > PRI_MAX then PRI_MAX else if p < PRI_MIN then PRI_MIN else p
  }

  // ----- What the formulas compute -----

  /** The most recent_cpu with which a thread of that nice value still gets priority `p`:
      4 * (63 - p - 2 * nice), and what division toward zero drops. */
  function MostCpu(p: int, nice: int): int {
    4 * (63 - p - 2 * nice) * 16384 + if 63 - p - 2 * nice >= 0 then 3 else 0
  }

  /** `p` is 63 - recent_cpu / 4 - 2 * nice, kept between 0 and 63. */
  ghost predicate IsPriority(p: int, recentCpu: int, nice: int) {
    0 <= p <= 63 && forall q :: 1 <= q <= 63 ==> (q <= p <==> recentCpu <= MostCpu(q, nice))
  }

  lemma PriorityIs(recentCpu: int, nice: int)
    ensures IsPriority(NewPriority(recentCpu, nice), recentCpu, nice)
  {
    forall q | 1 <= q <= 63
      ensures q <= NewPriority(recentCpu, nice) <==> recentCpu <= MostCpu(q, nice)
    {
      PriorityAtLeast(recentCpu, nice, q);
    }
  }

  lemma PriorityAtLeast(recentCpu: int, nice: int, q: int)
    requires 1 <= q <= 63
    ensures q <= NewPriority(recentCpu, nice) <==> recentCpu <= MostCpu(q, nice)
  {
    var quarter := TDiv(recentCpu, 4);
    var v := 63 * F - quarter - 2 * nice * F;
    assert FromInt(PRI_MAX, 1) == 63 * F && FromInt(2 * nice, 1) == 2 * nice * F;
    assert q <= TDiv(v, F) <==> q * F <= v;
    assert quarter <= (63 - q - 2 * nice) * F <==> recentCpu <= MostCpu(q, nice);
  }

  /** Such a priority is the only one. */
  lemma PriorityUnique(p: int, p': int, recentCpu: int, nice: int)
    requires IsPriority(p, recentCpu, nice) && IsPriority(p', recentCpu, nice)
    ensures p == p'
  {
    NoHigher(p, p', recentCpu, nice);
    NoHigher(p', p, recentCpu, nice);
  }

  lemma NoHigher(p: int, p': int, recentCpu: int, nice: int)
    requires IsPriority(p, recentCpu, nice) && IsPriority(p', recentCpu, nice)
    ensures p <= p'
  {
    if p >= 1 { assert recentCpu <= MostCpu(p, nice); }
  }

  /** load_avg becomes 59/60 of itself and 1/60 of the ready threads, never more, and less by no more
      than the two constants and the product lose. */
  lemma LoadAvgIs(loadAvg: int, ready: nat)
    requires loadAvg >= 0
    ensures
      var kept := NewLoadAvg(loadAvg, ready) - 273 * ready;
      16384 * kept <= 16110 * loadAvg < 16384 * (kept + 1)
    ensures
      var lost := 59 * loadAvg + 16384 * ready - 60 * NewLoadAvg(loadAvg, ready);
      0 <= lost && 16384 * lost < 56 * loadAvg + 16384 * (60 + 4 * ready)
  {
    assert FromInt(59, 60) == 16110 && FromInt(1, 60) == 273;
  }

  /** recent_cpu becomes `c` times itself plus nice, where `c` is 2 * load_avg / (2 * load_avg + 1);
      both are cut toward zero to 14 bits after the point. */
  lemma RecentCpuIs(recentCpu: int, nice: int, loadAvg: int) returns (c: int)
    requires loadAvg >= 0
    ensures c * (2 * loadAvg + 16384) <= 2 * loadAvg * 16384 < (c + 1) * (2 * loadAvg + 16384)
    ensures
      var kept := NewRecentCpu(recentCpu, nice, loadAvg) - nice * 16384;
      if recentCpu >= 0 then 16384 * kept <= c * recentCpu < 16384 * (kept + 1)
      else 16384 * (kept - 1) < c * recentCpu <= 16384 * kept
  {
    c := Decay(loadAvg);
    QuotientBound(2 * loadAvg * F, 2 * loadAvg + F);
    ProductSign(c, recentCpu);
    if recentCpu >= 0 { QuotientBound(c * recentCpu, F); } else { QuotientBound(-(c * recentCpu), F); }
  }

  lemma ProductSign(c: int, r: int)
    requires c >= 0
    ensures r >= 0 ==> c * r >= 0
    ensures r <= 0 ==> c * r <= 0
  {
  }

  // ----- Bounds -----

  /** What recent_cpu stays within `j` ticks after the last update, with at most `n` threads ready. */
  ghost predicate RecentOk(recentCpu: int, n: nat, j: nat) {
    -20 * (2 * n + 1) * F <= recentCpu <= (240 * n + 20 + j) * F
  }

  ghost predicate LoadOk(loadAvg: int, n: nat) { 0 <= loadAvg <= n * F }

  lemma LoadAvgBound(loadAvg: int, ready: nat, n: nat)
    requires LoadOk(loadAvg, n) && ready <= n
    ensures LoadOk(NewLoadAvg(loadAvg, ready), n)
  {
    assert FromInt(59, 60) == 16110 && FromInt(1, 60) == 273;
    assert Mul(16110, loadAvg) == (16110 * loadAvg) / F <= 16110 * n;
  }

  /** The coefficient is at most 2n / (2n + 1). */
  lemma DecayBound(loadAvg: int, n: nat)
    requires LoadOk(loadAvg, n)
    ensures 0 <= Decay(loadAvg) < F && Decay(loadAvg) * (2 * n + 1) <= 2 * n * F
  {
    var y, c := 2 * loadAvg, Decay(loadAvg);
    QuotientBound(y * F, y + F);
    Fraction(c, y, 2 * n);
  }

  /** If c <= y F / (y + F) and y <= k F, then c <= k F / (k + 1). */
  lemma Fraction(c: int, y: int, k: int)
    requires 0 <= c && 0 <= y <= k * F && c * (y + F) <= y * F
    ensures c < F && c * (k + 1) <= k * F
  {
    BelowF(c, y);
    var d := F - c;
    assert c * (y + F) == c * F + y * c && y * F == y * d + y * c;
    assert c * F <= y * d;
    TimesMonotone(y, k * F, d);
    Swap(k, d);
    CancelF(c, k * d);
    assert k * d == k * F - k * c && c * (k + 1) == k * c + c;
  }

  lemma Swap(k: int, d: int)
    ensures (k * F) * d == F * (k * d)
  {
  }

  lemma BelowF(c: int, y: int)
    requires 0 <= c && 0 <= y && c * (y + F) <= y * F
    ensures c < F
  {
    assert c * (y + F) == c * y + c * F;
    assert c >= F ==> c * y >= F * y;
  }

  lemma QuotientBound(a: int, b: int)
    requires a >= 0 && b > 0
    ensures 0 <= a / b && (a / b) * b <= a
  {
  }

  lemma TimesMonotone(a: int, b: int, c: int)
    requires a <= b && c >= 0
    ensures a * c <= b * c
  {
  }

  lemma CancelF(a: int, b: int)
    requires a * F <= F * b
    ensures a <= b
  {
  }

  /** The recurrence brings recent_cpu back below the bound for the start of a second, whatever the
      last second did to it. */
  lemma RecentCpuBound(recentCpu: int, nice: int, loadAvg: int, n: nat)
    requires LoadOk(loadAvg, n) && NICE_MIN <= nice <= NICE_MAX && RecentOk(recentCpu, n, TIMER_FREQ)
    ensures RecentOk(NewRecentCpu(recentCpu, nice, loadAvg), n, 0)
  {
    var c, m := Decay(loadAvg), 2 * n + 1;
    DecayBound(loadAvg, n);
    if recentCpu >= 0 {
      Shrink(c, recentCpu, m, 2 * n, 120);
    } else {
      Shrink(c, -recentCpu, m, 2 * n, 20);
      assert c * recentCpu == -(c * -recentCpu);
    }
  }

  /** A share of at most k / m of what is at most w m. */
  lemma Shrink(c: int, r: int, m: int, k: int, w: int)
    requires 0 <= c && 0 <= k && 0 <= w && 0 <= r <= w * m * F && c * m <= k * F
    ensures 0 <= (c * r) / F <= w * k * F && 0 <= c * r
  {
    TimesMonotone(r, w * m * F, c);
    assert (w * m * F) * c == (w * F) * (c * m) by { Regroup(w, m, c); }
    TimesMonotone(c * m, k * F, w * F);
    assert (k * F) * (w * F) == F * (w * k * F) by { Regroup2(k, w); }
    assert c * r == r * c && (c * m) * (w * F) == (w * F) * (c * m);
    DivideF(c * r, w * k * F);
  }

  lemma Regroup(w: int, m: int, c: int)
    ensures (w * m * F) * c == (w * F) * (c * m)
  {
  }

  lemma Regroup2(k: int, w: int)
    ensures (k * F) * (w * F) == F * (w * k * F)
  {
  }

  lemma DivideF(a: int, b: int)
    requires 0 <= a <= F * b
    ensures 0 <= a / F <= b
  {
  }

  /** The ticks since the last update of the second, just before the update that may be due now. */
  function SinceUpdate(ticks: nat): nat {
    if ticks % TIMER_FREQ == 0 then TIMER_FREQ else ticks % TIMER_FREQ
  }

  lemma TickBound(recentCpu: int, n: nat, ticks: nat)
    requires RecentOk(recentCpu, n, ticks % TIMER_FREQ)
    ensures RecentOk(recentCpu, n, SinceUpdate(ticks + 1)) && RecentOk(AddInt(recentCpu, 1), n, SinceUpdate(ticks + 1))
  {
    var j := ticks % TIMER_FREQ;
    assert SinceUpdate(ticks + 1) == j + 1;
    assert (240 * n + 20 + (j + 1)) * F == (240 * n + 20 + j) * F + F;
  }

  const INT_MAX: int := 0x7fffffff

  predicate FitsInt32(x: int) { -INT_MAX - 1 <= x <= INT_MAX }

  /** With at most 545 threads ready nothing that is stored in 32 bits overflows. */
  lemma NoOverflow(recentCpu: int, nice: int, loadAvg: int, n: nat, j: nat)
    requires n <= 545 && j <= TIMER_FREQ && NICE_MIN <= nice <= NICE_MAX
    requires LoadOk(loadAvg, n) && RecentOk(recentCpu, n, j)
    ensures FitsInt32(recentCpu) && FitsInt32(loadAvg) && FitsInt32(2 * loadAvg) && FitsInt32(AddInt(2 * loadAvg, 1))
    ensures FitsInt32(Decay(loadAvg)) && FitsInt32(NewRecentCpu(recentCpu, nice, loadAvg))
    ensures FitsInt32(FromInt(PRI_MAX, 1) - TDiv(recentCpu, 4))
    ensures FitsInt32(FromInt(PRI_MAX, 1) - TDiv(recentCpu, 4) - FromInt(2 * nice, 1))
    ensures FitsInt32(100 * loadAvg)
  {
    RecentCpuBound(recentCpu, nice, loadAvg, n);
    DecayBound(loadAvg, n);
    assert TDiv(2 * nice * F, 1) == 2 * nice * F;
  }

  /** What thread_get_recent_cpu converts fits only while the value itself is below 1310.72; the
      bound guarantees that for at most 4 ready threads. */
  lemma ReportFits(recentCpu: int, n: nat, j: nat)
    ensures FitsInt32(100 * recentCpu) <==> -21474836 <= recentCpu <= 21474836
    ensures n <= 4 && j <= TIMER_FREQ && RecentOk(recentCpu, n, j) ==> FitsInt32(100 * recentCpu)
  {
  }

  /** One more thread and the bounds no longer fit: the one on what is stored beyond 545 threads, and
      the one on what thread_get_recent_cpu converts beyond 4. */
  lemma BoundIsTight()
    ensures (240 * 545 + 20 + TIMER_FREQ) * F <= INT_MAX < (240 * 546 + 20 + TIMER_FREQ) * F
    ensures RecentOk((240 * 5 + 20 + TIMER_FREQ) * F, 5, TIMER_FREQ)
    ensures !FitsInt32(100 * ((240 * 5 + 20 + TIMER_FREQ) * F))
  {
  }

  /** A thread that has used more CPU time, or is nicer, never gets a higher priority. */
  lemma PriorityMonotone(r: int, r': int, nice: int, nice': int)
    requires r <= r' && nice <= nice'
    ensures NewPriority(r', nice') <= NewPriority(r, nice)
  {
    TDivMonotone(r, r', 4);
    var a, b := FromInt(PRI_MAX, 1) - TDiv(r', 4) - FromInt(2 * nice', 1),
      FromInt(PRI_MAX, 1) - TDiv(r, 4) - FromInt(2 * nice, 1);
    TDivMonotone(2 * nice * F, 2 * nice' * F, 1);
    TDivMonotone(a, b, F);
  }

  lemma TDivMonotone(a: int, b: int, d: int)
    requires a <= b && d > 0
    ensures TDiv(a, d) <= TDiv(b, d)
  {
    if 0 <= a {
      DivMonotone(a, b, d);
    } else if b < 0 {
      DivMonotone(-b, -a, d);
    } else {
      QuotientBound(-a, d);
      QuotientBound(b, d);
    }
  }

  lemma DivMonotone(a: int, b: int, d: int)
    requires 0 <= a <= b && d > 0
    ensures a / d <= b / d
  {
    var p, q := a / d, b / d;
    assert a == p * d + a % d && b == q * d + b % d;
    assert p >= q + 1 ==> p * d >= (q + 1) * d == q * d + d;
  }
}
