/** Natural merge sort on sequences: what one pass of list_sort does, and why repeating it
    sorts, keeps every element and keeps the order of equivalent ones. */
module Merging {

  /** `less` orders the elements of `s` strictly, and being unordered is an equivalence. */
  ghost predicate WeakOrderOn<T>(less: (T, T) -> bool, s: seq<T>) {
    && (forall x :: x in s ==> !less(x, x))
    && (forall x, y, z :: x in s && y in s && z in s && less(x, y) && less(y, z) ==> less(x, z))
    && (forall x, y, z :: x in s && y in s && z in s && !less(x, y) && !less(y, z) ==> !less(x, z))
  }

  ghost predicate Sorted<T>(less: (T, T) -> bool, s: seq<T>) {
    forall i, j :: 0 <= i < j < |s| ==> !less(s[j], s[i])
  }

  /** Nondecreasing from each element to the next: what the source tests. */
  ghost predicate Rising<T>(less: (T, T) -> bool, s: seq<T>) {
    forall i :: 0 < i < |s| ==> !less(s[i], s[i - 1])
  }

  ghost predicate Equivalent<T>(less: (T, T) -> bool, x: T, y: T) { !less(x, y) && !less(y, x) }

  /** The elements equivalent to `x`, in order. */
  ghost function Peers<T>(less: (T, T) -> bool, x: T, s: seq<T>): seq<T> {
    if s == [] then []
    else if Equivalent(less, x, s[0]) then [s[0]] + Peers(less, x, s[1..])
    else Peers(less, x, s[1..])
  }

  /** `r` is `s` in order, with equivalent elements in the order they had. */
  ghost predicate StablySorted<T>(less: (T, T) -> bool, s: seq<T>, r: seq<T>) {
    && Sorted(less, r)
    && multiset(r) == multiset(s)
    && forall x :: x in s ==> Peers(less, x, r) == Peers(less, x, s)
  }

  /** inplace_merge: the first range wins ties. */
  ghost function Merge<T>(less: (T, T) -> bool, a: seq<T>, b: seq<T>): (r: seq<T>)
    ensures |r| == |a| + |b|
    decreases |a| + |b|
  {
    if a == [] then b
    else if b == [] then a
    else if !less(b[0], a[0]) then [a[0]] + Merge(less, a[1..], b)
    else [b[0]] + Merge(less, a, b[1..])
  }

  /** find_end_of_run: the length of the first run. */
  ghost function RunLen<T>(less: (T, T) -> bool, s: seq<T>): (n: nat)
    requires s != []
    ensures 0 < n <= |s|
  {
    if |s| == 1 || less(s[1], s[0]) then 1 else 1 + RunLen(less, s[1..])
  }

  ghost function Runs<T>(less: (T, T) -> bool, s: seq<T>): nat
    decreases |s|
  {
    if s == [] then 0 else 1 + Runs(less, s[RunLen(less, s)..])
  }

  /** One pass: adjacent runs merged two by two. */
  ghost function Pass<T>(less: (T, T) -> bool, s: seq<T>): (r: seq<T>)
    ensures |r| == |s|
    decreases |s|
  {
    if s == [] then []
    else
      var i := RunLen(less, s);
      if i == |s| then s
      else
        var j := i + RunLen(less, s[i..]);
        Merge(less, s[..i], s[i..j]) + Pass(less, s[j..])
  }

  /** The runs that one pass outputs. */
  ghost function PassCnt<T>(less: (T, T) -> bool, s: seq<T>): nat
    decreases |s|
  {
    if s == [] then 0
    else
      var i := RunLen(less, s);
      if i == |s| then 1
      else 1 + PassCnt(less, s[i + RunLen(less, s[i..])..])
  }

  /** The run is as long as it can be. */
  lemma {:induction false} RunLenRises<T>(less: (T, T) -> bool, s: seq<T>)
    requires s != []
    ensures var n := RunLen(less, s); Rising(less, s[..n]) && (n < |s| ==> less(s[n], s[n - 1]))
  {
    if |s| > 1 && !less(s[1], s[0]) {
      RunLenRises(less, s[1..]);
      var n := 1 + RunLen(less, s[1..]);
      assert s[..n] == [s[0]] + s[1..][..n - 1];
    }
  }

  // ----- Orders -----

  lemma {:induction false} OrderOnPart<T>(less: (T, T) -> bool, s: seq<T>, t: seq<T>)
    requires WeakOrderOn(less, s) && forall i :: 0 <= i < |t| ==> t[i] in s
    ensures WeakOrderOn(less, t)
  {
  }

  lemma {:induction false} RisingSorted<T>(less: (T, T) -> bool, s: seq<T>)
    requires WeakOrderOn(less, s) && Rising(less, s)
    ensures Sorted(less, s)
  {
    if |s| > 1 {
      var t := s[..|s| - 1];
      OrderOnPart(less, s, t);
      RisingSorted(less, t);
      var last := |s| - 1;
      forall i | 0 <= i < last
        ensures !less(s[last], s[i])
      {
        if i < last - 1 {
          assert !less(t[last - 1], t[i]);
          assert !less(s[last], s[last - 1]);
        }
      }
    }
  }

  // ----- Merging -----

  lemma {:induction false} MergeElements<T>(less: (T, T) -> bool, a: seq<T>, b: seq<T>)
    ensures multiset(Merge(less, a, b)) == multiset(a) + multiset(b)
    decreases |a| + |b|
  {
    if a != [] && b != [] {
      if !less(b[0], a[0]) {
        MergeElements(less, a[1..], b);
        ConsElements(a, Merge(less, a[1..], b), multiset(b));
      } else {
        MergeElements(less, a, b[1..]);
        ConsElements(b, Merge(less, a, b[1..]), multiset(a));
      }
    }
  }

  lemma ConsElements<T>(s: seq<T>, m: seq<T>, rest: multiset<T>)
    requires s != [] && multiset(m) == multiset(s[1..]) + rest
    ensures multiset([s[0]] + m) == multiset(s) + rest
  {
    assert s == [s[0]] + s[1..];
    assert multiset([s[0]] + s[1..]) == multiset{s[0]} + multiset(s[1..]);
  }

  lemma {:induction false} InMerge<T>(less: (T, T) -> bool, a: seq<T>, b: seq<T>, x: T)
    requires x in Merge(less, a, b)
    ensures x in a || x in b
  {
    MergeElements(less, a, b);
    assert x in multiset(Merge(less, a, b));
  }

  lemma {:induction false} MergeSorted<T>(less: (T, T) -> bool, a: seq<T>, b: seq<T>)
    requires WeakOrderOn(less, a + b) && Sorted(less, a) && Sorted(less, b)
    ensures Sorted(less, Merge(less, a, b))
    decreases |a| + |b|
  {
    if a != [] && b != [] {
      var x, rest := (if !less(b[0], a[0]) then a[0] else b[0]),
                     (if !less(b[0], a[0]) then Merge(less, a[1..], b) else Merge(less, a, b[1..]));
      if !less(b[0], a[0]) {
        OrderOnPart(less, a + b, a[1..] + b);
        MergeSorted(less, a[1..], b);
      } else {
        OrderOnPart(less, a + b, a + b[1..]);
        MergeSorted(less, a, b[1..]);
      }
      assert Merge(less, a, b) == [x] + rest;
      forall k | 0 <= k < |rest|
        ensures !less(rest[k], x)
      {
        HeadIsLeast(less, a, b, rest[k]);
      }
    }
  }

  /** No element of either range comes before the one that a merge takes first. */
  lemma {:induction false} HeadIsLeast<T>(less: (T, T) -> bool, a: seq<T>, b: seq<T>, y: T)
    requires a != [] && b != [] && WeakOrderOn(less, a + b) && Sorted(less, a) && Sorted(less, b)
    requires y in Merge(less, a, b)
    ensures !less(y, if !less(b[0], a[0]) then a[0] else b[0])
  {
    InMerge(less, a, b, y);
    assert a[0] in a + b && b[0] in a + b && y in a + b;
    if y in a {
      var i :| 0 <= i < |a| && a[i] == y;
      assert !less(a[i], a[0]);
    } else {
      var i :| 0 <= i < |b| && b[i] == y;
      assert !less(b[i], b[0]);
    }
  }

  lemma {:induction false} PeersConcat<T>(less: (T, T) -> bool, x: T, a: seq<T>, b: seq<T>)
    ensures Peers(less, x, a + b) == Peers(less, x, a) + Peers(less, x, b)
  {
    if a == [] {
      assert a + b == b;
    } else {
      assert (a + b)[1..] == a[1..] + b;
      PeersConcat(less, x, a[1..], b);
    }
  }

  /** If `b` comes before the head of a sorted range and is a peer of `x`, the range has no peer of
      `x`. */
  lemma {:induction false} NoPeers<T>(less: (T, T) -> bool, x: T, a: seq<T>, b: T)
    requires WeakOrderOn(less, a + [b, x]) && Sorted(less, a) && Equivalent(less, x, b)
    requires a != [] ==> less(b, a[0])
    ensures Peers(less, x, a) == []
  {
    if a != [] {
      var s := a + [b, x];
      assert a[0] in s && b in s && x in s;
      if |a| > 1 {
        assert a[1] in s && !less(a[1], a[0]);
        assert less(b, a[1]);
      }
      OrderOnPart(less, s, a[1..] + [b, x]);
      NoPeers(less, x, a[1..], b);
    }
  }

  /** Merging keeps the order of equivalent elements. */
  lemma {:induction false} MergeStable<T>(less: (T, T) -> bool, x: T, a: seq<T>, b: seq<T>)
    requires WeakOrderOn(less, a + b + [x]) && Sorted(less, a) && Sorted(less, b)
    ensures Peers(less, x, Merge(less, a, b)) == Peers(less, x, a + b)
    decreases |a| + |b|
  {
    PeersConcat(less, x, a, b);
    if a != [] && b != [] {
      if !less(b[0], a[0]) {
        OrderOnPart(less, a + b + [x], a[1..] + b + [x]);
        MergeStable(less, x, a[1..], b);
        PeersConcat(less, x, a[1..], b);
      } else {
        OrderOnPart(less, a + b + [x], a + b[1..] + [x]);
        MergeStable(less, x, a, b[1..]);
        PeersConcat(less, x, a, b[1..]);
        if Equivalent(less, x, b[0]) {
          OrderOnPart(less, a + b + [x], a + [b[0], x]);
          NoPeers(less, x, a, b[0]);
        }
      }
    }
  }

  // ----- Passes -----

  lemma {:induction false} SortedRising<T>(less: (T, T) -> bool, s: seq<T>)
    requires Sorted(less, s)
    ensures Rising(less, s)
  {
  }

  /** The two runs that a pass merges first, as sorted ranges. */
  lemma {:induction false} TwoRuns<T>(less: (T, T) -> bool, s: seq<T>, i: nat, j: nat)
    requires WeakOrderOn(less, s) && i <= j <= |s| && Rising(less, s[..i]) && Rising(less, s[i..j])
    ensures s == s[..i] + s[i..j] + s[j..]
    ensures WeakOrderOn(less, s[..i] + s[i..j]) && WeakOrderOn(less, s[j..])
    ensures Sorted(less, s[..i]) && Sorted(less, s[i..j])
  {
    OrderOnPart(less, s, s[..i]);
    OrderOnPart(less, s, s[i..j]);
    OrderOnPart(less, s, s[..i] + s[i..j]);
    OrderOnPart(less, s, s[j..]);
    RisingSorted(less, s[..i]);
    RisingSorted(less, s[i..j]);
  }

  lemma {:induction false} EndPass<T>(less: (T, T) -> bool, s: seq<T>)
    requires s == [] || RunLen(less, s) == |s|
    ensures Pass(less, s) == s
  {
  }

  lemma {:induction false} PassSplits<T>(less: (T, T) -> bool, s: seq<T>, i: nat, j: nat)
    requires 0 < i < j <= |s| && i == RunLen(less, s) && j == i + RunLen(less, s[i..])
    ensures Pass(less, s) == Merge(less, s[..i], s[i..j]) + Pass(less, s[j..])
  {
    hide Merge, RunLen, Rising;
  }

  lemma {:induction false} PassCntSplits<T>(less: (T, T) -> bool, s: seq<T>, i: nat, j: nat)
    requires 0 < i < j <= |s| && i == RunLen(less, s) && j == i + RunLen(less, s[i..])
    ensures PassCnt(less, s) == 1 + PassCnt(less, s[j..])
  {
    hide RunLen, Rising;
  }

  lemma {:induction false} RunsRise<T>(less: (T, T) -> bool, s: seq<T>, i: nat, j: nat)
    requires 0 < i < j <= |s| && i == RunLen(less, s) && j == i + RunLen(less, s[i..])
    ensures Rising(less, s[..i]) && Rising(less, s[i..j])
  {
    hide Rising;
    RunLenRises(less, s);
    RunLenRises(less, s[i..]);
    assert s[i..][..j - i] == s[i..j];
  }

  lemma {:induction false} PassElements<T>(less: (T, T) -> bool, s: seq<T>)
    ensures multiset(Pass(less, s)) == multiset(s)
    decreases |s|
  {
    hide Merge, RunLen;
    if s != [] {
      var i := RunLen(less, s);
      if i < |s| {
        var j := i + RunLen(less, s[i..]);
        MergeElements(less, s[..i], s[i..j]);
        PassElements(less, s[j..]);
        assert s == (s[..i] + s[i..j]) + s[j..];
        assert Pass(less, s) == Merge(less, s[..i], s[i..j]) + Pass(less, s[j..]);
      }
    }
  }

  lemma {:induction false} PassStable<T>(less: (T, T) -> bool, x: T, s: seq<T>)
    requires WeakOrderOn(less, s + [x])
    ensures Peers(less, x, Pass(less, s)) == Peers(less, x, s)
    decreases |s|
  {
    hide Pass, Merge, RunLen, Rising, WeakOrderOn, Peers;
    if s == [] {
      assert Pass(less, s) == s by { EndPass(less, s); }
    } else {
      var i := RunLen(less, s);
      if i == |s| {
        EndPass(less, s);
      } else {
        var j := i + RunLen(less, s[i..]);
        PassSplits(less, s, i, j);
        RunsRise(less, s, i, j);
        OrderOnPart(less, s + [x], s);
        TwoRuns(less, s, i, j);
        OrderOnPart(less, s + [x], s[..i] + s[i..j] + [x]);
        MergeStable(less, x, s[..i], s[i..j]);
        OrderOnPart(less, s + [x], s[j..] + [x]);
        PassStable(less, x, s[j..]);
        PeersConcat(less, x, Merge(less, s[..i], s[i..j]), Pass(less, s[j..]));
        PeersConcat(less, x, s[..i] + s[i..j], s[j..]);
      }
    }
  }

  /** A rising range put before another one: their runs may join, but no run is added. */
  lemma {:induction false} RunLenConcat<T>(less: (T, T) -> bool, a: seq<T>, b: seq<T>)
    requires a != [] && Rising(less, a)
    ensures RunLen(less, a + b) == |a| || (b != [] && RunLen(less, a + b) == |a| + RunLen(less, b))
  {
    var s := a + b;
    if |a| > 1 {
      assert s[1..] == a[1..] + b;
      assert Rising(less, a[1..]) by {
        forall k | 0 < k < |a[1..]|
          ensures !less(a[1..][k], a[1..][k - 1])
        {
          assert !less(a[k + 1], a[k]);
        }
      }
      assert !less(a[1], a[0]);
      RunLenConcat(less, a[1..], b);
    } else {
      assert s[1..] == b;
    }
  }

  lemma {:induction false} RunsConcat<T>(less: (T, T) -> bool, a: seq<T>, b: seq<T>)
    requires a != [] && Rising(less, a)
    ensures Runs(less, a + b) <= 1 + Runs(less, b)
  {
    RunLenConcat(less, a, b);
    var n := RunLen(less, a + b);
    if n == |a| {
      assert (a + b)[n..] == b;
    } else {
      assert (a + b)[n..] == b[RunLen(less, b)..];
    }
  }

  lemma {:induction false} PassRuns<T>(less: (T, T) -> bool, s: seq<T>)
    requires WeakOrderOn(less, s)
    ensures Runs(less, Pass(less, s)) <= PassCnt(less, s)
    decreases |s|
  {
    if s != [] {
      var i := RunLen(less, s);
      if i == |s| {
        assert s[i..] == [];
      } else {
        var j := i + RunLen(less, s[i..]);
        RunLenRises(less, s);
        RunLenRises(less, s[i..]);
        assert s[i..][..j - i] == s[i..j];
        TwoRuns(less, s, i, j);
        MergeSorted(less, s[..i], s[i..j]);
        SortedRising(less, Merge(less, s[..i], s[i..j]));
        PassRuns(less, s[j..]);
        RunsConcat(less, Merge(less, s[..i], s[i..j]), Pass(less, s[j..]));
      }
    }
  }

  lemma {:induction false} PassCntIs<T>(less: (T, T) -> bool, s: seq<T>)
    ensures PassCnt(less, s) == (Runs(less, s) + 1) / 2
    decreases |s|
  {
    hide RunLen, Rising;
    if s != [] {
      var i := RunLen(less, s);
      if i < |s| {
        var j := i + RunLen(less, s[i..]);
        TwoRunsGone(less, s);
        assert PassCnt(less, s) == 1 + PassCnt(less, s[j..]);
        PassCntIs(less, s[j..]);
      } else {
        assert s[i..] == [];
      }
    }
  }

  lemma {:induction false} RunGone<T>(less: (T, T) -> bool, s: seq<T>)
    requires s != []
    ensures Runs(less, s) == 1 + Runs(less, s[RunLen(less, s)..])
  {
  }

  lemma {:induction false} TwoRunsGone<T>(less: (T, T) -> bool, s: seq<T>)
    requires s != [] && RunLen(less, s) < |s|
    ensures var i := RunLen(less, s); Runs(less, s) == 2 + Runs(less, s[i + RunLen(less, s[i..])..])
  {
    hide RunLen, Runs;
    var i := RunLen(less, s);
    var j := RunLen(less, s[i..]);
    RunGone(less, s);
    RunGone(less, s[i..]);
    assert s[i..][j..] == s[i + j..];
  }

  /** A pass that outputs more than one run leaves fewer runs than it found. */
  lemma {:induction false} PassShrinks<T>(less: (T, T) -> bool, s: seq<T>)
    requires WeakOrderOn(less, s) && PassCnt(less, s) > 1
    ensures Runs(less, Pass(less, s)) < Runs(less, s)
  {
    PassRuns(less, s);
    PassCntIs(less, s);
  }

  /** A pass that outputs at most one run has sorted the sequence. */
  lemma {:induction false} LastPass<T>(less: (T, T) -> bool, s: seq<T>)
    requires WeakOrderOn(less, s) && PassCnt(less, s) <= 1
    ensures Sorted(less, Pass(less, s))
  {
    var r := Pass(less, s);
    PassRuns(less, s);
    PassElements(less, s);
    SameElementsOrder(less, s, r);
    if r != [] {
      RunLenRises(less, r);
      assert Runs(less, r[RunLen(less, r)..]) == 0;
      assert r[..RunLen(less, r)] == r;
      RisingSorted(less, r);
    }
  }

  lemma {:induction false} SameElementsOrder<T>(less: (T, T) -> bool, s: seq<T>, r: seq<T>)
    requires WeakOrderOn(less, s) && multiset(r) == multiset(s)
    ensures WeakOrderOn(less, r)
  {
    forall x | x in r
      ensures x in s
    {
      assert x in multiset(r);
    }
  }

  /** What a pass keeps of the original order. */
  lemma {:induction false} PassKeeps<T>(less: (T, T) -> bool, original: seq<T>, s: seq<T>)
    requires WeakOrderOn(less, original) && multiset(s) == multiset(original)
    requires forall x :: x in original ==> Peers(less, x, s) == Peers(less, x, original)
    ensures multiset(Pass(less, s)) == multiset(original)
    ensures forall x :: x in original ==> Peers(less, x, Pass(less, s)) == Peers(less, x, original)
  {
    hide Pass, Peers, WeakOrderOn;
    PassElements(less, s);
    forall x | x in original
      ensures Peers(less, x, Pass(less, s)) == Peers(less, x, original)
    {
      forall k | 0 <= k < |s + [x]|
        ensures (s + [x])[k] in original
      {
        if k < |s| { assert s[k] in multiset(s); }
      }
      OrderOnPart(less, original, s + [x]);
      PassStable(less, x, s);
    }
  }
}
