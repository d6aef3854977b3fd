/** Heap sort and binary search (src/lib/stdlib.c).  Elements are compared by a function with
    strcmp-type results; indexes into the heap start at 1, as in the source. */
module HeapSort {
  import opened Words

  /** `compare` is a total preorder with consistent signs. */
  ghost predicate IsOrder<T(!new)>(compare: (T, T) -> int) {
    && (forall x, y :: compare(x, y) > 0 <==> compare(y, x) < 0)
    && (forall x, y, z :: compare(x, y) <= 0 && compare(y, z) <= 0 ==> compare(x, z) <= 0)
  }

  lemma Flip<T(!new)>(compare: (T, T) -> int, x: T, y: T)
    requires IsOrder(compare)
    ensures compare(x, y) > 0 <==> compare(y, x) < 0
  {
  }

  lemma Chain<T(!new)>(compare: (T, T) -> int, x: T, y: T, z: T)
    requires IsOrder(compare)
    ensures compare(x, y) <= 0 && compare(y, z) <= 0 ==> compare(x, z) <= 0
  {
  }

  ghost predicate Sorted<T>(compare: (T, T) -> int, s: seq<T>) {
    forall i, j :: 0 <= i < j < |s| ==> compare(s[i], s[j]) <= 0
  }

  /** do_swap of the elements with indexes `i` and `j`. */
  ghost function Swapped<T>(s: seq<T>, i: nat, j: nat): (r: seq<T>)
    requires 1 <= i <= |s| && 1 <= j <= |s|
    ensures |r| == |s|
  {
    s[i - 1 := s[j - 1]][j - 1 := s[i - 1]]
  }

  lemma SwapKeeps<T>(s: seq<T>, i: nat, j: nat, n: nat)
    requires 1 <= i <= n <= |s| && 1 <= j <= n
    ensures multiset(Swapped(s, i, j)[..n]) == multiset(s[..n]) && Swapped(s, i, j)[n..] == s[n..]
  {
    var r := Swapped(s, i, j);
    assert r[..n] == s[..n][i - 1 := s[j - 1]][j - 1 := s[i - 1]];
  }

  /** Element `c` is no greater than its parent. */
  ghost predicate Below<T>(compare: (T, T) -> int, s: seq<T>, c: nat)
    requires 2 <= c <= |s|
  {
    compare(s[c - 1], s[c / 2 - 1]) <= 0
  }

  /** Below every element from `lo` on, the first `cnt` elements form a heap, except right below
      `hole`. */
  ghost predicate Heap<T>(compare: (T, T) -> int, s: seq<T>, lo: nat, cnt: nat, hole: nat) {
    cnt <= |s| && forall c: nat :: 2 <= c <= cnt && lo <= c / 2 && c / 2 != hole ==> Below(compare, s, c)
  }

  /** While an element floats down from `i`, what is below it is no greater than what is above. */
  ghost predicate Floating<T>(compare: (T, T) -> int, s: seq<T>, lo: nat, cnt: nat, i: nat) {
    && 1 <= lo <= i && Heap(compare, s, lo, cnt, i)
    && (i / 2 >= lo ==> forall c: nat :: 2 <= c <= cnt && c / 2 == i ==> compare(s[c - 1], s[i / 2 - 1]) <= 0)
  }

  /** heapify */
  method Heapify<T(!new)>(a: array<T>, i0: nat, cnt: nat, compare: (T, T) -> int)
    requires IsOrder(compare) && 1 <= i0 <= cnt <= a.Length && Heap(compare, a[..], i0 + 1, cnt, 0)
    modifies a
    ensures Heap(compare, a[..], i0, cnt, 0)
    ensures multiset(a[..cnt]) == multiset(old(a[..cnt])) && a[cnt..] == old(a[cnt..])
  {
    hide IsOrder, Heap, Floating, Swapped;
    var i := i0;
    StartFloat(compare, a[..], i0, cnt);
    while true
      invariant i0 <= i <= cnt && Floating(compare, a[..], i0, cnt, i)
      invariant multiset(a[..cnt]) == multiset(old(a[..cnt])) && a[cnt..] == old(a[cnt..])
      decreases cnt - i
    {
      var max := Greatest(a, i, cnt, compare);
      if max == i {
        Settled(compare, a[..], i0, cnt, i);
        break;
      }
      FloatDown(compare, a[..], i0, cnt, i, max);
      DoSwap(a, i, max, cnt);
      i := max;
    }
  }

  /** The greatest of element `i` and its children. */
  method Greatest<T(!new)>(a: array<T>, i: nat, cnt: nat, compare: (T, T) -> int) returns (max: nat)
    requires IsOrder(compare) && 1 <= i <= cnt <= a.Length
    ensures max == i || ((max == 2 * i || max == 2 * i + 1) && max <= cnt && compare(a[max - 1], a[i - 1]) > 0)
    ensures 2 * i <= cnt ==> compare(a[2 * i - 1], a[max - 1]) <= 0
    ensures 2 * i + 1 <= cnt ==> compare(a[2 * i], a[max - 1]) <= 0
  {
    hide IsOrder;
    var left, right := 2 * i, 2 * i + 1;
    max := i;
    if left <= cnt && compare(a[left - 1], a[max - 1]) > 0 {
      max := left;
      Flip(compare, a[left - 1], a[left - 1]);
    }
    if right <= cnt && compare(a[right - 1], a[max - 1]) > 0 {
      Flip(compare, a[right - 1], a[max - 1]);
      Flip(compare, a[right - 1], a[right - 1]);
      Flip(compare, a[right - 1], a[i - 1]);
      Flip(compare, a[max - 1], a[i - 1]);
      Chain(compare, a[left - 1], a[max - 1], a[right - 1]);
      Chain(compare, a[right - 1], a[i - 1], a[max - 1]);
      Chain(compare, a[i - 1], a[max - 1], a[right - 1]);
      max := right;
    }
  }

  /** do_swap, within the first `cnt` elements. */
  method DoSwap<T>(a: array<T>, i: nat, j: nat, ghost cnt: nat)
    requires 1 <= i <= cnt <= a.Length && 1 <= j <= cnt
    modifies a
    ensures a[..] == Swapped(old(a[..]), i, j)
    ensures multiset(a[..cnt]) == multiset(old(a[..cnt])) && a[cnt..] == old(a[cnt..])
  {
    ghost var s := a[..];
    a[i - 1], a[j - 1] := a[j - 1], a[i - 1];
    assert a[..] == Swapped(s, i, j);
    assert a[..cnt] == a[..][..cnt] && s[..cnt] == old(a[..cnt]) && a[cnt..] == a[..][cnt..] &&
      s[cnt..] == old(a[cnt..]);
    SwapKeeps(s, i, j, cnt);
  }

  lemma StartFloat<T>(compare: (T, T) -> int, s: seq<T>, i: nat, cnt: nat)
    requires 1 <= i <= cnt <= |s| && Heap(compare, s, i + 1, cnt, 0)
    ensures Floating(compare, s, i, cnt, i)
  {
  }

  lemma Settled<T(!new)>(compare: (T, T) -> int, s: seq<T>, lo: nat, cnt: nat, i: nat)
    requires IsOrder(compare) && Floating(compare, s, lo, cnt, i) && cnt <= |s| && i <= cnt
    requires 2 * i <= cnt ==> compare(s[2 * i - 1], s[i - 1]) <= 0
    requires 2 * i + 1 <= cnt ==> compare(s[2 * i], s[i - 1]) <= 0
    ensures Heap(compare, s, lo, cnt, 0)
  {
    forall c: nat | 2 <= c <= cnt && lo <= c / 2
      ensures Below(compare, s, c)
    {
      if c / 2 == i { assert c == 2 * i || c == 2 * i + 1; }
    }
  }

  /** One swap with the greatest child moves the hole down. */
  lemma FloatDown<T(!new)>(compare: (T, T) -> int, s: seq<T>, lo: nat, cnt: nat, i: nat, max: nat)
    requires IsOrder(compare) && cnt <= |s| && Floating(compare, s, lo, cnt, i)
    requires (max == 2 * i || max == 2 * i + 1) && max <= cnt && compare(s[max - 1], s[i - 1]) > 0
    requires 2 * i <= cnt ==> compare(s[2 * i - 1], s[max - 1]) <= 0
    requires 2 * i + 1 <= cnt ==> compare(s[2 * i], s[max - 1]) <= 0
    ensures Floating(compare, Swapped(s, i, max), lo, cnt, max)
  {
    hide IsOrder;
    var r := Swapped(s, i, max);
    Flip(compare, s[max - 1], s[i - 1]);
    forall c: nat | 2 <= c <= cnt && lo <= c / 2 && c / 2 != max
      ensures Below(compare, r, c)
    {
      if c / 2 == i {
        assert c == 2 * i || c == 2 * i + 1;
      } else if c == i {
        assert max / 2 == i && compare(s[max - 1], s[i / 2 - 1]) <= 0;
      } else {
        assert Below(compare, s, c);
      }
    }
    forall c: nat | 2 <= c <= cnt && c / 2 == max
      ensures compare(r[c - 1], r[max / 2 - 1]) <= 0
    {
      assert Below(compare, s, c) && max / 2 == i;
    }
  }

  /** The root of a heap is its greatest element. */
  lemma {:induction false} RootIsMax<T(!new)>(compare: (T, T) -> int, s: seq<T>, cnt: nat, k: nat)
    requires IsOrder(compare) && Heap(compare, s, 1, cnt, 0) && 1 <= k <= cnt
    ensures compare(s[k - 1], s[0]) <= 0
  {
    if k == 1 {
      assert compare(s[0], s[0]) > 0 <==> compare(s[0], s[0]) < 0;
    } else {
      assert Below(compare, s, k);
      RootIsMax(compare, s, cnt, k / 2);
    }
  }

  /** No element of the first `n` is greater than any after them. */
  ghost predicate Split<T>(compare: (T, T) -> int, s: seq<T>, n: nat)
    requires n <= |s|
  {
    forall x, y :: x in s[..n] && y in s[n..] ==> compare(x, y) <= 0
  }

  /** sort */
  method Sort<T(!new)>(a: array<T>, compare: (T, T) -> int)
    requires IsOrder(compare)
    modifies a
    ensures Sorted(compare, a[..]) && multiset(a[..]) == multiset(old(a[..]))
  {
    hide IsOrder, Heap, Split, Sorted, Swapped;
    var cnt := a.Length;
    BuildHeap(a, compare);
    var i := cnt;
    NothingSorted(compare, a[..]);
    while i > 1
      invariant 0 <= i <= cnt && (cnt > 0 ==> i > 0) && Heap(compare, a[..], 1, i, 0)
      invariant multiset(a[..]) == multiset(old(a[..]))
      invariant Sorted(compare, a[..][i..]) && Split(compare, a[..], i)
    {
      MaxOut(compare, a[..], i);
      assert a[..cnt] == a[..];
      DoSwap(a, 1, i, cnt);
      ghost var r := a[..];
      assert a[..cnt] == r;
      Heapify(a, 1, i - 1, compare);
      assert a[..i - 1] == a[..][..i - 1] && a[i - 1..] == a[..][i - 1..];
      SplitKept(compare, r, a[..], i - 1);
      i := i - 1;
    }
    AllSorted(compare, a[..], i);
  }

  /** The first loop of sort. */
  method BuildHeap<T(!new)>(a: array<T>, compare: (T, T) -> int)
    requires IsOrder(compare)
    modifies a
    ensures Heap(compare, a[..], 1, a.Length, 0) && multiset(a[..]) == multiset(old(a[..]))
  {
    hide IsOrder, Heap;
    var cnt := a.Length;
    var i := cnt / 2;
    LeavesAreHeaps(compare, a[..]);
    while i > 0
      invariant 0 <= i <= cnt / 2 && Heap(compare, a[..], i + 1, cnt, 0) && multiset(a[..]) == multiset(old(a[..]))
    {
      assert a[..cnt] == a[..];
      Heapify(a, i, cnt, compare);
      assert a[..cnt] == a[..];
      i := i - 1;
    }
  }

  lemma LeavesAreHeaps<T>(compare: (T, T) -> int, s: seq<T>)
    ensures Heap(compare, s, |s| / 2 + 1, |s|, 0)
  {
  }

  lemma NothingSorted<T>(compare: (T, T) -> int, s: seq<T>)
    ensures Sorted(compare, s[|s|..]) && Split(compare, s, |s|)
  {
  }

  /** Moving the root behind the rest of the heap. */
  lemma MaxOut<T(!new)>(compare: (T, T) -> int, s: seq<T>, i: nat)
    requires IsOrder(compare) && 1 < i <= |s| && Heap(compare, s, 1, i, 0)
    requires Sorted(compare, s[i..]) && Split(compare, s, i)
    ensures
      var r := Swapped(s, 1, i);
      Heap(compare, r, 2, i - 1, 0) && Sorted(compare, r[i - 1..]) && Split(compare, r, i - 1)
  {
    var r := Swapped(s, 1, i);
    forall c: nat | 2 <= c <= i - 1 && 2 <= c / 2
      ensures Below(compare, r, c)
    {
      assert Below(compare, s, c);
    }
    assert r[i - 1..] == [s[0]] + s[i..];
    forall k | 0 <= k < i
      ensures compare(s[k], s[0]) <= 0
    {
      RootIsMax(compare, s, i, k + 1);
    }
    assert s[0] in s[..i];
    forall x | x in r[..i - 1]
      ensures x in s[..i] && compare(x, s[0]) <= 0
    {
      var k :| 0 <= k < i - 1 && r[k] == x;
      assert x == s[if k == 0 then i - 1 else k];
    }
  }

  /** Rearranging the first part keeps it below the rest. */
  lemma SplitKept<T>(compare: (T, T) -> int, r: seq<T>, s: seq<T>, n: nat)
    requires n <= |r| == |s| && multiset(s[..n]) == multiset(r[..n]) && s[n..] == r[n..] && Split(compare, r, n)
    ensures Split(compare, s, n) && multiset(s) == multiset(r)
  {
    forall x | x in s[..n]
      ensures x in r[..n]
    {
      assert x in multiset(s[..n]);
    }
    assert s == s[..n] + s[n..] && r == r[..n] + r[n..];
  }

  lemma AllSorted<T>(compare: (T, T) -> int, s: seq<T>, i: nat)
    requires i <= 1 && i <= |s| && Sorted(compare, s[i..]) && Split(compare, s, i)
    ensures Sorted(compare, s)
  {
    forall j, k | 0 <= j < k < |s|
      ensures compare(s[j], s[k]) <= 0
    {
      if j < i {
        assert s[j] in s[..i] && s[k] in s[i..];
      } else {
        assert s[j] == s[i..][j - i] && s[k] == s[i..][k - i];
      }
    }
  }

  /** binary_search: an element that compares equal to the key, exactly when there is one. */
  method BinarySearch<T(!new)>(key: T, a: array<T>, compare: (T, T) -> int) returns (r: Option<nat>)
    requires IsOrder(compare) && Sorted(compare, a[..])
    ensures r.Some? ==> r.value < a.Length && compare(key, a[r.value]) == 0
    ensures r.None? ==> forall i :: 0 <= i < a.Length ==> compare(key, a[i]) != 0
  {
    var first, last := 0, a.Length;
    while first < last
      invariant 0 <= first <= last <= a.Length
      invariant forall i :: 0 <= i < first ==> compare(key, a[i]) > 0
      invariant forall i :: last <= i < a.Length ==> compare(key, a[i]) < 0
    {
      var middle := first + (last - first) / 2;
      var cmp := compare(key, a[middle]);
      if cmp < 0 {
        Beyond(key, a[..], compare, middle);
        last := middle;
      } else if cmp > 0 {
        Beyond(key, a[..], compare, middle);
        first := middle + 1;
      } else {
        return Some(middle);
      }
    }
    return None;
  }

  lemma Beyond<T(!new)>(key: T, s: seq<T>, compare: (T, T) -> int, m: nat)
    requires IsOrder(compare) && Sorted(compare, s) && m < |s|
    ensures compare(key, s[m]) < 0 ==> forall i :: m <= i < |s| ==> compare(key, s[i]) < 0
    ensures compare(key, s[m]) > 0 ==> forall i :: 0 <= i <= m ==> compare(key, s[i]) > 0
  {
    hide IsOrder;
    Flip(compare, s[m], key);
    forall i | m < i < |s| && compare(key, s[m]) < 0
      ensures compare(key, s[i]) < 0
    {
      Flip(compare, s[i], key);
      Chain(compare, s[m], s[i], key);
    }
    forall i | 0 <= i < m && compare(key, s[m]) > 0
      ensures compare(key, s[i]) > 0
    {
      Chain(compare, key, s[i], s[m]);
    }
  }
}
