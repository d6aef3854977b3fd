/** Doubly linked lists with a head and a tail element (src/lib/kernel/list.c), down to the
    `prev` and `next` pointers.

    The source's functions take pointers to elements; a ghost sequence says which elements, head
    and tail included, the list consists of. */
module Lists {
  import opened Merging
  import opened Sequences

  /** struct list_elem.  It is embedded in the structure that is listed, so an element stands for
      that structure and comparison functions compare elements. */
  class Elem {
    var prev: Elem?
    var next: Elem?

    constructor ()
      ensures prev == null && next == null
    {
      prev, next := null, null;
    }
  }

  ghost predicate Forward(c: seq<Elem>)
    reads c
  {
    forall i :: 0 <= i < |c| - 1 ==> c[i].next == c[i + 1]
  }

  ghost predicate Backward(c: seq<Elem>)
    reads c
  {
    forall i :: 0 < i < |c| ==> c[i].prev == c[i - 1]
  }

  /** The elements of `c` form a list: a head, interior elements and a tail. */
  ghost predicate IsList(c: seq<Elem>)
    reads c
  {
    |c| >= 2 && NoDup(c) && Forward(c) && Backward(c) && c[0].prev == null && c[|c| - 1].next == null
  }

  ghost function InsertAt(s: seq<Elem>, i: nat, e: Elem): (r: seq<Elem>)
    requires i <= |s|
    ensures |r| == |s| + 1
    ensures forall k :: 0 <= k < |r| ==> r[k] == (if k < i then s[k] else if k == i then e else s[k - 1])
  {
    s[..i] + [e] + s[i..]
  }

  ghost function RemoveAt(s: seq<Elem>, i: nat): (r: seq<Elem>)
    requires i < |s|
    ensures |r| == |s| - 1
    ensures forall k :: 0 <= k < |r| ==> r[k] == (if k < i then s[k] else s[k + 1])
  {
    s[..i] + s[i + 1..]
  }

  ghost function RemoveRange(s: seq<Elem>, i: nat, j: nat): (r: seq<Elem>)
    requires i <= j <= |s|
    ensures |r| == |s| - (j - i)
    ensures forall k :: 0 <= k < |r| ==> r[k] == (if k < i then s[k] else s[k + (j - i)])
  {
    s[..i] + s[j..]
  }

  ghost function InsertRange(s: seq<Elem>, p: nat, t: seq<Elem>): (r: seq<Elem>)
    requires p <= |s|
    ensures |r| == |s| + |t|
    ensures forall k :: 0 <= k < |r| ==> r[k] == (if k < p then s[k] else if k < p + |t| then t[k - p] else s[k - |t|])
  {
    s[..p] + t + s[p..]
  }

  ghost predicate Apart(c: seq<Elem>, d: seq<Elem>) {
    forall i, j :: 0 <= i < |c| && 0 <= j < |d| ==> c[i] != d[j]
  }

  /** list_init */
  method Init(head: Elem, tail: Elem)
    requires head != tail
    modifies head, tail
    ensures IsList([head, tail])
  {
    head.prev := null;
    head.next := tail;
    tail.prev := head;
    tail.next := null;
  }

  lemma {:induction false} ApartFrom(c: seq<Elem>, d: seq<Elem>, j: nat)
    requires Apart(c, d) && j < |d|
    ensures d[j] !in c && forall k :: 0 <= k < |c| ==> c[k] != d[j]
  {
  }

  lemma {:induction false} ApartFlip(c: seq<Elem>, d: seq<Elem>)
    requires Apart(c, d)
    ensures Apart(d, c)
  {
  }

  lemma {:induction false} RemoveRangeDistinct(c: seq<Elem>, i: nat, j: nat)
    requires NoDup(c) && i <= j <= |c|
    ensures NoDup(RemoveRange(c, i, j)) && NoDup(c[i..j]) && Apart(RemoveRange(c, i, j), c[i..j])
  {
  }

  lemma {:induction false} InsertRangeDistinct(d: seq<Elem>, p: nat, t: seq<Elem>)
    requires NoDup(d) && NoDup(t) && Apart(d, t) && p <= |d|
    ensures NoDup(InsertRange(d, p, t))
  {
  }

  lemma {:induction false} PartApart(c: seq<Elem>, d: seq<Elem>, i: nat, j: nat)
    requires Apart(c, d) && i <= j <= |c|
    ensures Apart(RemoveRange(c, i, j), d) && Apart(d, c[i..j])
    ensures forall k :: 0 <= k < |c| ==> c[k] !in d
  {
  }

  lemma {:induction false} NothingMoves(c: seq<Elem>, i: nat, d: seq<Elem>, p: nat)
    requires i <= |c| && p <= |d|
    ensures RemoveRange(c, i, i) == c && InsertRange(d, p, c[i..i]) == d
  {
  }

  /** list_prev */
  method Prev(elem: Elem, ghost c: seq<Elem>, ghost i: nat) returns (prev: Elem)
    requires IsList(c) && 1 <= i < |c| && elem == c[i]
    ensures prev == c[i - 1]
  {
    assert elem.prev == c[i - 1];
    prev := elem.prev;
  }

  /** list_next */
  method Next(elem: Elem, ghost c: seq<Elem>, ghost i: nat) returns (next: Elem)
    requires IsList(c) && 0 <= i < |c| - 1 && elem == c[i]
    ensures next == c[i + 1]
  {
    assert elem.next == c[i + 1];
    next := elem.next;
  }

  /** list_insert before the element at index `i`, an interior element or the tail. */
  method Insert(before: Elem, elem: Elem, ghost c: seq<Elem>, ghost i: nat)
    requires IsList(c) && 1 <= i < |c| && before == c[i] && elem !in c
    modifies c, elem
    ensures IsList(InsertAt(c, i, elem))
  {
    hide NoDup;
    InsertAtDistinct(c, i, elem);
    Others(c, i - 1);
    Others(c, i);
    assert before.prev == c[i - 1];
    elem.prev := before.prev;
    elem.next := before;
    before.prev.next := elem;
    before.prev := elem;
    ghost var r := InsertAt(c, i, elem);
    forall k | 0 <= k < |r| - 1
      ensures r[k].next == r[k + 1]
    {
      if k < i - 1 {
        assert c[k].next == c[k + 1];
      } else if i < k {
        assert c[k - 1].next == c[k];
      }
    }
    forall k | 0 < k < |r|
      ensures r[k].prev == r[k - 1]
    {
      if k < i {
        assert c[k].prev == c[k - 1];
      } else if i + 1 < k {
        assert c[k - 1].prev == c[k - 2];
      }
    }
  }

  lemma InsertAtDistinct(c: seq<Elem>, i: nat, elem: Elem)
    requires NoDup(c) && i <= |c| && elem !in c
    ensures NoDup(InsertAt(c, i, elem))
  {
  }

  /** list_remove of the interior element at index `i`; it returns the element that followed. */
  method Remove(elem: Elem, ghost c: seq<Elem>, ghost i: nat) returns (next: Elem)
    requires IsList(c) && 1 <= i < |c| - 1 && elem == c[i]
    modifies c
    ensures IsList(RemoveAt(c, i)) && next == c[i + 1]
  {
    assert elem.prev == c[i - 1] && elem.next == c[i + 1];
    elem.prev.next := elem.next;
    elem.next.prev := elem.prev;
    next := elem.next;
  }

  /** The first half of list_splice: `first` through `last`, at indices `i..j`, leave their list. */
  method Cut(first: Elem, last: Elem, ghost c: seq<Elem>, ghost i: nat, ghost j: nat)
    requires IsList(c) && 1 <= i < j < |c| && first == c[i] && last == c[j - 1]
    modifies c[i - 1], c[j]
    ensures IsList(RemoveRange(c, i, j))
    ensures forall k :: 0 <= k < j - i ==> c[i..j][k] == c[k + i]
    ensures NoDup(c[i..j]) && Forward(c[i..j]) && Backward(c[i..j]) && Apart(RemoveRange(c, i, j), c[i..j])
  {
    hide NoDup, Apart;
    RemoveRangeDistinct(c, i, j);
    Others(c, i - 1);
    Others(c, j);
    assert first.prev == c[i - 1] && last.next == c[j];
    first.prev.next := last.next;
    last.next.prev := first.prev;
    CutForward(c, i, j);
    CutBackward(c, i, j);
  }

  twostate lemma CutForward(c: seq<Elem>, new i: nat, new j: nat)
    requires 1 <= i < j < |c| && old(Forward(c)) && c[i - 1].next == c[j]
    requires forall k :: 0 <= k < |c| && k != i - 1 ==> c[k].next == old(c[k].next)
    ensures Forward(RemoveRange(c, i, j)) && Forward(c[i..j])
  {
    var r := RemoveRange(c, i, j);
    forall k | 0 <= k < |r| - 1
      ensures r[k].next == r[k + 1]
    {
      if k < i - 1 {
        assert c[k].next == c[k + 1];
      } else if i <= k {
        assert c[k + (j - i)].next == c[k + (j - i) + 1];
      }
    }
  }

  twostate lemma CutBackward(c: seq<Elem>, new i: nat, new j: nat)
    requires 1 <= i < j < |c| && old(Backward(c)) && c[j].prev == c[i - 1]
    requires forall k :: 0 <= k < |c| && k != j ==> c[k].prev == old(c[k].prev)
    ensures Backward(RemoveRange(c, i, j)) && Backward(c[i..j])
  {
    var r := RemoveRange(c, i, j);
    forall k | 0 < k < |r|
      ensures r[k].prev == r[k - 1]
    {
      if k < i {
        assert c[k].prev == c[k - 1];
      } else if i < k {
        assert c[k + (j - i)].prev == c[k + (j - i) - 1];
      }
    }
  }

  /** The second half of list_splice: the linked elements `t`, from `first` through `last`, enter a
      list before the element at index `p`. */
  method Paste(before: Elem, first: Elem, last: Elem, ghost d: seq<Elem>, ghost p: nat, ghost t: seq<Elem>)
    requires IsList(d) && 1 <= p < |d| && before == d[p]
    requires t != [] && first == t[0] && last == t[|t| - 1]
    requires NoDup(t) && Forward(t) && Backward(t) && Apart(d, t)
    modifies d[p - 1], d[p], t[0], t[|t| - 1]
    ensures IsList(InsertRange(d, p, t))
  {
    hide NoDup, Apart;
    InsertRangeDistinct(d, p, t);
    Others(d, p - 1);
    Others(d, p);
    Others(t, 0);
    Others(t, |t| - 1);
    ApartFrom(d, t, 0);
    ApartFrom(d, t, |t| - 1);
    ApartFlip(d, t);
    ApartFrom(t, d, p - 1);
    ApartFrom(t, d, p);
    assert before.prev == d[p - 1];
    first.prev := before.prev;
    last.next := before;
    before.prev.next := first;
    before.prev := last;
    ghost var r := InsertRange(d, p, t);
    forall k | 0 <= k < |r| - 1
      ensures r[k].next == r[k + 1]
    {
      if k < p - 1 {
        assert d[k].next == d[k + 1];
      } else if p <= k < p + |t| - 1 {
        assert t[k - p].next == t[k - p + 1];
      } else if p + |t| <= k {
        assert d[k - |t|].next == d[k - |t| + 1];
      }
    }
    forall k | 0 < k < |r|
      ensures r[k].prev == r[k - 1]
    {
      if k < p {
        assert d[k].prev == d[k - 1];
      } else if p < k < p + |t| {
        assert t[k - p].prev == t[k - p - 1];
      } else if p + |t| < k {
        assert d[k - |t|].prev == d[k - |t| - 1];
      }
    }
  }

  /** list_splice: elements `i..j` of list `c`, from `first` up to but not including `last`, move to
      just before `before`, which is at index `p` of list `d`.  `d` is another list, or what the
      elements leave behind of `c`. */
  method Splice(before: Elem, first: Elem, last: Elem, ghost c: seq<Elem>, ghost i: nat, ghost j: nat,
                ghost d: seq<Elem>, ghost p: nat)
    requires IsList(c) && 1 <= i <= j < |c| && first == c[i] && last == c[j]
    requires d == RemoveRange(c, i, j) || (IsList(d) && Apart(c, d))
    requires 1 <= p < |d| && before == d[p]
    modifies c, d
    ensures IsList(InsertRange(d, p, c[i..j]))
    ensures d != RemoveRange(c, i, j) ==> IsList(RemoveRange(c, i, j))
  {
    hide NoDup, Forward, Backward, Apart, InsertRange, IsList, RemoveRange;
    if first == last {
      SameElem(c, i, j);
      NothingMoves(c, i, d, p);
      return;
    }
    var end := Prev(last, c, j);
    ghost var rest := RemoveRange(c, i, j);
    Cut(first, end, c, i, j);
    if d != rest {
      PartApart(c, d, i, j);
      ApartFlip(c, d);
      ApartFrom(d, c, i - 1);
      ApartFrom(d, c, j);
      StillList(d);
    }
    label Between:
    Paste(before, first, end, d, p, c[i..j]);
    if d != rest {
      ApartFrom(rest, d, p - 1);
      ApartFrom(rest, d, p);
      ApartFrom(rest, c[i..j], 0);
      ApartFrom(rest, c[i..j], j - i - 1);
      StillList@Between(rest);
    }
  }

  /** A list none of whose elements is touched. */
  twostate lemma StillList(c: seq<Elem>)
    requires old(IsList(c)) && forall k :: 0 <= k < |c| ==> unchanged(c[k])
    ensures IsList(c)
  {
  }

  // ----- Sorting -----

  lemma {:induction false} RisingAt<T>(less: (T, T) -> bool, s: seq<T>, n: nat)
    requires n <= |s| && Rising(less, s[..n])
    ensures forall i :: 0 < i < n ==> !less(s[i], s[i - 1])
  {
    forall i | 0 < i < n
      ensures !less(s[i], s[i - 1])
    {
      assert !less(s[..n][i], s[..n][i - 1]);
    }
  }

  lemma {:induction false} RunLenIs<T>(less: (T, T) -> bool, s: seq<T>, n: nat)
    requires 0 < n <= |s| && Rising(less, s[..n]) && (n < |s| ==> less(s[n], s[n - 1]))
    ensures n == RunLen(less, s)
  {
    hide Rising, RunLen;
    RunLenRises(less, s);
    RisingAt(less, s, n);
    RisingAt(less, s, RunLen(less, s));
  }

  /** find_end_of_run, from the element at index `i` to the one at index `j` (exclusive). */
  method FindEndOfRun(a: Elem, b: Elem, less: (Elem, Elem) -> bool, ghost c: seq<Elem>, ghost i: nat, ghost j: nat)
    returns (e: Elem, ghost m: nat)
    requires IsList(c) && 1 <= i < j < |c| && a == c[i] && b == c[j]
    ensures i < m <= j && e == c[m] && m == i + RunLen(less, c[i..j])
  {
    hide Forward, Backward;
    e, m := a, i;
    var more := true;
    while more
      invariant i <= m <= j && e == c[m] && (m == i ==> more) && (more ==> m < j)
      invariant Rising(less, c[i..j][..m - i + if more then 1 else 0])
      invariant !more && m < j ==> less(c[m], c[m - 1])
      decreases j - m, more
    {
      e := Next(e, c, m);
      m := m + 1;
      if e == b {
        SameElem(c, m, j);
        more := false;
      } else {
        var prev := Prev(e, c, m);
        more := !less(e, prev);
      }
    }
    RunLenIs(less, c[i..j], m - i);
  }

  /** `c` with the two ranges `p..m` and `m..j` merged. */
  ghost function Merged(less: (Elem, Elem) -> bool, c: seq<Elem>, p: nat, m: nat, j: nat): (r: seq<Elem>)
    requires p <= m <= j <= |c|
    ensures |r| == |c|
  {
    c[..p] + Merge(less, c[p..m], c[m..j]) + c[j..]
  }

  /** What inplace_merge has still to do when the first `q` elements are in place. */
  ghost predicate MergeRest(less: (Elem, Elem) -> bool, c: seq<Elem>, p: nat, q: nat, k: nat, j: nat, goal: seq<Elem>)
    requires p <= q <= k <= j <= |c|
  {
    c[p..q] + Merge(less, c[q..k], c[k..j]) == goal
  }

  lemma {:induction false} MergeFirst(less: (Elem, Elem) -> bool, a: seq<Elem>, b: seq<Elem>)
    requires a != [] && b != [] && !less(b[0], a[0])
    ensures Merge(less, a, b) == [a[0]] + Merge(less, a[1..], b)
  {
  }

  lemma {:induction false} MergeSecond(less: (Elem, Elem) -> bool, a: seq<Elem>, b: seq<Elem>)
    requires a != [] && b != [] && less(b[0], a[0])
    ensures Merge(less, a, b) == [b[0]] + Merge(less, a, b[1..])
  {
  }

  lemma {:induction false} MergeEmpty(less: (Elem, Elem) -> bool, a: seq<Elem>, b: seq<Elem>)
    requires a == [] || b == []
    ensures Merge(less, a, b) == a + b
  {
  }

  lemma {:induction false} TakeFirst(less: (Elem, Elem) -> bool, c: seq<Elem>, p: nat, q: nat, k: nat, j: nat,
      goal: seq<Elem>)
    requires p <= q < k < j <= |c| && MergeRest(less, c, p, q, k, j, goal) && !less(c[k], c[q])
    ensures MergeRest(less, c, p, q + 1, k, j, goal)
  {
    hide Merge;
    var a, b := c[q..k], c[k..j];
    assert a[1..] == c[q + 1..k] && a[0] == c[q] && b[0] == c[k];
    MergeFirst(less, a, b);
    assert c[p..q + 1] == c[p..q] + [c[q]];
  }

  /** The element at `k` moved to before the one at `q`. */
  ghost function MoveTo(c: seq<Elem>, k: nat, q: nat): (r: seq<Elem>)
    requires q <= k < |c|
    ensures |r| == |c|
  {
    c[..q] + [c[k]] + c[q..k] + c[k + 1..]
  }

  lemma {:induction false} TakeSecond(less: (Elem, Elem) -> bool, c: seq<Elem>, p: nat, q: nat, k: nat, j: nat,
      goal: seq<Elem>)
    requires p <= q < k < j <= |c| && MergeRest(less, c, p, q, k, j, goal) && less(c[k], c[q])
    ensures MergeRest(less, MoveTo(c, k, q), p, q + 1, k + 1, j, goal)
    ensures MoveTo(c, k, q)[..p] == c[..p] && MoveTo(c, k, q)[j..] == c[j..]
  {
    hide Merge, MoveTo;
    var a, b := c[q..k], c[k..j];
    assert a[0] == c[q] && b[0] == c[k] && b[1..] == c[k + 1..j];
    MergeSecond(less, a, b);
    MoveToParts(c, p, q, k, j);
  }

  lemma {:induction false} MoveToParts(c: seq<Elem>, p: nat, q: nat, k: nat, j: nat)
    requires p <= q < k < j <= |c|
    ensures var r := MoveTo(c, k, q);
            && r[..p] == c[..p] && r[p..q + 1] == c[p..q] + [c[k]] && r[q + 1..k + 1] == c[q..k]
            && r[k + 1..j] == c[k + 1..j] && r[j..] == c[j..]
  {
  }

  lemma {:induction false} Moved(c: seq<Elem>, k: nat, q: nat)
    requires q < k < |c|
    ensures var r := MoveTo(c, k, q);
            && r == InsertRange(RemoveRange(c, k, k + 1), q, c[k..k + 1])
            && r[q + 1] == c[q] && RemoveRange(c, k, k + 1)[q] == c[q]
            && (forall i :: k < i < |r| ==> r[i] == c[i])
            && (forall i :: 0 <= i < |r| ==> r[i] in c)
            && (forall e :: e in RemoveRange(c, k, k + 1) ==> e in c)
  {
  }

  /** Where inplace_merge of the ranges `p..m` and `m..j` of `c` is: the list is `r`, `p..q` is in
      place, and `q..k` and `k..j` are still to be merged. */
  ghost predicate MergeAt(
    less: (Elem, Elem) -> bool, c: seq<Elem>, p: nat, m: nat, j: nat, r: seq<Elem>, q: nat, k: nat)
    requires p <= m <= j <= |c|
  {
    && |r| == |c| && p <= q <= k <= j && r[..p] == c[..p] && r[j..] == c[j..]
    && MergeRest(less, r, p, q, k, j, Merge(less, c[p..m], c[m..j]))
    && (forall i :: 0 <= i < |r| ==> r[i] in c)
  }

  lemma MergeAtFirst(
    less: (Elem, Elem) -> bool, c: seq<Elem>, p: nat, m: nat, j: nat, r: seq<Elem>, q: nat, k: nat)
    requires p <= m <= j < |c| && MergeAt(less, c, p, m, j, r, q, k) && q < k < j && !less(r[k], r[q])
    ensures MergeAt(less, c, p, m, j, r, q + 1, k)
  {
    hide MergeRest, Merge;
    TakeFirst(less, r, p, q, k, j, Merge(less, c[p..m], c[m..j]));
  }

  lemma MergeAtSecond(
    less: (Elem, Elem) -> bool, c: seq<Elem>, p: nat, m: nat, j: nat, r: seq<Elem>, q: nat, k: nat)
    requires p <= m <= j < |c| && MergeAt(less, c, p, m, j, r, q, k) && q < k < j && less(r[k], r[q])
    ensures MergeAt(less, c, p, m, j, MoveTo(r, k, q), q + 1, k + 1)
    ensures MoveTo(r, k, q)[q + 1] == r[q] && MoveTo(r, k, q)[k + 1] == r[k + 1] && MoveTo(r, k, q)[j] == r[j]
  {
    hide MergeRest, Merge, MoveTo;
    TakeSecond(less, r, p, q, k, j, Merge(less, c[p..m], c[m..j]));
    Moved(r, k, q);
  }

  lemma {:induction false} MergeStart(less: (Elem, Elem) -> bool, c: seq<Elem>, p: nat, m: nat, j: nat)
    requires p <= m <= j <= |c|
    ensures MergeRest(less, c, p, p, m, j, Merge(less, c[p..m], c[m..j]))
  {
    assert c[p..p] == [];
  }

  /** Once a range is exhausted the other one is already in place. */
  lemma {:induction false} MergeEnd(less: (Elem, Elem) -> bool, r: seq<Elem>, c: seq<Elem>, p: nat, m: nat, q: nat,
      k: nat, j: nat)
    requires |r| == |c| && p <= q <= k <= j <= |c| && p <= m <= j && (q == k || k == j)
    requires MergeRest(less, r, p, q, k, j, Merge(less, c[p..m], c[m..j]))
    requires r[..p] == c[..p] && r[j..] == c[j..]
    ensures r == Merged(less, c, p, m, j)
  {
    hide Merge;
    MergeEmpty(less, r[q..k], r[k..j]);
    assert r[q..k] + r[k..j] == r[q..j];
    assert r[p..q] + r[q..j] == r[p..j];
    assert r == r[..p] + r[p..j] + r[j..];
  }

  lemma StartMerge(less: (Elem, Elem) -> bool, c: seq<Elem>, p: nat, m: nat, j: nat)
    requires p <= m <= j <= |c|
    ensures MergeAt(less, c, p, m, j, c, p, m)
  {
    hide MergeRest, Merge;
    MergeStart(less, c, p, m, j);
  }

  lemma MergeMembers(
    less: (Elem, Elem) -> bool, c: seq<Elem>, p: nat, m: nat, j: nat, r: seq<Elem>, q: nat, k: nat)
    requires p <= m <= j <= |c| && MergeAt(less, c, p, m, j, r, q, k)
    ensures forall i :: 0 <= i < |r| ==> r[i] in c
  {
  }

  lemma FinishMerge(
    less: (Elem, Elem) -> bool, c: seq<Elem>, p: nat, m: nat, j: nat, r: seq<Elem>, q: nat, k: nat)
    requires p <= m <= j <= |c| && MergeAt(less, c, p, m, j, r, q, k) && (q == k || k == j)
    ensures r == Merged(less, c, p, m, j)
  {
    hide MergeRest, Merge, Merged;
    MergeEnd(less, r, c, p, m, q, k, j);
  }

  lemma {:induction false} SameElem(c: seq<Elem>, i: nat, j: nat)
    requires IsList(c) && i < |c| && j < |c|
    ensures c[i] == c[j] <==> i == j
  {
  }

  /** The second branch of inplace_merge: the element at `k` moves before the one at `q`. */
  method MoveBefore(before: Elem, elem: Elem, ghost c: seq<Elem>, ghost q: nat, ghost k: nat) returns (next: Elem)
    requires IsList(c) && 1 <= q < k < |c| - 1 && before == c[q] && elem == c[k]
    modifies c
    ensures IsList(MoveTo(c, k, q)) && next == c[k + 1]
  {
    hide IsList, MoveTo, RemoveRange, InsertRange;
    Moved(c, k, q);
    next := Next(elem, c, k);
    var prev := Prev(next, c, k + 1);
    ghost var d := RemoveRange(c, k, k + 1);
    assert forall i :: 0 <= i < |d| ==> d[i] in c;
    Splice(before, prev, next, c, k, k + 1, d, q);
  }

  /** inplace_merge of the ranges `p..m` and `m..j`. */
  method InplaceMerge(a: Elem, ab: Elem, b1: Elem, less: (Elem, Elem) -> bool,
                      ghost c: seq<Elem>, ghost p: nat, ghost m: nat, ghost j: nat)
    returns (ghost r: seq<Elem>)
    requires IsList(c) && 1 <= p < m < j < |c| && a == c[p] && ab == c[m] && b1 == c[j]
    requires Rising(less, c[p..m]) && Rising(less, c[m..j])
    modifies c
    ensures r == Merged(less, c, p, m, j) && IsList(r)
    ensures forall i :: 0 <= i < |r| ==> r[i] in c
  {
    hide IsList, MergeRest, Merge, MoveTo, RemoveRange, InsertRange, Merged, Rising, MergeAt;
    var a0, a1b0 := a, ab;
    ghost var q, k := p, m;
    r := c;
    StartMerge(less, c, p, m, j);
    while a0 != a1b0 && a1b0 != b1
      invariant IsList(r) && |r| == |c| && p <= q <= k <= j
      invariant a0 == r[q] && a1b0 == r[k] && b1 == r[j]
      invariant MergeAt(less, c, p, m, j, r, q, k)
      decreases j - k, k - q
    {
      SameElem(r, q, k);
      SameElem(r, k, j);
      MergeMembers(less, c, p, m, j, r, q, k);
      if !less(a1b0, a0) {
        MergeAtFirst(less, c, p, m, j, r, q, k);
        a0 := Next(a0, r, q);
        q := q + 1;
      } else {
        MergeAtSecond(less, c, p, m, j, r, q, k);
        a1b0 := MoveBefore(a0, a1b0, r, q, k);
        r, q, k := MoveTo(r, k, q), q + 1, k + 1;
      }
    }
    SameElem(r, q, k);
    SameElem(r, k, j);
    MergeMembers(less, c, p, m, j, r, q, k);
    FinishMerge(less, c, p, m, j, r, q, k);
  }

  ghost function Interior(c: seq<Elem>): seq<Elem>
    requires |c| >= 2
  {
    c[1..|c| - 1]
  }

  /** What a pass of list_sort has still to do from index `p` on. */
  ghost predicate PassRest(less: (Elem, Elem) -> bool, r: seq<Elem>, p: nat, cnt: nat, c: seq<Elem>)
    requires 1 <= p < |r| == |c|
  {
    var n := |c| - 1;
    && r[0] == c[0] && r[n] == c[n]
    && r[1..p] + Pass(less, r[p..n]) == Pass(less, Interior(c))
    && cnt + PassCnt(less, r[p..n]) == PassCnt(less, Interior(c))
  }

  lemma {:induction false} OneRunLeft(less: (Elem, Elem) -> bool, r: seq<Elem>, p: nat, cnt: nat, c: seq<Elem>)
    requires 1 <= p < |r| - 1 && |r| == |c| && PassRest(less, r, p, cnt, c)
    requires p + RunLen(less, r[p..|r| - 1]) == |r| - 1
    ensures PassRest(less, r, |r| - 1, cnt + 1, c)
  {
    hide RunLen, Rising, Merge;
    var n := |r| - 1;
    assert r[1..n] == r[1..p] + r[p..n];
    assert r[n..n] == [];
  }

  lemma {:induction false} TwoRunsMerged(less: (Elem, Elem) -> bool, r: seq<Elem>, p: nat, m: nat, j: nat, cnt: nat,
      c: seq<Elem>)
    requires 1 <= p < m < j < |r| && |r| == |c| && PassRest(less, r, p, cnt, c)
    requires m == p + RunLen(less, r[p..|r| - 1]) && j == m + RunLen(less, r[m..|r| - 1])
    ensures PassRest(less, Merged(less, r, p, m, j), j, cnt + 1, c)
    ensures Rising(less, r[p..m]) && Rising(less, r[m..j])
  {
    hide Merge, RunLen, Pass, PassCnt, Rising, Merged;
    var n := |r| - 1;
    var s := r[p..n];
    assert s[m - p..] == r[m..n];
    PassSplits(less, s, m - p, j - p);
    PassCntSplits(less, s, m - p, j - p);
    RunsRise(less, s, m - p, j - p);
    assert s[..m - p] == r[p..m] && s[m - p..j - p] == r[m..j] && s[j - p..] == r[j..n];
    MergedAt(less, r, p, m, j);
  }

  lemma {:induction false} MergedAt(less: (Elem, Elem) -> bool, r: seq<Elem>, p: nat, m: nat, j: nat)
    requires 1 <= p <= m <= j < |r|
    ensures var t, n := Merged(less, r, p, m, j), |r| - 1;
            && t[0] == r[0] && t[n] == r[n] && t[j..n] == r[j..n]
            && t[1..j] == r[1..p] + Merge(less, r[p..m], r[m..j])
  {
    hide Merge;
  }

  lemma {:induction false} HasEnds(c: seq<Elem>)
    requires IsList(c)
    ensures |c| >= 2
  {
  }

  lemma {:induction false} PassStart(less: (Elem, Elem) -> bool, c: seq<Elem>)
    requires |c| >= 2
    ensures PassRest(less, c, 1, 0, c)
  {
  }

  lemma {:induction false} PassEnd(less: (Elem, Elem) -> bool, r: seq<Elem>, cnt: nat, c: seq<Elem>)
    requires |r| == |c| >= 2 && PassRest(less, r, |r| - 1, cnt, c)
    ensures Interior(r) == Pass(less, Interior(c)) && cnt == PassCnt(less, Interior(c))
    ensures r[0] == c[0] && r[|r| - 1] == c[|r| - 1]
  {
    assert r[|r| - 1..|r| - 1] == [];
  }

  lemma {:induction false} MergedEnds(less: (Elem, Elem) -> bool, c: seq<Elem>, p: nat, m: nat, j: nat)
    requires 1 <= p <= m <= j < |c|
    ensures var r := Merged(less, c, p, m, j); r[0] == c[0] && r[j] == c[j] && r[|c| - 1] == c[|c| - 1]
  {
  }

  /** One pass of list_sort over the list with head `head` and tail `tail`. */
  method SortPass(head: Elem, tail: Elem, less: (Elem, Elem) -> bool, ghost c: seq<Elem>)
    returns (cnt: nat, ghost r: seq<Elem>)
    requires IsList(c) && head == c[0] && tail == c[|c| - 1]
    modifies c
    ensures IsList(r) && |r| == |c| && r[0] == head && r[|r| - 1] == tail
    ensures Interior(r) == Pass(less, Interior(c)) && cnt == PassCnt(less, Interior(c))
    ensures forall i :: 0 <= i < |r| ==> r[i] in c
  {
    hide IsList, PassRest, Pass, PassCnt, Merged, Rising, RunLen;
    HasEnds(c);
    r, cnt := c, 0;
    ghost var p, n := 1, |c| - 1;
    var a0 := Next(head, c, 0);
    PassStart(less, c);
    SameElem(r, p, n);
    while a0 != tail
      invariant IsList(r) && |r| == |c| && 1 <= p <= n
      invariant a0 == r[p] && r[0] == head && r[n] == tail
      invariant PassRest(less, r, p, cnt, c)
      invariant a0 != tail ==> p < n
      invariant forall i :: 0 <= i < |r| ==> r[i] in c
      decreases n - p
    {
      ghost var m, j;
      var a1b0, b1;
      a1b0, m := FindEndOfRun(a0, tail, less, r, p, n);
      SameElem(r, m, n);
      if a1b0 == tail {
        OneRunLeft(less, r, p, cnt, c);
        p, cnt := n, cnt + 1;
        break;
      }
      b1, j := FindEndOfRun(a1b0, tail, less, r, m, n);
      TwoRunsMerged(less, r, p, m, j, cnt, c);
      ghost var q := r;
      r := InplaceMerge(a0, a1b0, b1, less, r, p, m, j);
      MergedEnds(less, q, p, m, j);
      SameElem(r, j, n);
      a0, p, cnt := b1, j, cnt + 1;
    }
    SameElem(r, p, n);
    PassEnd(less, r, cnt, c);
  }

  /** list_sort of the list with head `head` and tail `tail`: passes until one outputs a single run.
      The result is a list of the same elements, in order, with equivalent elements in the order
      they had. */
  method Sort(head: Elem, tail: Elem, less: (Elem, Elem) -> bool, ghost c: seq<Elem>) returns (ghost r: seq<Elem>)
    requires IsList(c) && head == c[0] && tail == c[|c| - 1]
    requires WeakOrderOn(less, Interior(c))
    modifies c
    ensures IsList(r) && r[0] == head && r[|r| - 1] == tail
    ensures StablySorted(less, Interior(c), Interior(r))
  {
    hide IsList, Pass, PassCnt, Runs, Sorted, Peers, WeakOrderOn;
    HasEnds(c);
    ghost var was := Interior(c);
    r := c;
    var more := true;
    while more
      invariant IsList(r) && |r| == |c| && r[0] == head && r[|r| - 1] == tail
      invariant forall i :: 0 <= i < |r| ==> r[i] in c
      invariant multiset(Interior(r)) == multiset(was)
      invariant forall x :: x in was ==> Peers(less, x, Interior(r)) == Peers(less, x, was)
      invariant more || Sorted(less, Interior(r))
      decreases more, Runs(less, Interior(r))
    {
      SameElementsOrder(less, was, Interior(r));
      PassKeeps(less, was, Interior(r));
      ghost var s := Interior(r);
      var cnt;
      cnt, r := SortPass(head, tail, less, r);
      more := cnt > 1;
      if more {
        PassShrinks(less, s);
      } else {
        LastPass(less, s);
      }
    }
  }

  /** list_insert_ordered into a sorted list: the new element goes after every element that it does
      not come before. */
  method InsertOrdered(head: Elem, tail: Elem, elem: Elem, less: (Elem, Elem) -> bool, ghost c: seq<Elem>)
    returns (ghost i: nat)
    requires IsList(c) && head == c[0] && tail == c[|c| - 1] && elem !in c
    requires WeakOrderOn(less, Interior(c) + [elem]) && Sorted(less, Interior(c))
    modifies c, elem
    ensures 1 <= i < |c| && IsList(InsertAt(c, i, elem))
    ensures Sorted(less, Interior(InsertAt(c, i, elem)))
    ensures forall k :: 1 <= k < i ==> !less(elem, c[k])
    ensures forall k :: i <= k < |c| - 1 ==> less(elem, c[k])
  {
    hide IsList, WeakOrderOn, Sorted;
    HasEnds(c);
    i := 1;
    var e := Next(head, c, 0);
    while e != tail
      invariant IsList(c) && 1 <= i < |c| && e == c[i]
      invariant forall k :: 1 <= k < i ==> !less(elem, c[k])
      decreases |c| - i
    {
      SameElem(c, i, |c| - 1);
      if less(elem, e) {
        break;
      }
      e := Next(e, c, i);
      i := i + 1;
    }
    SameElem(c, i, |c| - 1);
    SortedPlace(less, c, elem, i);
    Insert(e, elem, c, i);
  }

  lemma {:induction false} SortedPlace(less: (Elem, Elem) -> bool, c: seq<Elem>, elem: Elem, i: nat)
    requires 1 <= i < |c|
    requires WeakOrderOn(less, Interior(c) + [elem]) && Sorted(less, Interior(c))
    requires forall k :: 1 <= k < i ==> !less(elem, c[k])
    requires i < |c| - 1 ==> less(elem, c[i])
    ensures forall k :: i <= k < |c| - 1 ==> less(elem, c[k])
    ensures Sorted(less, Interior(InsertAt(c, i, elem)))
  {
    var s := Interior(c);
    forall k | i <= k < |c| - 1
      ensures less(elem, c[k])
    {
      assert s[k - 1] == c[k] && s[i - 1] == c[i];
      assert c[k] in s + [elem] && c[i] in s + [elem] && elem in s + [elem];
      assert k == i || !less(c[k], c[i]);
    }
    InteriorInsert(c, i, elem);
    SortedInsert(less, s, elem, i - 1);
  }

  lemma {:induction false} InteriorInsert(c: seq<Elem>, i: nat, elem: Elem)
    requires 1 <= i < |c|
    ensures Interior(InsertAt(c, i, elem)) == Interior(c)[..i - 1] + [elem] + Interior(c)[i - 1..]
  {
    var s, t := Interior(c), Interior(InsertAt(c, i, elem));
    forall k | 0 <= k < |t|
      ensures t[k] == (s[..i - 1] + [elem] + s[i - 1..])[k]
    {
      assert t[k] == InsertAt(c, i, elem)[k + 1];
    }
  }

  lemma {:induction false} SortedInsert(less: (Elem, Elem) -> bool, s: seq<Elem>, elem: Elem, n: nat)
    requires n <= |s| && WeakOrderOn(less, s + [elem]) && Sorted(less, s)
    requires forall k :: 0 <= k < n ==> !less(elem, s[k])
    requires forall k :: n <= k < |s| ==> less(elem, s[k])
    ensures Sorted(less, s[..n] + [elem] + s[n..])
  {
    var t := s[..n] + [elem] + s[n..];
    forall k | n <= k < |s|
      ensures !less(s[k], elem)
    {
      assert elem in s + [elem] && s[k] in s + [elem];
    }
    hide WeakOrderOn;
    forall a, b | 0 <= a < b < |t|
      ensures !less(t[b], t[a])
    {
      assert t[a] == (if a < n then s[a] else if a == n then elem else s[a - 1]);
      assert t[b] == (if b < n then s[b] else if b == n then elem else s[b - 1]);
    }
  }

  /** Interior elements with their links swapped, below index `m`; the others as in a list. */
  ghost predicate SwappedBelow(c: seq<Elem>, m: nat)
    reads c
  {
    && |c| >= 2 && 1 <= m <= |c| - 1
    && (forall k :: 1 <= k < m ==> c[k].next == c[k - 1])
    && (forall k :: 1 <= k < m ==> c[k].prev == c[k + 1])
    && (forall k :: m <= k < |c| - 1 ==> c[k].next == c[k + 1])
    && (forall k :: m <= k < |c| - 1 ==> c[k].prev == c[k - 1])
    && c[0].next == c[1] && c[0].prev == null && c[|c| - 1].prev == c[|c| - 2] && c[|c| - 1].next == null
  }

  /** One round of list_reverse, for the element at index `m`. */
  method SwapOne(e: Elem, ghost c: seq<Elem>, ghost m: nat)
    requires NoDup(c) && SwappedBelow(c, m) && m < |c| - 1 && e == c[m]
    modifies e
    ensures SwappedBelow(c, m + 1) && e.prev == c[m + 1]
  {
    hide NoDup;
    Others(c, m);
    var t := e.prev;
    e.prev := e.next;
    e.next := t;
  }

  /** The loop of list_reverse. */
  method SwapLinks(head: Elem, tail: Elem, ghost c: seq<Elem>)
    requires IsList(c) && head == c[0] && tail == c[|c| - 1]
    modifies c
    ensures SwappedBelow(c, |c| - 1)
  {
    hide NoDup, SwappedBelow;
    ghost var n: nat := |c| - 1;
    var e := Next(head, c, 0);
    NoneSwapped(c);
    ghost var m: nat := 1;
    SamePlaceIff(c, m, n);
    while e != tail
      invariant SwappedBelow(c, m) && m <= n && e == c[m]
      invariant e != tail ==> m < n
      decreases n - m
    {
      SwapOne(e, c, m);
      e := e.prev;
      m := m + 1;
      SamePlaceIff(c, m, n);
    }
    SamePlaceIff(c, m, n);
  }

  lemma NoneSwapped(c: seq<Elem>)
    requires IsList(c)
    ensures SwappedBelow(c, 1)
  {
    hide NoDup;
  }

  /** list_reverse: the interior elements in the opposite order. */
  method Reverse(head: Elem, tail: Elem, ghost c: seq<Elem>) returns (ghost r: seq<Elem>)
    requires IsList(c) && head == c[0] && tail == c[|c| - 1]
    modifies c
    ensures IsList(r) && |r| == |c| && r[0] == head && r[|r| - 1] == tail
    ensures forall k :: 1 <= k < |c| - 1 ==> r[k] == c[|c| - 1 - k]
  {
    hide NoDup;
    ghost var n: nat := |c| - 1;
    r := seq(|c|, k requires 0 <= k < |c| => if 1 <= k < n then c[n - k] else c[k]);
    ReversedDistinct(c, r);
    SamePlaceIff(c, 1, n);
    var begin := Next(head, c, 0);
    if begin == tail {
      assert r == c;
      return;
    }
    SwapLinks(head, tail, c);
    SwapEnds(head, tail, c);
    forall k | 0 <= k < n
      ensures r[k].next == r[k + 1]
    {
      if 1 <= k < n - 1 { assert c[n - k].next == c[n - k - 1]; }
    }
    forall k | 0 < k <= n
      ensures r[k].prev == r[k - 1]
    {
      if 1 < k < n { assert c[n - k].prev == c[n - k + 1]; }
    }
  }

  /** The last two statements of list_reverse. */
  method SwapEnds(head: Elem, tail: Elem, ghost c: seq<Elem>)
    requires |c| >= 3 && NoDup(c) && SwappedBelow(c, |c| - 1) && head == c[0] && tail == c[|c| - 1]
    modifies c
    ensures var n := |c| - 1;
            && (forall k :: 2 <= k < n ==> c[k].next == c[k - 1])
            && (forall k :: 1 <= k < n - 1 ==> c[k].prev == c[k + 1])
            && c[1].next == c[n] && c[n - 1].prev == c[0]
            && c[0].next == c[n - 1] && c[0].prev == null && c[n].prev == c[1] && c[n].next == null
  {
    hide NoDup;
    ghost var n: nat := |c| - 1;
    Others(c, 0);
    Others(c, n);
    Others(c, 1);
    Others(c, n - 1);
    var first, last := head.next, tail.prev;
    head.next, tail.prev := last, first;
    var u, v := last.prev, first.next;
    last.prev := v;
    first.next := u;
  }

  lemma {:induction false} SamePlaceIff(c: seq<Elem>, i: nat, j: nat)
    requires NoDup(c) && i < |c| && j < |c|
    ensures c[i] == c[j] <==> i == j
  {
  }

  lemma {:induction false} ReversedDistinct(c: seq<Elem>, r: seq<Elem>)
    requires NoDup(c) && |r| == |c|
    requires forall k {:trigger r[k]} :: 0 <= k < |c| ==> r[k] == (if 1 <= k < |c| - 1 then c[|c| - 1 - k] else c[k])
    ensures NoDup(r)
  {
    forall i, j | 0 <= i < j < |r|
      ensures r[i] != r[j]
    {
      var n := |c| - 1;
      var a, b := (if 1 <= i < n then n - i else i), (if 1 <= j < n then n - j else j);
      assert r[i] == c[a] && r[j] == c[b];
      SamePlaceIff(c, a, b);
    }
  }
}
