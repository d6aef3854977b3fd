/** Sequences without duplicates, as which the kernel's lists appear, and sizes of sets. */
module Sequences {
  ghost predicate NoDup<T>(s: seq<T>) {
    forall i, j :: 0 <= i < j < |s| ==> s[i] != s[j]
  }

  /** list_remove of `x`. */
  function Without<T(==)>(s: seq<T>, x: T): seq<T> {
    if s == [] then [] else if s[0] == x then s[1..] else [s[0]] + Without(s[1..], x)
  }

  lemma {:induction false} WithoutAbsent<T>(s: seq<T>, x: T)
    requires x !in s
    ensures Without(s, x) == s
  {
    if s != [] { WithoutAbsent(s[1..], x); }
  }

  lemma {:induction false} WithoutIs<T>(s: seq<T>, x: T)
    requires NoDup(s)
    ensures NoDup(Without(s, x)) && (forall y :: y in Without(s, x) ==> y in s && y != x)
    ensures forall y :: y in s && y != x ==> y in Without(s, x)
  {
    if s != [] {
      assert s == [s[0]] + s[1..] && s[0] !in s[1..];
      if s[0] != x { WithoutIs(s[1..], x); }
    }
  }

  lemma PushIs<T>(s: seq<T>, x: T)
    requires NoDup(s) && x !in s
    ensures NoDup(s + [x]) && (forall y :: y in s + [x] ==> y in s || y == x)
    ensures forall y :: y in s || y == x ==> y in s + [x]
  {
  }

  lemma Others<T>(s: seq<T>, i: nat)
    requires NoDup(s) && i < |s|
    ensures forall k :: 0 <= k < |s| && k != i ==> s[k] != s[i]
  {
  }

  /** Where list_insert_ordered by descending `key` puts `x`: before the first with a lower key. */
  function Place<T>(s: seq<T>, key: T -> int, x: T): (i: nat)
    ensures i <= |s| && (forall k :: 0 <= k < i ==> key(s[k]) >= key(x)) && (i < |s| ==> key(s[i]) < key(x))
  {
    if s == [] || key(x) > key(s[0]) then 0 else 1 + Place(s[1..], key, x)
  }

  ghost function Elements<T>(s: seq<T>): set<T> {
    set x | x in s
  }

  lemma {:induction false} SeqSize<T>(s: seq<T>)
    requires NoDup(s)
    ensures |Elements(s)| == |s|
  {
    if s == [] {
      assert Elements(s) == {};
    } else {
      SeqSize(s[1..]);
      assert s[0] !in s[1..];
      assert s == [s[0]] + s[1..];
      assert Elements(s) == {s[0]} + Elements(s[1..]);
    }
  }

  lemma {:induction false} SubsetSize<T>(a: set<T>, b: set<T>)
    requires a <= b
    ensures |a| <= |b| && (|a| == |b| ==> a == b)
  {
    if a != {} {
      var x :| x in a;
      SubsetSize(a - {x}, b - {x});
    }
  }

  /** The numbers from `start` on, `cnt` of them. */
  ghost predicate InRange(k: int, start: nat, cnt: nat) { start <= k < start + cnt }

  ghost function Range(start: nat, cnt: nat): set<nat> {
    set k: nat | start <= k < start + cnt && InRange(k, start, cnt)
  }
}
