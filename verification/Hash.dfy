/** Hash tables with chaining (src/lib/kernel/hash.c).  Elements are compared by `less` and are equal
    when neither comes before the other. */
module Hash {
  import opened Words
  import opened Masks
  import opened Merging

  // ----- Powers of two -----

  /** turn_off_least_1bit */
  function TurnOff(x: nat): nat
    requires x > 0
  {
    And(x, x - 1)
  }

  /** is_power_of_2 */
  predicate IsPowerOf2(x: nat) { x != 0 && TurnOff(x) == 0 }

  /** The largest power of two that is not above `x`. */
  function LargestPow2(x: nat): (p: nat)
    requires x > 0
    ensures 0 < p <= x < 2 * p
  {
    if x == 1 then 1 else 2 * LargestPow2(x / 2)
  }

  /** An odd number loses 1; an even one loses the bit of its half. */
  lemma TurnOffIs(x: nat)
    requires x > 0
    ensures TurnOff(x) == if x % 2 == 1 then x - 1 else 2 * TurnOff(x / 2)
  {
    if x % 2 == 1 {
      assert (x - 1) / 2 == x / 2;
      AndSelf(x / 2);
    } else {
      assert (x - 1) / 2 == x / 2 - 1 && (x - 1) % 2 == 1;
    }
  }

  /** Turning off the lowest bit stops exactly at the largest power of two, and never skips it. */
  lemma {:induction false} TurnOffStops(x: nat)
    requires x > 0
    ensures TurnOff(x) < x
    ensures IsPowerOf2(x) <==> x == LargestPow2(x)
    ensures !IsPowerOf2(x) ==> TurnOff(x) > 0 && LargestPow2(TurnOff(x)) == LargestPow2(x)
  {
    TurnOffIs(x);
    if x > 1 {
      if x % 2 == 0 {
        TurnOffStops(x / 2);
        if !IsPowerOf2(x) {
          assert TurnOff(x) == 2 * TurnOff(x / 2) && TurnOff(x) / 2 == TurnOff(x / 2);
        }
      } else {
        assert (x - 1) / 2 == x / 2;
      }
    } else {
      assert TurnOff(1) == 0;
    }
  }

  /** A power of two is Pow2 of something, so its predecessor is a mask. */
  lemma {:induction false} LargestIsPow2(x: nat)
    requires x > 0
    ensures exists k: nat :: LargestPow2(x) == Pow2(k)
  {
    if x == 1 {
      assert Pow2(0) == 1;
    } else {
      LargestIsPow2(x / 2);
      var k: nat :| LargestPow2(x / 2) == Pow2(k);
      assert LargestPow2(x) == Pow2(k + 1);
    }
  }

  /** The masking of find_bucket is a remainder. */
  lemma MaskIsMod(x: nat, n: nat)
    requires IsPowerOf2(n)
    ensures And(x, n - 1) == x % n
  {
    TurnOffStops(n);
    LargestIsPow2(n);
    var k: nat :| LargestPow2(n) == Pow2(k);
    AndMask(x, k);
  }

  /** The number of buckets that rehash wants for `cnt` elements. */
  function Ideal(cnt: nat): nat {
    if cnt / 2 < 4 then 4 else LargestPow2(cnt / 2)
  }

  /** The computation of rehash. */
  method IdealBuckets(elemCnt: nat) returns (n: nat)
    ensures n == Ideal(elemCnt) && n >= 4 && IsPowerOf2(n)
    ensures if elemCnt < 8 then n == 4 else 2 * n <= elemCnt < 4 * n
  {
    n := elemCnt / 2;
    if n < 4 {
      n := 4;
    }
    ghost var p := LargestPow2(n);
    LargestAtLeast(n);
    assert elemCnt / 2 < 4 ==> p == LargestPow2(4) == 4;
    hide LargestPow2, And;
    while !IsPowerOf2(n)
      invariant n > 0 && LargestPow2(n) == p
      decreases n
    {
      TurnOffStops(n);
      n := TurnOff(n);
    }
    TurnOffStops(n);
  }

  lemma LargestAtLeast(x: nat)
    requires x >= 4
    ensures LargestPow2(x) >= 4
  {
    assert LargestPow2(x) == 2 * LargestPow2(x / 2) && LargestPow2(x / 2) == 2 * LargestPow2(x / 2 / 2);
  }

  // ----- Buckets -----

  /** Every element of every bucket, in the order of hash_next. */
  ghost function Flatten<T>(bs: seq<seq<T>>): seq<T> {
    if bs == [] then [] else bs[0] + Flatten(bs[1..])
  }

  lemma {:induction false} FlattenConcat<T>(a: seq<seq<T>>, b: seq<seq<T>>)
    ensures Flatten(a + b) == Flatten(a) + Flatten(b)
  {
    if a == [] {
      assert a + b == b;
    } else {
      assert (a + b)[1..] == a[1..] + b;
      FlattenConcat(a[1..], b);
    }
  }

  /** The buckets before `i`, bucket `i` and those after it. */
  lemma {:induction false} FlattenAt<T>(bs: seq<seq<T>>, i: nat)
    requires i < |bs|
    ensures Flatten(bs) == Flatten(bs[..i]) + (bs[i] + Flatten(bs[i + 1..]))
  {
    var rest := [bs[i]] + bs[i + 1..];
    assert bs == bs[..i] + rest;
    FlattenConcat(bs[..i], rest);
    assert rest[1..] == bs[i + 1..];
  }

  lemma {:induction false} InFlatten<T>(bs: seq<seq<T>>, x: T)
    ensures x in Flatten(bs) <==> exists i :: 0 <= i < |bs| && x in bs[i]
  {
    if bs != [] {
      InFlatten(bs[1..], x);
      if x in bs[0] { assert x in bs[0]; }
      if i :| 0 <= i < |bs[1..]| && x in bs[1..][i] { assert x in bs[i + 1]; }
      if i :| 0 <= i < |bs| && x in bs[i] {
        if i > 0 { assert x in bs[1..][i - 1]; }
      }
    }
  }

  ghost function ElemsOf<T>(bs: seq<seq<T>>): set<T> {
    set x | x in Flatten(bs)
  }

  lemma ElemsAt<T>(bs: seq<seq<T>>, i: nat, x: T)
    requires i < |bs| && x in bs[i]
    ensures x in ElemsOf(bs)
  {
    InFlatten(bs, x);
  }

  /** No two elements are equal to `less`. */
  ghost predicate DistinctKeys<T>(less: (T, T) -> bool, s: seq<T>) {
    forall i, j :: 0 <= i < j < |s| ==> !Equivalent(less, s[i], s[j])
  }

  /** What a hash function must do: equal elements have equal hashes, and equality is one. */
  ghost predicate KeyOk<T(!new)>(hash: T -> uint32, less: (T, T) -> bool) {
    && (forall x :: Equivalent(less, x, x))
    && (forall x, y, z :: Equivalent(less, x, y) && Equivalent(less, y, z) ==> Equivalent(less, x, z))
    && (forall x, y :: Equivalent(less, x, y) ==> hash(x) == hash(y))
  }

  /** Every element is in the bucket of its hash. */
  ghost predicate Placed<T>(hash: T -> uint32, bs: seq<seq<T>>) {
    forall i, x :: 0 <= i < |bs| && x in bs[i] ==> hash(x) % |bs| == i
  }

  ghost predicate TableOk<T(!new)>(hash: T -> uint32, less: (T, T) -> bool, bs: seq<seq<T>>) {
    // Named, so that the verifier takes the conjunction as one assertion.
    var ok :=
      && KeyOk(hash, less) && |bs| >= 4 && IsPowerOf2(|bs|) && Placed(hash, bs) && DistinctKeys(less, Flatten(bs));
    ok
  }

  lemma {:induction false} InsertDistinct<T>(less: (T, T) -> bool, p: seq<T>, x: T, q: seq<T>)
    ensures DistinctKeys(less, p + [x] + q) <==>
      DistinctKeys(less, p + q) && forall y :: y in p + q ==> !Equivalent(less, x, y)
  {
    var s, t := p + q, p + [x] + q;
    if DistinctKeys(less, t) {
      forall i, j | 0 <= i < j < |s|
        ensures !Equivalent(less, s[i], s[j])
      {
        assert s[i] == t[if i < |p| then i else i + 1] && s[j] == t[if j < |p| then j else j + 1];
      }
      forall y | y in s
        ensures !Equivalent(less, x, y)
      {
        var i :| 0 <= i < |s| && s[i] == y;
        assert y == t[if i < |p| then i else i + 1] && x == t[|p|];
      }
    }
    if DistinctKeys(less, s) && forall y :: y in s ==> !Equivalent(less, x, y) {
      forall i, j | 0 <= i < j < |t|
        ensures !Equivalent(less, t[i], t[j])
      {
        var k, l := (if i < |p| then i else i - 1), (if j < |p| then j else j - 1);
        if i == |p| {
          assert t[i] == x && t[j] == s[l] && s[l] in s;
        } else if j == |p| {
          assert t[j] == x && t[i] == s[k] && s[k] in s;
        } else {
          assert t[i] == s[k] && t[j] == s[l];
        }
      }
    }
  }

  /** The elements before and after a place in bucket `i`. */
  ghost function Before<T>(bs: seq<seq<T>>, i: nat, j: nat): seq<T>
    requires i < |bs| && j <= |bs[i]|
  {
    Flatten(bs[..i]) + bs[i][..j]
  }

  ghost function After<T>(bs: seq<seq<T>>, i: nat, j: nat): seq<T>
    requires i < |bs| && j <= |bs[i]|
  {
    bs[i][j..] + Flatten(bs[i + 1..])
  }

  /** An element more in bucket `i`, at place `j`. */
  lemma {:induction false} OneMore<T>(bs: seq<seq<T>>, i: nat, j: nat, x: T, bs': seq<seq<T>>)
    requires i < |bs| && j <= |bs[i]| && bs' == bs[i := bs[i][..j] + [x] + bs[i][j..]]
    ensures Flatten(bs) == Before(bs, i, j) + After(bs, i, j)
    ensures Flatten(bs') == Before(bs, i, j) + [x] + After(bs, i, j)
  {
    hide Flatten;
    FlattenAt(bs, i);
    FlattenAt(bs', i);
    assert bs'[..i] == bs[..i] && bs'[i + 1..] == bs[i + 1..];
    assert bs[i] == bs[i][..j] + bs[i][j..];
  }

  /** The same, for a table. */
  lemma {:induction false} TableWith<T(!new)>(hash: T -> uint32, less: (T, T) -> bool, bs: seq<seq<T>>, i: nat,
      j: nat, x: T, bs': seq<seq<T>>)
    requires i < |bs| && j <= |bs[i]| && bs' == bs[i := bs[i][..j] + [x] + bs[i][j..]]
    requires hash(x) % |bs| == i
    ensures |Flatten(bs')| == |Flatten(bs)| + 1 && ElemsOf(bs') == ElemsOf(bs) + {x}
    ensures TableOk(hash, less, bs') <==>
      TableOk(hash, less, bs) && forall y :: y in ElemsOf(bs) ==> !Equivalent(less, x, y)
  {
    OneMore(bs, i, j, x, bs');
    var p, q := Before(bs, i, j), After(bs, i, j);
    InsertDistinct(less, p, x, q);
    assert ElemsOf(bs') == ElemsOf(bs) + {x};
    assert Placed(hash, bs') <==> Placed(hash, bs) by {
      forall k, y | 0 <= k < |bs|
        ensures y in bs'[k] <==> y in bs[k] || (k == i && y == x)
      {
        assert bs[i] == bs[i][..j] + bs[i][j..];
      }
    }
  }

  lemma {:induction false} EmptyTable<T>(bs: seq<seq<T>>)
    requires forall i :: 0 <= i < |bs| ==> bs[i] == []
    ensures Flatten(bs) == []
  {
    if bs != [] { EmptyTable(bs[1..]); }
  }

  // ----- The table -----

  class HashTable<T(==, !new)> {
    const hash: T -> uint32
    const less: (T, T) -> bool
    var buckets: array<seq<T>>
    var elemCnt: nat

    /** hash_init when the buckets can be allocated. */
    constructor (hash: T -> uint32, less: (T, T) -> bool)
      requires KeyOk(hash, less)
      ensures Valid() && Contents() == {} && fresh(buckets) && this.hash == hash && this.less == less
    {
      this.hash, this.less := hash, less;
      elemCnt := 0;
      buckets := new seq<T>[4](_ => []);
      new;
      EmptyTable(buckets[..]);
      FourIsPower();
    }

    ghost predicate Valid()
      reads this, buckets
    {
      TableOk(hash, less, buckets[..]) && elemCnt == |Flatten(buckets[..])|
    }

    /** The elements of the table, no two of them equal. */
    ghost function Contents(): set<T>
      reads this, buckets
    {
      ElemsOf(buckets[..])
    }

    /** find_bucket */
    method FindBucket(e: T) returns (i: nat)
      requires Valid()
      ensures i < buckets.Length && i == hash(e) % buckets.Length
    {
      i := And(hash(e), buckets.Length - 1);
      MaskIsMod(hash(e), buckets.Length);
    }

    /** find_elem: the place of an element equal to `e` in bucket `i`, if there is one. */
    method FindElem(i: nat, e: T) returns (j: Option<nat>)
      requires Valid() && i < buckets.Length && i == hash(e) % buckets.Length
      ensures j.Some? ==>
        j.value < |buckets[i]| && Equivalent(less, buckets[i][j.value], e) && buckets[i][j.value] in Contents()
      ensures j.None? ==> forall x :: x in Contents() ==> !Equivalent(less, x, e)
    {
      hide Equivalent, DistinctKeys;
      var k := 0;
      while k < |buckets[i]|
        invariant 0 <= k <= |buckets[i]|
        invariant forall m :: 0 <= m < k ==> !Equivalent(less, buckets[i][m], e)
      {
        var hi := buckets[i][k];
        if Same(hi, e) {
          ElemsAt(buckets[..], i, hi);
          return Some(k);
        }
        k := k + 1;
      }
      forall x | x in Contents()
        ensures !Equivalent(less, x, e)
      {
        InFlatten(buckets[..], x);
        var n :| 0 <= n < buckets.Length && x in buckets[..][n];
        assert hash(x) % buckets.Length == n;
        assert Equivalent(less, x, e) ==> n == i;
      }
      return None;
    }

    predicate Same(x: T, y: T)
      ensures Same(x, y) <==> Equivalent(less, x, y)
    {
      !less(x, y) && !less(y, x)
    }

    /** insert_elem */
    method InsertElem(i: nat, e: T)
      requires Valid() && i < buckets.Length && i == hash(e) % buckets.Length
      requires forall x :: x in Contents() ==> !Equivalent(less, x, e)
      modifies this`elemCnt, buckets
      ensures Valid() && Contents() == old(Contents()) + {e} && elemCnt == old(elemCnt) + 1
    {
      hide TableOk, Flatten, ElemsOf;
      ghost var bs := buckets[..];
      assert forall y :: y in ElemsOf(bs) ==> !Equivalent(less, y, e) && !Equivalent(less, e, y);
      elemCnt := elemCnt + 1;
      buckets[i] := [e] + buckets[i];
      assert bs[i][..0] + [e] + bs[i][0..] == [e] + bs[i];
      assert buckets[..] == bs[i := [e] + bs[i]];
      TableWith(hash, less, bs, i, 0, e, buckets[..]);
    }

    /** remove_elem of the element at place `j` of bucket `i`. */
    method RemoveElem(i: nat, j: nat)
      requires Valid() && i < buckets.Length && j < |buckets[i]|
      modifies this`elemCnt, buckets
      ensures Valid() && elemCnt == old(elemCnt) - 1 && old(buckets[i][j]) in old(Contents())
      ensures Contents() == old(Contents()) - {old(buckets[i][j])}
      ensures forall x :: x in Contents() ==> !Equivalent(less, x, old(buckets[i][j]))
    {
      hide TableOk, Flatten, ElemsOf;
      ghost var bs, x := buckets[..], buckets[i][j];
      PlacedAt(hash, less, bs, i, j);
      buckets[i] := buckets[i][..j] + buckets[i][j + 1..];
      ghost var cs := buckets[..];
      assert cs[i][..j] == bs[i][..j] && cs[i][j..] == bs[i][j + 1..];
      assert bs[i] == bs[i][..j] + [x] + bs[i][j + 1..];
      assert bs == cs[i := cs[i][..j] + [x] + cs[i][j..]];
      TableWith(hash, less, cs, i, j, x, bs);
      elemCnt := elemCnt - 1;
      SelfEquivalent(hash, less, bs, x);
    }

    /** rehash.  `memOk` says whether the new buckets can be allocated. */
    method Rehash(memOk: bool)
      requires Valid()
      modifies this`buckets, buckets
      ensures Valid() && Contents() == old(Contents())
      ensures buckets.Length == if memOk then Ideal(elemCnt) else old(buckets.Length)
      ensures buckets == old(buckets) || fresh(buckets)
    {
      hide TableOk, Flatten, ElemsOf;
      var n := IdealBuckets(elemCnt);
      if n == buckets.Length || !memOk {
        return;
      }
      var newBuckets := new seq<T>[n](_ => []);
      EmptyTable(newBuckets[..]);
      NewTable(hash, less, buckets[..], newBuckets[..]);
      ghost var all := buckets[..];
      var i := 0;
      while i < buckets.Length
        invariant 0 <= i <= buckets.Length && unchanged(this)
        invariant forall k :: 0 <= k < i ==> buckets[k] == []
        invariant Moving(hash, less, all, buckets[..], newBuckets[..])
        decreases buckets.Length - i
      {
        while buckets[i] != []
          invariant 0 <= i < buckets.Length && unchanged(this)
          invariant forall k :: 0 <= k < i ==> buckets[k] == []
          invariant Moving(hash, less, all, buckets[..], newBuckets[..])
          decreases |buckets[i]|
        {
          MoveOne(newBuckets, i, all);
        }
        i := i + 1;
      }
      EmptyTable(buckets[..]);
      AllMoved(hash, less, all, buckets[..], newBuckets[..]);
      buckets := newBuckets;
    }

    /** The inner step of rehash: the first element of old bucket `i` goes to the front of its new
        bucket. */
    method MoveOne(newBuckets: array<seq<T>>, i: nat, ghost all: seq<seq<T>>)
      requires i < buckets.Length && buckets[i] != [] && newBuckets != buckets
      requires Moving(hash, less, all, buckets[..], newBuckets[..])
      modifies buckets, newBuckets
      ensures Moving(hash, less, all, buckets[..], newBuckets[..])
      ensures buckets[i] == old(buckets[i])[1..]
      ensures forall k :: 0 <= k < buckets.Length && k != i ==> buckets[k] == old(buckets[k])
    {
      hide TableOk, Flatten, Moving;
      ghost var os, ns := buckets[..], newBuckets[..];
      MovingTable(hash, less, all, os, ns);
      var elem := buckets[i][0];
      var k := And(hash(elem), newBuckets.Length - 1);
      MaskIsMod(hash(elem), newBuckets.Length);
      buckets[i] := buckets[i][1..];
      newBuckets[k] := [elem] + newBuckets[k];
      assert buckets[..] == os[i := os[i][1..]] && newBuckets[..] == ns[k := [elem] + ns[k]];
      MoveStep(hash, less, all, os, ns, i, k);
    }

    /** hash_insert: `old_` is an equal element that was there already. */
    method Insert(e: T, memOk: bool) returns (old_: Option<T>)
      requires Valid()
      modifies this, buckets
      ensures Valid() && (buckets == old(buckets) || fresh(buckets))
      ensures old_.None? ==>
        (forall x :: x in old(Contents()) ==> !Equivalent(less, x, e)) && Contents() == old(Contents()) + {e}
      ensures old_.Some? ==>
        old_.value in old(Contents()) && Equivalent(less, old_.value, e) && Contents() == old(Contents())
      ensures buckets.Length == if memOk then Ideal(elemCnt) else old(buckets.Length)
    {
      hide TableOk, Flatten, ElemsOf, Equivalent;
      var bucket := FindBucket(e);
      var j := FindElem(bucket, e);
      if j.None? {
        old_ := None;
        InsertElem(bucket, e);
      } else {
        old_ := Some(buckets[bucket][j.value]);
      }
      Rehash(memOk);
    }

    /** hash_replace: the equal element that was there, if any, gives way. */
    method Replace(e: T, memOk: bool) returns (old_: Option<T>)
      requires Valid()
      modifies this, buckets
      ensures Valid() && (buckets == old(buckets) || fresh(buckets))
      ensures old_.None? ==>
        (forall x :: x in old(Contents()) ==> !Equivalent(less, x, e)) && Contents() == old(Contents()) + {e}
      ensures old_.Some? ==> old_.value in old(Contents()) && Equivalent(less, old_.value, e)
      ensures old_.Some? ==> Contents() == old(Contents()) - {old_.value} + {e}
      ensures buckets.Length == if memOk then Ideal(elemCnt) else old(buckets.Length)
    {
      hide TableOk, Flatten, ElemsOf;
      var bucket := FindBucket(e);
      var j := FindElem(bucket, e);
      old_ := None;
      if j.Some? {
        old_ := Some(buckets[bucket][j.value]);
        RemoveElem(bucket, j.value);
        NotEquivalent(hash, less, buckets[..], old_.value, e);
      }
      InsertElem(bucket, e);
      Rehash(memOk);
    }

    /** hash_find */
    method Find(e: T) returns (found: Option<T>)
      requires Valid()
      ensures found.Some? ==> found.value in Contents() && Equivalent(less, found.value, e)
      ensures found.None? ==> forall x :: x in Contents() ==> !Equivalent(less, x, e)
    {
      var bucket := FindBucket(e);
      var j := FindElem(bucket, e);
      found := if j.Some? then Some(buckets[bucket][j.value]) else None;
    }

    /** hash_delete */
    method Delete(e: T, memOk: bool) returns (found: Option<T>)
      requires Valid()
      modifies this, buckets
      ensures Valid() && (buckets == old(buckets) || fresh(buckets))
      ensures found.None? ==>
        (forall x :: x in old(Contents()) ==> !Equivalent(less, x, e)) && Contents() == old(Contents())
      ensures found.Some? ==> found.value in old(Contents()) && Equivalent(less, found.value, e)
      ensures found.Some? ==> Contents() == old(Contents()) - {found.value}
      ensures buckets.Length == if found.Some? && memOk then Ideal(elemCnt) else old(buckets.Length)
    {
      hide TableOk, Flatten, ElemsOf, Equivalent;
      var bucket := FindBucket(e);
      var j := FindElem(bucket, e);
      if j.None? {
        return None;
      }
      found := Some(buckets[bucket][j.value]);
      RemoveElem(bucket, j.value);
      Rehash(memOk);
    }

    /** The element equal to a given one is the only one. */
    lemma OnlyOne(x: T, y: T)
      requires Valid() && x in Contents() && y in Contents() && Equivalent(less, x, y)
      ensures x == y
    {
      var s := Flatten(buckets[..]);
      var i :| 0 <= i < |s| && s[i] == x;
      var j :| 0 <= j < |s| && s[j] == y;
    }
  }

  lemma NotEquivalent<T(!new)>(hash: T -> uint32, less: (T, T) -> bool, bs: seq<seq<T>>, x: T, e: T)
    requires TableOk(hash, less, bs) && Equivalent(less, x, e)
    requires forall y :: y in ElemsOf(bs) ==> !Equivalent(less, y, x)
    ensures forall y :: y in ElemsOf(bs) ==> !Equivalent(less, y, e)
  {
    hide Flatten, IsPowerOf2, Placed, DistinctKeys;
    forall y | y in ElemsOf(bs)
      ensures !Equivalent(less, y, e)
    {
      assert Equivalent(less, y, e) && Equivalent(less, e, x) ==> Equivalent(less, y, x);
    }
  }

  // ----- Iteration -----

  /** struct hash_iterator: the bucket and the place in it.  Place -1 is the list head, before the
      first element. */
  class Iterator<T(==, !new)> {
    const table: HashTable<T>
    var bucket: nat
    var place: int
    var done: bool

    /** hash_first */
    constructor (table: HashTable<T>)
      requires table.Valid()
      ensures this.table == table && Ready() && !done && Visited() == []
    {
      this.table := table;
      bucket, place, done := 0, -1, false;
    }

    ghost predicate Ready()
      reads this, table, table.buckets
    {
      && table.Valid() && bucket <= table.buckets.Length && (done <==> bucket == table.buckets.Length)
      && (!done ==> -1 <= place < |table.buckets[bucket]|)
    }

    /** What hash_next has returned so far, the current element included. */
    ghost function Visited(): seq<T>
      requires Ready()
      reads this, table, table.buckets
    {
      Flatten(table.buckets[..bucket]) + (if done then [] else table.buckets[bucket][..place + 1])
    }

    lemma Bounded()
      requires Ready()
      ensures |Visited()| <= |Flatten(table.buckets[..])|
    {
      var bs := table.buckets[..];
      if done {
        assert bs[..bucket] == bs;
      } else {
        FlattenAt(bs, bucket);
      }
    }

    /** hash_next: the next element, or `None` once every element has been returned. */
    method Next() returns (elem: Option<T>)
      requires Ready() && !done
      modifies this
      ensures Ready() && (done <==> elem.None?)
      ensures elem.Some? ==> Visited() == old(Visited()) + [elem.value]
      ensures elem.None? ==> Visited() == old(Visited()) == Flatten(table.buckets[..])
    {
      ghost var bs := table.buckets[..];
      ghost var seen := Visited();
      place := place + 1;
      while place == |table.buckets[bucket]|
        invariant !done && bucket < |bs| && table.buckets[..] == bs && table.Valid()
        invariant 0 <= place <= |bs[bucket]| && Flatten(bs[..bucket]) + bs[bucket][..place] == seen
        decreases |bs| - bucket
      {
        PastBucket(bs, bucket);
        bucket := bucket + 1;
        if bucket >= table.buckets.Length {
          done := true;
          assert bs[..bucket] == bs;
          return None;
        }
        place := 0;
      }
      assert bs[bucket][..place + 1] == bs[bucket][..place] + [bs[bucket][place]];
      return Some(table.buckets[bucket][place]);
    }
  }

  lemma {:induction false} PastBucket<T>(bs: seq<seq<T>>, i: nat)
    requires i < |bs|
    ensures Flatten(bs[..i + 1]) == Flatten(bs[..i]) + bs[i]
  {
    assert bs[..i + 1] == bs[..i] + [bs[i]];
    FlattenConcat(bs[..i], [bs[i]]);
    assert Flatten([bs[i]]) == bs[i] + Flatten<T>([]);
  }

  /** Iterating from hash_first until hash_next returns a null pointer visits each element exactly
      once. */
  method VisitAll<T(==, !new)>(table: HashTable<T>) returns (visited: seq<T>)
    requires table.Valid()
    ensures |visited| == table.elemCnt && forall x :: x in visited <==> x in table.Contents()
    ensures forall i, j :: 0 <= i < j < |visited| ==> visited[i] != visited[j]
  {
    hide TableOk, Flatten;
    var it := new Iterator<T>(table);
    visited := [];
    var elem := it.Next();
    it.Bounded();
    while elem.Some?
      invariant it.table == table && it.Ready() && fresh(it) && (it.done <==> elem.None?)
      invariant table.Valid() && table.Contents() == old(table.Contents()) && table.elemCnt == old(table.elemCnt)
      invariant it.Visited() == visited + if elem.Some? then [elem.value] else []
      invariant elem.None? ==> visited == Flatten(table.buckets[..])
      invariant |it.Visited()| <= |Flatten(table.buckets[..])|
      decreases |Flatten(table.buckets[..])| - |visited|
    {
      visited := visited + [elem.value];
      elem := it.Next();
      it.Bounded();
    }
    SelfDistinct(table.hash, table.less, table.buckets[..]);
  }

  /** While rehash moves the elements `all`: `os` are still to move, `ns` have moved. */
  ghost predicate Moving<T(!new)>(hash: T -> uint32, less: (T, T) -> bool, all: seq<seq<T>>, os: seq<seq<T>>,
      ns: seq<seq<T>>) {
    && TableOk(hash, less, ns)
    && DistinctKeys(less, Flatten(ns) + Flatten(os))
    && |Flatten(ns)| + |Flatten(os)| == |Flatten(all)|
    && ElemsOf(all) == ElemsOf(ns) + ElemsOf(os)
  }

  lemma MovingTable<T(!new)>(hash: T -> uint32, less: (T, T) -> bool, all: seq<seq<T>>, os: seq<seq<T>>,
      ns: seq<seq<T>>)
    requires Moving(hash, less, all, os, ns)
    ensures |ns| >= 4 && IsPowerOf2(|ns|) && TableOk(hash, less, ns)
  {
  }

  lemma NewTable<T(!new)>(hash: T -> uint32, less: (T, T) -> bool, bs: seq<seq<T>>, ns: seq<seq<T>>)
    requires TableOk(hash, less, bs) && |ns| >= 4 && IsPowerOf2(|ns|) && Flatten(ns) == []
    requires forall i :: 0 <= i < |ns| ==> ns[i] == []
    ensures Moving(hash, less, bs, bs, ns)
  {
    assert Flatten(ns) + Flatten(bs) == Flatten(bs);
  }

  lemma AllMoved<T(!new)>(hash: T -> uint32, less: (T, T) -> bool, all: seq<seq<T>>, os: seq<seq<T>>, ns: seq<seq<T>>)
    requires Moving(hash, less, all, os, ns) && Flatten(os) == []
    ensures TableOk(hash, less, ns) && |Flatten(ns)| == |Flatten(all)| && ElemsOf(ns) == ElemsOf(all)
  {
  }

  lemma {:induction false} MoveStep<T(!new)>(hash: T -> uint32, less: (T, T) -> bool, all: seq<seq<T>>, os: seq<seq<T>>,
                                             ns: seq<seq<T>>, i: nat, k: nat)
    requires Moving(hash, less, all, os, ns) && i < |os| && os[i] != []
    requires k < |ns| && hash(os[i][0]) % |ns| == k
    ensures Moving(hash, less, all, os[i := os[i][1..]], ns[k := [os[i][0]] + ns[k]])
  {
    hide Flatten, TableOk, Equivalent;
    var x := os[i][0];
    var os', ns' := os[i := os[i][1..]], ns[k := [x] + ns[k]];
    assert os'[i][..0] + [x] + os'[i][0..] == os[i] && os == os'[i := os[i]];
    assert ns[k][..0] + [x] + ns[k][0..] == ns'[k];
    OneMore(os', i, 0, x, os);
    OneMore(ns, k, 0, x, ns');
    var a, b, p, q := Before(os', i, 0), After(os', i, 0), Before(ns, k, 0), After(ns, k, 0);
    MoveDistinct(less, p, q, a, b, x);
    TableWith(hash, less, ns, k, 0, x, ns');
    assert ElemsOf(os) == ElemsOf(os') + {x};
  }

  /** `x` moved from between `a` and `b` to between `p` and `q`. */
  lemma {:induction false} MoveDistinct<T>(less: (T, T) -> bool, p: seq<T>, q: seq<T>, a: seq<T>, b: seq<T>, x: T)
    requires DistinctKeys(less, (p + q) + (a + [x] + b))
    ensures DistinctKeys(less, (p + [x] + q) + (a + b))
    ensures forall y :: y in p + q ==> !Equivalent(less, x, y)
  {
    hide DistinctKeys, Equivalent;
    assert (p + q) + (a + [x] + b) == (p + q + a) + [x] + b;
    InsertDistinct(less, p + q + a, x, b);
    assert (p + [x] + q) + (a + b) == p + [x] + (q + a + b);
    assert (p + q + a) + b == p + (q + a + b);
    InsertDistinct(less, p, x, q + a + b);
  }

  lemma FourIsPower()
    ensures IsPowerOf2(4)
  {
    TurnOffStops(4);
  }

  lemma PlacedAt<T(!new)>(hash: T -> uint32, less: (T, T) -> bool, bs: seq<seq<T>>, i: nat, j: nat)
    requires TableOk(hash, less, bs) && i < |bs| && j < |bs[i]|
    ensures hash(bs[i][j]) % |bs| == i
  {
    assert bs[i][j] in bs[i];
  }

  lemma SelfEquivalent<T(!new)>(hash: T -> uint32, less: (T, T) -> bool, bs: seq<seq<T>>, x: T)
    requires TableOk(hash, less, bs)
    ensures Equivalent(less, x, x)
  {
  }

  lemma SelfDistinct<T(!new)>(hash: T -> uint32, less: (T, T) -> bool, bs: seq<seq<T>>)
    requires TableOk(hash, less, bs)
    ensures var s := Flatten(bs); forall i, j :: 0 <= i < j < |s| ==> s[i] != s[j]
  {
  }
}
