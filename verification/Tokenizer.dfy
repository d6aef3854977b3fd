/** strtok_r with the delimiter " " (src/lib/string.c): a command line as a sequence of tokens. */
module Tokenizer {
  import opened Words

  type Bytes = seq<byte>

  const SPACE: byte := 32

  function SkipSpaces(s: Bytes): (r: Bytes)
    ensures |r| <= |s| && (r == [] || r[0] != SPACE)
  {
    if s != [] && s[0] == SPACE then SkipSpaces(s[1..]) else s
  }

  /** The length of the token that `s` begins with. */
  function WordLen(s: Bytes): (n: nat)
    ensures n <= |s|
  {
    if s == [] || s[0] == SPACE then 0 else 1 + WordLen(s[1..])
  }

  /** What is left after a token of length `n` and the delimiter that ends it. */
  function After(s: Bytes, n: nat): Bytes
    requires n <= |s|
  {
    if n == |s| then [] else s[n + 1..]
  }

  /** The tokens of a string: the longest stretches without spaces. */
  function Tokens(s: Bytes): seq<Bytes>
    decreases |s|
  {
    var r := SkipSpaces(s);
    if r == [] then []
    else [r[..WordLen(r)]] + Tokens(After(r, WordLen(r)))
  }

  /** `t` is the word that begins at `i`: a stretch without spaces that cannot be made longer. */
  ghost predicate IsWord(s: Bytes, t: Bytes, i: nat) {
    && t != [] && 32 !in t && i + |t| <= |s| && s[i..i + |t|] == t
    && (i == 0 || s[i - 1] == 32) && (i + |t| == |s| || s[i + |t|] == 32)
  }

  /** `ts` are the words of `s`, which begin at the places `at`, in order, and every byte that is not a
      space belongs to one of them. */
  ghost predicate AreWords(s: Bytes, ts: seq<Bytes>, at: seq<nat>) {
    && |at| == |ts| && (forall k :: 0 <= k < |ts| ==> IsWord(s, ts[k], at[k]))
    && (forall j, k :: 0 <= j < k < |ts| ==> at[j] + |ts[j]| < at[k])
    && (forall i :: 0 <= i < |s| && s[i] != 32 ==> Covered(ts, at, i))
  }

  ghost predicate Covered(ts: seq<Bytes>, at: seq<nat>, i: nat)
    requires |at| == |ts|
  {
    exists k :: 0 <= k < |ts| && at[k] <= i < at[k] + |ts[k]|
  }

  ghost predicate Tokenized(s: Bytes, ts: seq<Bytes>) { exists at :: AreWords(s, ts, at) }

  ghost function Shifted(at: seq<nat>, m: nat): (r: seq<nat>)
    ensures |r| == |at|
  {
    seq(|at|, k requires 0 <= k < |at| => at[k] + m)
  }

  /** The words behind a space are words of the whole. */
  lemma WordsBehind(s: Bytes, m: nat, ts: seq<Bytes>, at: seq<nat>)
    requires 0 < m <= |s| && s[m - 1] == 32 && AreWords(s[m..], ts, at)
    ensures var at' := Shifted(at, m);
      && (forall k :: 0 <= k < |ts| ==> IsWord(s, ts[k], at'[k]) && at'[k] >= m)
      && (forall j, k :: 0 <= j < k < |ts| ==> at'[j] + |ts[j]| < at'[k])
      && (forall i :: m <= i < |s| && s[i] != 32 ==> Covered(ts, at', i))
  {
    hide IsWord, Covered;
    var at' := Shifted(at, m);
    forall k | 0 <= k < |ts|
      ensures IsWord(s, ts[k], at'[k])
    {
      WordBehind(s, m, ts[k], at[k]);
    }
    forall i | m <= i < |s| && s[i] != 32
      ensures Covered(ts, at', i)
    {
      assert s[m..][i - m] == s[i];
      CoveredBehind(ts, at, m, i);
    }
  }

  lemma CoveredBehind(ts: seq<Bytes>, at: seq<nat>, m: nat, i: nat)
    requires |at| == |ts| && m <= i && Covered(ts, at, i - m)
    ensures Covered(ts, Shifted(at, m), i)
  {
    var k :| 0 <= k < |ts| && at[k] <= i - m < at[k] + |ts[k]|;
    assert Shifted(at, m)[k] <= i < Shifted(at, m)[k] + |ts[k]|;
  }

  lemma WordBehind(s: Bytes, m: nat, t: Bytes, i: nat)
    requires 0 < m <= |s| && s[m - 1] == 32 && IsWord(s[m..], t, i)
    ensures IsWord(s, t, i + m)
  {
    assert s[i + m..i + m + |t|] == s[m..][i..i + |t|];
    assert i > 0 ==> s[i + m - 1] == s[m..][i - 1];
  }

  /** The tokens are the words of the string, all of them and nothing else. */
  lemma {:induction false} TokensAreWords(s: Bytes) returns (at: seq<nat>)
    ensures AreWords(s, Tokens(s), at)
    decreases |s|
  {
    at := [];
    if s != [] && s[0] == SPACE {
      var rest := TokensAreWords(s[1..]);
      SkipsSpace(s);
      at := Shifted(rest, 1);
      WordsBehind(s, 1, Tokens(s[1..]), rest);
    } else if s != [] {
      at := FirstWord(s);
    }
  }

  lemma SkipsSpace(s: Bytes)
    requires s != [] && s[0] == SPACE
    ensures Tokens(s) == Tokens(s[1..])
  {
  }

  lemma {:induction false} FirstWord(s: Bytes) returns (at: seq<nat>)
    requires s != [] && s[0] != SPACE
    ensures AreWords(s, Tokens(s), at)
    decreases |s|, 0
  {
    hide IsWord, AreWords, Tokens;
    var n := WordLen(s);
    NextToken(s);
    BeginsWord(s);
    if n == |s| {
      at := [0];
      assert s[..n] == s && Tokens([]) == [] && [s] + [] == [s] by { NextToken([]); }
      SoleWord(s);
    } else {
      var rest := TokensAreWords(s[n + 1..]);
      WordsBehind(s, n + 1, Tokens(s[n + 1..]), rest);
      at := [0] + Shifted(rest, n + 1);
      WordsJoin(s, n, Tokens(s[n + 1..]), Shifted(rest, n + 1));
    }
  }

  lemma BeginsWord(s: Bytes)
    requires s != [] && s[0] != SPACE
    ensures 0 < WordLen(s) && IsWord(s, s[..WordLen(s)], 0) && (WordLen(s) < |s| ==> s[WordLen(s)] == 32)
    ensures SkipSpaces(s) == s
  {
    WordIs(s);
    assert s[0..WordLen(s)] == s[..WordLen(s)];
  }

  lemma SoleWord(s: Bytes)
    requires IsWord(s, s, 0)
    ensures AreWords(s, [s], [0])
  {
    forall i | 0 <= i < |s| && s[i] != 32
      ensures Covered([s], [0], i)
    {
      assert [0][0] <= i < [0][0] + |[s][0]|;
    }
  }

  lemma WordsJoin(s: Bytes, n: nat, ts: seq<Bytes>, at: seq<nat>)
    requires 0 < n < |s| && IsWord(s, s[..n], 0) && |at| == |ts| && s[n] == 32
    requires forall k :: 0 <= k < |ts| ==> IsWord(s, ts[k], at[k]) && at[k] >= n + 1
    requires forall j, k :: 0 <= j < k < |ts| ==> at[j] + |ts[j]| < at[k]
    requires forall i :: n + 1 <= i < |s| && s[i] != 32 ==> Covered(ts, at, i)
    ensures AreWords(s, [s[..n]] + ts, [0] + at)
  {
    hide IsWord, Covered;
    var ts', at' := [s[..n]] + ts, [0] + at;
    assert forall k :: 0 < k < |ts'| ==> ts'[k] == ts[k - 1] && at'[k] == at[k - 1];
    forall i | 0 <= i < |s| && s[i] != 32
      ensures Covered(ts', at', i)
    {
      CoveredJoin(s[..n], ts, at, i);
    }
  }

  lemma CoveredJoin(t: Bytes, ts: seq<Bytes>, at: seq<nat>, i: nat)
    requires |at| == |ts| && (i < |t| || Covered(ts, at, i))
    ensures Covered([t] + ts, [0] + at, i)
  {
    var ts', at' := [t] + ts, [0] + at;
    if i < |t| {
      assert at'[0] <= i < at'[0] + |ts'[0]|;
    } else {
      var k :| 0 <= k < |ts| && at[k] <= i < at[k] + |ts[k]|;
      assert at'[k + 1] <= i < at'[k + 1] + |ts'[k + 1]|;
    }
  }

  /** The bytes of `s` other than spaces. */
  function WithoutSpaces(s: Bytes): Bytes {
    if s == [] then [] else if s[0] == 32 then WithoutSpaces(s[1..]) else [s[0]] + WithoutSpaces(s[1..])
  }

  function Joined(ts: seq<Bytes>): Bytes {
    if ts == [] then [] else ts[0] + Joined(ts[1..])
  }

  /** Nothing of the string is lost: the tokens joined are the string without its spaces. */
  lemma {:induction false} TokensJoined(s: Bytes)
    ensures Joined(Tokens(s)) == WithoutSpaces(s)
    decreases |s|
  {
    if s != [] && s[0] == SPACE {
      SkipsSpace(s);
      TokensJoined(s[1..]);
    } else if s != [] {
      var n := WordLen(s);
      var rest := After(s, n);
      WordIs(s);
      assert Tokens(s) == [s[..n]] + Tokens(rest);
      TokensJoined(rest);
      SpacesApart(s[..n], s[n..]);
      NoneToDrop(s[..n]);
      assert s == s[..n] + s[n..] && (n < |s| ==> s[n..][1..] == rest);
    }
  }

  lemma {:induction false} SpacesApart(a: Bytes, b: Bytes)
    ensures WithoutSpaces(a + b) == WithoutSpaces(a) + WithoutSpaces(b)
  {
    if a == [] {
      assert a + b == b;
    } else {
      SpacesApart(a[1..], b);
      assert (a + b)[1..] == a[1..] + b;
    }
  }

  lemma {:induction false} NoneToDrop(a: Bytes)
    requires 32 !in a
    ensures WithoutSpaces(a) == a
  {
    if a != [] { NoneToDrop(a[1..]); }
  }

  lemma {:induction false} WordIs(s: Bytes)
    ensures SPACE !in s[..WordLen(s)] && (WordLen(s) < |s| ==> s[WordLen(s)] == SPACE)
  {
    if s != [] && s[0] != SPACE {
      WordIs(s[1..]);
      assert s[..WordLen(s)] == [s[0]] + s[1..][..WordLen(s[1..])];
    }
  }

  /** The bytes from `s` to `end` are a string: `end` is the first null byte. */
  predicate IsString(buf: seq<byte>, s: nat, end: nat) {
    s <= end < |buf| && buf[end] == 0 && forall i :: s <= i < end ==> buf[i] != 0
  }

  /** strtok_r from position `s`, the start of the string or the saved position.  The token is at
      `t .. e`, and is now a string of its own; what is left of the string begins at `save`. */
  method StrtokR(buf: array<byte>, s: nat, ghost end: nat) returns (token: Option<nat>, save: nat, ghost e: nat)
    requires IsString(buf[..], s, end)
    modifies buf
    ensures s <= save <= end && IsString(buf[..], save, end) && buf[save..end] == old(buf[save..end])
    ensures token.None? ==> Tokens(old(buf[s..end])) == [] && save == end
    ensures token.None? ==> forall i :: s <= i < end ==> old(buf[i]) == 32
    ensures token.Some? ==> s <= token.value < e <= end && IsString(buf[..], token.value, e)
    ensures token.Some? ==> save == (if e == end then end else e + 1) && buf[..] == old(buf[..])[e := 0]
    ensures token.Some? ==> forall i :: s <= i < token.value ==> old(buf[i]) == 32
    ensures token.Some? ==> (forall i :: token.value <= i < e ==> old(buf[i]) != 32) && (e < end ==> old(buf[e]) == 32)
    ensures token.Some? ==> Tokens(old(buf[s..end])) == [buf[token.value..e]] + Tokens(buf[save..end])
    ensures token.Some? ==> s < save || save == end
  {
    hide Tokens, SkipSpaces, WordLen, After;
    var t := SkipDelimiters(buf, s, end);
    ghost var r := buf[t..end];
    NextToken(buf[s..end]);
    if buf[t] == 0 {
      return None, t, t;
    }
    var i := TokenEnd(buf, t, end);
    e := i;
    Rest(buf[..], t, i, end);
    ghost var b := buf[..];
    if buf[i] != 0 {
      buf[i] := 0;
      save := i + 1;
      assert buf[..] == b[i := 0];
    } else {
      save := i;
    }
    token := Some(t);
    Torn(b, buf[..], s, t, i, save, end);
    assert buf[t..e] == buf[..][t..e] && buf[save..end] == buf[..][save..end];
    assert old(buf[save..end]) == b[save..end] && r == b[t..end];
    assert r[..i - t] == buf[t..e] && After(r, i - t) == buf[save..end];
  }

  /** What the null byte at `i` leaves on either side of it. */
  lemma Torn(b: seq<byte>, b': seq<byte>, s: nat, t: nat, i: nat, save: nat, end: nat)
    requires IsString(b, s, end) && s <= t < i <= end && (b[i] == 0 <==> i == end)
    requires b' == b[i := 0] && save == if i == end then i else i + 1
    ensures b'[t..i] == b[t..i] && b'[save..end] == b[save..end]
    ensures IsString(b', t, i) && IsString(b', save, end)
  {
  }

  lemma NextToken(s: Bytes)
    ensures var r := SkipSpaces(s);
      Tokens(s) == if r == [] then [] else [r[..WordLen(r)]] + Tokens(After(r, WordLen(r)))
  {
  }

  lemma Rest(buf: seq<byte>, t: nat, i: nat, end: nat)
    requires t <= i <= end <= |buf|
    ensures buf[t..end][..i - t] == buf[t..i]
    ensures After(buf[t..end], i - t) == if i == end then [] else buf[i + 1..end]
  {
  }

  method SkipDelimiters(buf: array<byte>, s: nat, ghost end: nat) returns (i: nat)
    requires IsString(buf[..], s, end)
    ensures s <= i <= end && (buf[i] == 0 <==> i == end) && SkipSpaces(buf[s..end]) == buf[i..end]
    ensures (forall k :: s <= k < i ==> buf[k] == 32) && buf[i] != 32
  {
    i := s;
    while buf[i] == SPACE
      invariant s <= i <= end && SkipSpaces(buf[i..end]) == SkipSpaces(buf[s..end])
      invariant forall k :: s <= k < i ==> buf[k] == 32
      decreases end - i
    {
      assert buf[..][i] != 0 && buf[i..end][0] == buf[i] && buf[i..end][1..] == buf[i + 1..end];
      i := i + 1;
    }
    assert i < end ==> buf[..][i] != 0 && buf[i..end][0] == buf[i];
  }

  method TokenEnd(buf: array<byte>, t: nat, ghost end: nat) returns (i: nat)
    requires IsString(buf[..], t, end) && t < end && buf[t] != SPACE
    ensures t < i <= end && (buf[i] == 0 <==> i == end) && WordLen(buf[t..end]) == i - t
    ensures (forall k :: t <= k < i ==> buf[k] != 32) && (i < end ==> buf[i] == 32)
  {
    i := t;
    while buf[i] != SPACE && buf[i] != 0
      invariant t <= i <= end && WordLen(buf[t..end]) == i - t + WordLen(buf[i..end])
      invariant i == t ==> buf[i] != SPACE && i < end
      invariant forall k :: t <= k < i ==> buf[k] != 32
      decreases end - i
    {
      assert i < end && buf[i..end][0] == buf[i] && buf[i..end][1..] == buf[i + 1..end];
      i := i + 1;
    }
    assert i < end ==> buf[..][i] != 0 && buf[i..end][0] == buf[i];
  }
}
