/** Headers of ustar archives (src/lib/ustar.c), the "ustar Interchange Format" of the pax utility in
    SUSv3.  File names are the bytes before the terminator. */
module Ustar {
  import opened Words
  import Stdio

  type Bytes = seq<byte>

  const HEADER_SIZE: nat := 512
  const CHKSUM: nat := 148
  const CHKSUM_END: nat := 156
  const SLASH: byte := 47
  const DOT: byte := 46
  const ZERO: byte := 48
  const SPACE: byte := 32
  const REGULAR: byte := 48
  const DIRECTORY: byte := 53
  const MAGIC: Bytes := [117, 115, 116, 97, 114, 0]
  const ROOT: Bytes := [114, 111, 111, 116]
  const MTIME: nat := 1136102400

  // ----- Names -----

  /** A prefix that an extractor must not follow: "/", "./" or "../". */
  predicate Antisocial(s: Bytes) {
    || (|s| >= 1 && s[0] == SLASH)
    || (|s| >= 2 && s[..2] == [DOT, SLASH])
    || (|s| >= 3 && s[..3] == [DOT, DOT, SLASH])
  }

  /** What follows the first slash. */
  function AfterSlash(s: Bytes): (r: Bytes)
    requires SLASH in s
    ensures |r| < |s|
  {
    if s[0] == SLASH then s[1..] else AfterSlash(s[1..])
  }

  /** strip_antisocial_prefixes */
  function Strip(s: Bytes): Bytes
    decreases |s|
  {
    if Antisocial(s) then
      HasSlash(s);
      Strip(AfterSlash(s))
    else if s == [] || s == [DOT, DOT] then [DOT] else s
  }

  predicate Clean(s: Bytes) { s != [] && s != [DOT, DOT] && !Antisocial(s) }

  /** A stripped name is clean, and a clean name is not changed: stripping is idempotent. */
  lemma {:induction false} StripIsClean(s: Bytes)
    ensures Clean(Strip(s)) && Strip(Strip(s)) == Strip(s)
    ensures Clean(s) ==> Strip(s) == s
    decreases |s|
  {
    if Antisocial(s) {
      HasSlash(s);
      StripIsClean(AfterSlash(s));
    }
  }

  /** Nothing but "/", "./" and "../", any number of times. */
  ghost predicate OnlyPrefixes(s: Bytes)
    decreases |s|
  {
    || s == []
    || (s[0] == 47 && OnlyPrefixes(s[1..]))
    || (|s| >= 2 && s[0] == 46 && s[1] == 47 && OnlyPrefixes(s[2..]))
    || (|s| >= 3 && s[0] == 46 && s[1] == 46 && s[2] == 47 && OnlyPrefixes(s[3..]))
  }

  /** Stripping removes such prefixes, as long as there are any, and nothing else; "." stands for what
      would be no name or "..". */
  lemma {:induction false} StripIs(s: Bytes) returns (k: nat)
    ensures k <= |s| && OnlyPrefixes(s[..k]) && !Antisocial(s[k..])
    ensures Strip(s) == if s[k..] == [] || s[k..] == [46, 46] then [46] else s[k..]
    decreases |s|
  {
    hide OnlyPrefixes, Antisocial;
    k := 0;
    if Antisocial(s) {
      HasSlash(s);
      var m := AfterIsSuffix(s);
      var j := StripIs(s[m..]);
      k := m + j;
      Behind(s, m, j);
      WhichPrefix(s, m);
      PrefixStep(s[..k], m);
    } else {
      assert s[0..] == s && s[..0] == [];
      NoPrefix();
    }
  }

  lemma Behind(s: Bytes, m: nat, j: nat)
    requires m + j <= |s|
    ensures s[m..][j..] == s[m + j..] && s[..m + j][m..] == s[m..][..j] && s[..m + j][..m] == s[..m]
  {
  }

  lemma NoPrefix()
    ensures OnlyPrefixes([])
  {
  }

  lemma WhichPrefix(s: Bytes, m: nat)
    requires Antisocial(s) && 0 < m <= |s| && s[m - 1] == SLASH && SLASH !in s[..m - 1]
    ensures s[..m] == [SLASH] || s[..m] == [DOT, SLASH] || s[..m] == [DOT, DOT, SLASH]
  {
    assert forall i :: 0 <= i < m - 1 ==> s[..m - 1][i] == s[i];
    if s[0] == SLASH {
      assert m == 1;
    } else if s[..2] == [DOT, SLASH] {
      assert s[0] == s[..2][0] && s[1] == s[..2][1];
      assert m == 2;
    } else {
      assert s[0] == s[..3][0] && s[1] == s[..3][1] && s[2] == s[..3][2];
      assert m == 3;
    }
  }

  lemma PrefixStep(s: Bytes, m: nat)
    requires 0 < m <= |s| && OnlyPrefixes(s[m..])
    requires s[..m] == [SLASH] || s[..m] == [DOT, SLASH] || s[..m] == [DOT, DOT, SLASH]
    ensures OnlyPrefixes(s)
  {
    assert s[0] == s[..m][0] && (m >= 2 ==> s[1] == s[..m][1]) && (m >= 3 ==> s[2] == s[..m][2]);
  }

  lemma HasSlash(s: Bytes)
    requires Antisocial(s)
    ensures SLASH in s
  {
    assert s[0] == SLASH || s[..2][1] == SLASH || s[..3][2] == SLASH;
  }

  lemma {:induction false} AfterIsSuffix(s: Bytes) returns (m: nat)
    requires SLASH in s
    ensures 0 < m <= |s| && AfterSlash(s) == s[m..] && s[m - 1] == SLASH && SLASH !in s[..m - 1]
  {
    if s[0] == SLASH {
      m := 1;
    } else {
      var j := AfterIsSuffix(s[1..]);
      m := j + 1;
      assert s[1..][j..] == s[m..] && s[..m - 1] == [s[0]] + s[1..][..j - 1];
    }
  }

  method StripPrefixes(name: Bytes) returns (r: Bytes)
    ensures r == Strip(name)
  {
    r := name;
    while Antisocial(r)
      invariant Strip(r) == Strip(name)
      decreases |r|
    {
      HasSlash(r);
      r := AfterSlash(r);
    }
    if r == [] || r == [DOT, DOT] {
      r := [DOT];
    }
  }

  // ----- Octal fields -----

  /** The last `n` octal digits of `v`: what snprintf with "%0no" prints, if they are enough. */
  function Octal(v: nat, n: nat): (r: Bytes)
    ensures |r| == n
    decreases n
  {
    if n == 0 then [] else Octal(v / 8, n - 1) + [ZERO + v % 8]
  }

  predicate IsOctal(b: byte) { 48 <= b <= 55 }

  const ULONG_MAX: nat := 0xffff_ffff

  /** parse_octal_field from offset `ofs` on, with the value so far. */
  function FieldFrom(s: Bytes, ofs: nat, value: nat): Option<nat>
    requires ofs <= |s|
    decreases |s| - ofs
  {
    if ofs == |s| then None
    else if IsOctal(s[ofs]) then
      if value > ULONG_MAX / 8 then None else FieldFrom(s, ofs + 1, s[ofs] - ZERO + value * 8)
    else if s[ofs] == SPACE || s[ofs] == 0 then (if ofs > 0 then Some(value) else None)
    else None
  }

  function Field(s: Bytes): Option<nat> { FieldFrom(s, 0, 0) }

  /** The digits of a field are its first `n` bytes, and a space or a null byte ends it. */
  ghost predicate FieldEnds(s: Bytes, n: nat) {
    0 < n < |s| && (forall i :: 0 <= i < n ==> 48 <= s[i] <= 55) && (s[n] == 32 || s[n] == 0)
  }

  function OctalValue(s: Bytes): int {
    if s == [] then 0 else 8 * OctalValue(s[..|s| - 1]) + s[|s| - 1] - 48
  }

  /** A field has a value exactly when it has at least one digit, nothing but digits before the byte
      that ends it, and a value that fits in 32 bits. */
  ghost predicate IsField(s: Bytes, r: Option<nat>) {
    match r
    case Some(v) => v <= 0xffff_ffff && exists n: nat :: FieldEnds(s, n) && v == OctalValue(s[..n])
    case None => forall n: nat :: FieldEnds(s, n) ==> OctalValue(s[..n]) > 0xffff_ffff
  }

  lemma {:induction false} FieldIsFrom(s: Bytes, ofs: nat, value: nat)
    requires ofs <= |s| && value == OctalValue(s[..ofs]) <= ULONG_MAX
    requires forall i :: 0 <= i < ofs ==> IsOctal(s[i])
    ensures IsField(s, FieldFrom(s, ofs, value))
    decreases |s| - ofs
  {
    if ofs < |s| && IsOctal(s[ofs]) {
      assert s[..ofs + 1][..ofs] == s[..ofs];
      if value > ULONG_MAX / 8 {
        forall n: nat | FieldEnds(s, n)
          ensures OctalValue(s[..n]) > 0xffff_ffff
        {
          DigitsGrow(s, ofs + 1, n);
        }
      } else {
        FieldIsFrom(s, ofs + 1, s[ofs] - ZERO + value * 8);
      }
    } else if ofs < |s| && (s[ofs] == SPACE || s[ofs] == 0) && ofs > 0 {
      assert FieldEnds(s, ofs);
    }
  }

  lemma {:induction false} DigitsGrow(s: Bytes, m: nat, n: nat)
    requires m <= |s| && n < |s| && (forall i :: 0 <= i < n ==> IsOctal(s[i])) && !IsOctal(s[n])
    requires forall i :: 0 <= i < m ==> IsOctal(s[i])
    ensures m <= n && OctalValue(s[..m]) <= OctalValue(s[..n]) && OctalValue(s[..n]) >= 0
    decreases n - m, m
  {
    if m < n {
      DigitsGrow(s, m + 1, n);
      assert s[..m + 1][..m] == s[..m];
      DigitsPositive(s[..m]);
    } else {
      DigitsPositive(s[..n]);
    }
  }

  lemma {:induction false} DigitsPositive(s: Bytes)
    requires forall i :: 0 <= i < |s| ==> IsOctal(s[i])
    ensures OctalValue(s) >= 0
  {
    if s != [] { DigitsPositive(s[..|s| - 1]); }
  }

  lemma FieldIs(s: Bytes)
    ensures IsField(s, Field(s))
  {
    FieldIsFrom(s, 0, 0);
  }

  method ParseOctalField(s: Bytes) returns (r: Option<nat>)
    ensures r == Field(s) && IsField(s, r)
  {
    hide IsField;
    FieldIs(s);
    var value := 0;
    var ofs := 0;
    while ofs < |s|
      invariant 0 <= ofs <= |s| && value >= 0 && FieldFrom(s, ofs, value) == Field(s)
    {
      var c := s[ofs];
      if IsOctal(c) {
        if value > ULONG_MAX / 8 {
          return None;
        }
        value := c - ZERO + value * 8;
      } else if c == SPACE || c == 0 {
        return if ofs > 0 then Some(value) else None;
      } else {
        return None;
      }
      ofs := ofs + 1;
    }
    return None;
  }

  /** Parsing undoes printing. */
  lemma {:induction false} OctalParses(v: nat, n: nat, s: Bytes)
    requires v < Stdio.Pow8(n) && v <= ULONG_MAX && n <= |s| && s[..n] == Octal(v, n)
    ensures FieldFrom(s, 0, 0) == FieldFrom(s, n, v)
    decreases n
  {
    if n > 0 {
      assert s[..n - 1] == Octal(v / 8, n - 1);
      OctalParses(v / 8, n - 1, s);
      assert s[n - 1] == s[..n][n - 1] == ZERO + v % 8;
    }
  }

  lemma FieldOfOctal(v: nat, n: nat)
    requires v < Stdio.Pow8(n) && v <= ULONG_MAX && n > 0
    ensures Field(Octal(v, n) + [0]) == Some(v)
  {
    var s := Octal(v, n) + [0];
    assert s[..n] == Octal(v, n);
    OctalParses(v, n, s);
  }

  // ----- Checksums -----

  /** calculate_chksum of the first `n` bytes: the chksum field counts as spaces. */
  function SumTo(h: Bytes, n: nat): (r: nat)
    requires n <= |h|
    ensures r <= 255 * n
  {
    if n == 0 then 0 else SumTo(h, n - 1) + Summand(h, n - 1)
  }

  function Summand(h: Bytes, i: nat): byte
    requires i < |h|
  {
    if CHKSUM <= i < CHKSUM_END then SPACE else h[i]
  }

  function Chksum(h: Bytes): nat
    requires |h| == HEADER_SIZE
  {
    SumTo(h, HEADER_SIZE)
  }

  method CalculateChksum(h: array<byte>) returns (chksum: nat)
    requires h.Length == HEADER_SIZE
    ensures chksum == Chksum(h[..])
  {
    chksum := 0;
    var i := 0;
    while i < HEADER_SIZE
      invariant 0 <= i <= HEADER_SIZE && chksum == SumTo(h[..], i)
    {
      var inChksumField := i >= CHKSUM && i < CHKSUM_END;
      chksum := chksum + if inChksumField then SPACE else h[i];
      i := i + 1;
    }
  }

  /** The sum depends only on the bytes outside the chksum field. */
  lemma {:induction false} SumSame(h: Bytes, h': Bytes, n: nat)
    requires n <= |h| == |h'| && forall i :: 0 <= i < n && !(CHKSUM <= i < CHKSUM_END) ==> h'[i] == h[i]
    ensures SumTo(h', n) == SumTo(h, n)
  {
    if n > 0 {
      SumSame(h, h', n - 1);
    }
  }

  /** Changing one of them changes it by the difference. */
  lemma {:induction false} SumChanged(h: Bytes, k: nat, b: byte, n: nat)
    requires k < n <= |h| && !(CHKSUM <= k < CHKSUM_END)
    ensures SumTo(h[k := b], n) == SumTo(h, n) - h[k] + b
  {
    if k < n - 1 {
      SumChanged(h, k, b, n - 1);
    } else {
      SumSame(h, h[k := b], n - 1);
    }
  }

  /** For a header of zeros it is that of the eight spaces; with SumChanged this gives the sum of any. */
  lemma ZerosSum(h: Bytes)
    requires |h| == HEADER_SIZE && forall i :: 0 <= i < 512 ==> h[i] == 0
    ensures Chksum(h) == 8 * 32
  {
    ZerosSumTo(h, HEADER_SIZE);
  }

  lemma {:induction false} ZerosSumTo(h: Bytes, n: nat)
    requires n <= |h| == HEADER_SIZE && forall i :: 0 <= i < 512 ==> h[i] == 0
    ensures SumTo(h, n) == 32 * if n <= 148 then 0 else if n <= 156 then n - 148 else 8
  {
    if n > 0 { ZerosSumTo(h, n - 1); }
  }

  // ----- Headers -----

  predicate IsName(s: Bytes) { forall i :: 0 <= i < |s| ==> s[i] != 0 }

  function Mode(typ: byte): nat { if typ == REGULAR then 0x1a4 else 0x1ed }

  /** The octal digits of a field of `n` bytes that starts at `ofs`, and its terminator. */
  function OctalAt(v: nat, ofs: nat, n: nat, i: nat): byte
    requires ofs <= i < ofs + n
  {
    if i == ofs + n - 1 then 0 else Octal(v, n - 1)[i - ofs]
  }

  /** Byte `i` of the header for a file; `chksum` is the checksum. */
  function ByteAt(name: Bytes, typ: byte, size: nat, chksum: nat, i: nat): byte {
    if i < 100 then (if i < |name| then name[i] else 0)
    else if i < 108 then OctalAt(Mode(typ), 100, 8, i)
    else if i < 116 then OctalAt(0, 108, 8, i)
    else if i < 124 then OctalAt(0, 116, 8, i)
    else if i < 136 then OctalAt(size, 124, 12, i)
    else if i < 148 then OctalAt(MTIME, 136, 12, i)
    else if i < 156 then OctalAt(chksum, 148, 8, i)
    else if i == 156 then typ
    else if 257 <= i < 263 then MAGIC[i - 257]
    else if 263 <= i < 265 then ZERO
    else if 265 <= i < 269 then ROOT[i - 265]
    else if 297 <= i < 301 then ROOT[i - 297]
    else 0
  }

  function Filled(name: Bytes, typ: byte, size: nat, chksum: nat): (h: Bytes)
    ensures |h| == HEADER_SIZE
  {
    seq(HEADER_SIZE, i requires 0 <= i < HEADER_SIZE => ByteAt(name, typ, size, chksum, i))
  }

  /** The header for a file, with its checksum. */
  function HeaderFor(name: Bytes, typ: byte, size: nat): (h: Bytes)
    ensures |h| == HEADER_SIZE
  {
    Filled(name, typ, size, Chksum(Filled(name, typ, size, 0)))
  }

  datatype Error = NotUstar | BadVersion | CorruptChksum | Mismatch | NameTooLong | BadType | CorruptSize | TooLarge

  datatype Parsed = Eof | Bad(error: Error) | File(name: Bytes, typ: byte, size: nat)

  /** ustar_parse_header */
  function Parse(h: Bytes): Parsed
    requires |h| == HEADER_SIZE
  {
    if forall i :: 0 <= i < |h| ==> h[i] == 0 then Eof
    else if h[257..263] != MAGIC then Bad(NotUstar)
    else if h[263] != ZERO || h[264] != ZERO then Bad(BadVersion)
    else if Field(h[148..156]).None? then Bad(CorruptChksum)
    else if Field(h[148..156]).value != Chksum(h) then Bad(Mismatch)
    else if h[99] != 0 || h[345] != 0 then Bad(NameTooLong)
    else if h[156] != REGULAR && h[156] != DIRECTORY then Bad(BadType)
    else if h[156] == DIRECTORY then File(Strip(CString(h[..100])), DIRECTORY, 0)
    else if Field(h[124..136]).None? then Bad(CorruptSize)
    else if Field(h[124..136]).value > 0x7fff_ffff then Bad(TooLarge)
    else File(Strip(CString(h[..100])), REGULAR, Field(h[124..136]).value)
  }

  /** What a header must pass, in order, and what it is told if it does not. */
  ghost function Checks(h: Bytes): seq<(bool, Error)>
    requires |h| == HEADER_SIZE
  {
    var size := Field(h[124..136]);
    [ (h[257..263] == [117, 115, 116, 97, 114, 0], NotUstar),
      (h[263..265] == [48, 48], BadVersion),
      (Field(h[148..156]).Some?, CorruptChksum),
      (Field(h[148..156]) == Some(Chksum(h)), Mismatch),
      (h[99] == 0 && h[345] == 0, NameTooLong),
      (h[156] == 48 || h[156] == 53, BadType),
      (h[156] == 53 || size.Some?, CorruptSize),
      (h[156] == 53 || (size.Some? && size.value < 0x8000_0000), TooLarge) ]
  }

  /** A header of zeros ends the archive; any other gets the error of the first check that it fails, and
      is accepted if it passes them all. */
  lemma ParseIs(h: Bytes)
    requires |h| == HEADER_SIZE
    ensures Parse(h) == Eof <==> forall i :: 0 <= i < 512 ==> h[i] == 0
    ensures Parse(h) == Eof || Parse(h) ==
      match FirstFailed(Checks(h))
      case Some(error) => Bad(error)
      case None =>
        File(Strip(CString(h[..100])), h[156], if h[156] == 53 then 0 else SizeOr(Field(h[124..136]), 0))
  {
    hide Strip, Field, SumTo, CString, FirstFailed;
    assert h[263..265] == [48, 48] <==> h[263] == ZERO && h[264] == ZERO;
    FailedOf(Checks(h));
  }

  function SizeOr(size: Option<nat>, other: nat): nat { if size.Some? then size.value else other }

  /** The error of the first check that fails. */
  function FirstFailed(checks: seq<(bool, Error)>): Option<Error> {
    if checks == [] then None else if !checks[0].0 then Some(checks[0].1) else FirstFailed(checks[1..])
  }

  lemma FailedOf(c: seq<(bool, Error)>)
    requires |c| == 8
    ensures FirstFailed(c) ==
      if !c[0].0 then Some(c[0].1) else if !c[1].0 then Some(c[1].1) else if !c[2].0 then Some(c[2].1)
      else if !c[3].0 then Some(c[3].1) else if !c[4].0 then Some(c[4].1) else if !c[5].0 then Some(c[5].1)
      else if !c[6].0 then Some(c[6].1) else if !c[7].0 then Some(c[7].1) else None
  {
    hide FirstFailed;
    assert c[0..] == c;
    FailedFrom(c, 0);
    FailedFrom(c, 1);
    FailedFrom(c, 2);
    FailedFrom(c, 3);
    FailedFrom(c, 4);
    FailedFrom(c, 5);
    FailedFrom(c, 6);
    FailedFrom(c, 7);
    FailedFrom(c, 8);
  }

  lemma FailedFrom(c: seq<(bool, Error)>, k: nat)
    requires k <= |c|
    ensures FirstFailed(c[k..]) ==
      if k == |c| then None else if !c[k].0 then Some(c[k].1) else FirstFailed(c[k + 1..])
  {
    if k < |c| { assert c[k..][1..] == c[k + 1..]; }
  }

  /** What ustar_make_header makes of an int: its value as an unsigned number. */
  function Unsigned(size: int): nat
    requires -0x8000_0000 <= size <= 0x7fff_ffff
  {
    if size < 0 then size + WORD else size
  }

  lemma Pow8Values()
    ensures Stdio.Pow8(7) == 0x20_0000 && Stdio.Pow8(11) == 0x2_0000_0000
  {
    assert Stdio.Pow8(4) == 4096;
    assert Stdio.Pow8(8) == 0x100_0000;
  }

  /** The fields that do not depend on the file, or on its type alone: the permissions 0644 or 0755,
      user and group 0, the time, the type, magic and version, and the names "root". */
  lemma HeaderConstants(name: Bytes, typ: byte, size: nat)
    ensures
      var h := HeaderFor(name, typ, size);
      && h[100..108] == [48, 48, 48, 48] + (if typ == 48 then [54, 52, 52, 0] else [55, 53, 53, 0])
      && h[108..116] == h[116..124] == [48, 48, 48, 48, 48, 48, 48, 0]
      && h[136..148] == [49, 48, 51, 53, 53, 55, 48, 54, 48, 48, 48, 0]
      && h[156] == typ && h[257..265] == [117, 115, 116, 97, 114, 0, 48, 48]
      && h[265..269] == h[297..301] == [114, 111, 111, 116]
      && (forall i :: 157 <= i < 512 && !(257 <= i < 269) && !(297 <= i < 301) ==> h[i] == 0)
  {
    hide SumTo, Octal;
    var h := HeaderFor(name, typ, size);
    OctalConstants();
    assert h[100..108] == Octal(Mode(typ), 7) + [0];
    assert h[108..116] == Octal(0, 7) + [0] && h[116..124] == Octal(0, 7) + [0];
    assert h[136..148] == Octal(MTIME, 11) + [0];
  }

  lemma OctalConstants()
    ensures Octal(0x1a4, 7) == [48, 48, 48, 48, 54, 52, 52] && Octal(0x1ed, 7) == [48, 48, 48, 48, 55, 53, 53]
    ensures Octal(0, 7) == [48, 48, 48, 48, 48, 48, 48]
    ensures Octal(MTIME, 11) == [49, 48, 51, 53, 53, 55, 48, 54, 48, 48, 48]
  {
    hide Octal;
    OctalZeros();
    OctalThree(0x1a4, 7);
    OctalThree(0x1ed, 7);
    OctalTime();
  }

  lemma OctalZeros()
    ensures Octal(0, 4) == [48, 48, 48, 48] && Octal(0, 7) == [48, 48, 48, 48, 48, 48, 48]
  {
    hide Octal;
    OctalOne();
    OctalThree(0, 4);
    OctalThree(0, 7);
  }

  lemma OctalTime()
    ensures Octal(MTIME, 11) == [49, 48, 51, 53, 53, 55, 48, 54, 48, 48, 48]
  {
    hide Octal;
    OctalOne();
    OctalThree(0x10ed, 5);
    assert Octal(0x10ed, 5) == [49, 48, 51, 53, 53];
    OctalThree(0x21dbc6, 8);
    assert Octal(0x21dbc6, 8) == [49, 48, 51, 53, 53, 55, 48, 54];
    OctalThree(MTIME, 11);
  }

  lemma OctalOne()
    ensures Octal(0, 1) == [48] && Octal(8, 2) == [49, 48]
  {
  }

  /** The last three digits. */
  lemma OctalThree(v: nat, n: nat)
    requires n >= 3
    ensures Octal(v, n) == Octal(v / 512, n - 3) + [48 + v / 64 % 8, 48 + v / 8 % 8, 48 + v % 8]
  {
    assert Octal(v / 8, n - 1) == Octal(v / 64, n - 2) + [48 + v / 8 % 8];
    assert Octal(v / 64, n - 2) == Octal(v / 512, n - 3) + [48 + v / 64 % 8];
  }

  lemma FilledField(name: Bytes, typ: byte, size: nat, chksum: nat)
    ensures var h := Filled(name, typ, size, chksum);
      && h[257..263] == MAGIC && h[148..156] == Octal(chksum, 7) + [0] && h[124..136] == Octal(size, 11) + [0]
      && h[156] == typ && h[263] == ZERO && h[264] == ZERO && h[345] == 0
  {
    hide Octal, Mode;
    var h := Filled(name, typ, size, chksum);
    assert h[257..263] == MAGIC;
    assert h[148..156] == Octal(chksum, 7) + [0];
    assert h[124..136] == Octal(size, 11) + [0];
  }

  lemma NameOf(name: Bytes, s: Bytes)
    requires IsName(name) && |name| < |s| && s[..|name|] == name && s[|name|] == 0
    ensures CString(s) == name
  {
    assert s == name + [0] + s[|name| + 1..];
    CStringOf(name, s[|name| + 1..]);
  }

  /** Reading a header that was made gives the name, the type and the size back; for a regular file
      exactly when the size is not negative. */
  lemma RoundTrip(name: Bytes, typ: byte, size: int)
    requires IsName(name) && Clean(name) && |name| <= 99 && typ in {REGULAR, DIRECTORY}
    requires -0x8000_0000 <= size <= 0x7fff_ffff
    ensures Parse(HeaderFor(name, typ, Unsigned(size))) ==
      if typ == DIRECTORY then File(name, typ, 0) else if size >= 0 then File(name, typ, size) else Bad(TooLarge)
  {
    hide Octal, Field, Filled, SumTo, CString, Strip;
    var n := Unsigned(size);
    var empty := Filled(name, typ, n, 0);
    var chksum := Chksum(empty);
    var h := Filled(name, typ, n, chksum);
    FilledSum(name, typ, n, chksum);
    FilledField(name, typ, n, chksum);
    FilledName(name, typ, n, chksum);
    Pow8Values();
    SumBound(empty);
    FieldOfOctal(chksum, 7);
    FieldOfOctal(n, 11);
    StripIsClean(name);
    assert h[263] != 0;
  }

  lemma SumBound(h: Bytes)
    requires |h| == HEADER_SIZE
    ensures Chksum(h) <= 255 * HEADER_SIZE
  {
  }

  lemma FilledSum(name: Bytes, typ: byte, size: nat, chksum: nat)
    ensures Chksum(Filled(name, typ, size, chksum)) == Chksum(Filled(name, typ, size, 0))
  {
    hide Octal, Mode;
    SumSame(Filled(name, typ, size, 0), Filled(name, typ, size, chksum), HEADER_SIZE);
  }

  lemma FilledName(name: Bytes, typ: byte, size: nat, chksum: nat)
    requires IsName(name) && |name| <= 99
    ensures var h := Filled(name, typ, size, chksum); h[99] == 0 && CString(h[..100]) == name
  {
    hide Octal, Mode;
    var h := Filled(name, typ, size, chksum);
    assert h[..100][..|name|] == name;
    NameOf(name, h[..100]);
  }

  /** Any change of a single byte outside the chksum field of an accepted header is detected. */
  lemma ChangeRejected(h: Bytes, k: nat, b: byte)
    requires |h| == HEADER_SIZE && Parse(h).File? && k < HEADER_SIZE && b != h[k] && !(CHKSUM <= k < CHKSUM_END)
    ensures Parse(h[k := b]).Bad?
  {
    hide SumTo, Field, CString, Strip;
    var h' := h[k := b];
    SumChanged(h, k, b, HEADER_SIZE);
    assert h'[148..156] == h[148..156];
    assert h[257..263][0] == 117 && h[257..263][1] == 115;
    assert h'[257] != 0 || h'[258] != 0;
  }

  // ----- The operations -----

  /** memcpy of `data` to offset `ofs`. */
  method Store(a: array<byte>, ofs: nat, data: Bytes)
    requires ofs + |data| <= a.Length
    modifies a
    ensures forall i :: 0 <= i < a.Length ==> a[i] == if ofs <= i < ofs + |data| then data[i - ofs] else old(a[i])
  {
    var k := 0;
    while k < |data|
      invariant 0 <= k <= |data|
      invariant forall i :: 0 <= i < a.Length ==> a[i] == if ofs <= i < ofs + k then data[i - ofs] else old(a[i])
    {
      a[ofs + k] := data[k];
      k := k + 1;
    }
  }

  /** The header as it is before the checksum is stored. */
  ghost predicate FilledBut(a: seq<byte>, name: Bytes, typ: byte, size: nat) {
    && |a| == HEADER_SIZE
    && forall i :: 0 <= i < HEADER_SIZE && !(CHKSUM <= i < CHKSUM_END) ==> a[i] == ByteAt(name, typ, size, 0, i)
  }

  /** ustar_make_header.  It fails only if the stripped name is too long. */
  method MakeHeader(fileName: Bytes, typ: byte, size: int, header: array<byte>) returns (ok: bool)
    requires header.Length == HEADER_SIZE && typ in {REGULAR, DIRECTORY} && -0x8000_0000 <= size <= 0x7fff_ffff
    modifies header
    ensures ok <==> |Strip(fileName)| <= 99
    ensures ok ==> header[..] == HeaderFor(Strip(fileName), typ, Unsigned(size))
    ensures !ok ==> header[..] == old(header[..])
  {
    hide Strip, Octal;
    var name := StripPrefixes(fileName);
    if |name| > 99 {
      return false;
    }
    FillHeader(name, typ, Unsigned(size), header);
    ghost var h := header[..];
    var chksum := CalculateChksum(header);
    SumSame(Filled(name, typ, Unsigned(size), 0), h, HEADER_SIZE);
    Store(header, 148, Octal(chksum, 7) + [0]);
    assert header[..] == Filled(name, typ, Unsigned(size), chksum);
    return true;
  }

  /** The fields other than the checksum. */
  method FillHeader(name: Bytes, typ: byte, size: nat, header: array<byte>)
    requires header.Length == HEADER_SIZE && |name| <= 99
    modifies header
    ensures FilledBut(header[..], name, typ, size)
  {
    hide Octal;
    FillFront(name, typ, size, header);
    Store(header, 257, MAGIC);
    header[263] := ZERO;
    header[264] := ZERO;
    Store(header, 297, ROOT + [0]);
    Store(header, 265, ROOT + [0]);
  }

  /** The fields up to the type. */
  method FillFront(name: Bytes, typ: byte, size: nat, header: array<byte>)
    requires header.Length == HEADER_SIZE && |name| <= 99
    modifies header
    ensures forall i :: 0 <= i < 157 && !(CHKSUM <= i < CHKSUM_END) ==> header[i] == ByteAt(name, typ, size, 0, i)
    ensures forall i :: 157 <= i < HEADER_SIZE ==> header[i] == 0
  {
    hide Octal;
    Store(header, 0, seq(HEADER_SIZE, i => 0));
    Store(header, 0, name + [0]);
    Store(header, 100, Octal(Mode(typ), 7) + [0]);
    Store(header, 108, Octal(0, 7) + [0]);
    Store(header, 116, Octal(0, 7) + [0]);
    Store(header, 124, Octal(size, 11) + [0]);
    Store(header, 136, Octal(MTIME, 11) + [0]);
    header[156] := typ;
  }

  /** ustar_parse_header */
  method ParseHeader(header: Bytes) returns (r: Parsed)
    requires |header| == HEADER_SIZE
    ensures r == Parse(header)
  {
    hide Strip, Field, SumTo;
    var zeros := IsAllZeros(header);
    if zeros {
      return Eof;
    }
    if header[257..263] != MAGIC {
      return Bad(NotUstar);
    }
    if header[263] != ZERO || header[264] != ZERO {
      return Bad(BadVersion);
    }
    var chksum := ParseOctalField(header[148..156]);
    if chksum.None? {
      return Bad(CorruptChksum);
    }
    if chksum.value != Chksum(header) {
      return Bad(Mismatch);
    }
    if header[99] != 0 || header[345] != 0 {
      return Bad(NameTooLong);
    }
    if header[156] != REGULAR && header[156] != DIRECTORY {
      return Bad(BadType);
    }
    var size := Some(0);
    if header[156] == REGULAR {
      size := ParseOctalField(header[124..136]);
      if size.None? {
        return Bad(CorruptSize);
      }
      if size.value > 0x7fff_ffff {
        return Bad(TooLarge);
      }
    }
    var name := StripPrefixes(CString(header[..100]));
    return File(name, header[156], size.value);
  }

  method IsAllZeros(block: Bytes) returns (r: bool)
    ensures r <==> forall i :: 0 <= i < |block| ==> block[i] == 0
  {
    var i := 0;
    while i < |block|
      invariant 0 <= i <= |block| && forall k :: 0 <= k < i ==> block[k] == 0
    {
      if block[i] != 0 {
        return false;
      }
      i := i + 1;
    }
    return true;
  }

  /** An archive of any name that is made and read back: the stripped name, the type and the size. */
  method MakeAndParse(fileName: Bytes, typ: byte, size: int, header: array<byte>) returns (r: Parsed)
    requires header.Length == HEADER_SIZE && typ in {REGULAR, DIRECTORY} && 0 <= size <= 0x7fff_ffff && IsName(fileName)
    modifies header
    ensures |Strip(fileName)| <= 99 ==> r == File(Strip(fileName), typ, if typ == DIRECTORY then 0 else size)
  {
    hide Parse, HeaderFor, Strip;
    var ok := MakeHeader(fileName, typ, size, header);
    if !ok {
      return Bad(NameTooLong);
    }
    StripIsClean(fileName);
    StripIsName(fileName);
    RoundTrip(Strip(fileName), typ, size);
    r := ParseHeader(header[..]);
  }

  lemma StripIsName(s: Bytes)
    requires IsName(s)
    ensures IsName(Strip(s))
  {
    var k := StripIs(s);
  }

  // ----- Octal fields and printf -----

  function Chars(s: Bytes): (r: string)
    ensures |r| == |s|
  {
    seq(|s|, i requires 0 <= i < |s| => s[i] as char)
  }

  /** The format "%0no" prints exactly these digits. */
  lemma OctalIsPrintf(v: nat, n: nat)
    requires v < Stdio.Pow8(n) && n > 0
    ensures Stdio.Rendered(v, false, false, Stdio.BASE_O,
      Stdio.Conversion(false, false, false, false, true, false, n, -1)) ==
            Chars(Octal(v, n))
  {
    hide Stdio.RevDigits, Stdio.Reverse, Octal, Stdio.Pow8, Stdio.Repeat, Chars;
    PrintedDigits(v, n, 0);
    var digits := Stdio.RevDigits(v, Stdio.BASE_O, false, 0);
    var c := Stdio.Conversion(false, false, false, false, true, false, n, -1);
    ReverseOne();
    if v == 0 {
      Stdio.NoDigits(Stdio.BASE_O, false, 0);
      assert Stdio.RevNumber(v, Stdio.BASE_O, c) == "0";
    } else {
      HasDigits(v);
      assert Stdio.RevNumber(v, Stdio.BASE_O, c) == digits;
    }
  }

  lemma HasDigits(v: nat)
    requires v > 0
    ensures |Stdio.RevDigits(v, Stdio.BASE_O, false, 0)| >= 1
  {
  }

  lemma ReverseOne()
    ensures Stdio.Reverse("0") == "0" && Stdio.Reverse("") == ""
  {
  }

  lemma {:induction false} PrintedDigits(v: nat, n: nat, cnt: nat)
    requires v < Stdio.Pow8(n)
    ensures var d := Stdio.Reverse(Stdio.RevDigits(v, Stdio.BASE_O, false, cnt));
      |d| <= n && Stdio.Repeat('0', n - |d|) + d == Chars(Octal(v, n))
    decreases n
  {
    hide Stdio.RevDigits;
    if n > 0 {
      PrintedDigits(v / 8, n - 1, cnt + 1);
      var rest := Stdio.RevDigits(v / 8, Stdio.BASE_O, false, cnt + 1);
      var e := Stdio.Reverse(rest);
      CharsOfLast(Octal(v / 8, n - 1), ZERO + v % 8);
      if v > 0 {
        var x := Stdio.BASE_O.digits[v % 8];
        Stdio.RevUngrouped(v, Stdio.BASE_O, cnt);
        assert ([x] + rest)[1..] == rest;
        assert Stdio.Reverse([x] + rest) == e + [x];
        OctalDigit(v % 8);
        assert Stdio.Repeat('0', n - |e + [x]|) + (e + [x]) == (Stdio.Repeat('0', n - 1 - |e|) + e) + [x];
      } else {
        Stdio.NoDigits(Stdio.BASE_O, false, cnt);
        Stdio.NoDigits(Stdio.BASE_O, false, cnt + 1);
        assert Stdio.Repeat('0', n) + "" == (Stdio.Repeat('0', n - 1) + "") + ['0'];
      }
    } else {
      Stdio.NoDigits(Stdio.BASE_O, false, cnt);
    }
  }

  lemma CharsOfLast(s: Bytes, b: byte)
    ensures Chars(s + [b]) == Chars(s) + [b as char]
  {
  }

  lemma OctalDigit(k: nat)
    requires k < 8
    ensures Stdio.BASE_O.digits[k] == (48 + k) as char
  {
  }
}
