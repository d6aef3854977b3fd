/** Integer conversions of printf, vsnprintf and atoi (src/lib/stdio.c, src/lib/stdlib.c), as sections
    7.19.6.1, 7.19.6.12 and 7.20.1.2 of C99 promise them.  A string ends where the sequence ends. */
module Stdio {
  import opened Words
  import A = Arithmetic

  /** struct printf_conversion: flags, field width and precision (negative if there is none). */
  datatype Conversion = Conversion(minus: bool, plus: bool, space: bool, pound: bool, zero: bool, group: bool,
                                   width: nat, precision: int)

  /** struct integer_base */
  datatype Base = Base(base: nat, digits: string, x: Option<char>, groupLen: nat)

  const BASE_D := Base(10, "0123456789", None, 3)
  const BASE_O := Base(8, "01234567", None, 3)
  const BASE_X := Base(16, "0123456789abcdef", Some('x'), 4)
  const BASE_UX := Base(16, "0123456789ABCDEF", Some('X'), 4)

  const UINTMAX: nat := 0xffff_ffff_ffff_ffff

  predicate BaseOk(b: Base) { 8 <= b.base == |b.digits| && b.groupLen > 0 }

  // ----- What format_integer writes -----

  /** The digits of `value`, last one first, with commas between groups. */
  function RevDigits(value: nat, b: Base, group: bool, cnt: nat): string
    requires BaseOk(b)
  {
    if value == 0 then ""
    else
      A.QuotientNat(value, b.base);
      A.Quotient(value, b.base);
      A.TimesLess(2, b.base, value / b.base);
      (if group && cnt > 0 && cnt % b.groupLen == 0 then "," else "") + [b.digits[value % b.base]] +
      RevDigits(value / b.base, b, group, cnt + 1)
  }

  function Repeat(ch: char, n: nat): (s: string)
    ensures |s| == n && forall i :: 0 <= i < n ==> s[i] == ch
  {
    seq(n, i => ch)
  }

  function Reverse(s: string): (r: string)
    ensures |r| == |s|
  {
    if s == "" then "" else Reverse(s[1..]) + [s[0]]
  }

  /** The digits and the zeros that the precision asks for, last one first. */
  function RevNumber(value: nat, b: Base, c: Conversion): string
    requires BaseOk(b)
  {
    var digits := RevDigits(value, b, c.group, 0);
    var precision := if c.precision < 0 then 1 else c.precision;
    var zeros := digits + Repeat('0', if |digits| < Min(precision, 63) then Min(precision, 63) - |digits| else 0);
    if c.pound && b.base == 8 && (zeros == "" || zeros[|zeros| - 1] != '0') then zeros + "0" else zeros
  }

  function Sign(c: Conversion, isSigned: bool, negative: bool): string {
    if !isSigned then ""
    else if c.plus then (if negative then "-" else "+")
    else if c.space then (if negative then "-" else " ")
    else if negative then "-" else ""
  }

  function Prefix(value: nat, b: Base, c: Conversion): string {
    if c.pound && value > 0 && b.x.Some? then ['0', b.x.value] else ""
  }

  function PadCnt(c: Conversion, used: nat): nat { if used < c.width then c.width - used else 0 }

  function Rendered(value: nat, isSigned: bool, negative: bool, b: Base, c: Conversion): string
    requires BaseOk(b)
  {
    var number := Reverse(RevNumber(value, b, c));
    var sign := Sign(c, isSigned, negative);
    var x := Prefix(value, b, c);
    var pad := PadCnt(c, |number| + |x| + |sign|);
    (if !c.minus && !c.zero then Repeat(' ', pad) else "") + sign + x + (if c.zero then Repeat('0', pad) else "") +
    number + (if c.minus then Repeat(' ', pad) else "")
  }

  /** The output is as wide as the field, or as wide as the number needs. */
  lemma RenderedWidth(value: nat, isSigned: bool, negative: bool, b: Base, c: Conversion)
    requires BaseOk(b) && !(c.minus && c.zero)
    ensures |Rendered(value, isSigned, negative, b, c)| >= c.width
    ensures |Rendered(value, isSigned, negative, b, c)| ==
            if |Rendered(value, isSigned, negative, b, c.(width := 0))| < c.width then c.width
            else |Rendered(value, isSigned, negative, b, c.(width := 0))|
  {
    assert RevNumber(value, b, c) == RevNumber(value, b, c.(width := 0));
  }

  // ----- format_integer -----

  function Pow8(k: nat): (r: nat)
    ensures r >= 1
  {
    if k == 0 then 1 else 8 * Pow8(k - 1)
  }

  lemma DivideDigit(value: nat, base: nat, k: nat)
    requires 8 <= base && 0 < value < Pow8(k)
    ensures k > 0 && 0 <= value / base < Pow8(k - 1) && value / base < value
  {
    var p := Pow8(k - 1);
    A.QuotientNat(value, base);
    A.TimesLess(8, base, p);
    A.NotMore(value, base, p);
    A.Quotient(value, base);
    A.TimesLess(2, base, value / base);
  }

  lemma Pow8Of22()
    ensures Pow8(22) > UINTMAX
  {
    assert Pow8(4) == 4096;
    assert Pow8(8) == 0x100_0000;
    assert Pow8(12) == 0x10_0000_0000;
    assert Pow8(16) == 0x1_0000_0000_0000;
    assert Pow8(20) == 0x1000_0000_0000_0000;
  }

  /** `*cp++ = ch` */
  method Push(buf: array<char>, cp: nat, ch: char) returns (cp': nat)
    requires cp < buf.Length
    modifies buf
    ensures cp' == cp + 1 && buf[..cp'] == old(buf[..cp]) + [ch]
  {
    buf[cp] := ch;
    cp' := cp + 1;
  }

  /** format_integer: the digits go to a buffer of 64 characters, which is never exceeded. */
  method FormatInteger(value0: nat, isSigned: bool, negative: bool, b: Base, c: Conversion) returns (out: string)
    requires BaseOk(b) && value0 <= UINTMAX
    ensures out == Rendered(value0, isSigned, negative, b, c)
  {
    hide RevDigits, Reverse, RevNumber, Sign, Prefix, PadCnt, Repeat;
    var sign := Sign(c, isSigned, negative);
    var x := Prefix(value0, b, c);
    var buf := new char[64];
    var cp := PutNumber(buf, value0, b, c);
    var padCnt := PadCnt(c, cp + |x| + |sign|);
    out := if !c.minus && !c.zero then Repeat(' ', padCnt) else "";
    out := out + sign + x;
    out := out + if c.zero then Repeat('0', padCnt) else "";
    var number := OutputBuffer(buf, cp);
    out := out + number;
    out := out + if c.minus then Repeat(' ', padCnt) else "";
  }

  /** What format_integer puts into the buffer. */
  method PutNumber(buf: array<char>, value: nat, b: Base, c: Conversion) returns (cp: nat)
    requires BaseOk(b) && value <= UINTMAX && buf.Length == 64
    modifies buf
    ensures cp <= 64 && buf[..cp] == RevNumber(value, b, c)
  {
    hide RevDigits;
    cp := PutDigits(buf, value, b, c.group);
    var precision := if c.precision < 0 then 1 else c.precision;
    ghost var digits := buf[..cp];
    while cp < precision && cp < 63
      invariant |digits| <= cp <= 63 && buf[..cp] == digits + Repeat('0', cp - |digits|)
      invariant cp == |digits| || cp <= precision
      decreases 63 - cp
    {
      cp := Push(buf, cp, '0');
    }
    if c.pound && b.base == 8 && (cp == 0 || buf[cp - 1] != '0') {
      cp := Push(buf, cp, '0');
    }
  }

  /** The loop that accumulates digits in reverse order: at most 22 of them, and commas. */
  method PutDigits(buf: array<char>, value0: nat, b: Base, group: bool) returns (cp: nat)
    requires BaseOk(b) && value0 <= UINTMAX && buf.Length == 64
    modifies buf
    ensures cp <= 44 && buf[..cp] == RevDigits(value0, b, group, 0)
  {
    hide Pow8, RevDigits;
    Pow8Of22();
    var value, digitCnt := value0, 0;
    cp := 0;
    while value > 0
      invariant 0 <= value && digitCnt <= 22 && value < Pow8(22 - digitCnt) && cp <= 2 * digitCnt
      invariant buf[..cp] + RevDigits(value, b, group, digitCnt) == RevDigits(value0, b, group, 0)
      decreases value
    {
      DivideDigit(value, b.base, 22 - digitCnt);
      RevStep(value, b, group, digitCnt, buf[..cp]);
      if group && digitCnt > 0 && digitCnt % b.groupLen == 0 {
        cp := Push(buf, cp, ',');
      }
      cp := Push(buf, cp, b.digits[value % b.base]);
      value := value / b.base;
      digitCnt := digitCnt + 1;
    }
    NoDigits(b, group, digitCnt);
  }

  lemma RevStep(value: nat, b: Base, group: bool, cnt: nat, done: string)
    requires BaseOk(b) && value > 0 && 0 <= value / b.base
    ensures done + RevDigits(value, b, group, cnt) ==
            (if group && cnt > 0 && cnt % b.groupLen == 0 then done + "," else done) + [b.digits[value % b.base]] +
            RevDigits(value / b.base, b, group, cnt + 1)
  {
  }

  lemma RevUngrouped(value: nat, b: Base, cnt: nat)
    requires BaseOk(b) && value > 0
    ensures 0 <= value / b.base
    ensures RevDigits(value, b, false, cnt) == [b.digits[value % b.base]] + RevDigits(value / b.base, b, false, cnt + 1)
  {
    A.QuotientNat(value, b.base);
  }

  lemma NoDigits(b: Base, group: bool, cnt: nat)
    requires BaseOk(b)
    ensures RevDigits(0, b, group, cnt) == ""
  {
  }

  /** The loop that outputs the buffer from its end. */
  method OutputBuffer(buf: array<char>, cp0: nat) returns (out: string)
    requires cp0 <= buf.Length
    ensures out == Reverse(buf[..cp0])
  {
    var cp := cp0;
    out := "";
    while cp > 0
      invariant 0 <= cp <= cp0 && out + Reverse(buf[..cp]) == Reverse(buf[..cp0])
    {
      cp := cp - 1;
      ReverseLast(buf[..cp], buf[cp]);
      assert buf[..cp + 1] == buf[..cp] + [buf[cp]];
      out := out + [buf[cp]];
    }
  }

  lemma {:induction false} ReverseLast(s: string, ch: char)
    ensures Reverse(s + [ch]) == [ch] + Reverse(s)
  {
    if s != "" {
      ReverseLast(s[1..], ch);
      assert (s + [ch])[1..] == s[1..] + [ch];
    }
  }

  // ----- atoi -----

  const INT_MIN: int := -0x8000_0000
  const INT_MAX: int := 0x7fff_ffff

  predicate IsSpace(ch: char) { ch in " \U{000c}\n\r\t\U{000b}" }

  predicate IsDigit(ch: char) { '0' <= ch <= '9' }

  function DigitOf(ch: char): nat
    requires IsDigit(ch)
  {
    ch as int - '0' as int
  }

  /** The number that the digits at the start of `s` continue from `acc`. */
  function Value(s: string, acc: nat): (v: nat)
    ensures v >= acc
  {
    if s == "" || !IsDigit(s[0]) then acc else Value(s[1..], 10 * acc + DigitOf(s[0]))
  }

  function SkipSpace(s: string): string {
    if s != "" && IsSpace(s[0]) then SkipSpace(s[1..]) else s
  }

  /** The number that `s` stands for. */
  function Parse(s: string): int {
    var t := SkipSpace(s);
    if t != "" && t[0] == '+' then Value(t[1..], 0)
    else if t != "" && t[0] == '-' then 0 - Value(t[1..], 0)
    else Value(t, 0)
  }

  /** atoi, for strings that stand for an int: the value is built up negative, and never
      overflows. */
  method Atoi(s: string) returns (value: int)
    requires INT_MIN <= Parse(s) <= INT_MAX
    ensures value == Parse(s)
  {
    hide Value, SkipSpace;
    var i := SkipWhite(s);
    ghost var start := i;
    var negative := false;
    if i < |s| && s[i] == '+' {
      i := i + 1;
    } else if i < |s| && s[i] == '-' {
      negative := true;
      i := i + 1;
    }
    SignedIs(s, start);
    value := ReadDigits(s, i);
    if !negative {
      value := -value;
    }
  }

  /** What Parse makes of the text after the white space. */
  lemma SignedIs(s: string, i: nat)
    requires i <= |s| && SkipSpace(s) == s[i..]
    ensures Parse(s) == if i < |s| && s[i] == '+' then Value(s[i + 1..], 0)
                        else if i < |s| && s[i] == '-' then 0 - Value(s[i + 1..], 0) else Value(s[i..], 0)
  {
    hide Value, SkipSpace;
    assert i < |s| ==> s[i..][0] == s[i] && s[i..][1..] == s[i + 1..];
  }

  method SkipWhite(s: string) returns (i: nat)
    ensures i <= |s| && SkipSpace(s) == s[i..]
  {
    i := 0;
    while i < |s| && IsSpace(s[i])
      invariant 0 <= i <= |s| && SkipSpace(s[i..]) == SkipSpace(s)
    {
      assert s[i..][1..] == s[i + 1..];
      i := i + 1;
    }
  }

  /** The loop of atoi over digits. */
  method ReadDigits(s: string, i0: nat) returns (value: int)
    requires i0 <= |s| && Value(s[i0..], 0) <= 0 - INT_MIN
    ensures value == 0 - Value(s[i0..], 0)
  {
    var i := i0;
    value := 0;
    while i < |s| && IsDigit(s[i])
      invariant i0 <= i <= |s| && INT_MIN <= value <= 0
      invariant Value(s[i..], 0 - value) == Value(s[i0..], 0)
    {
      assert s[i..][0] == s[i] && s[i..][1..] == s[i + 1..];
      value := value * 10 - DigitOf(s[i]);
      i := i + 1;
      assert 0 - value <= Value(s[i..], 0 - value);
    }
  }

  // ----- The round trip -----

  predicate AllDigits(s: string) { forall i :: 0 <= i < |s| ==> IsDigit(s[i]) }

  lemma {:induction false} ValueOfConcat(a: string, b: string, acc: nat)
    requires AllDigits(a)
    ensures Value(a + b, acc) == Value(b, Value(a, acc))
    decreases |a|
  {
    if a == "" {
      assert a + b == b;
    } else {
      assert (a + b)[1..] == a[1..] + b;
      ValueOfConcat(a[1..], b, 10 * acc + DigitOf(a[0]));
    }
  }

  lemma {:induction false} ValueOfZeros(n: nat)
    ensures Value(Repeat('0', n), 0) == 0 && AllDigits(Repeat('0', n))
  {
    if n > 0 {
      ValueOfZeros(n - 1);
      assert Repeat('0', n)[1..] == Repeat('0', n - 1);
    }
  }

  lemma {:induction false} ReverseConcat(a: string, b: string)
    ensures Reverse(a + b) == Reverse(b) + Reverse(a)
  {
    if a == "" {
      assert a + b == b;
    } else {
      assert (a + b)[1..] == a[1..] + b;
      ReverseConcat(a[1..], b);
    }
  }

  lemma {:induction false} ReverseZeros(n: nat)
    ensures Reverse(Repeat('0', n)) == Repeat('0', n)
  {
    if n > 0 {
      ReverseZeros(n - 1);
      assert Repeat('0', n)[1..] == Repeat('0', n - 1);
    }
  }

  /** The decimal digits of a number have its value. */
  lemma {:induction false} DigitsValue(value: nat, cnt: nat)
    ensures AllDigits(Reverse(RevDigits(value, BASE_D, false, cnt)))
    ensures Value(Reverse(RevDigits(value, BASE_D, false, cnt)), 0) == value
  {
    hide RevDigits;
    if value == 0 {
      NoDigits(BASE_D, false, cnt);
    } else {
      var d := BASE_D.digits[value % 10];
      var rest := RevDigits(value / 10, BASE_D, false, cnt + 1);
      DigitsValue(value / 10, cnt + 1);
      DecimalDigit(value % 10);
      RevUngrouped(value, BASE_D, cnt);
      assert ([d] + rest)[1..] == rest;
      ValueOfConcat(Reverse(rest), [d], 0);
      assert Value([d], value / 10) == Value([d][1..], 10 * (value / 10) + value % 10);
    }
  }

  lemma DecimalDigit(k: nat)
    requires k < 10
    ensures IsDigit(BASE_D.digits[k]) && DigitOf(BASE_D.digits[k]) == k
  {
  }

  /** So have they with the zeros of the precision in front. */
  lemma NumberValue(value: nat, c: Conversion)
    requires !c.group
    ensures AllDigits(Reverse(RevNumber(value, BASE_D, c))) && Value(Reverse(RevNumber(value, BASE_D, c)), 0) == value
  {
    hide RevDigits, Reverse, Value;
    var digits := RevDigits(value, BASE_D, false, 0);
    var precision := if c.precision < 0 then 1 else c.precision;
    var n := if |digits| < Min(precision, 63) then Min(precision, 63) - |digits| else 0;
    assert RevNumber(value, BASE_D, c) == digits + Repeat('0', n);
    ReverseConcat(digits, Repeat('0', n));
    ReverseZeros(n);
    ValueOfZeros(n);
    DigitsValue(value, 0);
    ValueOfConcat(Repeat('0', n), Reverse(digits), 0);
  }

  lemma {:induction false} SkipSpaces(n: nat, s: string)
    ensures SkipSpace(Repeat(' ', n) + s) == SkipSpace(s)
  {
    if n == 0 {
      assert Repeat(' ', 0) + s == s;
    } else {
      assert (Repeat(' ', n) + s)[1..] == Repeat(' ', n - 1) + s;
      SkipSpaces(n - 1, s);
    }
  }

  /** Digits and what follows them, after a sign. */
  lemma ParseSigned(sign: string, digits: string, rest: string, value: nat)
    requires sign in {"", "+", "-", " "} && AllDigits(digits) && Value(digits, 0) == value
    requires rest == "" || !IsDigit(rest[0])
    requires digits == "" ==> rest == "" || rest[0] == ' '
    requires digits == "" ==> forall i :: 0 <= i < |rest| ==> rest[i] == ' '
    ensures Parse(sign + digits + rest) == if sign == "-" then 0 - value else value
  {
    hide Value;
    var t := digits + rest;
    ValueOfConcat(digits, rest, 0);
    ValueEnds(rest, value);
    if sign == "+" || sign == "-" {
      assert (sign + digits + rest)[1..] == t;
      assert SkipSpace(sign + digits + rest) == sign + digits + rest;
    } else if sign == " " {
      assert (sign + digits + rest)[1..] == t;
      assert SkipSpace(sign + digits + rest) == SkipSpace(t);
      ParseUnsigned(digits, rest, value);
    } else {
      assert sign + digits + rest == t;
      ParseUnsigned(digits, rest, value);
    }
  }

  lemma ParseUnsigned(digits: string, rest: string, value: nat)
    requires AllDigits(digits) && Value(digits, 0) == value && (rest == "" || !IsDigit(rest[0]))
    requires digits == "" ==> forall i :: 0 <= i < |rest| ==> rest[i] == ' '
    ensures Parse(digits + rest) == value
  {
    ValueOfConcat(digits, rest, 0);
    ValueEnds(rest, value);
    if digits == "" {
      assert rest == Repeat(' ', |rest|) + "";
      SkipSpaces(|rest|, "");
      assert digits + rest == rest;
    } else {
      assert (digits + rest)[0] == digits[0];
    }
  }

  lemma ValueEnds(rest: string, value: nat)
    requires rest == "" || !IsDigit(rest[0])
    ensures Value(rest, value) == value
  {
  }

  lemma PadParse(n: nat, t: string)
    ensures Parse(Repeat(' ', n) + t) == Parse(t)
  {
    hide Value, SkipSpace;
    SkipSpaces(n, t);
  }

  /** A decimal conversion is padding, a sign, digits and padding. */
  lemma RenderedDecimal(value: nat, negative: bool, c: Conversion)
    ensures var number := Reverse(RevNumber(value, BASE_D, c));
      var sign := Sign(c, true, negative);
      var pad := PadCnt(c, |number| + |sign|);
      Rendered(value, true, negative, BASE_D, c) ==
        Repeat(' ', if !c.minus && !c.zero then pad else 0) +
        (sign + ((if c.zero then Repeat('0', pad) else "") + number) + (if c.minus then Repeat(' ', pad) else ""))
  {
    hide RevNumber, Reverse, Repeat, PadCnt, Sign;
    var number := Reverse(RevNumber(value, BASE_D, c));
    var sign := Sign(c, true, negative);
    var pad := PadCnt(c, |number| + |sign|);
    var left := if !c.minus && !c.zero then Repeat(' ', pad) else "";
    var zeros := if c.zero then Repeat('0', pad) else "";
    var right := if c.minus then Repeat(' ', pad) else "";
    assert Prefix(value, BASE_D, c) == "" && |number| + |""| + |sign| == |number| + |sign|;
    assert Rendered(value, true, negative, BASE_D, c) == left + sign + "" + zeros + number + right;
    Parts(left, sign, "", zeros, number, right);
    Regrouped(left, sign, zeros + number, right);
    assert left == Repeat(' ', if !c.minus && !c.zero then pad else 0) by { NoRepeat(); }
  }

  lemma Regrouped(a: string, b: string, c: string, d: string)
    ensures a + (b + "" + c) + d == a + (b + c + d)
  {
    assert b + "" == b;
  }

  lemma NoRepeat()
    ensures Repeat(' ', 0) == ""
  {
  }

  /** For every int and every conversion without grouping, atoi undoes %d. */
  lemma RoundTrip(v: int, c: Conversion)
    requires !c.group
    ensures Parse(Rendered(if v < 0 then -v else v, true, v < 0, BASE_D, c)) == v
  {
    hide RevNumber, Reverse, Value, SkipSpace, Rendered, Parse, PadCnt;
    var value: nat := if v < 0 then -v else v;
    var number := Reverse(RevNumber(value, BASE_D, c));
    var sign := Sign(c, true, v < 0);
    var pad := PadCnt(c, |number| + |sign|);
    NumberValue(value, c);
    var zeros := if c.zero then Repeat('0', pad) else "";
    ZerosValue(zeros, pad, number);
    var rest := if c.minus then Repeat(' ', pad) else "";
    RenderedDecimal(value, v < 0, c);
    ParseSigned(sign, zeros + number, rest, value);
    PadParse(if !c.minus && !c.zero then pad else 0, sign + (zeros + number) + rest);
  }

  lemma ZerosValue(zeros: string, n: nat, number: string)
    requires (zeros == "" || zeros == Repeat('0', n)) && AllDigits(number)
    ensures AllDigits(zeros + number) && Value(zeros + number, 0) == Value(number, 0)
  {
    ValueOfZeros(n);
    ValueOfConcat(zeros, number, 0);
  }

  // ----- What is written, in every base -----

  /** The value of a digit, in either case; -1 for other characters. */
  function DigitValue(ch: char): int {
    if '0' <= ch <= '9' then ch as int - 48
    else if 'a' <= ch <= 'f' then ch as int - 87
    else if 'A' <= ch <= 'F' then ch as int - 55
    else -1
  }

  /** The number that digits stand for. */
  function ValueIn(s: string, base: nat): int {
    if s == "" then 0 else base * ValueIn(s[..|s| - 1], base) + DigitValue(s[|s| - 1])
  }

  predicate IsBase(b: Base) { b == BASE_D || b == BASE_O || b == BASE_X || b == BASE_UX }

  /** Digits of the base: 0 to 9, and a to f or A to F. */
  ghost predicate DigitsOf(s: string, b: Base) {
    forall i :: 0 <= i < |s| ==>
      0 <= DigitValue(s[i]) < b.base && !(b == BASE_X && s[i] <= 'F' && s[i] >= 'A') && !(b == BASE_UX && s[i] >= 'a')
  }

  lemma DigitIs(b: Base, k: nat)
    requires IsBase(b) && k < b.base
    ensures BaseOk(b) && DigitValue(b.digits[k]) == k && DigitsOf([b.digits[k]], b) && b.digits[k] != ','
    ensures b.digits[k] == '0' ==> k == 0
  {
  }

  /** The digits of a number have its value, and the first is not 0. */
  lemma {:induction false} DigitsIn(value: nat, b: Base, cnt: nat)
    requires IsBase(b)
    ensures
      var d := Reverse(RevDigits(value, b, false, cnt));
      ValueIn(d, b.base) == value && DigitsOf(d, b) && (if value == 0 then d == "" else d != "" && d[0] != '0')
    decreases value
  {
    hide RevDigits, DigitsOf;
    if value == 0 {
      NoDigits(b, false, cnt);
      assert DigitsOf("", b) by { NoneOf(b); }
    } else {
      Smaller(value, b.base);
      RevUngrouped(value, b, cnt);
      var q, k := value / b.base, value % b.base;
      var rest := RevDigits(q, b, false, cnt + 1);
      DigitsIn(q, b, cnt + 1);
      DigitIs(b, k);
      OneDigit(b.digits[k], rest, RevDigits(value, b, false, cnt), b);
    }
  }

  lemma Smaller(value: nat, base: nat)
    requires value > 0 && base >= 2
    ensures 0 <= value / base < value && 0 <= value % base < base && base * (value / base) + value % base == value
    ensures value / base == 0 ==> value % base > 0
  {
    A.QuotientNat(value, base);
    A.Quotient(value, base);
    A.TimesLess(2, base, value / base);
  }

  lemma OneDigit(x: char, rest: string, r: string, b: Base)
    requires r == [x] + rest && DigitsOf(Reverse(rest), b) && DigitsOf([x], b)
    ensures Reverse(r) == Reverse(rest) + [x] && DigitsOf(Reverse(r), b)
    ensures ValueIn(Reverse(r), b.base) == b.base * ValueIn(Reverse(rest), b.base) + DigitValue(x)
  {
    hide DigitsOf, ValueIn;
    assert r[1..] == rest;
    Appended(Reverse(rest), x, b);
  }

  lemma NoneOf(b: Base)
    ensures DigitsOf("", b)
  {
  }

  lemma Appended(s: string, x: char, b: Base)
    requires DigitsOf(s, b) && DigitsOf([x], b)
    ensures DigitsOf(s + [x], b) && ValueIn(s + [x], b.base) == b.base * ValueIn(s, b.base) + DigitValue(x)
  {
    assert (s + [x])[..|s|] == s;
    assert [x][0] == x;
  }

  /** Zeros in front change nothing. */
  lemma {:induction false} ZerosIn(n: nat, s: string, b: Base)
    requires IsBase(b) && DigitsOf(s, b)
    ensures DigitsOf(Repeat('0', n) + s, b) && ValueIn(Repeat('0', n) + s, b.base) == ValueIn(s, b.base)
    decreases n, |s|
  {
    hide Repeat;
    var z := Repeat('0', n) + s;
    if s != "" {
      ZerosIn(n, s[..|s| - 1], b);
      assert z[..|z| - 1] == Repeat('0', n) + s[..|s| - 1] && z[|z| - 1] == s[|s| - 1];
    } else if n > 0 {
      ZerosIn(n - 1, "", b);
      assert z[..n - 1] == Repeat('0', n - 1) + "" && z[n - 1] == '0';
    }
  }

  /** The number with the zeros of the precision, and of `#` in base 8. */
  lemma NumberIn(value: nat, b: Base, c: Conversion)
    requires IsBase(b) && !c.group
    ensures
      var number := Reverse(RevNumber(value, b, c));
      && ValueIn(number, b.base) == value && DigitsOf(number, b)
      && |number| >= Min(if c.precision < 0 then 1 else c.precision, 63)
      && (c.pound && b == BASE_O ==> number != "" && number[0] == '0')
  {
    hide RevDigits, Reverse, DigitsOf, ValueIn;
    var digits := RevDigits(value, b, false, 0);
    var precision := if c.precision < 0 then 1 else c.precision;
    var n := if |digits| < Min(precision, 63) then Min(precision, 63) - |digits| else 0;
    DigitsIn(value, b, 0);
    ReverseConcat(digits, Repeat('0', n));
    ReverseZeros(n);
    ZerosIn(n, Reverse(digits), b);
    var zeros := digits + Repeat('0', n);
    ReverseConcat(zeros, "0");
    ReverseSole();
    ZerosIn(1, Reverse(zeros), b);
    assert Repeat('0', 1) == "0";
    ReverseEnds(zeros);
  }

  lemma ReverseSole()
    ensures Reverse("0") == "0"
  {
  }

  lemma {:induction false} ReverseEnds(s: string)
    ensures s != "" ==> Reverse(s)[0] == s[|s| - 1]
  {
    if |s| > 1 { ReverseEnds(s[1..]); }
  }

  /** What format_integer writes, in its own words: spaces, a sign, a prefix, digits with the value of
      the number, and spaces.  The sign and the prefix are there exactly when they should, and the
      padding is on the side that the flags ask for. */
  lemma RenderedIs(value: nat, isSigned: bool, negative: bool, b: Base, c: Conversion)
    returns (left: nat, digits: string, right: nat)
    requires IsBase(b) && !c.group && !(c.minus && c.zero)
    ensures
      var sign :=
        if !isSigned then "" else if negative then "-" else if c.plus then "+" else if c.space then " " else "";
      var prefix :=
        if !c.pound || value == 0 then "" else if b == BASE_X then "0x" else if b == BASE_UX then "0X" else "";
      Rendered(value, isSigned, negative, b, c) ==
        Repeat(' ', left) + (sign + prefix + digits) + Repeat(' ', right)
    ensures ValueIn(digits, b.base) == value && DigitsOf(digits, b)
    ensures (c.minus ==> left == 0) && (!c.minus ==> right == 0) && (c.zero ==> left == 0 && right == 0)
  {
    hide RevNumber, Reverse, Repeat, PadCnt, DigitsOf, ValueIn, Sign, Prefix;
    SignIs(c, isSigned, negative);
    PrefixIs(value, b, c);
    var number := Reverse(RevNumber(value, b, c));
    var sign, x := Sign(c, isSigned, negative), Prefix(value, b, c);
    var pad := PadCnt(c, |number| + |x| + |sign|);
    NumberIn(value, b, c);
    ZerosIn(pad, number, b);
    NoRepeat();
    left, right := if !c.minus && !c.zero then pad else 0, if c.minus then pad else 0;
    digits := (if c.zero then Repeat('0', pad) else "") + number;
    assert "" + number == number;
    Parts(Repeat(' ', left), sign, x, if c.zero then Repeat('0', pad) else "", number, Repeat(' ', right));
  }

  lemma SignIs(c: Conversion, isSigned: bool, negative: bool)
    ensures Sign(c, isSigned, negative) ==
      if !isSigned then "" else if negative then "-" else if c.plus then "+" else if c.space then " " else ""
  {
  }

  lemma PrefixIs(value: nat, b: Base, c: Conversion)
    requires IsBase(b)
    ensures Prefix(value, b, c) ==
      if !c.pound || value == 0 then "" else if b == BASE_X then "0x" else if b == BASE_UX then "0X" else ""
  {
  }

  lemma Parts(a: string, b: string, c: string, d: string, e: string, f: string)
    ensures a + b + c + d + e + f == a + (b + c + (d + e)) + f
  {
  }

  /** What atoi makes of white space, a sign, at least one digit, and what follows. */
  lemma ParseIs(white: string, sign: string, digits: string, rest: string)
    requires forall i :: 0 <= i < |white| ==> white[i] == ' ' || 9 <= white[i] as int <= 13
    requires sign == "" || sign == "+" || sign == "-"
    requires digits != "" && (forall i :: 0 <= i < |digits| ==> '0' <= digits[i] <= '9')
    requires rest == "" || !('0' <= rest[0] <= '9')
    ensures Parse(white + (sign + digits + rest)) == (if sign == "-" then -1 else 1) * ValueIn(digits, 10)
  {
    hide Value, ValueIn, SkipSpace;
    DecimalValue(digits);
    ParseSigned(sign, digits, rest, Value(digits, 0));
    SkipsWhite(white, sign + digits + rest);
  }

  lemma {:induction false} SkipsWhite(white: string, t: string)
    requires forall i :: 0 <= i < |white| ==> white[i] == ' ' || 9 <= white[i] as int <= 13
    ensures SkipSpace(white + t) == SkipSpace(t)
  {
    if white == "" {
      assert white + t == t;
    } else {
      SpacesAre(white[0]);
      assert (white + t)[1..] == white[1..] + t;
      SkipsWhite(white[1..], t);
    }
  }

  lemma SpacesAre(ch: char)
    ensures IsSpace(ch) <==> ch == ' ' || 9 <= ch as int <= 13
  {
    assert 9 as char == '\t' && 10 as char == '\n' && 11 as char == '\U{000b}' && 12 as char == '\U{000c}';
    assert 13 as char == '\r';
  }

  lemma {:induction false} DecimalValue(s: string)
    requires AllDigits(s)
    ensures ValueIn(s, 10) == Value(s, 0)
  {
    if s != "" {
      var t := s[..|s| - 1];
      DecimalValue(t);
      assert s == t + [s[|s| - 1]];
      ValueOfConcat(t, [s[|s| - 1]], 0);
      assert [s[|s| - 1]][1..] == "";
    }
  }

  function WithoutCommas(s: string): string {
    if s == "" then "" else if s[0] == ',' then WithoutCommas(s[1..]) else [s[0]] + WithoutCommas(s[1..])
  }

  /** How many characters `cnt` digits take with the commas between them. */
  function GroupedLen(cnt: nat, groupLen: nat): nat
    requires groupLen > 0
  {
    cnt + if cnt == 0 then 0 else (cnt - 1) / groupLen
  }

  predicate IsPlace(k: nat, groupLen: nat) { k % (groupLen + 1) == groupLen }

  /** Counted from `p` on, every character of `r` at such a place is a comma, and no other. */
  ghost predicate CommasAt(r: string, p: nat, groupLen: nat) {
    forall i :: 0 <= i < |r| ==> (r[i] == ',' <==> IsPlace(i + p, groupLen))
  }

  /** With `'` the same digits are written, and counted from the end every fourth character (every fifth
      in base 16) is a comma. */
  lemma {:induction false} GroupedIs(value: nat, b: Base, cnt: nat)
    requires IsBase(b)
    ensures
      var r, p := RevDigits(value, b, true, cnt), GroupedLen(cnt, b.groupLen);
      && WithoutCommas(r) == RevDigits(value, b, false, cnt)
      && CommasAt(r, p, b.groupLen)
    decreases value
  {
    hide RevDigits;
    if value == 0 {
      NoDigits(b, true, cnt);
      NoDigits(b, false, cnt);
    } else {
      Smaller(value, b.base);
      GroupedIs(value / b.base, b, cnt + 1);
      RevGrouped(value, b, cnt);
      RevUngrouped(value, b, cnt);
      DigitIs(b, value % b.base);
      var rest := RevDigits(value / b.base, b, true, cnt + 1);
      GroupStep(b.digits[value % b.base], rest, b, cnt, RevDigits(value, b, true, cnt));
    }
  }

  lemma RevGrouped(value: nat, b: Base, cnt: nat)
    requires BaseOk(b) && value > 0
    ensures 0 <= value / b.base
    ensures
      var rest := [b.digits[value % b.base]] + RevDigits(value / b.base, b, true, cnt + 1);
      RevDigits(value, b, true, cnt) == if cnt > 0 && cnt % b.groupLen == 0 then [','] + rest else rest
  {
    A.QuotientNat(value, b.base);
  }

  lemma GroupStep(x: char, rest: string, b: Base, cnt: nat, r: string)
    requires IsBase(b) && x != ','
    requires r == if cnt > 0 && cnt % b.groupLen == 0 then [','] + ([x] + rest) else [x] + rest
    requires CommasAt(rest, GroupedLen(cnt + 1, b.groupLen), b.groupLen)
    ensures WithoutCommas(r) == [x] + WithoutCommas(rest) && CommasAt(r, GroupedLen(cnt, b.groupLen), b.groupLen)
  {
    hide GroupedLen, IsPlace, WithoutCommas, CommasAt;
    if b.groupLen == 3 { PhaseOf3(cnt); } else { PhaseOf4(cnt); }
    var p := GroupedLen(cnt, b.groupLen);
    if cnt > 0 && cnt % b.groupLen == 0 {
      OneMore(x, rest, p + 1, b.groupLen);
      OneMore(',', [x] + rest, p, b.groupLen);
    } else {
      OneMore(x, rest, p, b.groupLen);
    }
  }

  lemma OneMore(x: char, rest: string, p: nat, g: nat)
    requires CommasAt(rest, p + 1, g) && (x == ',' <==> IsPlace(p, g))
    ensures CommasAt([x] + rest, p, g)
    ensures WithoutCommas([x] + rest) == if x == ',' then WithoutCommas(rest) else [x] + WithoutCommas(rest)
  {
    hide IsPlace;
    var r := [x] + rest;
    assert r[1..] == rest;
    forall i | 0 <= i < |r|
      ensures r[i] == ',' <==> IsPlace(i + p, g)
    {
      if i > 0 { assert r[i] == rest[i - 1] && i + p == i - 1 + (p + 1); }
    }
  }

  lemma PhaseOf3(cnt: nat)
    ensures IsPlace(GroupedLen(cnt, 3), 3) <==> cnt > 0 && cnt % 3 == 0
    ensures GroupedLen(cnt + 1, 3) == GroupedLen(cnt, 3) + if cnt > 0 && cnt % 3 == 0 then 2 else 1
    ensures cnt > 0 && cnt % 3 == 0 ==> !IsPlace(GroupedLen(cnt, 3) + 1, 3)
  {
    if cnt > 0 {
      var q, k := (cnt - 1) / 3, (cnt - 1) % 3;
      assert cnt == 3 * q + k + 1 && GroupedLen(cnt, 3) == 4 * q + k + 1;
    }
  }

  lemma PhaseOf4(cnt: nat)
    ensures IsPlace(GroupedLen(cnt, 4), 4) <==> cnt > 0 && cnt % 4 == 0
    ensures GroupedLen(cnt + 1, 4) == GroupedLen(cnt, 4) + if cnt > 0 && cnt % 4 == 0 then 2 else 1
    ensures cnt > 0 && cnt % 4 == 0 ==> !IsPlace(GroupedLen(cnt, 4) + 1, 4)
  {
    if cnt > 0 {
      var q, k := (cnt - 1) / 4, (cnt - 1) % 4;
      assert cnt == 4 * q + k + 1 && GroupedLen(cnt, 4) == 5 * q + k + 1;
    }
  }

  // ----- vsnprintf -----

  /** struct vsnprintf_aux and vsnprintf_helper: what is stored and counted, character by character. */
  class Sink {
    const buffer: array<char>
    var p: nat
    var length: nat
    const maxLength: nat

    constructor (buffer: array<char>, bufSize: nat)
      requires bufSize <= buffer.Length
      ensures this.buffer == buffer && p == 0 && length == 0 && maxLength == if bufSize > 0 then bufSize - 1 else 0
    {
      this.buffer, p, length := buffer, 0, 0;
      maxLength := if bufSize > 0 then bufSize - 1 else 0;
    }

    /** The characters `out` have come: the first `maxLength` of them are stored. */
    ghost predicate Holds(out: string, rest: string)
      reads this, buffer
    {
      && |rest| == buffer.Length && length == |out|
      && p == (if |out| < maxLength then |out| else maxLength) <= buffer.Length
      && buffer[..p] == out[..p] && buffer[p..] == rest[p..]
    }

    method Put(ch: char, ghost out: string, ghost rest: string)
      requires maxLength <= |rest| && Holds(out, rest)
      modifies this`p, this`length, buffer
      ensures Holds(out + [ch], rest)
    {
      if length < maxLength {
        buffer[p] := ch;
        p := p + 1;
        assert rest[p - 1..][1..] == rest[p..];
      }
      length := length + 1;
    }
  }

  /** vsnprintf, for a format and arguments that come out as `out`: the buffer gets as much of it as
      fits, and a terminator; the result is the full length. */
  method Vsnprintf(buffer: array<char>, bufSize: nat, out: string) returns (n: nat)
    requires bufSize <= buffer.Length
    modifies buffer
    ensures n == |out|
    ensures bufSize == 0 ==> buffer[..] == old(buffer[..])
    ensures bufSize > 0 ==>
      var k := if |out| < bufSize - 1 then |out| else bufSize - 1;
      buffer[..k] == out[..k] && buffer[k] == '\0' && buffer[k + 1..] == old(buffer[k + 1..])
  {
    var aux := new Sink(buffer, bufSize);
    ghost var rest := buffer[..];
    var i := 0;
    while i < |out|
      invariant 0 <= i <= |out| && aux.Holds(out[..i], rest)
    {
      aux.Put(out[i], out[..i], rest);
      i := i + 1;
      assert out[..i] == out[..i - 1] + [out[i - 1]];
    }
    assert out[..i] == out;
    if bufSize > 0 {
      buffer[aux.p] := '\0';
    }
    n := aux.length;
  }
}
