/** Conversion specifications of printf formats: parse_conversion and the integer case of __vprintf
    (src/lib/stdio.c), against the grammar of section 7.19.6.1 of C99.  A string ends where the
    sequence ends. */
module Printf {
  import opened Words
  import opened Stdio

  /** A field width or precision: digits, or an argument. */
  datatype Field = Number(digits: string) | Star

  /** The length modifiers hh, h, none, j, l, ll, t and z, with the names that the source gives them. */
  datatype Type = CharType | ShortType | IntType | IntmaxType | LongType | LongLongType | PtrdiffType | SizeType

  /** What stands between the `%` and the conversion's letter. */
  datatype Spec = Spec(flags: string, width: Field, precision: Option<Field>, length: Type)

  predicate IsFlag(ch: char) { ch in "-+ #0'" }

  predicate IsConversion(ch: char) { ch in "diouxXcsp" }

  predicate SpecOk(s: Spec) {
    && (forall i :: 0 <= i < |s.flags| ==> IsFlag(s.flags[i]))
    && FieldOk(s.width) && (s.width.Number? && s.width.digits != "" ==> s.width.digits[0] != '0')
    && (s.precision.Some? ==> FieldOk(s.precision.value))
  }

  predicate FieldOk(f: Field) {
    f.Number? ==> AllDigits(f.digits) && Value(f.digits, 0) <= INT_MAX
  }

  function FieldText(f: Field): string { if f.Star? then "*" else f.digits }

  function PrecisionText(p: Option<Field>): string { if p.None? then "" else "." + FieldText(p.value) }

  function TypeText(t: Type): string {
    match t
    case CharType => "hh"
    case ShortType => "h"
    case IntType => ""
    case IntmaxType => "j"
    case LongType => "l"
    case LongLongType => "ll"
    case PtrdiffType => "t"
    case SizeType => "z"
  }

  function Text(s: Spec): string { s.flags + FieldText(s.width) + PrecisionText(s.precision) + TypeText(s.length) }

  /** The int arguments that a field takes. */
  function Stars(f: Field): nat { if f.Star? then 1 else 0 }

  function StarsOf(s: Spec): nat {
    Stars(s.width) + if s.precision.Some? then Stars(s.precision.value) else 0
  }

  function FieldValue(f: Field, args: seq<int>): int
    requires |args| >= Stars(f)
  {
    if f.Star? then args[0] else Value(f.digits, 0)
  }

  // ----- What a specification means -----

  function WidthOf(s: Spec, args: seq<int>): int
    requires |args| >= StarsOf(s)
  {
    FieldValue(s.width, args)
  }

  /** The precision, or -1 if there is none. */
  function PrecisionOf(s: Spec, args: seq<int>): int
    requires |args| >= StarsOf(s)
  {
    if s.precision.None? then -1
    else
      var p := FieldValue(s.precision.value, args[Stars(s.width)..]);
      if p < 0 then -1 else p
  }

  function Magnitude(x: int): nat { if x < 0 then -x else x }

  /** C99: a negative width is the flag `-` and a width; `-` and a precision override `0`, and `+`
      overrides a space. */
  function Meaning(s: Spec, args: seq<int>): Conversion
    requires |args| >= StarsOf(s)
  {
    var minus, plus := '-' in s.flags || WidthOf(s, args) < 0, '+' in s.flags;
    Conversion(
      minus, plus, ' ' in s.flags && !plus, '#' in s.flags, '0' in s.flags && !minus && PrecisionOf(s, args) < 0,
               '\'' in s.flags, Magnitude(WidthOf(s, args)), PrecisionOf(s, args))
  }

  /** The flag `0` survives a width that is negative only as an argument. */
  predicate KeepsZero(s: Spec, args: seq<int>)
    requires |args| >= StarsOf(s)
  {
    '0' in s.flags && '-' !in s.flags && s.width.Star? && args[0] < 0 && PrecisionOf(s, args) < 0
  }

  /** What parse_conversion makes of it. */
  function Coded(s: Spec, args: seq<int>): Conversion
    requires |args| >= StarsOf(s)
  {
    Meaning(s, args).(zero := '0' in s.flags && '-' !in s.flags && PrecisionOf(s, args) < 0)
  }

  /** parse_conversion gives a specification its meaning in all cases but one. */
  lemma CodedIff(s: Spec, args: seq<int>)
    requires SpecOk(s) && |args| >= StarsOf(s)
    ensures Coded(s, args) == Meaning(s, args) <==> !KeepsZero(s, args)
    ensures Coded(s, args).minus && Coded(s, args).zero <==> KeepsZero(s, args)
  {
  }

  /** So outside that case the output is exactly as wide as the field, or as the number needs. */
  lemma FieldWidth(s: Spec, args: seq<int>, value: nat, isSigned: bool, negative: bool, b: Base)
    requires SpecOk(s) && |args| >= StarsOf(s) && BaseOk(b) && !KeepsZero(s, args)
    ensures
      var c := Coded(s, args);
      var needed := |Rendered(value, isSigned, negative, b, c.(width := 0))|;
      |Rendered(value, isSigned, negative, b, c)| == if needed < c.width then c.width else needed
  {
    hide Rendered;
    CodedIff(s, args);
    RenderedWidth(value, isSigned, negative, b, Coded(s, args));
  }

  lemma FortyTwo(c: Conversion)
    requires !c.group && c.precision < 0 && !c.pound
    ensures Reverse(RevNumber(42, BASE_D, c)) == "42"
  {
    assert RevDigits(0, BASE_D, false, 2) == "";
    assert RevDigits(4, BASE_D, false, 1) == ['4'] + RevDigits(0, BASE_D, false, 2);
    assert RevDigits(42, BASE_D, false, 0) == ['2'] + RevDigits(4, BASE_D, false, 1);
    assert RevDigits(42, BASE_D, false, 0) == "24";
    hide RevDigits;
    assert RevNumber(42, BASE_D, c) == "24" + Repeat('0', 0) == "24";
    assert "24"[1..] == "4" && "4"[1..] == "";
    assert Reverse("4") == Reverse("") + ['4'] == "4";
    assert Reverse("24") == Reverse("4") + ['2'];
  }

  /** What format_integer makes of 42 with both flags set, in a field of 5. */
  lemma BothPads(c: Conversion)
    requires c == Conversion(true, false, false, false, true, false, 5, -1)
    ensures Rendered(42, true, false, BASE_D, c) == Repeat('0', 3) + "42" + Repeat(' ', 3)
  {
    hide RevNumber, Reverse, Repeat;
    FortyTwo(c);
    assert Sign(c, true, false) == "" && Prefix(42, BASE_D, c) == "" && PadCnt(c, 2) == 3;
    assert "" + "" + "" + Repeat('0', 3) == Repeat('0', 3);
  }

  /** "%0*d" with the arguments -5 and 42 is padded on both sides: 8 characters in a field of 5. */
  lemma PaddedTwice()
    ensures
      var s := Spec("0", Star, None, IntType);
      && SpecOk(s) && KeepsZero(s, [-5]) && Coded(s, [-5]).width == 5
      && Rendered(42, true, false, BASE_D, Coded(s, [-5])) == Repeat('0', 3) + "42" + Repeat(' ', 3)
  {
    hide Rendered, Repeat;
    var s := Spec("0", Star, None, IntType);
    assert '0' in s.flags && '-' !in s.flags && '+' !in s.flags && ' ' !in s.flags && '#' !in s.flags &&
      '\'' !in s.flags;
    BothPads(Coded(s, [-5]));
  }

  // ----- parse_conversion -----

  /** The character at `i`, or the terminator. */
  function At(s: string, i: nat): char { if i < |s| then s[i] else '\0' }

  /** The text `t` is at `pos`. */
  predicate TextAt(s: string, pos: nat, t: string) {
    pos + |t| <= |s| && s[pos .. pos + |t|] == t
  }

  lemma SplitText(s: string, pos: nat, a: string, b: string)
    requires TextAt(s, pos, a + b)
    ensures TextAt(s, pos, a) && TextAt(s, pos + |a|, b)
    ensures a != "" ==> s[pos] == a[0]
  {
    var t := s[pos .. pos + |a + b|];
    assert t[..|a|] == a && t[|a|..] == b;
    assert s[pos .. pos + |a|] == t[..|a|] && s[pos + |a| .. pos + |a + b|] == t[|a|..];
    if a != "" { assert s[pos] == t[0]; }
  }

  /** The flags among the first `i`. */
  predicate Seen(flags: string, i: nat, ch: char)
    requires i <= |flags|
  {
    ch in flags[..i]
  }

  lemma SeenMore(flags: string, i: nat)
    requires i < |flags|
    ensures forall ch :: Seen(flags, i + 1, ch) <==> Seen(flags, i, ch) || ch == flags[i]
  {
    var t := flags[..i] + [flags[i]];
    assert flags[..i + 1] == t;
    forall ch
      ensures Seen(flags, i + 1, ch) <==> Seen(flags, i, ch) || ch == flags[i]
    {
      assert ch in t <==> ch in flags[..i] || ch in [flags[i]];
    }
  }

  /** The loop over flag characters. */
  method ParseFlags(format: string, pos: nat, ghost flags: string) returns (c: Conversion, p: nat)
    requires TextAt(format, pos, flags) && (forall i :: 0 <= i < |flags| ==> IsFlag(flags[i]))
    requires !IsFlag(At(format, pos + |flags|))
    ensures p == pos + |flags|
    ensures c == Conversion('-' in flags, '+' in flags, ' ' in flags, '#' in flags, '0' in flags, '\'' in flags, 0, 0)
  {
    c, p := Conversion(false, false, false, false, false, false, 0, 0), pos;
    ghost var i := 0;
    while true
      invariant i <= |flags| && p == pos + i
      invariant c == Conversion(Seen(flags, i, '-'), Seen(flags, i, '+'), Seen(flags, i, ' '), Seen(flags, i, '#'),
                                Seen(flags, i, '0'), Seen(flags, i, '\''), 0, 0)
      decreases |flags| - i
    {
      assert i < |flags| ==> At(format, p) == format[pos .. pos + |flags|][i];
      match At(format, p) {
        case '-' => c := c.(minus := true);
        case '+' => c := c.(plus := true);
        case ' ' => c := c.(space := true);
        case '#' => c := c.(pound := true);
        case '0' => c := c.(zero := true);
        case '\'' => c := c.(group := true);
        case _ => break;
      }
      SeenMore(flags, i);
      p, i := p + 1, i + 1;
    }
    assert flags[..i] == flags;
  }

  /** A loop over digits. */
  method ParseDigits(format: string, pos: nat, ghost digits: string) returns (n: int, p: nat)
    requires TextAt(format, pos, digits) && AllDigits(digits) && !IsDigit(At(format, pos + |digits|))
    ensures n == Value(digits, 0) && p == pos + |digits|
  {
    n, p := 0, pos;
    ghost var i := 0;
    while IsDigit(At(format, p))
      invariant i <= |digits| && p == pos + i && 0 <= n
      invariant i < |digits| ==> At(format, p) == digits[i]
      invariant Value(digits[i..], n) == Value(digits, 0)
      decreases |digits| - i
    {
      assert digits[i..][1..] == digits[i + 1..];
      n := n * 10 + DigitOf(At(format, p));
      p, i := p + 1, i + 1;
      assert i < |digits| ==> At(format, p) == format[pos .. pos + |digits|][i];
    }
  }

  /** A width or a precision after its dot: digits, or an int argument. */
  method ParseField(format: string, pos: nat, args: seq<int>, ghost f: Field) returns (n: int, p: nat, args': seq<int>)
    requires FieldOk(f) && TextAt(format, pos, FieldText(f)) && |args| >= Stars(f)
    requires Stops(At(format, pos + |FieldText(f)|)) && (f.Number? && f.digits == "" ==> At(format, pos) != '*')
    ensures n == FieldValue(f, args) && p == pos + |FieldText(f)| && args' == args[Stars(f)..]
  {
    FieldStart(format, pos, f);
    if At(format, pos) == '*' {
      n, p, args' := args[0], pos + 1, args[1..];
    } else {
      n, p := ParseDigits(format, pos, f.digits);
      args' := args;
    }
  }

  lemma FieldStart(format: string, pos: nat, f: Field)
    requires FieldOk(f) && TextAt(format, pos, FieldText(f)) && (f.Number? && f.digits == "" ==> At(format, pos) != '*')
    ensures At(format, pos) == '*' <==> f.Star?
  {
    var t := FieldText(f);
    if t != "" { assert format[pos .. pos + |t|][0] == format[pos]; }
  }

  /** The length modifier. */
  method ParseType(format: string, pos: nat, ghost t: Type) returns (type_: Type, p: nat)
    requires TextAt(format, pos, TypeText(t)) && IsConversion(At(format, pos + |TypeText(t)|))
    ensures type_ == t && p == pos + |TypeText(t)|
  {
    TypeStart(format, pos, t);
    type_, p := IntType, pos;
    match At(format, p) {
      case 'h' =>
        p := p + 1;
        if At(format, p) == 'h' {
          type_, p := CharType, p + 1;
        } else {
          type_ := ShortType;
        }
      case 'j' => type_, p := IntmaxType, p + 1;
      case 'l' =>
        p := p + 1;
        if At(format, p) == 'l' {
          type_, p := LongLongType, p + 1;
        } else {
          type_ := LongType;
        }
      case 't' => type_, p := PtrdiffType, p + 1;
      case 'z' => type_, p := SizeType, p + 1;
      case _ =>
    }
  }

  lemma TypeStart(format: string, pos: nat, t: Type)
    requires TextAt(format, pos, TypeText(t)) && IsConversion(At(format, pos + |TypeText(t)|))
    ensures TypeText(t) != "" ==> At(format, pos) == TypeText(t)[0]
    ensures |TypeText(t)| == 2 ==> At(format, pos + 1) == TypeText(t)[1]
  {
    var s := TypeText(t);
    if s != "" { assert format[pos .. pos + |s|][0] == format[pos]; }
    if |s| == 2 { assert format[pos .. pos + |s|][1] == format[pos + 1]; }
  }

  /** The first character of `t` and then `next`. */
  function First(t: string, next: char): char { if t == "" then next else t[0] }

  lemma FirstAt(format: string, pos: nat, t: string)
    requires TextAt(format, pos, t)
    ensures At(format, pos) == First(t, At(format, pos + |t|))
  {
    if t != "" { assert format[pos .. pos + |t|][0] == format[pos]; }
  }

  /** A character that does not continue a field. */
  predicate Stops(ch: char) { !IsDigit(ch) && ch != '*' && !IsFlag(ch) }

  /** What cannot follow the parts of a specification that `ch` follows. */
  lemma Following(s: Spec, ch: char)
    requires SpecOk(s) && IsConversion(ch)
    ensures
      var c3 := First(TypeText(s.length), ch);
      var c2 := First(PrecisionText(s.precision), c3);
      var c1 := First(FieldText(s.width), c2);
      && Stops(c3) && Stops(c2) && (c2 == '.' <==> s.precision.Some?)
      && !IsFlag(c1) && (s.width.Number? && s.width.digits == "" ==> c1 != '*')
  {
    hide Value, TypeText, Stops, IsFlag, SpecOk, IsConversion;
    var c3 := First(TypeText(s.length), ch);
    TypeFirst(s.length, ch);
    DotStops();
    WidthFirst(s, First(PrecisionText(s.precision), c3));
  }

  lemma TypeFirst(t: Type, ch: char)
    requires IsConversion(ch)
    ensures Stops(First(TypeText(t), ch)) && First(TypeText(t), ch) != '.'
  {
  }

  lemma DotStops()
    ensures Stops('.')
  {
  }

  lemma WidthFirst(s: Spec, next: char)
    requires SpecOk(s) && Stops(next)
    ensures !IsFlag(First(FieldText(s.width), next))
    ensures s.width.Number? && s.width.digits == "" ==> First(FieldText(s.width), next) != '*'
  {
    hide Value;
  }

  lemma FourTexts(format: string, pos: nat, a: string, b: string, c: string, d: string)
    requires TextAt(format, pos, a + b + c + d)
    ensures TextAt(format, pos, a) && TextAt(format, pos + |a|, b)
    ensures TextAt(format, pos + |a| + |b|, c) && TextAt(format, pos + |a| + |b| + |c|, d)
  {
    SplitText(format, pos, a + b + c, d);
    SplitText(format, pos, a + b, c);
    SplitText(format, pos, a, b);
  }

  /** Where the parts of a specification are, and what does not follow each of them. */
  lemma Parts(format: string, pos: nat, s: Spec)
    requires SpecOk(s) && TextAt(format, pos, Text(s)) && IsConversion(At(format, pos + |Text(s)|))
    ensures
      var p1 := pos + |s.flags|;
      var p2 := p1 + |FieldText(s.width)|;
      var p3 := p2 + |PrecisionText(s.precision)|;
      && TextAt(format, pos, s.flags) && !IsFlag(At(format, p1))
      && TextAt(format, p1, FieldText(s.width))
      && Stops(At(format, p2)) && (s.width.Number? && s.width.digits == "" ==> At(format, p1) != '*')
      && TextAt(format, p2, PrecisionText(s.precision)) && (At(format, p2) == '.' <==> s.precision.Some?)
      && TextAt(format, p3, TypeText(s.length)) && Stops(At(format, p3))
      && p3 + |TypeText(s.length)| == pos + |Text(s)|
  {
    hide SpecOk, TextAt, IsConversion, Stops, IsFlag, FieldText, PrecisionText, TypeText, First, At;
    var a, b, c, d := s.flags, FieldText(s.width), PrecisionText(s.precision), TypeText(s.length);
    FourTexts(format, pos, a, b, c, d);
    FirstAt(format, pos + |a| + |b| + |c|, d);
    FirstAt(format, pos + |a| + |b|, c);
    FirstAt(format, pos + |a|, b);
    Following(s, At(format, pos + |Text(s)|));
  }

  /** The flags, and what they override. */
  method ParseFlagPart(format: string, pos: nat, ghost flags: string) returns (c: Conversion, p: nat)
    requires TextAt(format, pos, flags) && (forall i :: 0 <= i < |flags| ==> IsFlag(flags[i]))
    requires !IsFlag(At(format, pos + |flags|))
    ensures p == pos + |flags|
    ensures c == FlagsOf(flags)
  {
    c, p := ParseFlags(format, pos, flags);
    if c.minus {
      c := c.(zero := false);
    }
    if c.plus {
      c := c.(space := false);
    }
  }

  function FlagsOf(flags: string): Conversion {
    Conversion('-' in flags, '+' in flags, ' ' in flags && '+' !in flags, '#' in flags, '0' in flags && '-' !in flags,
               '\'' in flags, 0, 0)
  }

  /** parse_conversion, at a well-formed specification that a conversion's letter follows. */
  method ParseConversion(format: string, pos: nat, args: seq<int>, ghost s: Spec)
    returns (c: Conversion, type_: Type, p: nat, args': seq<int>)
    requires SpecOk(s) && TextAt(format, pos, Text(s)) && IsConversion(At(format, pos + |Text(s)|))
    requires |args| >= StarsOf(s)
    ensures c == Coded(s, args) && type_ == s.length && p == pos + |Text(s)| && args' == args[StarsOf(s)..]
  {
    hide Value, TextAt, SpecOk, IsFlag, IsConversion, FieldValue, FieldOk, FlagsOf, Coded, PrecisionText, TypeText,
      Stops, At, FieldText, Text;
    Parts(format, pos, s);
    SpecParts(s);
    c, p := ParseFlagPart(format, pos, s.flags);
    var width, precision;
    width, p, args' := ParseField(format, p, args, s.width);
    c := c.(width := Magnitude(width));
    if width < 0 {
      c := c.(minus := true);
    }
    precision, p, args' := ParsePrecision(format, p, args', s.precision);
    c := c.(precision := precision);
    if precision >= 0 {
      c := c.(zero := false);
    }
    type_, p := ParseType(format, p, s.length);
    CodedIs(s, args);
  }

  lemma CodedIs(s: Spec, args: seq<int>)
    requires |args| >= StarsOf(s)
    ensures
      var w, p, f := WidthOf(s, args), PrecisionOf(s, args), FlagsOf(s.flags);
      Coded(s, args) == f.(width := Magnitude(w), minus := f.minus || w < 0, precision := p, zero := f.zero && p < 0)
  {
  }

  lemma SpecParts(s: Spec)
    requires SpecOk(s)
    ensures (forall i :: 0 <= i < |s.flags| ==> IsFlag(s.flags[i])) && FieldOk(s.width)
    ensures s.precision.Some? ==> FieldOk(s.precision.value)
    ensures s.width.Number? ==> forall args :: FieldValue(s.width, args) >= 0
  {
  }

  /** The part that parses a precision. */
  method ParsePrecision(format: string, pos: nat, args: seq<int>, ghost f: Option<Field>)
    returns (precision: int, p: nat, args': seq<int>)
    requires f.Some? ==> FieldOk(f.value) && |args| >= Stars(f.value)
    requires TextAt(format, pos, PrecisionText(f)) && (At(format, pos) == '.' <==> f.Some?)
    requires Stops(At(format, pos + |PrecisionText(f)|))
    ensures p == pos + |PrecisionText(f)| && args' == args[if f.Some? then Stars(f.value) else 0..]
    ensures precision == if f.None? then -1 else if FieldValue(f.value, args) < 0 then -1 else FieldValue(f.value, args)
  {
    precision, p, args' := -1, pos, args;
    if At(format, p) == '.' {
      p := p + 1;
      SplitText(format, pos, ".", FieldText(f.value));
      precision, p, args' := ParseField(format, p, args, f.value);
      if precision < 0 {
        precision := -1;
      }
    }
  }

  // ----- Printing and reading back -----

  /** The argument of a `d` conversion as its type cuts it. */
  function Narrowed(t: Type, v: int): int {
    match t
    case CharType => (v + 0x80) % 0x100 - 0x80
    case ShortType => (v + 0x8000) % 0x1_0000 - 0x8000
    case _ => v
  }

  /** The argument itself, unless its type is char or short: then the number of that type that agrees
      with it in the low 8 or 16 bits. */
  lemma NarrowedIs(t: Type, v: int)
    ensures t == CharType ==> -128 <= Narrowed(t, v) <= 127 && (Narrowed(t, v) - v) % 256 == 0
    ensures t == ShortType ==> -32768 <= Narrowed(t, v) <= 32767 && (Narrowed(t, v) - v) % 65536 == 0
    ensures t != CharType && t != ShortType ==> Narrowed(t, v) == v
  {
  }

  /** snprintf with one `d` conversion, without grouping, into a buffer with room, then atoi: the
      argument comes back. */
  method PrintAndRead(format: string, args: seq<int>, v: int, buffer: array<char>, ghost s: Spec) returns (w: int)
    requires SpecOk(s) && format == "%" + Text(s) + "d" && |args| >= StarsOf(s)
    requires '\'' !in s.flags && INT_MIN <= v <= INT_MAX
    requires
      var value := Narrowed(s.length, v);
      |Rendered(Magnitude(value), true, value < 0, BASE_D, Coded(s, args))| < buffer.Length
    modifies buffer
    ensures w == Narrowed(s.length, v)
  {
    hide Rendered, Parse, SpecOk, Coded;
    FormatParts(format, s);
    var c, type_, _, _ := ParseConversion(format, 1, args, s);
    var value := Narrowed(type_, v);
    NoGroup(s, args);
    var out := FormatInteger(Magnitude(value), true, value < 0, BASE_D, c);
    var n := Vsnprintf(buffer, buffer.Length, out);
    RoundTrip(value, c);
    assert buffer[..n] == out;
    w := Atoi(buffer[..n]);
  }

  lemma NoGroup(s: Spec, args: seq<int>)
    requires |args| >= StarsOf(s)
    ensures Coded(s, args).group <==> '\'' in s.flags
  {
  }

  lemma FormatParts(format: string, s: Spec)
    requires format == "%" + Text(s) + "d"
    ensures TextAt(format, 1, Text(s)) && IsConversion(At(format, 1 + |Text(s)|))
  {
    assert format[1 .. 1 + |Text(s)|] == Text(s);
  }
}
