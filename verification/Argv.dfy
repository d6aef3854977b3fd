/** The stack of a new process (src/userprog/process.c): what push_arguments leaves on it is the frame
    of a call main (argc, argv).  One page is mapped for it.  A push that goes below that page
    faults in the kernel, where page_fault returns without mapping anything, so the push is tried
    again forever. */
module Argv {
  import opened Words
  import opened Tokenizer
  import opened Vaddr

  const MAX_ARGS_SIZE: nat := 4096

  /** The page that setup_stack maps begins here. */
  const STACK_PAGE: nat := PHYS_BASE - PGSIZE

  type Mem = nat -> byte

  function Stored(mem: Mem, addr: nat, data: Bytes): Mem {
    (a: nat) => if addr <= a < addr + |data| then data[a - addr] else mem(a)
  }

  /** The 32-bit word at `a`. */
  function Word32(mem: Mem, a: nat): uint32 { FromLittleEndian(mem(a), mem(a + 1), mem(a + 2), mem(a + 3)) }

  /** At `a` there is the null-terminated string `s`. */
  ghost predicate StringAt(mem: Mem, a: nat, s: Bytes) {
    (forall i :: a <= i < a + |s| ==> mem(i) == s[i - a]) && mem(a + |s|) == 0
  }

  ghost predicate SameFrom(mem: Mem, mem': Mem, lo: nat) {
    forall a: nat :: lo <= a ==> mem'(a) == mem(a)
  }

  /** The strings `ss` are at `addrs`, between `lo` and PHYS_BASE. */
  ghost predicate StringsAt(mem: Mem, addrs: seq<nat>, ss: seq<Bytes>, lo: nat) {
    && |addrs| == |ss|
    && forall j :: 0 <= j < |ss| ==> ArgAt(mem, addrs[j], ss[j], lo)
  }

  /** The call frame at `esp`: a null return address, argc and argv, where argv[i] points to the
      `i`th string and argv[argc] is null.  All of it is in the stack's page. */
  ghost predicate Frame(mem: Mem, esp: nat, ss: seq<Bytes>) {
    && STACK_PAGE <= esp && Word32(mem, esp) == 0 && Word32(mem, esp + 4) == |ss|
    && var argv := Word32(mem, esp + 8);
       && esp + 12 <= argv && argv + 4 * |ss| + 4 <= PHYS_BASE && Word32(mem, argv + 4 * |ss|) == 0
       && forall i: nat :: i < |ss| ==> ArgAt(mem, Word32(mem, argv + 4 * i), ss[i], argv + 4 * |ss| + 4)
  }

  /** The string `s` is at `a`, between `lo` and PHYS_BASE. */
  ghost predicate ArgAt(mem: Mem, a: nat, s: Bytes, lo: nat) {
    lo <= a && a + |s| < PHYS_BASE && StringAt(mem, a, s)
  }

  /** The bytes that strings take with their terminators. */
  function Size(ss: seq<Bytes>): nat {
    if ss == [] then 0 else Size(ss[..|ss| - 1]) + |ss[|ss| - 1]| + 1
  }

  class UserStack {
    var mem: Mem
    var esp: nat

    constructor (mem: Mem)
      ensures this.mem == mem && esp == PHYS_BASE
    {
      this.mem, esp := mem, PHYS_BASE;
    }

    /** push_arg; `ok` unless it faults. */
    method PushArg(arg: Bytes) returns (ok: bool)
      requires |arg| < esp
      modifies this
      ensures ok <==> STACK_PAGE <= old(esp) - |arg| - 1
      ensures esp == old(esp) - |arg| - 1
      ensures ok ==> StringAt(mem, esp, arg) && SameFrom(old(mem), mem, old(esp))
    {
      esp := esp - (|arg| + 1);
      ok := esp >= STACK_PAGE;
      if ok {
        mem := Stored(mem, esp, arg + [0]);
      }
    }

    /** push_byte */
    method PushByte() returns (ok: bool)
      requires esp > 0
      modifies this
      ensures ok <==> STACK_PAGE <= old(esp) - 1
      ensures esp == old(esp) - 1
      ensures ok ==> SameFrom(old(mem), mem, old(esp))
    {
      esp := esp - 1;
      ok := esp >= STACK_PAGE;
      if ok {
        mem := Stored(mem, esp, [0]);
      }
    }

    /** push_arg_ptr */
    method PushWord(w: uint32) returns (ok: bool)
      requires esp >= 4
      modifies this
      ensures ok <==> STACK_PAGE <= old(esp) - 4
      ensures esp == old(esp) - 4
      ensures ok ==> Word32(mem, esp) == w && SameFrom(old(mem), mem, old(esp))
    {
      esp := esp - 4;
      ok := esp >= STACK_PAGE;
      if ok {
        mem := Stored(mem, esp, LittleEndian(w));
        LittleEndianRoundTrip(w);
      }
    }
  }

  lemma KeepStrings(mem: Mem, mem': Mem, addrs: seq<nat>, ss: seq<Bytes>, lo: nat, lo': nat)
    requires StringsAt(mem, addrs, ss, lo) && SameFrom(mem, mem', lo) && lo' <= lo
    ensures StringsAt(mem', addrs, ss, lo')
  {
  }

  /** num_tokens */
  method NumTokens(str: Bytes) returns (count: nat)
    requires 0 !in str
    ensures count == |Tokens(str)|
  {
    hide Tokens;
    var copy := new byte[|str| + 1](i requires 0 <= i < |str| + 1 => if i < |str| then str[i] else 0);
    ghost var end := |str|;
    assert copy[0..end] == str;
    count := 0;
    NoTokens();
    var token, save;
    ghost var e;
    token, save, e := StrtokR(copy, 0, end);
    assert token.None? ==> copy[save..end] == [];
    while token.Some?
      invariant 0 <= save <= end && IsString(copy[..], save, end)
      invariant |Tokens(str)| == count + (if token.Some? then 1 else 0) + |Tokens(copy[save..end])|
      invariant token.None? ==> Tokens(copy[save..end]) == []
      decreases |Tokens(str)| - count
    {
      count := count + 1;
      token, save, e := StrtokR(copy, save, end);
      assert token.None? ==> copy[save..end] == [];
    }
  }

  lemma NoTokens()
    ensures Tokens([]) == []
  {
  }

  /** The string at `t`. */
  method ReadString(buf: array<byte>, t: nat, ghost e: nat) returns (arg: Bytes)
    requires IsString(buf[..], t, e)
    ensures arg == buf[t..e]
  {
    var i := t;
    while buf[i] != 0
      invariant t <= i <= e
      decreases e - i
    {
      i := i + 1;
    }
    assert buf[..][i] == 0;
    arg := buf[t..i];
  }

  lemma {:induction false} SizeOfMore(ss: seq<Bytes>, s: Bytes)
    ensures Size(ss + [s]) == Size(ss) + |s| + 1
  {
    assert (ss + [s])[..|ss|] == ss;
  }

  lemma {:induction false} SizeOfPrefix(ss: seq<Bytes>, n: nat)
    requires n <= |ss|
    ensures Size(ss[..n]) <= Size(ss)
  {
    if n == |ss| {
      assert ss[..n] == ss;
    } else {
      SizeOfPrefix(ss[..|ss| - 1], n);
      assert ss[..|ss| - 1][..n] == ss[..n];
    }
  }

  lemma {:induction false} SizeOfConcat(a: seq<Bytes>, b: seq<Bytes>)
    ensures Size(a + b) == Size(a) + Size(b)
  {
    if b == [] {
      assert a + b == a;
    } else {
      var n := |b| - 1;
      SizeOfConcat(a, b[..n]);
      assert (a + b)[..|a + b| - 1] == a + b[..n];
      assert (a + b)[|a + b| - 1] == b[n];
    }
  }

  /** The tokens of a string, with terminators, take no more room than the string with its own; and
      there are no more of them than bytes. */
  lemma {:induction false} SizeOfTokens(s: Bytes)
    ensures Size(Tokens(s)) <= |s| + 1 && |Tokens(s)| <= |s| && (Tokens(s) == [] ==> Size(Tokens(s)) == 0)
    decreases |s|
  {
    var r := SkipSpaces(s);
    if r != [] {
      var n := WordLen(r);
      var rest := After(r, n);
      SizeOfTokens(rest);
      SizeOfConcat([r[..n]], Tokens(rest));
      SizeOfMore([], r[..n]);
      assert [] + [r[..n]] == [r[..n]];
      assert n == |r| ==> Tokens(rest) == [];
    }
  }

  lemma RoomFor(fileName: Bytes, args: Bytes)
    ensures Size([fileName] + Tokens(args)) <= |fileName| + |args| + 2 && |Tokens(args)| <= |args|
    ensures Size([fileName]) == |fileName| + 1
  {
    SizeOfConcat([fileName], Tokens(args));
    SizeOfTokens(args);
    SizeOfMore([], fileName);
    assert [] + [fileName] == [fileName];
  }

  lemma RoomLeft(ss: seq<Bytes>, done: seq<Bytes>, arg: Bytes, rest: seq<Bytes>)
    requires ss == done + ([arg] + rest)
    ensures Size(done + [arg]) <= Size(ss) && |done| < |ss|
  {
    SizeOfPrefix(ss, |done| + 1);
    assert ss[..|done| + 1] == done + [arg];
  }

  lemma FirstString(mem: Mem, a: nat, s: Bytes)
    requires StringAt(mem, a, s) && a + |s| < PHYS_BASE
    ensures StringsAt(mem, [a], [s], a)
  {
  }

  /** A string pushed below the others. */
  lemma MoreStrings(mem: Mem, mem': Mem, addrs: seq<nat>, ss: seq<Bytes>, lo: nat, a: nat, s: Bytes)
    requires StringsAt(mem, addrs, ss, lo) && SameFrom(mem, mem', lo) && a + |s| < lo <= PHYS_BASE
    requires StringAt(mem', a, s)
    ensures StringsAt(mem', addrs + [a], ss + [s], a)
  {
    KeepStrings(mem, mem', addrs, ss, lo, a);
    hide StringAt, SameFrom, ArgAt;
  }

  /** The strings `done` are what is on the stack, all in its page. */
  ghost predicate Holds(mem: Mem, esp: nat, addrs: seq<nat>, done: seq<Bytes>) {
    // Named, so that the verifier takes the conjunction as one assertion.
    var ok := Size(done) <= PGSIZE && esp == PHYS_BASE - Size(done) && StringsAt(mem, addrs, done, esp);
    ok
  }

  /** One string more on the stack, and its address. */
  method PushNext(stack: UserStack, arg: Bytes, argvAddr: array<nat>, i: nat, ghost done: seq<Bytes>) returns (ok: bool)
    requires i < argvAddr.Length && i == |done| && Size(done + [arg]) <= 0x2000
    requires Holds(stack.mem, stack.esp, argvAddr[..i], done)
    modifies stack, argvAddr
    ensures ok <==> Size(done + [arg]) <= PGSIZE
    ensures ok ==> Holds(stack.mem, stack.esp, argvAddr[..i + 1], done + [arg])
  {
    hide StringsAt, Size;
    ghost var mem, addrs, lo := stack.mem, argvAddr[..i], stack.esp;
    SizeOfMore(done, arg);
    ok := stack.PushArg(arg);
    if ok {
      argvAddr[i] := stack.esp;
      MoreStrings(mem, stack.mem, addrs, done, lo, stack.esp, arg);
      assert argvAddr[..i + 1] == addrs + [stack.esp];
    }
  }

  /** One round of the loop that pushes the arguments.  Its test of MAX_ARGS_SIZE, after which
      push_arguments would return 0, never succeeds: a push that took more would have faulted. */
  method PushToken(stack: UserStack, buf: array<byte>, t: nat, ghost e: nat, argvAddr: array<nat>, i: nat,
                   ghost done: seq<Bytes>, ghost todo: seq<Bytes>) returns (ok: bool)
    requires IsString(buf[..], t, e) && todo != [] && todo[0] == buf[t..e]
    requires i == |done| < argvAddr.Length && Size(done + todo) <= 0x2000
    requires Holds(stack.mem, stack.esp, argvAddr[..i], done)
    modifies stack, argvAddr
    ensures !ok ==> Size(done + todo) > PGSIZE
    ensures ok ==> Holds(stack.mem, stack.esp, argvAddr[..i + 1], done + [todo[0]])
  {
    hide Size, Holds, StringsAt;
    SoFar(stack.mem, stack.esp, argvAddr[..i], done);
    if PHYS_BASE - stack.esp > MAX_ARGS_SIZE {
      assert false;
    }
    var arg := ReadString(buf, t, e);
    assert todo == [arg] + todo[1..];
    RoomLeft(done + todo, done, arg, todo[1..]);
    ok := PushNext(stack, arg, argvAddr, i, done);
  }

  lemma Shift(done: seq<Bytes>, todo: seq<Bytes>, s: Bytes, rest: seq<Bytes>)
    requires todo == [s] + rest
    ensures todo != [] && todo[0] == s && done + todo == (done + [s]) + rest && |done| < |done + todo|
  {
  }

  /** The part of push_arguments that copies the strings to the stack. */
  method PushStrings(stack: UserStack, fileName: Bytes, buf: array<byte>, ghost end: nat, argvAddr: array<nat>)
    returns (ok: bool, ghost ss: seq<Bytes>)
    requires IsString(buf[..], 0, end) && argvAddr.Length == |Tokens(buf[0..end])| + 1
    requires stack.esp == PHYS_BASE && |fileName| + end <= 4096
    modifies stack, buf, argvAddr
    ensures ss == [fileName] + Tokens(old(buf[0..end])) && (ok <==> Size(ss) <= PGSIZE)
    ensures ok ==> Holds(stack.mem, stack.esp, argvAddr[..], ss)
  {
    hide Tokens, StringsAt, Size, Holds;
    ss := [fileName] + Tokens(buf[0..end]);
    RoomFor(fileName, buf[0..end]);
    NoTokens();
    ok := PushFirst(stack, fileName, argvAddr);
    if !ok {
      RoomLeft(ss, [], fileName, Tokens(buf[0..end]));
      assert [] + [fileName] == [fileName];
      return;
    }
    var i := 1;
    var token, save;
    ghost var done, todo, e := [fileName], Tokens(buf[0..end]), end;
    token, save, e := StrtokR(buf, 0, end);
    while token.Some?
      invariant i == |done| && 1 <= i <= argvAddr.Length == |ss| && 0 <= save <= end && IsString(buf[..], save, end)
      invariant token.Some? ==> token.value < e && IsString(buf[..], token.value, e)
      invariant ss == done + todo
      invariant todo == if token.Some? then [buf[token.value..e]] + Tokens(buf[save..end]) else []
      invariant ok && Holds(stack.mem, stack.esp, argvAddr[..i], done)
      decreases |ss| - i
    {
      Shift(done, todo, buf[token.value..e], Tokens(buf[save..end]));
      ok := PushToken(stack, buf, token.value, e, argvAddr, i, done, todo);
      if !ok {
        return;
      }
      done, todo := done + [buf[token.value..e]], Tokens(buf[save..end]);
      i := i + 1;
      token, save, e := StrtokR(buf, save, end);
    }
    assert argvAddr[..] == argvAddr[..i] && ss == done;
    SoFar(stack.mem, stack.esp, argvAddr[..], done);
  }

  lemma SoFar(mem: Mem, esp: nat, addrs: seq<nat>, done: seq<Bytes>)
    requires Holds(mem, esp, addrs, done)
    ensures esp == PHYS_BASE - Size(done) && Size(done) <= PGSIZE && StringsAt(mem, addrs, done, esp)
  {
  }

  /** The program's name on the stack, and its address. */
  method PushFirst(stack: UserStack, fileName: Bytes, argvAddr: array<nat>) returns (ok: bool)
    requires argvAddr.Length > 0 && stack.esp == PHYS_BASE && |fileName| < PHYS_BASE
    modifies stack, argvAddr
    ensures ok <==> Size([fileName]) <= PGSIZE
    ensures ok ==> Holds(stack.mem, stack.esp, argvAddr[..1], [fileName])
  {
    hide StringsAt;
    SizeOfMore([], fileName);
    assert [] + [fileName] == [fileName];
    ok := stack.PushArg(fileName);
    if ok {
      argvAddr[0] := stack.esp;
      FirstString(stack.mem, stack.esp, fileName);
      assert argvAddr[..1] == [stack.esp];
    }
  }

  /** Words `from ..` of `ws` are at `a` and above, and then a null word. */
  ghost predicate WordsAt(mem: Mem, a: nat, ws: seq<nat>, from: nat)
    requires from <= |ws|
  {
    && (forall j: nat :: from <= j < |ws| ==> Word32(mem, a + 4 * (j - from)) == ws[j])
    && Word32(mem, a + 4 * (|ws| - from)) == 0
  }

  lemma MoreWords(mem: Mem, mem': Mem, a: nat, ws: seq<nat>, from: nat)
    requires 0 < from <= |ws| && WordsAt(mem, a + 4, ws, from) && SameFrom(mem, mem', a + 4)
    requires Word32(mem', a) == ws[from - 1]
    ensures WordsAt(mem', a, ws, from - 1)
  {
    hide Word32, SameFrom;
    forall j: nat | from - 1 <= j < |ws|
      ensures Word32(mem', a + 4 * (j - (from - 1))) == ws[j]
    {
      if j > from - 1 {
        assert a + 4 * (j - (from - 1)) == a + 4 + 4 * (j - from);
        SameWord(mem, mem', a + 4, a + 4 + 4 * (j - from));
      }
    }
    SameWord(mem, mem', a + 4, a + 4 + 4 * (|ws| - from));
    assert a + 4 * (|ws| - (from - 1)) == a + 4 + 4 * (|ws| - from);
  }

  lemma SameWord(mem: Mem, mem': Mem, lo: nat, a: nat)
    requires SameFrom(mem, mem', lo) && lo <= a
    ensures Word32(mem', a) == Word32(mem, a)
  {
  }

  lemma SameThrough(m: Mem, m1: Mem, m2: Mem, m3: Mem, esp: nat)
    requires SameFrom(m, m1, esp + 12) && SameFrom(m1, m2, esp + 8) && SameFrom(m2, m3, esp + 4)
    ensures SameFrom(m, m3, esp + 12) && SameFrom(m1, m3, esp + 8)
  {
  }

  /** The bytes that push_arguments pushes to align the stack pointer. */
  function Padding(esp: nat): nat { 4 - esp % 4 }

  /** The part of push_arguments that pushes the alignment and the argv array. */
  method PushArgv(stack: UserStack, argvAddr: array<nat>, argc: nat, ghost ss: seq<Bytes>) returns (ok: bool)
    requires argc == argvAddr.Length == |ss| && STACK_PAGE <= stack.esp <= PHYS_BASE && argc < WORD
    requires StringsAt(stack.mem, argvAddr[..], ss, stack.esp)
    modifies stack
    ensures ok <==> STACK_PAGE <= old(stack.esp) - Padding(old(stack.esp)) - 4 * (argc + 1)
    ensures ok ==> stack.esp == old(stack.esp) - Padding(old(stack.esp)) - 4 * (argc + 1)
    ensures ok ==> WordsAt(stack.mem, stack.esp, argvAddr[..], 0) && SameFrom(old(stack.mem), stack.mem, old(stack.esp))
  {
    hide StringsAt, WordsAt, Word32;
    ghost var top, mem := stack.esp, stack.mem;
    var align := 4 - stack.esp % 4;
    var i := 0;
    while i < align
      invariant 0 <= i <= align && stack.esp == top - i >= STACK_PAGE && SameFrom(mem, stack.mem, top)
    {
      ok := stack.PushByte();
      if !ok {
        return;
      }
      i := i + 1;
    }
    ok := stack.PushWord(0);
    if !ok {
      return;
    }
    ghost var ws := argvAddr[..];
    NoWords(stack.mem, stack.esp, ws);
    AddressesFit(mem, ws, ss, top);
    i := argc;
    while i > 0
      invariant 0 <= i <= argc && stack.esp == top - align - 4 - 4 * (argc - i) >= STACK_PAGE
      invariant SameFrom(mem, stack.mem, top) && WordsAt(stack.mem, stack.esp, ws, i) && ok
    {
      i := i - 1;
      ghost var m := stack.mem;
      ok := stack.PushWord(argvAddr[i]);
      if !ok {
        return;
      }
      MoreWords(m, stack.mem, stack.esp, ws, i + 1);
    }
  }

  /** The part of push_arguments that follows the strings: alignment, the argv array, argv, argc and
      a null return address. */
  method PushPointers(stack: UserStack, argvAddr: array<nat>, argc: nat, ghost ss: seq<Bytes>) returns (ok: bool)
    requires argc == argvAddr.Length == |ss| && STACK_PAGE <= stack.esp <= PHYS_BASE && argc < WORD
    requires StringsAt(stack.mem, argvAddr[..], ss, stack.esp)
    modifies stack
    ensures ok <==> STACK_PAGE <= old(stack.esp) - Padding(old(stack.esp)) - 4 * (argc + 1) - 12
    ensures ok ==> stack.esp == old(stack.esp) - Padding(old(stack.esp)) - 4 * (argc + 1) - 12
    ensures ok ==> Frame(stack.mem, stack.esp, ss)
  {
    hide StringsAt, WordsAt, Frame, Word32;
    ghost var top, mem := stack.esp, stack.mem;
    ok := PushArgv(stack, argvAddr, argc, ss);
    if !ok {
      return;
    }
    var base := stack.esp;
    ghost var m := stack.mem;
    ok := stack.PushWord(base);
    if !ok {
      return;
    }
    ghost var m1 := stack.mem;
    ok := stack.PushWord(argc);
    if !ok {
      return;
    }
    ghost var m2 := stack.mem;
    ok := stack.PushWord(0);
    if !ok {
      return;
    }
    Framed(mem, m, m1, m2, stack.mem, stack.esp, argvAddr[..], ss, top);
  }

  lemma NoWords(mem: Mem, a: nat, ws: seq<nat>)
    requires Word32(mem, a) == 0
    ensures WordsAt(mem, a, ws, |ws|)
  {
  }

  lemma AddressesFit(mem: Mem, ws: seq<nat>, ss: seq<Bytes>, top: nat)
    requires StringsAt(mem, ws, ss, top)
    ensures forall j :: 0 <= j < |ws| ==> ws[j] < PHYS_BASE
  {
  }

  /** The last three words complete the frame. */
  lemma Framed(mem: Mem, m: Mem, m1: Mem, m2: Mem, m3: Mem, esp: nat, ws: seq<nat>, ss: seq<Bytes>, top: nat)
    requires StringsAt(mem, ws, ss, top) && SameFrom(mem, m3, top)
    requires STACK_PAGE <= esp && esp + 12 + 4 * |ss| + 4 <= top <= PHYS_BASE
    requires WordsAt(m, esp + 12, ws, 0) && SameFrom(m, m1, esp + 12) && SameFrom(m1, m2, esp + 8)
    requires SameFrom(m2, m3, esp + 4)
    requires Word32(m1, esp + 8) == esp + 12 && Word32(m2, esp + 4) == |ss| && Word32(m3, esp) == 0
    ensures Frame(m3, esp, ss)
  {
    hide Word32, SameFrom, ArgAt;
    SameThrough(m, m1, m2, m3, esp);
    SameWord(m1, m3, esp + 8, esp + 8);
    SameWord(m2, m3, esp + 4, esp + 4);
    KeepStrings(mem, m3, ws, ss, top, esp + 12 + 4 * |ss| + 4);
    forall i: nat | i < |ss|
      ensures ArgAt(m3, Word32(m3, esp + 12 + 4 * i), ss[i], esp + 12 + 4 * |ss| + 4)
    {
      SameWord(m, m3, esp + 12, esp + 12 + 4 * (i - 0));
      assert Word32(m3, esp + 12 + 4 * i) == ws[i];
    }
    SameWord(m, m3, esp + 12, esp + 12 + 4 * (|ws| - 0));
  }

  /** Where the stack pointer ends up. */
  function FinalEsp(ss: seq<Bytes>): int {
    var esp := PHYS_BASE - Size(ss);
    esp - (4 - esp % 4) - 4 * (|ss| + 1) - 12
  }

  /** The frame fits the page: strings, 1 to 4 bytes of alignment, the argv array with its null
      pointer, and three words. */
  predicate FitsPage(ss: seq<Bytes>) {
    Size(ss) + (if Size(ss) % 4 == 0 then 4 else Size(ss) % 4) + 4 * (|ss| + 1) + 12 <= PGSIZE
  }

  lemma FitsIff(ss: seq<Bytes>)
    ensures STACK_PAGE <= FinalEsp(ss) <==> FitsPage(ss)
    ensures FitsPage(ss) ==> Size(ss) <= PGSIZE
  {
    hide Size;
    var q, r := Size(ss) / 4, Size(ss) % 4;
    assert PHYS_BASE - Size(ss) == 4 * (0x3000_0000 - q) - r;
    MultipleOf4(0x3000_0000 - q, -r);
  }

  /** The bytes pushed for alignment align the stack pointer exactly when the strings take an even
      number of bytes; otherwise it ends up 2 off. */
  lemma AlignedIff(ss: seq<Bytes>)
    ensures FinalEsp(ss) % 4 == 0 <==> Size(ss) % 2 == 0
    ensures FinalEsp(ss) % 4 in {0, 2}
  {
    hide Size;
    var e := PHYS_BASE - Size(ss);
    var q, r := e / 4, e % 4;
    assert FinalEsp(ss) == 4 * (q - 1 - (|ss| + 1) - 3) + 2 * r;
    MultipleOf4(q - 1 - (|ss| + 1) - 3, 2 * r);
    assert Size(ss) == 2 * (0x6000_0000 - 2 * q) - r;
  }

  lemma MultipleOf4(k: int, x: int)
    ensures (4 * k + x) % 4 == x % 4
  {
  }

  /** The program "ab" without arguments starts with a misaligned stack pointer. */
  lemma Misaligned()
    ensures FitsPage([[97, 98]]) && FinalEsp([[97, 98]]) % 4 == 2
  {
    var ss: seq<Bytes> := [[97, 98]];
    assert ss[..0] == [];
    assert Size(ss) == 3;
  }

  /** "a a ... a", with `n` letters. */
  function Letters(n: nat): Bytes { if n == 0 then [] else [97, SPACE] + Letters(n - 1) }

  function OneLetterStrings(n: nat): seq<Bytes> {
    seq(n, i => [97])
  }

  lemma LetterToken(t: Bytes)
    ensures Tokens([97, SPACE] + t) == [[97]] + Tokens(t)
  {
    var s := [97, SPACE] + t;
    assert s[1..] == [SPACE] + t && s[2..] == t;
    assert SkipSpaces(s) == s && WordLen(s[1..]) == 0 && WordLen(s) == 1;
    assert s[..1] == [97] && After(s, 1) == t;
    hide *;
    NextToken(s);
  }

  lemma {:induction false} LettersAre(n: nat)
    ensures |Letters(n)| == 2 * n && Tokens(Letters(n)) == OneLetterStrings(n)
  {
    hide Tokens;
    if n == 0 {
      NoTokens();
    } else {
      LettersAre(n - 1);
      LetterToken(Letters(n - 1));
      assert [[97]] + OneLetterStrings(n - 1) == OneLetterStrings(n);
    }
  }

  lemma {:induction false} SizeOfLetters(n: nat)
    ensures Size(OneLetterStrings(n)) == 2 * n
  {
    if n > 0 {
      SizeOfLetters(n - 1);
      assert OneLetterStrings(n)[..n - 1] == OneLetterStrings(n - 1);
    }
  }

  /** The program "a" with `n` one-letter arguments fits only up to 678 of them, although all the
      strings up to 2047 pass the test of MAX_ARGS_SIZE and so do not make it fail. */
  lemma PointersDoNotFit(n: nat)
    ensures
      var ss := [[97]] + Tokens(Letters(n));
      && |ss| == n + 1 && (FitsPage(ss) <==> n <= 678)
      && (Size(ss) <= MAX_ARGS_SIZE <==> n <= 2047) && (1 + |Letters(n)| <= PGSIZE <==> n <= 2047)
  {
    hide Tokens, Size;
    LettersAre(n);
    SizeOfLetters(n + 1);
    assert [[97]] + OneLetterStrings(n) == OneLetterStrings(n + 1);
  }

  /** What becomes of a call: it returns a value, or faults forever. */
  datatype Outcome = Returns(value: int) | Faults

  /** push_arguments: it returns 1 (PROPER_EXIT) with the frame of main on the stack exactly when that
      frame fits the stack's page, and faults otherwise.  The command line was copied to one page. */
  method PushArguments(stack: UserStack, fileName: Bytes, arguments: array<byte>, ghost end: nat) returns (r: Outcome)
    requires IsString(arguments[..], 0, end) && stack.esp == PHYS_BASE && |fileName| + end <= 4096
    modifies stack, arguments
    ensures Tokenized(old(arguments[0..end]), Tokens(old(arguments[0..end])))
    ensures Joined(Tokens(old(arguments[0..end]))) == WithoutSpaces(old(arguments[0..end]))
    ensures r == if FitsPage([fileName] + Tokens(old(arguments[0..end]))) then Returns(1) else Faults
    ensures r.Returns? ==> Frame(stack.mem, stack.esp, [fileName] + Tokens(old(arguments[0..end])))
    ensures r.Returns? ==> stack.esp == FinalEsp([fileName] + Tokens(old(arguments[0..end])))
  {
    hide Tokens, StringsAt, Size, Frame, Holds, AreWords, Joined, WithoutSpaces;
    ghost var at := TokensAreWords(arguments[0..end]);
    TokensJoined(arguments[0..end]);
    var text := ReadString(arguments, 0, end);
    assert 0 !in text;
    var argc := NumTokens(text);
    argc := argc + 1;
    RoomFor(fileName, text);
    var argvAddr := new nat[argc];
    var ok;
    ghost var ss;
    ok, ss := PushStrings(stack, fileName, arguments, end, argvAddr);
    FitsIff(ss);
    if !ok {
      return Faults;
    }
    SoFar(stack.mem, stack.esp, argvAddr[..], ss);
    ok := PushPointers(stack, argvAddr, argc, ss);
    return if ok then Returns(1) else Faults;
  }
}
