/** Page directory and page table entries (src/threads/pte.h), as in section 3.7.6 of volume 3A of the
    IA-32 manual, and the virtual addresses they translate. */
module PageTables {
  import opened Words
  import opened Masks
  import opened Vaddr

  const PTE_ADDR: nat := 0xffff_f000
  const PTE_P: nat := 1
  const PTE_W: nat := 2
  const PTE_U: nat := 4
  const PTMASK: nat := 0x3f_f000

  /** The first page number of the kernel's mapping of physical memory. */
  const KERNEL: nat := 0xc_0000

  type KernelPage = no: int | 0xc_0000 <= no < 0x10_0000 witness 0xc_0000

  function Vtop(va: nat): nat
    requires va >= PHYS_BASE
  {
    va - PHYS_BASE
  }

  function Ptov(pa: nat): nat { pa + PHYS_BASE }

  function PtNo(va: uint32): nat { And(va, PTMASK) / 0x1000 }

  function PdNo(va: uint32): nat { va / 0x40_0000 }

  function PdeCreate(pt: nat): nat
    requires pt >= PHYS_BASE
  {
    Or(Or(Or(Vtop(pt), PTE_U), PTE_P), PTE_W)
  }

  function PdeGetPt(pde: nat): nat { Ptov(And(pde, PTE_ADDR)) }

  function PteCreateUser(page: nat, writable: bool): nat
    requires page >= PHYS_BASE
  {
    Or(Or(Or(Vtop(page), PTE_P), if writable then PTE_W else 0), PTE_U)
  }

  function PteGetPage(pte: nat): nat { Ptov(And(pte, PTE_ADDR)) }

  predicate Present(e: nat) { And(e, PTE_P) != 0 }

  predicate Writable(e: nat) { And(e, PTE_W) != 0 }

  // ----- What the bit operations compute -----

  lemma Pow12()
    ensures Pow2(0) == 1 && Pow2(1) == 2 && Pow2(2) == 4 && Pow2(3) == 8 && Pow2(10) == 1024 && Pow2(12) == 4096
    ensures Pow2(20) == 0x10_0000 && Pow2(31) == 0x8000_0000
  {
    Pow2Values();
    assert Pow2(8) == 256;
    assert Pow2(16) == 0x1_0000;
  }

  /** A frame and flags below 16 make up an entry that holds both. */
  lemma EntryIs(frame: nat, flags: nat)
    requires frame < 0x10_0000 && flags < 8
    ensures And(frame * 4096 + flags, PTE_ADDR) == frame * 4096
    ensures Present(frame * 4096 + flags) <==> flags % 2 == 1
    ensures Writable(frame * 4096 + flags) <==> (flags / 2) % 2 == 1
  {
    hide Pow2, And;
    Pow12();
    var e := frame * 4096 + flags;
    AndHigh(frame, flags, 0xf_ffff, 12);
    AndMask(frame, 20);
    AndMask(e, 1);
    AndHigh(e / 2, e % 2, 1, 1);
    AndMask(e / 2, 1);
    assert e % 2 == flags % 2 && (e / 2) % 2 == (flags / 2) % 2;
  }

  lemma OrFlag(frame: nat, flags: nat, flag: nat)
    requires flags < 8 && flag in {0, 1, 2, 4} && Or(flags, flag) < 8
    ensures Or(frame * 4096 + flags, flag) == frame * 4096 + Or(flags, flag)
  {
    hide Pow2, Or;
    Pow12();
    OrLow(frame, 12, flags);
    OrLow(frame, 12, Or(flags, flag));
    OrAssociates(frame * 4096, flags, flag);
  }

  lemma {:induction false} OrAssociates(a: nat, b: nat, c: nat)
    ensures Or(Or(a, b), c) == Or(a, Or(b, c))
    decreases a + b + c
  {
    hide Or;
    if a == 0 && b == 0 && c == 0 {
      OrZero();
    } else {
      OrHalves(a, b);
      OrHalves(b, c);
      OrHalves(Or(a, b), c);
      OrHalves(a, Or(b, c));
      OrAssociates(a / 2, b / 2, c / 2);
      SameHalves(Or(Or(a, b), c), Or(a, Or(b, c)));
    }
  }

  lemma OrZero()
    ensures Or(0, 0) == 0
  {
  }

  lemma OrHalves(a: nat, b: nat)
    ensures Or(a, b) / 2 == Or(a / 2, b / 2) && (Or(a, b) % 2 == 1 <==> a % 2 == 1 || b % 2 == 1)
  {
  }

  lemma SameHalves(x: nat, y: nat)
    requires x / 2 == y / 2 && (x % 2 == 1 <==> y % 2 == 1)
    ensures x == y
  {
  }

  /** Page directory entries point to their page table and are present. */
  lemma PdeIs(no: KernelPage)
    ensures PdeCreate(no * 4096) == (no - KERNEL) * 4096 + 7
    ensures PdeGetPt(PdeCreate(no * 4096)) == no * 4096 && Present(PdeCreate(no * 4096))
  {
    hide And;
    var f := no - KERNEL;
    OrFlag(f, 0, 4);
    OrFlag(f, 4, 1);
    OrFlag(f, 5, 2);
    EntryIs(f, 7);
  }

  /** Page table entries give back the page and whether it is writable. */
  lemma PteIs(no: KernelPage, writable: bool)
    ensures PteCreateUser(no * 4096, writable) == (no - KERNEL) * 4096 + if writable then 7 else 5
    ensures var e := PteCreateUser(no * 4096, writable);
      PteGetPage(e) == no * 4096 && Present(e) && (Writable(e) <==> writable) && e < WORD
  {
    hide And;
    var f := no - KERNEL;
    OrFlag(f, 0, 1);
    OrFlag(f, 1, if writable then 2 else 0);
    OrFlag(f, if writable then 3 else 1, 4);
    EntryIs(f, if writable then 7 else 5);
  }

  /** Clearing the present bit. */
  lemma ClearPresent(e: uint32)
    ensures And(e, Not32(PTE_P)) < WORD && !Present(And(e, Not32(PTE_P)))
  {
    hide Pow2, And;
    Pow12();
    AndHigh(e / 2, e % 2, 0x7fff_ffff, 1);
    AndBound(e, Not32(PTE_P));
    AndMask(And(e, Not32(PTE_P)), 1);
  }

  /** A user address is in page `va / 4096`, which is entry PtNo of table PdNo. */
  lemma AddressIs(va: uint32)
    ensures PdNo(va) == (va / 4096) / 1024 && PtNo(va) == (va / 4096) % 1024
    ensures PdNo(va) * 1024 + PtNo(va) == va / 4096
  {
    hide Pow2, And;
    Pow12();
    AndHigh(va / 4096, va % 4096, 0x3ff, 12);
    AndMask(va / 4096, 10);
  }

  lemma ZeroIsAbsent()
    ensures !Present(0)
  {
  }
}
