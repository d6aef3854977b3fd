/** Loadable segments of ELF executables (src/userprog/process.c): which program headers are accepted,
    and which pages they become. */
module Elf {
  import opened Words
  import opened Vaddr

  const OFF_MAX: nat := 0x7fff_ffff

  /** The part of struct Elf32_Phdr that loading a segment uses. */
  datatype Phdr = Phdr(offset: uint32, vaddr: uint32, filesz: uint32, memsz: uint32, writable: bool)

  function Wrap32(x: int): uint32 { x % WORD }

  /** validate_segment, in 32-bit arithmetic. */
  predicate ValidateSegment(p: Phdr, fileLength: nat) {
    && p.offset % PGSIZE == p.vaddr % PGSIZE
    && p.offset <= fileLength
    && p.memsz >= p.filesz
    && p.memsz != 0
    && p.vaddr < PHYS_BASE
    && Wrap32(p.vaddr + p.memsz) < PHYS_BASE
    && Wrap32(p.vaddr + p.memsz) >= p.vaddr
    && p.vaddr >= PGSIZE
  }

  /** A segment that should be loaded: a file part within a memory part that is not empty and lies
      between page 0 and the kernel, and begins in the file, at the same place in a page. */
  predicate Loadable(p: Phdr, fileLength: nat) {
    && 0x1000 <= p.vaddr && p.vaddr + p.memsz < 0xc000_0000 && 0 < p.memsz && p.filesz <= p.memsz
    && p.offset <= fileLength && (p.offset - p.vaddr) % 4096 == 0
  }

  /** validate_segment accepts exactly those, although it computes in 32 bits. */
  lemma AcceptedIff(p: Phdr, fileLength: nat)
    ensures ValidateSegment(p, fileLength) <==> Loadable(p, fileLength)
  {
  }

  function RoundUp(x: uint32): uint32 { Wrap32((Wrap32(x + PGSIZE - 1) / PGSIZE) * PGSIZE) }

  /** A page that the supplementary page table is told about: `read` bytes come from the file, at
      `ofs`, and `zero` bytes follow. */
  datatype Page = Page(upage: nat, ofs: nat, read: nat, zero: nat, writable: bool)

  /** Page `k` of a segment. */
  function PageAt(ofs: nat, upage: nat, read: nat, writable: bool, k: nat): Page {
    var before := Min(k * PGSIZE, read);
    var r := Min(read - before, PGSIZE);
    Page(upage + k * PGSIZE, ofs + before, r, PGSIZE - r, writable)
  }

  /** load_segment.  `room` is the number of pages that can be registered before memory runs out. */
  method LoadSegment(ofs0: nat, upage0: nat, read0: nat, zero0: nat, writable: bool, room: nat)
    returns (ok: bool, pages: seq<Page>)
    requires (read0 + zero0) % PGSIZE == 0 && upage0 % PGSIZE == 0 && ofs0 % PGSIZE == 0
    ensures ok <==> (read0 + zero0) / PGSIZE <= room
    ensures |pages| == Min((read0 + zero0) / PGSIZE, room)
    ensures forall k :: 0 <= k < |pages| ==> pages[k] == PageAt(ofs0, upage0, read0, writable, k)
  {
    var ofs, upage, read, zero := ofs0, upage0, read0, zero0;
    pages := [];
    while read > 0 || zero > 0
      invariant read >= 0 && zero >= 0 && |pages| <= room
      invariant read + zero + |pages| * PGSIZE == read0 + zero0
      invariant read == read0 - Min(|pages| * PGSIZE, read0) && (read == 0 || zero == zero0)
      invariant ofs == ofs0 + Min(|pages| * PGSIZE, read0) && upage == upage0 + |pages| * PGSIZE
      invariant forall k :: 0 <= k < |pages| ==> pages[k] == PageAt(ofs0, upage0, read0, writable, k)
      decreases read + zero
    {
      var pageRead := if read < PGSIZE then read else PGSIZE;
      var pageZero := PGSIZE - pageRead;
      if |pages| == room {
        return false, pages;
      }
      pages := pages + [Page(upage, ofs, pageRead, pageZero, writable)];
      read := read - pageRead;
      zero := zero - pageZero;
      ofs := ofs + pageRead;
      upage := upage + PGSIZE;
    }
    ok := true;
  }

  /** The PT_LOAD case of load. */
  method LoadHeader(p: Phdr, fileLength: nat, room: nat) returns (ok: bool, pages: seq<Page>)
    requires p.offset + p.filesz <= OFF_MAX
    ensures ok <==> Loadable(p, fileLength) && PagesOf(p) <= room
    ensures ok ==> Laid(p, pages)
    ensures !Loadable(p, fileLength) ==> pages == []
  {
    hide Laid, RoundUp, Wrap32, ValidateSegment, Loadable, PagesOf, PageAt;
    AcceptedIff(p, fileLength);
    pages := [];
    if !ValidateSegment(p, fileLength) {
      return false, [];
    }
    var filePage := p.offset - p.offset % PGSIZE;
    var memPage := p.vaddr - p.vaddr % PGSIZE;
    var pageOffset := p.vaddr % PGSIZE;
    var read, zero;
    NoWrap(p, fileLength);
    if p.filesz > 0 {
      read := Wrap32(pageOffset + p.filesz);
      zero := Wrap32(RoundUp(Wrap32(pageOffset + p.memsz)) - read);
    } else {
      read := 0;
      zero := RoundUp(Wrap32(pageOffset + p.memsz));
    }
    assert read + zero == PagesOf(p) * PGSIZE;
    ok, pages := LoadSegment(filePage, memPage, read, zero, p.writable, room);
    if ok {
      SegmentLayout(p, fileLength, pages);
    }
  }

  /** The number of pages that the segment touches. */
  function PagesOf(p: Phdr): nat { (p.vaddr % PGSIZE + p.memsz + PGSIZE - 1) / PGSIZE }

  /** Just as many pages as hold the segment and what is before it in its first page. */
  lemma PagesOfIs(p: Phdr)
    requires p.memsz > 0
    ensures 4096 * (PagesOf(p) - 1) < p.vaddr % 4096 + p.memsz <= 4096 * PagesOf(p)
  {
  }

  lemma NoWrap(p: Phdr, fileLength: nat)
    requires ValidateSegment(p, fileLength)
    ensures var o := p.vaddr % PGSIZE;
      && Wrap32(o + p.filesz) == o + p.filesz && Wrap32(o + p.memsz) == o + p.memsz
      && RoundUp(o + p.memsz) == PagesOf(p) * PGSIZE >= o + p.memsz
      && (p.vaddr - o) + PagesOf(p) * PGSIZE <= PHYS_BASE
      && Wrap32(PagesOf(p) * PGSIZE - (o + p.filesz)) == PagesOf(p) * PGSIZE - (o + p.filesz)
  {
    var o := p.vaddr % PGSIZE;
    assert PagesOf(p) == (o + p.memsz + PGSIZE - 1) / PGSIZE;
    assert p.vaddr - o == (p.vaddr / PGSIZE) * PGSIZE;
  }

  /** Address `a` of the segment is in page `(a - memPage) / PGSIZE` of it. */
  function InPage(p: Phdr, a: nat): int { (a - (p.vaddr - p.vaddr % PGSIZE)) / PGSIZE }

  function AtOfs(p: Phdr, a: nat): int { (a - (p.vaddr - p.vaddr % PGSIZE)) % PGSIZE }

  /** Contiguous pages between page 0 and the kernel, such that each address of the segment's file
      part comes from its place in the file and the rest, to the end of the last page, is zero. */
  ghost predicate Laid(p: Phdr, pages: seq<Page>) {
    var memPage := p.vaddr - p.vaddr % PGSIZE;
    && |pages| == PagesOf(p) && memPage + |pages| * PGSIZE >= p.vaddr + p.memsz
    && (forall k :: 0 <= k < |pages| ==>
         pages[k].upage == memPage + k * PGSIZE && PGSIZE <= pages[k].upage && pages[k].upage + PGSIZE <= PHYS_BASE)
    && (forall k :: 0 <= k < |pages| ==> pages[k].read + pages[k].zero == PGSIZE && pages[k].writable == p.writable)
    && (forall a: nat :: p.vaddr <= a < p.vaddr + p.filesz ==> FromFile(p, pages, a))
    && (forall a: nat :: p.vaddr + p.filesz <= a < memPage + |pages| * PGSIZE ==> IsZero(p, pages, a))
  }

  ghost predicate FromFile(p: Phdr, pages: seq<Page>, a: nat) {
    && 0 <= InPage(p, a) < |pages|
    && var g := pages[InPage(p, a)];
       g.upage + AtOfs(p, a) == a && AtOfs(p, a) < g.read && g.ofs + AtOfs(p, a) == p.offset + (a - p.vaddr)
  }

  ghost predicate IsZero(p: Phdr, pages: seq<Page>, a: nat) {
    0 <= InPage(p, a) < |pages| && AtOfs(p, a) >= pages[InPage(p, a)].read
  }

  lemma SegmentLayout(p: Phdr, fileLength: nat, pages: seq<Page>)
    requires ValidateSegment(p, fileLength) && |pages| == PagesOf(p)
    requires forall k :: 0 <= k < |pages| ==>
      pages[k] == PageAt(p.offset - p.offset % PGSIZE, p.vaddr - p.vaddr % PGSIZE, ReadBytes(p), p.writable, k)
    ensures Laid(p, pages)
  {
    hide InPage, AtOfs;
    NoWrap(p, fileLength);
    var memPage := p.vaddr - p.vaddr % PGSIZE;
    assert p.vaddr + p.filesz <= p.vaddr + p.memsz <= memPage + |pages| * PGSIZE;
    forall a: nat | p.vaddr <= a < p.vaddr + p.filesz
      ensures FromFile(p, pages, a)
    {
      Within(p, |pages|, a);
      FilePart(p, a, pages[InPage(p, a)]);
    }
    forall a: nat | p.vaddr + p.filesz <= a < memPage + |pages| * PGSIZE
      ensures IsZero(p, pages, a)
    {
      Within(p, |pages|, a);
      ZeroPart(p, a, pages[InPage(p, a)]);
    }
  }

  lemma Within(p: Phdr, n: nat, a: nat)
    requires p.vaddr - p.vaddr % PGSIZE <= a < p.vaddr - p.vaddr % PGSIZE + n * PGSIZE
    ensures 0 <= InPage(p, a) < n && 0 <= AtOfs(p, a) < PGSIZE
    ensures a == p.vaddr - p.vaddr % PGSIZE + InPage(p, a) * PGSIZE + AtOfs(p, a)
  {
  }

  /** The bytes that a segment's pages read: none if it is all zero. */
  function ReadBytes(p: Phdr): nat { if p.filesz > 0 then p.vaddr % PGSIZE + p.filesz else 0 }

  lemma FilePart(p: Phdr, a: nat, g: Page)
    requires p.offset % PGSIZE == p.vaddr % PGSIZE && p.vaddr <= a < p.vaddr + p.filesz
    requires 0 <= InPage(p, a) && 0 <= AtOfs(p, a) < PGSIZE
    requires a == p.vaddr - p.vaddr % PGSIZE + InPage(p, a) * PGSIZE + AtOfs(p, a)
    requires g ==
      PageAt(p.offset - p.offset % PGSIZE, p.vaddr - p.vaddr % PGSIZE, ReadBytes(p), p.writable, InPage(p, a))
    ensures g.upage + AtOfs(p, a) == a && AtOfs(p, a) < g.read && g.ofs + AtOfs(p, a) == p.offset + (a - p.vaddr)
  {
    hide InPage, AtOfs;
  }

  lemma ZeroPart(p: Phdr, a: nat, g: Page)
    requires p.vaddr + p.filesz <= a && 0 <= InPage(p, a) && 0 <= AtOfs(p, a)
    requires a == p.vaddr - p.vaddr % PGSIZE + InPage(p, a) * PGSIZE + AtOfs(p, a)
    requires g ==
      PageAt(p.offset - p.offset % PGSIZE, p.vaddr - p.vaddr % PGSIZE, ReadBytes(p), p.writable, InPage(p, a))
    ensures AtOfs(p, a) >= g.read
  {
    hide InPage, AtOfs;
  }
}
