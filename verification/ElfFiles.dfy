/** ELF files byte by byte (include/common/elf.h:31-57): what the headers of a file say, as they are written out, is
    what the loader does (kernel/kernel/elf.c:25-110). */
module ElfFiles {
  import opened Machine
  import opened DiskFormat
  import opened LittleEndian
  import opened Segments
  import opened Cursors
  import opened ProgramPages
  import opened Elf
  import Layout
  import Metadata
  import Packed
  import Populate
  import ProgramBreak

  // ---- the headers as they are written ------------------------------------------------------------

  /** Elf64Ehdr. */
  datatype FileHeader = FileHeader(ident: seq<Byte>, type_: nat, machine: nat, version: nat, entry: nat, phoff: nat,
                                   shoff: nat, flags: nat, ehsize: nat, phentsize: nat, phnum: nat, shentsize: nat,
                                   shnum: nat, shstrndx: nat)

  /** Elf64Phdr. */
  datatype ProgramHeader = ProgramHeader(type_: nat, flags: nat, offset: nat, vaddr: nat, paddr: nat, filesz: nat,
                                         memsz: nat, align: nat)

  /** Every member fits its width. */
  predicate Fields(h: FileHeader) {
    && |h.ident| == 16 && h.type_ < 0x1_0000 && h.machine < 0x1_0000 && h.version < Layout.U32 && h.entry < U64
    && h.phoff < U64 && h.shoff < U64 && h.flags < Layout.U32 && h.ehsize < 0x1_0000 && h.phentsize < 0x1_0000
    && h.phnum < 0x1_0000 && h.shentsize < 0x1_0000 && h.shnum < 0x1_0000 && h.shstrndx < 0x1_0000
  }

  predicate Words(p: ProgramHeader) {
    && p.type_ < Layout.U32 && p.flags < Layout.U32 && p.offset < U64 && p.vaddr < U64 && p.paddr < U64
    && p.filesz < U64 && p.memsz < U64 && p.align < U64
  }

  /** The members in their order, each in its width, the lowest byte first. */
  function FileHeaderBytes(h: FileHeader): (b: seq<Byte>)
    requires Fields(h)
    ensures |b| == EHDR_SIZE
  {
    h.ident + Encode(h.type_, 2) + Encode(h.machine, 2) + Encode(h.version, 4) + Encode(h.entry, 8)
    + Encode(h.phoff, 8) + Encode(h.shoff, 8) + Encode(h.flags, 4) + Encode(h.ehsize, 2) + Encode(h.phentsize, 2)
    + Encode(h.phnum, 2) + Encode(h.shentsize, 2) + Encode(h.shnum, 2) + Encode(h.shstrndx, 2)
  }

  function ProgramHeaderBytes(p: ProgramHeader): (b: seq<Byte>)
    ensures |b| == PHDR_SIZE
  {
    Encode(p.type_, 4) + Encode(p.flags, 4) + Encode(p.offset, 8) + Encode(p.vaddr, 8) + Encode(p.paddr, 8)
    + Encode(p.filesz, 8) + Encode(p.memsz, 8) + Encode(p.align, 8)
  }

  /** Two bytes, four or eight that were written are read as the same number. */
  lemma HalfRead(v: nat)
    requires v < 0x1_0000
    ensures GetU16(Encode(v, 2)) == v
  {
    Powers();
    var b := Encode(v, 2);
    HalfWordField(b);
    EncodeIsField(v, 2);
    FieldUnique(b, 0, 2, v, GetU16(b));
  }

  lemma WordRead(v: nat)
    requires v < Layout.U32
    ensures GetU32(Encode(v, 4)) == v
  {
    Powers();
    var b := Encode(v, 4);
    WordField(b);
    EncodeIsField(v, 4);
    FieldUnique(b, 0, 4, v, GetU32(b));
  }

  lemma LongRead(v: nat)
    requires v < U64
    ensures Metadata.GetU64(Encode(v, 8)) == v
  {
    MorePowers(4);
    var b := Encode(v, 8);
    Packed.LongIs(b);
    EncodeIsField(v, 8);
    FieldUnique(b, 0, 8, v, Metadata.GetU64(b));
  }

  /** The loader finds in a header that was written out what was written. */
  lemma ProgramHeaderRead(p: ProgramHeader)
    requires Words(p)
    ensures ParsePhdr(ProgramHeaderBytes(p)) == Phdr(p.type_, p.offset, p.vaddr, p.filesz, p.memsz)
  {
    hide Encode, GetU32, Metadata.GetU64;
    var b := ProgramHeaderBytes(p);
    assert b[..4] == Encode(p.type_, 4) && b[8..16] == Encode(p.offset, 8) && b[16..24] == Encode(p.vaddr, 8);
    assert b[32..40] == Encode(p.filesz, 8) && b[40..48] == Encode(p.memsz, 8);
    WordRead(p.type_);
    LongRead(p.offset);
    LongRead(p.vaddr);
    LongRead(p.filesz);
    LongRead(p.memsz);
  }

  lemma FileHeaderRead(h: FileHeader)
    requires Fields(h)
    ensures ParseEhdr(FileHeaderBytes(h)) ==
      Ehdr(h.ident[..4], h.ident[4], h.ident[5], h.type_, h.phoff, h.phentsize, h.phnum)
  {
    hide Encode, GetU16, Metadata.GetU64;
    var b := FileHeaderBytes(h);
    assert b[..4] == h.ident[..4] && b[4] == h.ident[4] && b[5] == h.ident[5];
    assert b[16..18] == Encode(h.type_, 2) && b[32..40] == Encode(h.phoff, 8);
    assert b[54..56] == Encode(h.phentsize, 2) && b[56..58] == Encode(h.phnum, 2);
    HalfRead(h.type_);
    LongRead(h.phoff);
    HalfRead(h.phentsize);
    HalfRead(h.phnum);
  }

  // ---- a file with its headers --------------------------------------------------------------------

  /** The bytes of program header `i` are in the file. */
  predicate EntryWritten(data: seq<Byte>, phoff: nat, i: nat, p: ProgramHeader) {
    && Words(p) && phoff + PHDR_SIZE * (i + 1) <= |data|
    && data[phoff + PHDR_SIZE * i..phoff + PHDR_SIZE * i + PHDR_SIZE] == ProgramHeaderBytes(p)
  }

  /** The file begins with header `h` and has the program headers `phs` where `h` says. */
  predicate Written(data: seq<Byte>, h: FileHeader, phs: seq<ProgramHeader>) {
    && Fields(h) && |data| >= EHDR_SIZE && data[..EHDR_SIZE] == FileHeaderBytes(h) && h.phnum == |phs|
    && forall i :: 0 <= i < |phs| ==> EntryWritten(data, h.phoff, i, phs[i])
  }

  /** An executable for this loader: 7F 45 4C 46, 64 bits, little endian, type 2, entries of 56 bytes. */
  predicate Executable(h: FileHeader) {
    && |h.ident| == 16 && h.ident[0] == 0x7F && h.ident[1] == 0x45 && h.ident[2] == 0x4C && h.ident[3] == 0x46
    && h.ident[4] == 2 && h.ident[5] == 1 && h.type_ == 2 && h.phentsize == 56
  }

  /** What the loader says of a header, the first complaint being the one that counts. */
  function Verdict(h: FileHeader): LoadResult
    requires |h.ident| == 16
  {
    if h.ident[..4] != [0x7F, 0x45, 0x4C, 0x46] then Refused(InvalidMagic)
    else if h.ident[4] != 2 then Refused(NotElf64)
    else if h.ident[5] != 1 then Refused(NotLittleEndian)
    else if h.type_ != 2 then Refused(NotExecutable)
    else if h.phentsize != 56 then Refused(PhentsizeMismatch)
    else Loaded(0)
  }

  lemma HeaderWritten(data: seq<Byte>, h: FileHeader, phs: seq<ProgramHeader>)
    requires Written(data, h, phs)
    ensures var eh := ParseEhdr(data[..EHDR_SIZE]);
      && eh.phnum == |phs| && eh.phoff == h.phoff && HeaderError(eh) == Verdict(h)
      && (Verdict(h).Refused? <==> !Executable(h))
  {
    hide ParseEhdr, FileHeaderBytes;
    FileHeaderRead(h);
    var m := h.ident[..4];
    assert m == [0x7F, 0x45, 0x4C, 0x46] <==> m[0] == 0x7F && m[1] == 0x45 && m[2] == 0x4C && m[3] == 0x46;
  }

  lemma EntryRead(data: seq<Byte>, eh: Ehdr, i: nat, p: ProgramHeader)
    requires EntryWritten(data, eh.phoff, i, p)
    ensures PhdrAt(data, eh, i) == Phdr(p.type_, p.offset, p.vaddr, p.filesz, p.memsz)
  {
    hide ParsePhdr, ProgramHeaderBytes;
    ProgramHeaderRead(p);
  }

  // ---- what is loaded -----------------------------------------------------------------------------

  /** The page at `page` has an address of the segment. */
  predicate Touches(p: ProgramHeader, page: nat) {
    p.type_ == 1 && page % PAGE == 0 && p.vaddr < page + PAGE && page < p.vaddr + p.memsz
  }

  /** The byte the segment has at address `a`: from the file, behind that zero. */
  function SegmentByte(data: seq<Byte>, p: ProgramHeader, a: nat): Byte
    requires p.offset + p.filesz <= |data|
  {
    if p.vaddr <= a < p.vaddr + p.filesz then data[p.offset + (a - p.vaddr)] else 0
  }

  /** Segment `i` is the last one with an address on the page. */
  predicate LastOn(phs: seq<ProgramHeader>, i: nat, page: nat) {
    i < |phs| && Touches(phs[i], page) && forall j :: i < j < |phs| ==> !Touches(phs[j], page)
  }

  predicate Holds(data: seq<Byte>, p: ProgramHeader, page: nat, bytes: seq<Byte>) {
    && p.offset + p.filesz <= |data| && |bytes| == PAGE
    && forall k :: 0 <= k < PAGE ==> bytes[k] == SegmentByte(data, p, page + k)
  }

  /** Memory as the program headers ask for it. */
  ghost predicate AsAsked(data: seq<Byte>, phs: seq<ProgramHeader>, x: Plan) {
    && x.Going?
    && (forall page :: page in x.img <==> exists i :: 0 <= i < |phs| && Touches(phs[i], page))
    && (forall i: nat, page :: LastOn(phs, i, page) ==> page in x.img && Holds(data, phs[i], page, x.img[page]))
    && (forall i :: 0 <= i < |phs| && phs[i].type_ == 1 ==> phs[i].vaddr + phs[i].memsz <= x.top)
    && x.top % PAGE == 0
    && (x.top > 0 ==> exists i :: 0 <= i < |phs| && phs[i].type_ == 1 && x.top < phs[i].vaddr + phs[i].memsz + PAGE)
  }

  lemma Overlap(ph: Phdr, page: nat)
    ensures InSegment(ph, page) <==> page % PAGE == 0 && ph.vaddr < page + PAGE && page < ph.vaddr + ph.memsz
  {
    var end := ph.vaddr + ph.memsz;
    if page % PAGE == 0 {
      var q, a, e := page / PAGE, Down(ph.vaddr) / PAGE, UpTo(end) / PAGE;
      assert page == PAGE * q && Down(ph.vaddr) == PAGE * a && UpTo(end) == PAGE * e;
    }
  }

  lemma TouchesIs(data: seq<Byte>, eh: Ehdr, i: nat, p: ProgramHeader, page: nat)
    requires EntryWritten(data, eh.phoff, i, p)
    ensures Owns(data, eh, i, page) <==> Touches(p, page)
  {
    hide ParsePhdr, ProgramHeaderBytes, InSegment;
    EntryRead(data, eh, i, p);
    Overlap(PhdrAt(data, eh, i), page);
  }

  lemma FillsIs(data: seq<Byte>, ph: Phdr, p: ProgramHeader, page: nat, bytes: seq<Byte>)
    requires ph == Phdr(p.type_, p.offset, p.vaddr, p.filesz, p.memsz) && Fills(data, ph, page, bytes)
    ensures Holds(data, p, page, bytes)
  {
    forall k | 0 <= k < PAGE ensures bytes[k] == SegmentByte(data, p, page + k) {
      assert bytes[k] == SegByte(data, ph, page + k);
    }
  }

  lemma TopIs(data: seq<Byte>, eh: Ehdr, phs: seq<ProgramHeader>, top: nat)
    requires TopRight(data, eh, |phs|, top) && forall i :: 0 <= i < |phs| ==> EntryWritten(data, eh.phoff, i, phs[i])
    ensures forall i :: 0 <= i < |phs| && phs[i].type_ == 1 ==> phs[i].vaddr + phs[i].memsz <= top
    ensures top % PAGE == 0
    ensures top > 0 ==> exists i :: 0 <= i < |phs| && phs[i].type_ == 1 && top < phs[i].vaddr + phs[i].memsz + PAGE
  {
    hide PhdrAt, EntryWritten;
    forall i | 0 <= i < |phs| ensures EntrySays(data, eh, i, phs[i]) { Says(data, eh, i, phs[i]); }
    forall i | 0 <= i < |phs| && phs[i].type_ == 1 ensures phs[i].vaddr + phs[i].memsz <= top {
      assert EntrySays(data, eh, i, phs[i]) && IsLoad(data, eh, i);
    }
    if top > 0 {
      var i :| 0 <= i < |phs| && IsLoad(data, eh, i) && SegEnd(PhdrAt(data, eh, i)) == top;
      assert EntrySays(data, eh, i, phs[i]);
    }
  }

  /** Program header `i` as the loader has it. */
  predicate EntrySays(data: seq<Byte>, eh: Ehdr, i: nat, p: ProgramHeader) {
    && eh.phoff + PHDR_SIZE * (i + 1) <= |data| && (IsLoad(data, eh, i) <==> p.type_ == 1)
    && PhdrAt(data, eh, i) == Phdr(p.type_, p.offset, p.vaddr, p.filesz, p.memsz)
  }

  lemma Says(data: seq<Byte>, eh: Ehdr, i: nat, p: ProgramHeader)
    requires EntryWritten(data, eh.phoff, i, p)
    ensures EntrySays(data, eh, i, p)
  {
    hide ParsePhdr, ProgramHeaderBytes;
    EntryRead(data, eh, i, p);
  }

  lemma PagesAre(data: seq<Byte>, eh: Ehdr, phs: seq<ProgramHeader>, img: Program)
    requires PagesRight(data, eh, |phs|, img)
    requires forall i :: 0 <= i < |phs| ==> EntryWritten(data, eh.phoff, i, phs[i])
    ensures forall page :: page in img <==> exists i :: 0 <= i < |phs| && Touches(phs[i], page)
    ensures forall i: nat, page :: LastOn(phs, i, page) ==> page in img && Holds(data, phs[i], page, img[page])
  {
    hide EntryWritten, Owns, Touches, Fills, Holds, PhdrAt, Covered;
    forall i: nat, page: nat | i < |phs| ensures Owns(data, eh, i, page) <==> Touches(phs[i], page) {
      TouchesIs(data, eh, i, phs[i], page);
    }
    forall page: nat, i | 0 <= i < |phs| &&
        Touches(phs[i], page) ensures page in img { InImage(data, eh, phs, img, i, page); }
    forall i: nat, page | LastOn(phs, i, page) ensures page in img && Holds(data, phs[i], page, img[page]) {
      assert LastOwner(data, eh, |phs|, i, page);
      EntryRead(data, eh, i, phs[i]);
      FillsIs(data, PhdrAt(data, eh, i), phs[i], page, img[page]);
    }
  }

  /** A page some segment has is in memory: the last one that has it put it there. */
  lemma {:induction false} InImage(data: seq<Byte>, eh: Ehdr, phs: seq<ProgramHeader>, img: Program, i: nat, page: nat)
    requires PagesRight(data, eh, |phs|, img) && i < |phs| && Owns(data, eh, i, page)
    ensures page in img
    decreases |phs| - i
  {
    hide Owns, Fills, PhdrAt, Covered;
    if LastOwner(data, eh, |phs|, i, page) {
    } else {
      var j :| i < j < |phs| && Owns(data, eh, j, page);
      InImage(data, eh, phs, img, j, page);
    }
  }

  /** The loader does what the program headers written in the file say, or refuses as they call for. */
  lemma ProgramLoaded(o: Opened, c: Cursor, h: FileHeader, phs: seq<ProgramHeader>)
    requires Readable(o, c) && Written(o.data, h, phs)
    ensures var x := Execution(o, c);
      if !Executable(h) then |h.ident| == 16 && x == Over(Verdict(h))
      else if exists i :: 0 <= i < |phs| && phs[i].filesz > phs[i].memsz then x == Over(Refused(FileszExceedsMemsz))
      else AsAsked(o.data, phs, x)
  {
    hide Execution, Readable, Written, ParseEhdr, HeaderError, Executable, Verdict, Image, AsAsked, TooMuchFile,
         EntryWritten;
    ReadableSize(o, c);
    var eh, x := ParseEhdr(o.data[..EHDR_SIZE]), Execution(o, c);
    ExecutionRight(o, c);
    HeaderWritten(o.data, h, phs);
    EntriesWritten(o.data, h, phs);
    forall i | 0 <= i < |phs| ensures TooMuchFile(o.data, eh, i) <==> phs[i].filesz > phs[i].memsz {
      TooMuchIs(o.data, eh, i, phs[i]);
    }
    if x.Going? && Image(o.data, eh, |phs|, x.img, x.top) { Asked(o.data, eh, phs, x); }
  }

  lemma TooMuchIs(data: seq<Byte>, eh: Ehdr, i: nat, p: ProgramHeader)
    requires EntryWritten(data, eh.phoff, i, p)
    ensures TooMuchFile(data, eh, i) <==> p.filesz > p.memsz
  {
    hide PhdrAt, EntryWritten;
    Says(data, eh, i, p);
  }

  lemma Asked(data: seq<Byte>, eh: Ehdr, phs: seq<ProgramHeader>, x: Plan)
    requires x.Going? && Image(data, eh, |phs|, x.img, x.top)
    requires forall i :: 0 <= i < |phs| ==> EntryWritten(data, eh.phoff, i, phs[i])
    ensures AsAsked(data, phs, x)
  {
    hide PagesRight, TopRight, Touches, LastOn, Holds, EntryWritten;
    PagesAre(data, eh, phs, x.img);
    TopIs(data, eh, phs, x.top);
  }

  lemma ReadableSize(o: Opened, c: Cursor)
    requires Readable(o, c)
    ensures InFile(o, c) && |o.data| >= EHDR_SIZE
  {
  }

  lemma EntriesWritten(data: seq<Byte>, h: FileHeader, phs: seq<ProgramHeader>)
    requires Written(data, h, phs)
    ensures |h.ident| == 16 && forall i :: 0 <= i < |phs| ==> EntryWritten(data, h.phoff, i, phs[i])
  {
  }

  // ---- a program with a .bss ----------------------------------------------------------------------

  /** A page of code, and a page of data followed by two pages that are in memory only. */
  const TEXT: ProgramHeader := ProgramHeader(1, 5, 0x1000, 0x40_0000, 0x40_0000, 0x1000, 0x1000, 0x1000)
  const DATA: ProgramHeader := ProgramHeader(1, 6, 0x2000, 0x40_1000, 0x40_1000, 0x1000, 0x3000, 0x1000)

  /** Blocks of a page: reads of headers from the first block, of segments from theirs. */
  lemma BssReads(o: Opened, c: Cursor)
    requires PageBuffer(o) && InFile(o, c) && o.bs == PAGE && |o.data| == 0x3000
    requires c.pos == 0
    ensures var c1 := Touch(o, c, 64);
      && c1 == Cursor(64, 0, 0) && Touch(o, c1, 120) == Cursor(120, 0, 0)
      && Touch(o, Cursor(0x1000, 0, 0), 0x2000) == Cursor(0x2000, 1, 1)
      && Touch(o, Cursor(120, 1, 1), 176) == Cursor(176, 0, 0)
  {
  }

  /** The cursor behind the code. */
  lemma BehindText(o: Opened, ph: Phdr)
    requires PageBuffer(o) && o.bs == PAGE && |o.data| == 0x3000
    requires ph == Phdr(1, 0x1000, 0x40_0000, 0x1000, 0x1000)
    ensures InFile(o, Cursor(120, 0, 0))
    ensures AfterSegment(o, Cursor(120, 0, 0), ph) == Touch(o, Cursor(0x1000, 0, 0), 0x2000)
  {
    hide Reads, After, Touch, Picked;
    var c := Cursor(0x1000, 0, 0);
    assert AtSegment(o, Cursor(120, 0, 0), ph) == c && PageCount(ph) == 1 && Count(0x1000, 0) == 0x1000;
    ExactRead(o, c, 0x1000);
    var s := FillPage(o, c, 0, 0x1000);
    assert s.Filled? && s.c == Touch(o, c, 0x2000);
    assert Behind(o, c, 1, 0, 0x1000) == Behind(o, s.c, 0, 0, s.remaining) == s.c;
  }

  /** One program header that is read right, with its segment. */
  lemma CleanStep(o: Opened, eh: Ehdr, i: nat, c: Cursor, at: nat, ph: Phdr)
    requires PageBuffer(o) && InFile(o, c) && i < eh.phnum
    requires at == eh.phoff + PHDR_SIZE * i && at + PHDR_SIZE <= |o.data|
    requires PhdrAt(o.data, eh, i) == ph && ph.type_ == PT_LOAD && Described(ph, |o.data|)
    requires Fresh(c.(pos := at), o.bs) && Populate.BlockOffset(at, o.bs) + PHDR_SIZE <= PAGE
    requires var c' := Touch(o, c.(pos := at), at + PHDR_SIZE);
      Loadable(|o.data|, o.bs, c', ph) && Clean(o, eh, i + 1, AfterSegment(o, c', ph))
    ensures Clean(o, eh, i, c)
  {
    hide Populate.BlockOffset, Fresh, Loadable, Touch, PhdrAt, AfterSegment;
  }

  lemma CleanEnd(o: Opened, eh: Ehdr, c: Cursor)
    requires PageBuffer(o) && InFile(o, c)
    ensures Clean(o, eh, eh.phnum, c)
  {
  }

  /** From block to block nothing is stale. */
  lemma FreshBlocks(cached: nat, pos: nat)
    requires cached <= 2
    ensures Fresh(Cursor(pos, cached, cached), PAGE)
  {
  }

  lemma BssClean(o: Opened, eh: Ehdr)
    requires PageBuffer(o) && o.bs == PAGE && |o.data| == 0x3000
    requires eh.phoff == 64 && eh.phnum == 2
    requires EntrySays(o.data, eh, 0, TEXT) && EntrySays(o.data, eh, 1, DATA)
    ensures InFile(o, Cursor(64, 0, 0)) && Clean(o, eh, 0, Cursor(64, 0, 0))
  {
    hide PhdrAt, Touch, AfterSegment, Clean, Fresh;
    BssReads(o, Cursor(0, 0, 0));
    var text, data := PhdrAt(o.data, eh, 0), PhdrAt(o.data, eh, 1);
    BehindText(o, text);
    FreshBlocks(0, 64);
    FreshBlocks(0, 0x1000);
    FreshBlocks(1, 120);
    FreshBlocks(0, 0x2000);
    CleanEnd(o, eh, AfterSegment(o, Cursor(176, 0, 0), data));
    CleanStep(o, eh, 1, Cursor(0x2000, 1, 1), 120, data);
    CleanStep(o, eh, 0, Cursor(64, 0, 0), 64, text);
  }

  lemma BssReadable(o: Opened, c: Cursor, h: FileHeader)
    requires PageBuffer(o) && InFile(o, c) && o.bs == PAGE && |o.data| == 0x3000
    requires c.pos == 0 && h.phoff == 64 && Written(o.data, h, [TEXT, DATA])
    ensures Readable(o, c)
  {
    hide ParseEhdr, EntryWritten, EntrySays, HeaderError, Verdict, Executable, Touch, Clean, SegmentsFit;
    var eh, phs := ParseEhdr(o.data[..EHDR_SIZE]), [TEXT, DATA];
    HeaderWritten(o.data, h, phs);
    EntriesWritten(o.data, h, phs);
    assert phs[0] == TEXT && phs[1] == DATA;
    Says(o.data, eh, 0, phs[0]);
    Says(o.data, eh, 1, phs[1]);
    BssReads(o, c);
    BssClean(o, eh);
    BssFits(o.data, eh);
    assert c.(pos := 0) == c;
  }

  lemma BssFits(data: seq<Byte>, eh: Ehdr)
    requires eh.phnum == 2 && EntrySays(data, eh, 0, TEXT) && EntrySays(data, eh, 1, DATA)
    ensures SegmentsFit(data, eh)
  {
    hide PhdrAt;
    forall i | 0 <= i < eh.phnum &&
        IsLoad(data, eh, i) ensures SegEnd(PhdrAt(data, eh, i)) / PAGE + 1 < ProgramBreak.STACK_PAGE {
      assert i == 0 || i == 1;
    }
  }

  /** Two segments, the second with less in the file than in memory: four pages, the last two zero. */
  lemma BssProgram(o: Opened, c: Cursor, h: FileHeader)
    requires PageBuffer(o) && InFile(o, c) && o.bs == PAGE && |o.data| == 0x3000
    requires c.pos == 0 && h.phoff == 64 && Executable(h) && Written(o.data, h, [TEXT, DATA])
    ensures var x := Execution(o, c);
      && x.Going? && x.top == 0x40_4000 && x.img.Keys == {0x40_0000, 0x40_1000, 0x40_2000, 0x40_3000}
      && x.img[0x40_0000] == o.data[0x1000..0x2000] && x.img[0x40_1000] == o.data[0x2000..0x3000]
      && x.img[0x40_2000] == Zeros(PAGE) && x.img[0x40_3000] == Zeros(PAGE)
  {
    hide Execution, Readable, Written, Executable, AsAsked;
    var phs := [TEXT, DATA];
    assert phs[0] == TEXT && phs[1] == DATA;
    BssReadable(o, c, h);
    ProgramLoaded(o, c, h, phs);
    BssMemory(o.data, phs, Execution(o, c));
  }

  lemma BssMemory(data: seq<Byte>, phs: seq<ProgramHeader>, x: Plan)
    requires phs == [TEXT, DATA] && AsAsked(data, phs, x) && |data| == 0x3000
    ensures x.Going? && x.top == 0x40_4000 && x.img.Keys == {0x40_0000, 0x40_1000, 0x40_2000, 0x40_3000}
    ensures x.img[0x40_0000] == data[0x1000..0x2000] && x.img[0x40_1000] == data[0x2000..0x3000]
    ensures x.img[0x40_2000] == Zeros(PAGE) && x.img[0x40_3000] == Zeros(PAGE)
  {
    assert phs[0] == TEXT && phs[1] == DATA;
    assert LastOn(phs, 0, 0x40_0000) && LastOn(phs, 1, 0x40_1000) && LastOn(phs, 1, 0x40_2000) &&
      LastOn(phs, 1, 0x40_3000);
  }
}
