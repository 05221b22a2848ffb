/** Loading an executable into an address space (kernel/kernel/elf.c:25-110). */
module Elf {
  import Layout
  import opened Machine
  import opened DiskFormat
  import Metadata
  import opened Populate
  import opened Cursors
  import opened Reader
  import opened Segments
  import PageTables
  import Ownership
  import FrameAllocator
  import opened Vmm
  import opened Processes
  import opened ProgramBreak
  import opened ProgramPages

  const EHDR_SIZE: nat := 64
  const PHDR_SIZE: nat := 56
  const PT_LOAD: nat := 1

  // ---- headers ------------------------------------------------------------------------------------

  function GetU16(b: seq<Byte>): nat
    requires |b| == 2
  {
    var p: nat, q: nat := b[0], b[1];
    p + 256 * q
  }

  datatype Ehdr = Ehdr(magic: seq<Byte>, class_: nat, encoding: nat, type_: nat, phoff: nat, phentsize: nat, phnum: nat)

  function ParseEhdr(b: seq<Byte>): Ehdr
    requires |b| == EHDR_SIZE
  {
    Ehdr(b[..4], b[4], b[5], GetU16(b[16..18]), Metadata.GetU64(b[32..40]), GetU16(b[54..56]), GetU16(b[56..58]))
  }

  function ParsePhdr(b: seq<Byte>): Phdr
    requires |b| == PHDR_SIZE
  {
    Phdr(GetU32(b[..4]), Metadata.GetU64(b[8..16]), Metadata.GetU64(b[16..24]), Metadata.GetU64(b[32..40]),
        Metadata.GetU64(b[40..48]))
  }

  datatype LoadError =
    | InvalidMagic | NotElf64 | NotLittleEndian | NotExecutable | PhentsizeMismatch | FileszExceedsMemsz | ReadFailed

  /** `NoMemory`: there is no frame left. `Astray`: a header is used of which not all was read, or a copy leaves the
      file's buffer, the file or the page. */
  datatype LoadResult = Loaded(top: nat) | Refused(error: LoadError) | NoMemory | Astray

  function HeaderError(eh: Ehdr): (r: LoadResult) {
    if eh.magic != [0x7F, 0x45, 0x4C, 0x46] then Refused(InvalidMagic)
    else if eh.class_ != 2 then Refused(NotElf64)
    else if eh.encoding != 1 then Refused(NotLittleEndian)
    else if eh.type_ != 2 then Refused(NotExecutable)
    else if eh.phentsize != PHDR_SIZE then Refused(PhentsizeMismatch)
    else Loaded(0)
  }

  // ---- one segment --------------------------------------------------------------------------------

  /** A page of the segment before address `end`. */
  predicate Below(ph: Phdr, page: nat, end: nat) {
    page % PAGE == 0 && Down(ph.vaddr) <= page < end
  }

  predicate InSegment(ph: Phdr, page: nat) {
    Below(ph, page, SegEnd(ph))
  }

  /** `img` with `pages` from address `addr` on. */
  function With(img: Program, addr: nat, pages: seq<seq<Byte>>): Program {
    if pages == [] then img
    else With(img, addr, pages[..|pages| - 1])[addr + PAGE * (|pages| - 1) := pages[|pages| - 1]]
  }

  lemma WithNone(img: Program, addr: nat)
    ensures With(img, addr, []) == img
  {
  }

  lemma WithSnoc(img: Program, addr: nat, pages: seq<seq<Byte>>, page: seq<Byte>)
    ensures With(img, addr, pages + [page]) == With(img, addr, pages)[addr + PAGE * |pages| := page]
  {
    assert (pages + [page])[..|pages|] == pages;
  }

  lemma {:induction false} WithKeys(img: Program, addr: nat, pages: seq<seq<Byte>>)
    ensures forall a ::
      a in With(img, addr, pages) <==> a in img || exists i :: 0 <= i < |pages| && a == addr + PAGE * i
    ensures forall i :: 0 <= i < |pages| ==> With(img, addr, pages)[addr + PAGE * i] == pages[i]
    ensures forall a ::
      a in img && (forall i :: 0 <= i < |pages| ==> a != addr + PAGE * i) ==> With(img, addr, pages)[a] == img[a]
    decreases |pages|
  {
    if pages != [] {
      var n := |pages| - 1;
      WithKeys(img, addr, pages[..n]);
      assert forall i :: 0 <= i < n ==> pages[..n][i] == pages[i];
    }
  }

  /** The pages done, then what becomes of the others. */
  ghost function Onward(done: seq<seq<Byte>>, rest: Outcome): Outcome {
    if rest.Pages? then Pages(done + rest.pages) else rest
  }

  lemma OnwardStep(o: Opened, c: Cursor, n: nat, off: nat, remaining: int, done: seq<seq<Byte>>)
    requires InFile(o, c) && n > 0
    ensures var s := FillPage(o, c, off, remaining);
      Onward(done, LoadFrom(o, c, n, off, remaining)) == if s.Failed? then s.why
          else Onward(done + [s.page], LoadFrom(o, s.c, n - 1, 0, s.remaining))
    ensures var s := FillPage(o, c, off, remaining);
      s.Filled? ==> Behind(o, c, n, off, remaining) == Behind(o, s.c, n - 1, 0, s.remaining)
  {
    hide FillPage;
    var s := FillPage(o, c, off, remaining);
    if s.Filled? {
      var rest := LoadFrom(o, s.c, n - 1, 0, s.remaining);
      if rest.Pages? { assert done + ([s.page] + rest.pages) == (done + [s.page]) + rest.pages; }
    }
  }

  lemma OnwardDone(o: Opened, c: Cursor, off: nat, remaining: int, done: seq<seq<Byte>>)
    requires InFile(o, c)
    ensures Onward(done, LoadFrom(o, c, 0, off, remaining)) == Pages(done) && Behind(o, c, 0, off, remaining) == c
  {
    assert done + [] == done;
  }

  lemma OnwardNone(rest: Outcome)
    ensures Onward([], rest) == rest
  {
    if rest.Pages? { assert [] + rest.pages == rest.pages; }
  }

  /** How the loading of one segment ends. */
  datatype SegmentResult = Done | Bad(why: Outcome) | OutOfFrames

  lemma SegmentPages(ph: Phdr, i: nat)
    requires i < PageCount(ph)
    ensures var a := Down(ph.vaddr) + PAGE * i;
      InSegment(ph, a) && a / PAGE * PAGE == a && (SegEnd(ph) <= STACK_PAGE * PAGE ==> a / PAGE < STACK_PAGE)
  {
  }

  lemma PageEnd(ph: Phdr)
    ensures Down(ph.vaddr) + PAGE * PageCount(ph) == SegEnd(ph)
  {
    assert (SegEnd(ph) - Down(ph.vaddr)) % PAGE == 0;
  }

  /** The addresses of `n` pages. */
  ghost function PagesFrom(addr: nat, n: nat): set<nat> {
    set i: nat | i < n :: addr + PAGE * i
  }

  /** The pages of a segment. */
  ghost function SegPages(ph: Phdr): set<nat> {
    PagesFrom(Down(ph.vaddr), PageCount(ph))
  }

  /** A page not done yet is mapped exactly when it was before the segment. */
  lemma SameKey(img: Program, addr: nat, done: seq<seq<Byte>>)
    ensures addr + PAGE * |done| in With(img, addr, done) <==> addr + PAGE * |done| in img
  {
    hide With;
    WithKeys(img, addr, done);
  }

  lemma MorePages(addr: nat, n: nat)
    ensures PagesFrom(addr, n + 1) == PagesFrom(addr, n) + {addr + PAGE * n} && addr + PAGE * n !in PagesFrom(addr, n)
    ensures PagesFrom(addr, 0) == {}
  {
  }

  lemma CountMore(pages: set<nat>, a: nat, keys: set<nat>)
    requires a !in pages
    ensures |(pages + {a}) * keys| == |pages * keys| + if a in keys then 1 else 0
  {
    if a in keys {
      assert (pages + {a}) * keys == pages * keys + {a};
    } else {
      assert (pages + {a}) * keys == pages * keys;
    }
  }

  /** `now` is `start` with one frame for each of `n` pages from `addr` on that is among `keys`. */
  ghost predicate Spent(start: set<nat>, now: set<nat>, keys: set<nat>, addr: nat, n: nat) {
    start <= now && |now| == |start| + |PagesFrom(addr, n) * keys|
  }

  lemma SpentNone(start: set<nat>, keys: set<nat>, addr: nat)
    ensures Spent(start, start, keys, addr, 0)
  {
    MorePages(addr, 0);
    assert PagesFrom(addr, 0) * keys == {};
  }

  lemma SpentNext(start: set<nat>, now: set<nat>, now': set<nat>, keys: set<nat>, addr: nat, n: nat)
    requires Spent(start, now, keys, addr, n) && now <= now'
    requires |now'| == |now| + if addr + PAGE * n in keys then 1 else 0
    ensures Spent(start, now', keys, addr, n + 1)
  {
    hide PagesFrom;
    MorePages(addr, n);
    CountMore(PagesFrom(addr, n), addr + PAGE * n, keys);
  }

  /** The next page of a segment, with `done` pages of it in memory already. */
  lemma {:induction false} PageLoaded(m0: PageTables.Memory, start: set<nat>, u0: set<nat>, m1: PageTables.Memory,
                                      u1: set<nat>, m2: PageTables.Memory, u2: set<nat>, k: nat, roots: set<nat>,
                                      r: nat, ram: Frames, img: Program, addr: nat, done: seq<seq<Byte>>, n: nat,
                                      h: nat, page: seq<Byte>)
    requires Loading(m0, u0, m1, u1, k, roots, r, ram, With(img, addr, done)) && r !in roots && k in roots
    requires n < STACK_PAGE && n * PAGE == addr + PAGE * |done|
    requires Ownership.OwnInv(m1, u1, k, roots + {r}) && Roomy(m1, k, r, n)
    requires Swapped(m1, u1, m2, u2, k, roots + {r}, r, n, PageTables.USER_CODE)
    requires PageTables.LeafOf(m2, r, PageNo(n)).frame == h && h !in u1 && h in u2
    requires Spent(start, u0, img.Keys, addr, |done|)
    ensures var u0' := Loose(u0, m1, r, n);
      && Loading(m0, u0', m2, u2, k, roots, r, ram[h := page], With(img, addr, done + [page]))
      && Spent(start, u0', img.Keys, addr, |done| + 1)
  {
    hide Loading, Swapped, Roomy, Ownership.OwnInv, PageTables.LeafOf, PageNo, Loose, Spent, With;
    LoadingStep(m0, u0, m1, u1, m2, u2, k, roots, r, ram, With(img, addr, done), n, h, page);
    LooseMore(u0, m1, r, n);
    SameKey(img, addr, done);
    SpentNext(start, u0, Loose(u0, m1, r, n), img.Keys, addr, |done|);
    WithSnoc(img, addr, done, page);
  }

  lemma FillCases(o: Opened, c: Cursor, off: nat, remaining: int)
    requires InFile(o, c)
    ensures var s := FillPage(o, c, off, remaining);
      if remaining <= 0 then s == Filled(Zeros(PAGE), c, remaining)
      else
        var r := Reads(o, c, Count(remaining, off));
        if r.SizeTooBig? then s == Step.Failed(ReadError)
        else if !r.Bytes? || off + |r.out| > PAGE then s == Step.Failed(Overran)
        else s == Filled(PageWith(off, r.out), After(o, c, Count(remaining, off)), remaining - |r.out|)
  {
  }

  /** The contents of one page: zeros, and the bytes read. */
  method ReadPage(f: BsfsFile, offset: nat, remaining: int)
    returns (filled: bool, why: Outcome, page: seq<Byte>, remaining': int)
    requires f.Valid()
    modifies f
    ensures f.Valid() && InFile(f.Spec(), old(f.At()))
    ensures var s := FillPage(f.Spec(), old(f.At()), offset, remaining);
      if filled then s == Filled(page, f.At(), remaining') else s == Step.Failed(why)
  {
    hide BsfsFile.Valid, Reads, After, FillPage, PageWith;
    f.CursorFits();
    FillCases(f.Spec(), f.At(), offset, remaining);
    filled, why, page, remaining' := true, ReadError, Zeros(PAGE), remaining;
    if remaining > 0 {
      var read := f.Fread(Count(remaining, offset));
      if read.SizeTooBig? {
        filled := false;
        return;
      }
      if !read.Bytes? || offset + |read.out| > PAGE {
        filled, why := false, Overran;
        return;
      }
      page := PageWith(offset, read.out);
      remaining' := remaining - |read.out|;
    }
  }

  /** The segment has come to cursor `c` with the pages `done`. */
  ghost predicate Ahead(o: Opened, c0: Cursor, ph: Phdr, c: Cursor, done: seq<seq<Byte>>, remaining: int) {
    && InFile(o, c0) && InFile(o, c) && |done| <= PageCount(ph)
    && var n, off := PageCount(ph) - |done|, if done == [] then ph.vaddr % PAGE else 0;
       && Loads(o, c0, ph) == Onward(done, LoadFrom(o, c, n, off, remaining))
       && AfterSegment(o, c0, ph) == Behind(o, c, n, off, remaining)
  }

  lemma AheadStart(o: Opened, c0: Cursor, ph: Phdr)
    requires InFile(o, c0)
    ensures Ahead(o, c0, ph, AtSegment(o, c0, ph), [], ph.filesz)
  {
    hide LoadFrom, Behind, PageCount;
    OnwardNone(Loads(o, c0, ph));
  }

  lemma AheadStep(o: Opened, c0: Cursor, ph: Phdr, c: Cursor, done: seq<seq<Byte>>, remaining: int)
    requires Ahead(o, c0, ph, c, done, remaining) && |done| < PageCount(ph)
    ensures var s := FillPage(o, c, if done == [] then ph.vaddr % PAGE else 0, remaining);
      if s.Failed? then Loads(o, c0, ph) == s.why else Ahead(o, c0, ph, s.c, done + [s.page], s.remaining)
  {
    hide FillPage, LoadFrom, Behind, PageCount, Loads, AfterSegment;
    OnwardStep(o, c, PageCount(ph) - |done|, if done == [] then ph.vaddr % PAGE else 0, remaining, done);
  }

  lemma AheadEnd(o: Opened, c0: Cursor, ph: Phdr, c: Cursor, done: seq<seq<Byte>>, remaining: int)
    requires Ahead(o, c0, ph, c, done, remaining) && |done| == PageCount(ph)
    ensures Loads(o, c0, ph) == Pages(done) && AfterSegment(o, c0, ph) == c
  {
    hide LoadFrom, Behind, PageCount, Loads, AfterSegment;
    OnwardDone(o, c, if done == [] then ph.vaddr % PAGE else 0, remaining, done);
  }

  /** One page of a segment: a fresh frame, mapped and filled. */
  method LoadPage(f: BsfsFile, a: AddressSpaces, r: nat, n: nat, offset: nat, remaining: int, ram: Frames,
                  ghost img: Program, ghost addr: nat, ghost done: seq<seq<Byte>>, ghost m0: PageTables.Memory,
                  ghost start: set<nat>, ghost u0: set<nat>, ghost roots: set<nat>)
    returns (s: SegmentResult, page: seq<Byte>, remaining': int, ram': Frames, ghost u0': set<nat>)
    requires f.Valid() && a.Valid() && a.Accounted() && a.roots == roots + {r}
    requires r !in roots && a.kernel in roots && n < STACK_PAGE && n * PAGE == addr + PAGE * |done|
    requires Loading(m0, u0, a.mem, a.pmm.Used(), a.kernel, roots, r, ram, With(img, addr, done))
    requires Spent(start, u0, img.Keys, addr, |done|)
    modifies f, a`mem, a.pmm.bitmap
    ensures f.Valid() && InFile(f.Spec(), old(f.At()))
    ensures s.Done? ==>
      a.Valid() && a.Accounted() &&
      Loading(m0, u0', a.mem, a.pmm.Used(), a.kernel, roots, r, ram', With(img, addr, done + [page]))
    ensures s.Done? ==> Spent(start, u0', img.Keys, addr, |done| + 1)
    ensures var t := FillPage(f.Spec(), old(f.At()), offset, remaining);
      (s.Done? ==> t == Filled(page, f.At(), remaining')) && (s.Bad? ==> t == Step.Failed(s.why))
    ensures s.OutOfFrames? ==> forall f: nat :: f < a.pmm.Frames() ==> f in a.pmm.Used()
  {
    hide BsfsFile.Valid, Loading, PageTables.Inv, Ownership.OwnInv, FrameAllocator.Pmm.Used, PageNo, FillPage, With,
         Spent, Swapped, Roomy, Loose;
    f.CursorFits();
    s, page, remaining', ram', u0' := OutOfFrames, [], remaining, ram, u0;
    ghost var m1, u1 := a.mem, a.pmm.Used();
    CanMap(m0, u0, m1, u1, a.kernel, roots, r, ram, With(img, addr, done), n);
    var ok, frame := NewPage(a, r, n);
    if !ok { return; }
    ghost var m2, u2 := a.mem, a.pmm.Used();
    var filled, why;
    filled, why, page, remaining' := ReadPage(f, offset, remaining);
    if !filled {
      s := Bad(why);
      return;
    }
    PageLoaded(m0, start, u0, m1, u1, m2, u2, a.kernel, roots, r, ram, img, addr, done, n, frame, page);
    s, ram', u0' := Done, ram[frame := page], Loose(u0, m1, r, n);
  }

  /** The page loop for one segment. It does what `Loads` says, page by page, in fresh frames. Where a page was mapped
      before, its frame stays in use and is nobody's: `u0` grows by it. */
  method LoadSegment(f: BsfsFile, a: AddressSpaces, r: nat, ph: Phdr, ram: Frames,
                     ghost img: Program, ghost m0: PageTables.Memory, ghost u0: set<nat>, ghost roots: set<nat>)
    returns (s: SegmentResult, ram': Frames, ghost img': Program, ghost u0': set<nat>)
    requires f.Valid() && ph.offset < U64 && ph.filesz < U64 / 2 && SegEnd(ph) <= STACK_PAGE * PAGE
    requires a.Valid() && a.Accounted() && a.roots == roots + {r}
    requires r !in roots && a.kernel in roots
    requires Loading(m0, u0, a.mem, a.pmm.Used(), a.kernel, roots, r, ram, img)
    modifies f, a`mem, a.pmm.bitmap
    ensures f.Valid() && InFile(f.Spec(), old(f.At()))
    ensures s.Done? ==>
      a.Valid() && a.Accounted() && Loading(m0, u0', a.mem, a.pmm.Used(), a.kernel, roots, r, ram', img')
    ensures s.Done? ==> Spent(u0, u0', img.Keys, Down(ph.vaddr), PageCount(ph))
    ensures s.Done? ==>
      Loads(f.Spec(), old(f.At()), ph).Pages? &&
      img' == With(img, Down(ph.vaddr), Loads(f.Spec(), old(f.At()), ph).pages)
    ensures s.Done? ==> f.At() == AfterSegment(f.Spec(), old(f.At()), ph)
    ensures s.Bad? ==> Loads(f.Spec(), old(f.At()), ph) == s.why && !s.why.Pages?
    ensures s.OutOfFrames? ==> forall f: nat :: f < a.pmm.Frames() ==> f in a.pmm.Used()
  {
    hide BsfsFile.Valid, Loading, PageTables.Inv, Ownership.OwnInv, FrameAllocator.Pmm.Used, PageNo, FillPage, Loads,
         AfterSegment, Ahead, With, PageCount, InSegment, Sought, Spent;
    s, ram', img', u0' := Done, ram, img, u0;
    f.CursorFits();
    ghost var o, c0 := f.Spec(), f.At();
    var end, addr, remaining: int := SegEnd(ph), Down(ph.vaddr), ph.filesz;
    f.Fseeko(ph.offset, Set);
    f.CursorFits();
    ghost var done: seq<seq<Byte>> := [];
    AheadStart(o, c0, ph);
    WithNone(img, addr);
    PageEnd(ph);
    SpentNone(u0, img.Keys, addr);
    while addr < end
      invariant s.Done? && f.Valid() && a.Valid() && a.Accounted()
      invariant Loading(m0, u0', a.mem, a.pmm.Used(), a.kernel, roots, r, ram', img')
      invariant img' == With(img, Down(ph.vaddr), done) && Spent(u0, u0', img.Keys, Down(ph.vaddr), |done|)
      invariant |done| <= PageCount(ph) && addr == Down(ph.vaddr) + PAGE * |done| <= end
      invariant Ahead(o, c0, ph, f.At(), done, remaining)
      decreases end - addr
    {
      var offset := if addr == Down(ph.vaddr) then ph.vaddr % PAGE else 0;
      AheadStep(o, c0, ph, f.At(), done, remaining);
      SegmentPages(ph, |done|);
      var page;
      s, page, remaining, ram', u0' := LoadPage(f, a, r, addr / PAGE, offset, remaining, ram', img, Down(ph.vaddr),
          done,
          m0, u0, u0', roots);
      if !s.Done? { return; }
      img' := With(img, Down(ph.vaddr), done + [page]);
      done := done + [page];
      addr := addr + PAGE;
    }
    AheadEnd(o, c0, ph, f.At(), done, remaining);
  }

  /** The loader run on a segment of 32 bytes for address 0x40_1010: its page ends up with the first 16 of them only. */
  method LoadShort(f: BsfsFile, a: AddressSpaces, r: nat, ram: Frames, ghost img: Program,
                   ghost m0: PageTables.Memory, ghost u0: set<nat>, ghost roots: set<nat>)
    returns (s: SegmentResult, ram': Frames, ghost img': Program, ghost u0': set<nat>)
    requires f.Valid() && PageBuffer(f.Spec()) && f.bs == PAGE
    requires |f.data| >= 0x2000 && Fresh(f.At().(pos := 0x1010), f.bs)
    requires a.Valid() && a.Accounted() && a.roots == roots + {r}
    requires r !in roots && a.kernel in roots
    requires Loading(m0, u0, a.mem, a.pmm.Used(), a.kernel, roots, r, ram, img)
    modifies f, a`mem, a.pmm.bitmap
    ensures !s.Bad? && (s.Done? ==> Loading(m0, u0', a.mem, a.pmm.Used(), a.kernel, roots, r, ram', img'))
    ensures s.Done? ==> img' == img[0x40_1000 := PageWith(16, f.data[0x1010..0x1020])]
  {
    hide BsfsFile.Valid, Loading, PageTables.Inv, Ownership.OwnInv, FrameAllocator.Pmm.Used, Loads, PageWith, With,
         PageCount, Fresh, AfterSegment;
    var ph := Phdr(PT_LOAD, 0x1010, 0x40_1010, 32, 32);
    f.CursorFits();
    ShortExample(f.Spec(), f.At());
    assert Down(ph.vaddr) == 0x40_1000 && SegEnd(ph) == 0x40_2000;
    s, ram', img', u0' := LoadSegment(f, a, r, ph, ram, img, m0, u0, roots);
    WithNone(img, 0x40_1000);
    WithSnoc(img, 0x40_1000, [], PageWith(16, f.data[0x1010..0x1020]));
    assert [] + [PageWith(16, f.data[0x1010..0x1020])] == [PageWith(16, f.data[0x1010..0x1020])];
  }

  // ---- the whole file -----------------------------------------------------------------------------

  function PhdrAt(data: seq<Byte>, eh: Ehdr, i: nat): Phdr
    requires eh.phoff + PHDR_SIZE * (i + 1) <= |data|
  {
    ParsePhdr(data[eh.phoff + PHDR_SIZE * i..eh.phoff + PHDR_SIZE * i + PHDR_SIZE])
  }

  predicate IsLoad(data: seq<Byte>, eh: Ehdr, i: nat) {
    eh.phoff + PHDR_SIZE * (i + 1) <= |data| && PhdrAt(data, eh, i).type_ == PT_LOAD
  }

  /** The loader reads every program header and every segment right: no header is beyond the end of the file, is read
      in a stale block or overruns the buffer, and every segment to load is loadable where the reads before it leave
      the cursor. */
  predicate Clean(o: Opened, eh: Ehdr, i: nat, c: Cursor)
    requires PageBuffer(o) && InFile(o, c)
    decreases eh.phnum - i
  {
    i >= eh.phnum ||
    (var at := eh.phoff + PHDR_SIZE * i;
     && at + PHDR_SIZE <= |o.data| && Fresh(c.(pos := at), o.bs) && BlockOffset(at, o.bs) + PHDR_SIZE <= PAGE
     && var c', ph := Touch(o, c.(pos := at), at + PHDR_SIZE), PhdrAt(o.data, eh, i);
        || ph.filesz > ph.memsz
        || (ph.type_ != PT_LOAD && Clean(o, eh, i + 1, c'))
        || (&& ph.type_ == PT_LOAD && Described(ph, |o.data|) && Loadable(|o.data|, o.bs, c', ph)
            && Clean(o, eh, i + 1, AfterSegment(o, c', ph))))
  }

  /** The segments to load lie below the stack, with a page to spare. */
  predicate SegmentsFit(data: seq<Byte>, eh: Ehdr) {
    && eh.phoff + PHDR_SIZE * eh.phnum <= |data|
    && forall i :: 0 <= i < eh.phnum && IsLoad(data, eh, i) ==> SegEnd(PhdrAt(data, eh, i)) / PAGE + 1 < STACK_PAGE
  }

  /** The pages of the segment before `end` are as they should be, and no other page changes. */
  ghost predicate PutTo(data: seq<Byte>, ph: Phdr, mem: Program, mem': Program, end: nat) {
    && ph.offset + ph.filesz <= |data|
    && (forall page :: page in mem' <==> page in mem || Below(ph, page, end))
    && (forall page :: page in mem' && Below(ph, page, end) ==> mem'[page] == SegPage(data, ph, page))
    && forall page :: page in mem && !Below(ph, page, end) ==> mem'[page] == mem[page]
  }

  ghost predicate Put(data: seq<Byte>, ph: Phdr, mem: Program, mem': Program) {
    PutTo(data, ph, mem, mem', SegEnd(ph))
  }

  lemma PutNext(data: seq<Byte>, ph: Phdr, mem: Program, mem': Program, addr: nat)
    requires PutTo(data, ph, mem, mem', addr) && addr % PAGE == 0 && Down(ph.vaddr) <= addr
    ensures PutTo(data, ph, mem, mem'[addr := SegPage(data, ph, addr)], addr + PAGE)
  {
    hide SegPage, Below;
    forall page ensures Below(ph, page, addr + PAGE) <==>
        Below(ph, page, addr) || page == addr { NextPage(ph, page, addr); }
  }

  lemma NextPage(ph: Phdr, page: nat, addr: nat)
    requires addr % PAGE == 0 && Down(ph.vaddr) <= addr
    ensures Below(ph, page, addr + PAGE) <==> Below(ph, page, addr) || page == addr
  {
  }

  lemma {:induction false} PutPages(data: seq<Byte>, ph: Phdr, mem: Program, n: nat)
    requires Described(ph, |data|) && n <= PageCount(ph)
    ensures PutTo(data, ph, mem, With(mem, Down(ph.vaddr), Right(data, ph)[..n]), Down(ph.vaddr) + PAGE * n)
  {
    hide SegPage, PageCount, PutTo, With;
    var a, pages := Down(ph.vaddr), Right(data, ph);
    if n == 0 {
      WithNone(mem, a);
      PutNothing(data, ph, mem);
    } else {
      PutPages(data, ph, mem, n - 1);
      RightAt(data, ph, a, PageCount(ph), n - 1);
      PutNext(data, ph, mem, With(mem, a, pages[..n - 1]), a + PAGE * (n - 1));
      assert pages[..n] == pages[..n - 1] + [pages[n - 1]];
      WithSnoc(mem, a, pages[..n - 1], pages[n - 1]);
    }
  }

  lemma PutNothing(data: seq<Byte>, ph: Phdr, mem: Program)
    requires Described(ph, |data|)
    ensures PutTo(data, ph, mem, mem, Down(ph.vaddr))
  {
  }

  lemma PutRight(data: seq<Byte>, ph: Phdr, mem: Program)
    requires Described(ph, |data|)
    ensures Put(data, ph, mem, With(mem, Down(ph.vaddr), Right(data, ph)))
  {
    hide With, PutTo;
    PutPages(data, ph, mem, PageCount(ph));
    PageEnd(ph);
    assert Right(data, ph)[..PageCount(ph)] == Right(data, ph);
  }

  lemma {:induction false} RightAt(data: seq<Byte>, ph: Phdr, addr: nat, n: nat, i: nat)
    requires ph.offset + ph.filesz <= |data| && i < n
    ensures RightFrom(data, ph, addr, n)[i] == SegPage(data, ph, addr + PAGE * i)
    decreases i
  {
    hide SegPage;
    if i > 0 { RightAt(data, ph, addr + PAGE, n - 1, i - 1); }
  }

  /** The mapped pages are those of the first `n` segments, each with the bytes of the last segment that has it. */
  ghost predicate PagesRight(data: seq<Byte>, eh: Ehdr, n: nat, mem: Program) {
    && eh.phoff + PHDR_SIZE * n <= |data| && mem.Keys == Covered(data, eh, n)
    && (forall page :: page in mem ==> exists i :: 0 <= i < n && Owns(data, eh, i, page))
    && forall i, page ::
         0 <= i < n && LastOwner(data, eh, n, i, page) ==>
         page in mem && Fills(data, PhdrAt(data, eh, i), page, mem[page])
  }

  predicate LastOwner(data: seq<Byte>, eh: Ehdr, n: nat, i: nat, page: nat) {
    Owns(data, eh, i, page) && forall j :: i < j < n ==> !Owns(data, eh, j, page)
  }

  /** The pages of the first `n` segments. */
  ghost function Covered(data: seq<Byte>, eh: Ehdr, n: nat): set<nat> {
    if n == 0 then {}
    else Covered(data, eh, n - 1) + if IsLoad(data, eh, n - 1) then SegPages(PhdrAt(data, eh, n - 1)) else {}
  }

  /** How often a page of the first `n` segments is mapped that was mapped before. */
  ghost function Again(data: seq<Byte>, eh: Ehdr, n: nat): nat {
    if n == 0 then 0
    else Again(data, eh, n - 1) +
         if IsLoad(data, eh, n - 1) then |SegPages(PhdrAt(data, eh, n - 1)) * Covered(data, eh, n - 1)| else 0
  }

  lemma SegPagesAre(ph: Phdr, page: nat)
    ensures page in SegPages(ph) <==> InSegment(ph, page)
  {
    PageEnd(ph);
    if InSegment(ph, page) {
      var i := (page - Down(ph.vaddr)) / PAGE;
      assert page == Down(ph.vaddr) + PAGE * i && i < PageCount(ph);
    }
  }

  /** Two segments on one page: it is mapped twice. */
  lemma SharedPage(data: seq<Byte>, eh: Ehdr)
    requires eh.phnum == 2 && IsLoad(data, eh, 0) && IsLoad(data, eh, 1)
    requires PhdrAt(data, eh, 0).vaddr == 0x40_1000 && PhdrAt(data, eh, 0).memsz == 0x100
    requires PhdrAt(data, eh, 1).vaddr == 0x40_1800 && PhdrAt(data, eh, 1).memsz == 0x100
    ensures Again(data, eh, 2) == 1
  {
    hide ParsePhdr, PagesFrom;
    var a, b := PhdrAt(data, eh, 0), PhdrAt(data, eh, 1);
    assert PageCount(a) == 1 && PageCount(b) == 1 && Down(a.vaddr) == 0x40_1000 && Down(b.vaddr) == 0x40_1000;
    MorePages(0x40_1000, 0);
    assert SegPages(a) == {0x40_1000} && SegPages(b) == {0x40_1000};
    assert Covered(data, eh, 0) == {} && SegPages(a) * Covered(data, eh, 0) == {};
    assert Covered(data, eh, 1) == {0x40_1000};
    assert SegPages(b) * Covered(data, eh, 1) == {0x40_1000};
    assert Again(data, eh, 1) == 0;
  }

  predicate Owns(data: seq<Byte>, eh: Ehdr, i: nat, page: nat) {
    IsLoad(data, eh, i) && InSegment(PhdrAt(data, eh, i), page)
  }

  predicate Fills(data: seq<Byte>, ph: Phdr, page: nat, bytes: seq<Byte>) {
    ph.offset + ph.filesz <= |data| && bytes == SegPage(data, ph, page)
  }

  /** `top` is the highest end of the first `n` segments, 0 if there are none. */
  ghost predicate TopRight(data: seq<Byte>, eh: Ehdr, n: nat, top: nat) {
    && eh.phoff + PHDR_SIZE * n <= |data|
    && (forall i :: 0 <= i < n && IsLoad(data, eh, i) ==> SegEnd(PhdrAt(data, eh, i)) <= top)
    && (top != 0 ==> exists i :: 0 <= i < n && IsLoad(data, eh, i) && SegEnd(PhdrAt(data, eh, i)) == top)
  }

  /** What memory holds after the first `n` program headers. */
  ghost predicate Image(data: seq<Byte>, eh: Ehdr, n: nat, mem: Program, top: nat) {
    PagesRight(data, eh, n, mem) && TopRight(data, eh, n, top)
  }

  lemma ImageSkip(data: seq<Byte>, eh: Ehdr, n: nat, mem: Program, top: nat)
    requires Image(data, eh, n, mem, top) && eh.phoff + PHDR_SIZE * (n + 1) <= |data| && !IsLoad(data, eh, n)
    ensures Image(data, eh, n + 1, mem, top)
  {
    hide IsLoad, InSegment, PhdrAt, Fills, SegEnd, SegPages;
    forall i, page | 0 <= i < n + 1 && LastOwner(data, eh, n + 1, i, page)
      ensures page in mem && Fills(data, PhdrAt(data, eh, i), page, mem[page])
    {
      assert i < n && LastOwner(data, eh, n, i, page);
    }
  }

  lemma PagesNext(data: seq<Byte>, eh: Ehdr, n: nat, mem: Program, mem': Program)
    requires PagesRight(data, eh, n, mem) && n < eh.phnum && SegmentsFit(data, eh) && IsLoad(data, eh, n)
    requires Put(data, PhdrAt(data, eh, n), mem, mem')
    ensures PagesRight(data, eh, n + 1, mem')
  {
    hide IsLoad, PhdrAt, SegPage, InSegment, Described, SegPages, Covered, PutTo;
    KeysNext(data, eh, n, mem, mem');
    forall page | page in mem' ensures exists i :: 0 <= i < n + 1 && Owns(data, eh, i, page) {
      PutPage(data, PhdrAt(data, eh, n), mem, mem', page);
      if InSegment(PhdrAt(data, eh, n), page) { assert Owns(data, eh, n, page); }
    }
    forall i, page | 0 <= i < n + 1 && LastOwner(data, eh, n + 1, i, page) ensures page in mem' &&
        Fills(data, PhdrAt(data, eh, i), page, mem'[page]) {
      PutPage(data, PhdrAt(data, eh, n), mem, mem', page);
      if i < n { assert !Owns(data, eh, n, page) && LastOwner(data, eh, n, i, page); }
    }
  }

  /** What one page is after a segment was put. */
  lemma PutPage(data: seq<Byte>, ph: Phdr, mem: Program, mem': Program, page: nat)
    requires Put(data, ph, mem, mem')
    ensures page in mem' <==> page in mem || InSegment(ph, page)
    ensures InSegment(ph, page) ==> Fills(data, ph, page, mem'[page])
    ensures page in mem && !InSegment(ph, page) ==> mem'[page] == mem[page]
  {
    hide SegPage;
  }

  lemma KeysNext(data: seq<Byte>, eh: Ehdr, n: nat, mem: Program, mem': Program)
    requires mem.Keys == Covered(data, eh, n) && IsLoad(data, eh, n) && Put(data, PhdrAt(data, eh, n), mem, mem')
    ensures mem'.Keys == Covered(data, eh, n + 1)
  {
    hide PhdrAt, SegPages, Put, InSegment;
    forall page: nat ensures page in mem' <==> page in Covered(data, eh, n + 1) {
      PutPage(data, PhdrAt(data, eh, n), mem, mem', page);
      SegPagesAre(PhdrAt(data, eh, n), page);
    }
  }

  lemma TopNext(data: seq<Byte>, eh: Ehdr, n: nat, top: nat)
    requires TopRight(data, eh, n, top) && eh.phoff + PHDR_SIZE * (n + 1) <= |data| && IsLoad(data, eh, n)
    ensures var end := SegEnd(PhdrAt(data, eh, n)); TopRight(data, eh, n + 1, if end > top then end else top)
  {
    hide IsLoad, PhdrAt, SegEnd;
    var end := SegEnd(PhdrAt(data, eh, n));
    if end > top { assert 0 <= n < n + 1; }
  }

  lemma ImageNext(data: seq<Byte>, eh: Ehdr, n: nat, mem: Program, top: nat, mem': Program)
    requires Image(data, eh, n, mem, top) && n < eh.phnum && SegmentsFit(data, eh) && IsLoad(data, eh, n)
    requires Put(data, PhdrAt(data, eh, n), mem, mem')
    ensures var end := SegEnd(PhdrAt(data, eh, n)); Image(data, eh, n + 1, mem', if end > top then end else top)
  {
    hide PagesRight, TopRight, PhdrAt, SegEnd, Put;
    PagesNext(data, eh, n, mem, mem');
    TopNext(data, eh, n, top);
  }

  predicate TooMuchFile(data: seq<Byte>, eh: Ehdr, i: nat) {
    eh.phoff + PHDR_SIZE * (i + 1) <= |data| && PhdrAt(data, eh, i).filesz > PhdrAt(data, eh, i).memsz
  }

  // ---- the loader as a function -------------------------------------------------------------------

  /** A header that was read and the cursor behind it, or how the loader ends. */
  datatype Headed = Header(bytes: seq<Byte>, c: Cursor) | HeaderFails(res: LoadResult)

  function HeaderHere(o: Opened, c: Cursor, n: nat): (h: Headed)
    requires InFile(o, c)
    ensures h.Header? ==> |h.bytes| >= n && InFile(o, h.c)
  {
    var r := Reads(o, c, n);
    if r.SizeTooBig? then HeaderFails(Refused(ReadFailed))
    else if !r.Bytes? || |r.out| < n then HeaderFails(Astray)
    else Header(r.out, After(o, c, n))
  }

  function SeekTo(o: Opened, c: Cursor, at: nat): (c': Cursor)
    requires InFile(o, c)
    ensures InFile(o, c')
  {
    c.(pos := Sought(|o.data|, c.pos, at, Set))
  }

  /** Where program header `i` is looked for. */
  function PhdrPlace(eh: Ehdr, i: nat): nat {
    (eh.phoff + PHDR_SIZE * i) % U64
  }

  /** How far the loader has come: the cursor, the pages in memory, the highest end of a segment, and how often a page
      was mapped again; or how it has ended. */
  datatype Plan = Going(c: Cursor, img: Program, top: nat, again: nat) | Over(res: LoadResult)

  /** One program header. */
  ghost function NextEntry(o: Opened, eh: Ehdr, i: nat, p: Plan): (q: Plan)
    requires p.Going? && InFile(o, p.c)
    ensures q.Going? ==> InFile(o, q.c)
  {
    var h := HeaderHere(o, SeekTo(o, p.c, PhdrPlace(eh, i)), PHDR_SIZE);
    if h.HeaderFails? then Over(h.res) else AfterHeader(o, ParsePhdr(h.bytes[..PHDR_SIZE]), p.(c := h.c))
  }

  ghost function AfterHeader(o: Opened, ph: Phdr, p: Plan): (q: Plan)
    requires p.Going? && InFile(o, p.c)
    ensures q.Going? ==> InFile(o, q.c)
  {
    if ph.filesz > ph.memsz then Over(Refused(FileszExceedsMemsz))
    else if ph.type_ != PT_LOAD then p
    else
      var l := Loads(o, p.c, ph);
      if !l.Pages? then Over(SegmentFails(l))
      else Going(AfterSegment(o, p.c, ph), With(p.img, Down(ph.vaddr), l.pages), Higher(p.top, SegEnd(ph)),
                 p.again + |SegPages(ph) * p.img.Keys|)
  }

  function Higher(top: nat, end: nat): nat {
    if end > top then end else top
  }

  function SegmentFails(l: Outcome): LoadResult {
    if l.ReadError? then Refused(ReadFailed) else Astray
  }

  /** The first `i` program headers. */
  ghost function Planned(o: Opened, eh: Ehdr, c: Cursor, i: nat): (p: Plan)
    requires InFile(o, c)
    ensures p.Going? ==> InFile(o, p.c)
  {
    if i == 0 then Going(c, map[], 0, 0)
    else var p := Planned(o, eh, c, i - 1); if p.Going? then NextEntry(o, eh, i - 1, p) else p
  }

  /** What elf64_load_executable makes of a file that is read from cursor `c` on. */
  ghost function Execution(o: Opened, c: Cursor): Plan
    requires InFile(o, c)
  {
    var h := HeaderHere(o, c, EHDR_SIZE);
    if h.HeaderFails? then Over(h.res)
    else
      var eh := ParseEhdr(h.bytes[..EHDR_SIZE]);
      if HeaderError(eh).Refused? then Over(HeaderError(eh))
      else Planned(o, eh, SeekTo(o, h.c, eh.phoff), eh.phnum)
  }

  ghost predicate LowSegment(ph: Phdr) {
    ph.filesz <= ph.memsz && ph.type_ == PT_LOAD ==> SegEnd(ph) / PAGE + 1 < STACK_PAGE
  }

  ghost predicate LowEntry(o: Opened, eh: Ehdr, i: nat, p: Plan)
    requires p.Going? && InFile(o, p.c)
  {
    var h := HeaderHere(o, SeekTo(o, p.c, PhdrPlace(eh, i)), PHDR_SIZE);
    h.Header? ==> LowSegment(ParsePhdr(h.bytes[..PHDR_SIZE]))
  }

  /** Every segment the loader comes to lies below the stack, with a page to spare. */
  ghost predicate Low(o: Opened, c: Cursor)
    requires InFile(o, c)
  {
    var h := HeaderHere(o, c, EHDR_SIZE);
    h.Header? ==>
    var eh := ParseEhdr(h.bytes[..EHDR_SIZE]);
    !HeaderError(eh).Refused? ==> LowEntries(o, eh, SeekTo(o, h.c, eh.phoff))
  }

  ghost predicate LowEntries(o: Opened, eh: Ehdr, c: Cursor)
    requires InFile(o, c)
  {
    forall i :: 0 <= i < eh.phnum && Planned(o, eh, c, i).Going? ==> LowEntry(o, eh, i, Planned(o, eh, c, i))
  }

  // ---- the loader ---------------------------------------------------------------------------------

  /** A header, read at the position. */
  method ReadHeader(f: BsfsFile, n: nat) returns (ok: bool, res: LoadResult, bytes: seq<Byte>)
    requires f.Valid() && n < Layout.U32
    modifies f
    ensures f.Valid() && InFile(f.Spec(), old(f.At()))
    ensures var h := HeaderHere(f.Spec(), old(f.At()), n);
      if ok then h == Header(bytes, f.At()) else h == HeaderFails(res)
  {
    hide BsfsFile.Valid, Reads, After;
    f.CursorFits();
    ok, res, bytes := false, Astray, [];
    var r := f.Fread(n);
    if r.SizeTooBig? {
      res := Refused(ReadFailed);
      return;
    }
    if !r.Bytes? || |r.out| < n { return; }
    ok, bytes := true, r.out;
  }

  /** elf64_load_executable, for an address space new since memory `m0`. */
  method LoadExecutable(f: BsfsFile, a: AddressSpaces, r: nat, ram: Frames, ghost m0: PageTables.Memory,
                        ghost u0: set<nat>, ghost roots: set<nat>)
    returns (res: LoadResult, ram': Frames, ghost u0': set<nat>)
    requires f.Valid() && InFile(f.Spec(), f.At()) && Low(f.Spec(), f.At())
    requires a.Valid() && a.Accounted() && a.roots == roots + {r}
    requires r !in roots && a.kernel in roots
    requires Loading(m0, u0, a.mem, a.pmm.Used(), a.kernel, roots, r, ram, map[])
    modifies f, a`mem, a.pmm.bitmap
    ensures f.Valid()
    ensures res.NoMemory? ==> forall f: nat :: f < a.pmm.Frames() ==> f in a.pmm.Used()
    ensures var x := Execution(f.Spec(), old(f.At()));
      res.NoMemory? || if x.Going? then res == Loaded(x.top) else res == x.res
    ensures var x := Execution(f.Spec(), old(f.At()));
      res.Loaded? ==>
      && x.Going? && a.Valid() && a.Accounted()
      && Loading(m0, u0', a.mem, a.pmm.Used(), a.kernel, roots, r, ram', x.img) &&
      u0 <= u0' && |u0'| == |u0| + x.again
  {
    hide BsfsFile.Valid, ParseEhdr, HeaderError, Loading, PageTables.Inv, Ownership.OwnInv, FrameAllocator.Pmm.Used,
         HeaderHere, Planned, Sought, LowEntries, Execution, Low;
    ram', u0' := ram, u0;
    ghost var o, c := f.Spec(), f.At();
    ExecutionCases(o, c);
    var ok, bytes;
    ok, res, bytes := ReadHeader(f, EHDR_SIZE);
    if !ok { return; }
    var eh := ParseEhdr(bytes[..EHDR_SIZE]);
    res := HeaderError(eh);
    if res.Refused? {
      return;
    }
    f.CursorFits();
    SmallOffset(bytes[..EHDR_SIZE]);
    f.Fseeko(eh.phoff, Set);
    f.CursorFits();
    res, ram', u0' := LoadEntries(f, a, r, eh, ram, m0, u0, roots);
  }

  /** The loop over the program headers. */
  method LoadEntries(f: BsfsFile, a: AddressSpaces, r: nat, eh: Ehdr, ram: Frames, ghost m0: PageTables.Memory,
                     ghost u0: set<nat>, ghost roots: set<nat>)
    returns (res: LoadResult, ram': Frames, ghost u0': set<nat>)
    requires f.Valid() && InFile(f.Spec(), f.At()) && LowEntries(f.Spec(), eh, f.At())
    requires a.Valid() && a.Accounted() && a.roots == roots + {r}
    requires r !in roots && a.kernel in roots
    requires Loading(m0, u0, a.mem, a.pmm.Used(), a.kernel, roots, r, ram, map[])
    modifies f, a`mem, a.pmm.bitmap
    ensures f.Valid()
    ensures res.NoMemory? ==> forall f: nat :: f < a.pmm.Frames() ==> f in a.pmm.Used()
    ensures var x := Planned(f.Spec(), eh, old(f.At()), eh.phnum);
      res.NoMemory? || if x.Going? then res == Loaded(x.top) else res == x.res
    ensures var x := Planned(f.Spec(), eh, old(f.At()), eh.phnum);
      res.Loaded? ==>
      x.Going? && a.Valid() && a.Accounted() &&
      Loading(m0, u0', a.mem, a.pmm.Used(), a.kernel, roots, r, ram', x.img) && u0 <= u0' && |u0'| == |u0| + x.again
  {
    hide BsfsFile.Valid, Loading, PageTables.Inv, Ownership.OwnInv, FrameAllocator.Pmm.Used, Planned, LowEntries;
    ram', u0' := ram, u0;
    ghost var o, c0 := f.Spec(), f.At();
    PlanStart(o, eh, c0);
    var top: nat := 0;
    ghost var img: Program := map[];
    for i := 0 to eh.phnum
      invariant f.Valid() && Underway(f, a, r, eh, c0, i, top, ram', img, m0, u0, u0', roots)
    {
      res, top, ram', img, u0' := LoadEntry(f, a, r, eh, i, top, ram', c0, img, m0, u0, u0', roots);
      if !res.Loaded? {
        if !res.NoMemory? { OverStays(o, eh, c0, i + 1, eh.phnum); }
        return;
      }
    }
    res := Loaded(top);
  }

  lemma ExecutionCases(o: Opened, c: Cursor)
    requires InFile(o, c)
    ensures var h, x := HeaderHere(o, c, EHDR_SIZE), Execution(o, c);
      if h.HeaderFails? then x == Over(h.res) && !h.res.Loaded? && !h.res.NoMemory?
      else
        var eh := ParseEhdr(h.bytes[..EHDR_SIZE]);
        if HeaderError(eh).Refused? then x == Over(HeaderError(eh))
        else
          && x == Planned(o, eh, SeekTo(o, h.c, eh.phoff), eh.phnum)
          && (Low(o, c) ==> LowEntries(o, eh, SeekTo(o, h.c, eh.phoff)))
  {
    hide ParseEhdr, HeaderError, HeaderHere, Planned, LowEntries;
    FailsNot(o, c, EHDR_SIZE);
  }

  lemma FailsNot(o: Opened, c: Cursor, n: nat)
    requires InFile(o, c)
    ensures var h := HeaderHere(o, c, n); h.HeaderFails? ==> !h.res.NoMemory? && !h.res.Loaded?
  {
    hide Reads, After;
  }

  lemma SmallOffset(bytes: seq<Byte>)
    requires |bytes| == EHDR_SIZE
    ensures ParseEhdr(bytes).phoff < U64
  {
  }

  lemma PlanStart(o: Opened, eh: Ehdr, c: Cursor)
    requires InFile(o, c)
    ensures Planned(o, eh, c, 0) == Going(c, map[], 0, 0)
  {
  }

  lemma {:induction false} OverStays(o: Opened, eh: Ehdr, c: Cursor, i: nat, n: nat)
    requires InFile(o, c) && i <= n && Planned(o, eh, c, i).Over?
    ensures Planned(o, eh, c, n) == Planned(o, eh, c, i)
    decreases n
  {
    hide NextEntry;
    if i < n { OverStays(o, eh, c, i, n - 1); }
  }

  /** After the first `i` program headers, `start` being the frames in use before them. */
  ghost predicate Underway(f: BsfsFile, a: AddressSpaces, r: nat, eh: Ehdr, c0: Cursor, i: nat, top: nat, ram: Frames,
                           img: Program, m0: PageTables.Memory, start: set<nat>, u0: set<nat>, roots: set<nat>)
    reads f, a, a.pmm.bitmap
  {
    && InFile(f.Spec(), c0) && InFile(f.Spec(), f.At())
    && a.Valid() && a.Accounted() && a.roots == roots + {r}
    && Loading(m0, u0, a.mem, a.pmm.Used(), a.kernel, roots, r, ram, img)
    && Tally(Planned(f.Spec(), eh, c0, i), f.At(), img, top, start, u0)
  }

  ghost predicate Tally(p: Plan, c: Cursor, img: Program, top: nat, start: set<nat>, u0: set<nat>) {
    && start <= u0 && |start| <= |u0| && p == Going(c, img, top, |u0| - |start|)
  }

  /** One program header, and its segment if it is one to load. `Loaded` means that the next one comes. */
  method LoadEntry(f: BsfsFile, a: AddressSpaces, r: nat, eh: Ehdr, i: nat, top: nat, ram: Frames,
                   ghost c0: Cursor, ghost img: Program, ghost m0: PageTables.Memory, ghost start: set<nat>,
                   ghost u0: set<nat>, ghost roots: set<nat>)
    returns (res: LoadResult, top': nat, ram': Frames, ghost img': Program, ghost u0': set<nat>)
    requires f.Valid() && Underway(f, a, r, eh, c0, i, top, ram, img, m0, start, u0, roots) && i < eh.phnum
    requires LowEntries(f.Spec(), eh, c0) && r !in roots && a.kernel in roots
    modifies f, a`mem, a.pmm.bitmap
    ensures f.Valid()
    ensures res.Loaded? ==> Underway(f, a, r, eh, c0, i + 1, top', ram', img', m0, start, u0', roots)
    ensures res.NoMemory? ==> forall f: nat :: f < a.pmm.Frames() ==> f in a.pmm.Used()
    ensures res.Refused? || res.Astray? ==> Planned(f.Spec(), eh, c0, i + 1) == Over(res)
  {
    hide BsfsFile.Valid, Loading, PageTables.Inv, Ownership.OwnInv, FrameAllocator.Pmm.Used, HeaderHere, AfterHeader,
         Sought, ParsePhdr, LowEntries, LowSegment, Tally;
    ghost var o, c := f.Spec(), f.At();
    top', ram', img', u0' := top, ram, img, u0;
    TallyPlan(Planned(o, eh, c0, i), c, img, top, start, u0);
    LowHere(o, eh, c0, i);
    f.Fseeko(PhdrPlace(eh, i), Set);
    f.CursorFits();
    FailsNot(o, f.At(), PHDR_SIZE);
    var ok, bytes;
    ok, res, bytes := ReadHeader(f, PHDR_SIZE);
    if !ok { return; }
    f.CursorFits();
    var ph := ParsePhdr(bytes[..PHDR_SIZE]);
    SmallPhdr(bytes[..PHDR_SIZE]);
    TallyMoved(Planned(o, eh, c0, i), c, f.At(), img, top, start, u0);
    res, top', ram', img', u0' := LoadNext(f, a, r, ph, top, ram, img, Planned(o, eh, c0, i).(c := f.At()), m0, start,
        u0,
        roots);
  }

  lemma TallyPlan(p: Plan, c: Cursor, img: Program, top: nat, start: set<nat>, u0: set<nat>)
    requires Tally(p, c, img, top, start, u0)
    ensures p.Going? && p.c == c
  {
  }

  lemma TallyMoved(p: Plan, c: Cursor, c': Cursor, img: Program, top: nat, start: set<nat>, u0: set<nat>)
    requires Tally(p, c, img, top, start, u0)
    ensures Tally(p.(c := c'), c', img, top, start, u0)
  {
  }

  lemma SmallPhdr(bytes: seq<Byte>)
    requires |bytes| == PHDR_SIZE
    ensures ParsePhdr(bytes).offset < U64
  {
  }

  lemma LowHere(o: Opened, eh: Ehdr, c0: Cursor, i: nat)
    requires InFile(o, c0) && LowEntries(o, eh, c0) && i < eh.phnum && Planned(o, eh, c0, i).Going?
    ensures LowEntry(o, eh, i, Planned(o, eh, c0, i))
  {
    hide LowEntry, Planned;
  }

  /** What a program header asks for, the plan having come to `p`. */
  method LoadNext(f: BsfsFile, a: AddressSpaces, r: nat, ph: Phdr, top: nat, ram: Frames, ghost img: Program,
                  ghost p: Plan, ghost m0: PageTables.Memory, ghost start: set<nat>, ghost u0: set<nat>,
                  ghost roots: set<nat>)
    returns (res: LoadResult, top': nat, ram': Frames, ghost img': Program, ghost u0': set<nat>)
    requires f.Valid() && InFile(f.Spec(), f.At()) && LowSegment(ph) && ph.offset < U64
    requires a.Valid() && a.Accounted() && a.roots == roots + {r}
    requires Loading(m0, u0, a.mem, a.pmm.Used(), a.kernel, roots, r, ram, img)
    requires Tally(p, f.At(), img, top, start, u0) && r !in roots && a.kernel in roots
    modifies f, a`mem, a.pmm.bitmap
    ensures f.Valid() && InFile(f.Spec(), f.At()) && p.Going? && InFile(f.Spec(), p.c)
    ensures res.Loaded? ==>
      a.Valid() && a.Accounted() && Loading(m0, u0', a.mem, a.pmm.Used(), a.kernel, roots, r, ram', img') &&
      Tally(AfterHeader(f.Spec(), ph, p), f.At(), img', top', start, u0')
    ensures res.NoMemory? ==> forall f: nat :: f < a.pmm.Frames() ==> f in a.pmm.Used()
    ensures res.Refused? || res.Astray? ==> AfterHeader(f.Spec(), ph, p) == Over(res)
  {
    hide BsfsFile.Valid, Loading, PageTables.Inv, Ownership.OwnInv, FrameAllocator.Pmm.Used, Loads, AfterSegment, With,
         PageCount, PagesFrom, SegEnd, Spent;
    res, top', ram', img', u0' := Loaded(top), top, ram, img, u0;
    if ph.filesz > ph.memsz {
      res := Refused(FileszExceedsMemsz);
      return;
    }
    if ph.type_ == PT_LOAD {
      top' := Higher(top, SegEnd(ph));
      LowEnough(ph);
      var s;
      s, ram', img', u0' := LoadSegment(f, a, r, ph, ram, img, m0, u0, roots);
      f.CursorFits();
      if s.OutOfFrames? {
        res := NoMemory;
        return;
      }
      if s.Bad? {
        res := SegmentFails(s.why);
        return;
      }
      SpentSegment(start, u0, u0', img, ph);
    }
  }

  lemma LowEnough(ph: Phdr)
    requires LowSegment(ph) && ph.filesz <= ph.memsz && ph.type_ == PT_LOAD
    ensures SegEnd(ph) <= STACK_PAGE * PAGE && ph.filesz < U64 / 2
  {
  }

  lemma SpentSegment(start: set<nat>, u0: set<nat>, u0': set<nat>, img: Program, ph: Phdr)
    requires Spent(u0, u0', img.Keys, Down(ph.vaddr), PageCount(ph)) && start <= u0 && |start| <= |u0|
    ensures start <= u0' && |u0'| - |start| == |u0| - |start| + |SegPages(ph) * img.Keys|
  {
  }

  // ---- where the program ends ---------------------------------------------------------------------

  /** The pages end at `top`, which is below the stack. */
  ghost predicate Ended(p: Plan) {
    p.Going? && (forall a :: a in p.img ==> a < p.top) && p.top % PAGE == 0 && p.top / PAGE + 1 < STACK_PAGE
  }

  lemma SegmentEnded(o: Opened, ph: Phdr, p: Plan)
    requires Ended(p) && InFile(o, p.c) && LowSegment(ph) && AfterHeader(o, ph, p).Going?
    ensures Ended(AfterHeader(o, ph, p))
  {
    hide Loads, AfterSegment, With, SegPages, PageCount;
    if ph.filesz <= ph.memsz && ph.type_ == PT_LOAD {
      var pages := Loads(o, p.c, ph).pages;
      LoadedPages(o, p.c, ph);
      WithKeys(p.img, Down(ph.vaddr), pages);
      PageEnd(ph);
    }
  }

  lemma LoadedPages(o: Opened, c: Cursor, ph: Phdr)
    requires InFile(o, c) && Loads(o, c, ph).Pages?
    ensures |Loads(o, c, ph).pages| == PageCount(ph)
  {
    hide LoadFrom, PageCount;
  }

  lemma {:induction false} PlanEnded(o: Opened, eh: Ehdr, c: Cursor, i: nat)
    requires InFile(o, c) && LowEntries(o, eh, c) && i <= eh.phnum && Planned(o, eh, c, i).Going?
    ensures Ended(Planned(o, eh, c, i))
  {
    hide AfterHeader, HeaderHere, Ended, LowEntries, LowSegment, ParsePhdr;
    if i == 0 {
      EndedStart(c);
    } else {
      PlanEnded(o, eh, c, i - 1);
      var p := Planned(o, eh, c, i - 1);
      LowHere(o, eh, c, i - 1);
      var h := HeaderHere(o, SeekTo(o, p.c, PhdrPlace(eh, i - 1)), PHDR_SIZE);
      EndedMoved(p, h.c);
      SegmentEnded(o, ParsePhdr(h.bytes[..PHDR_SIZE]), p.(c := h.c));
    }
  }

  lemma EndedStart(c: Cursor)
    ensures Ended(Going(c, map[], 0, 0))
  {
  }

  lemma EndedMoved(p: Plan, c: Cursor)
    requires Ended(p)
    ensures Ended(p.(c := c))
  {
  }

  lemma ExecutionEnded(o: Opened, c: Cursor)
    requires InFile(o, c) && Low(o, c) && Execution(o, c).Going?
    ensures Ended(Execution(o, c))
  {
    hide Execution, Low, Planned, LowEntries, Ended, ParseEhdr, HeaderError, HeaderHere;
    ExecutionCases(o, c);
    var h := HeaderHere(o, c, EHDR_SIZE);
    var eh := ParseEhdr(h.bytes[..EHDR_SIZE]);
    PlanEnded(o, eh, SeekTo(o, h.c, eh.phoff), eh.phnum);
  }

  // ---- files that are read right ------------------------------------------------------------------

  /** The file is at its start and has its headers, the loader reads right from where the reading of the first one
      leaves the cursor, and the segments lie below the stack. */
  ghost predicate Readable(o: Opened, c: Cursor) {
    && PageBuffer(o) && InFile(o, c) && c.pos == 0 && |o.data| >= EHDR_SIZE
    && var eh := ParseEhdr(o.data[..EHDR_SIZE]);
       Clean(o, eh, 0, Touch(o, c.(pos := 0), EHDR_SIZE)) && SegmentsFit(o.data, eh)
  }

  lemma FreshAtStart(o: Opened, c: Cursor)
    requires InFile(o, c) && o.bs > 0
    ensures Fresh(c.(pos := 0), o.bs) && BlockOffset(0, o.bs) == 0
  {
    assert BlockIndex(0, o.bs) == 0;
  }

  lemma HeaderIs(data: seq<Byte>, eh: Ehdr, i: nat)
    requires eh.phoff + PHDR_SIZE * (i + 1) <= |data|
    ensures var at := eh.phoff + PHDR_SIZE * i;
      at + PHDR_SIZE <= |data| && ParsePhdr(data[at..at + PHDR_SIZE]) == PhdrAt(data, eh, i)
    ensures PhdrAt(data, eh, i).offset < U64
    ensures IsLoad(data, eh, i) <==> PhdrAt(data, eh, i).type_ == PT_LOAD
  {
  }

  lemma CleanHeader(o: Opened, eh: Ehdr, i: nat, c: Cursor)
    requires PageBuffer(o) && InFile(o, c) && Clean(o, eh, i, c) && i < eh.phnum
    ensures var at := eh.phoff + PHDR_SIZE * i;
      at + PHDR_SIZE <= |o.data| && Fresh(c.(pos := at), o.bs) && BlockOffset(at, o.bs) + PHDR_SIZE <= PAGE
  {
    hide BlockOffset, Fresh, Loadable;
  }

  lemma CleanNext(o: Opened, eh: Ehdr, i: nat, c: Cursor)
    requires PageBuffer(o) && InFile(o, c) && Clean(o, eh, i, c)
    requires i < eh.phnum && eh.phoff + PHDR_SIZE * (i + 1) <= |o.data|
    ensures var at := eh.phoff + PHDR_SIZE * i;
      var c', ph := Touch(o, c.(pos := at), at + PHDR_SIZE), PhdrAt(o.data, eh, i);
      || ph.filesz > ph.memsz
      || (ph.type_ != PT_LOAD && Clean(o, eh, i + 1, c'))
      || (&& ph.type_ == PT_LOAD && Described(ph, |o.data|) && Loadable(|o.data|, o.bs, c', ph) && ph.filesz < U64 / 2
          && Clean(o, eh, i + 1, AfterSegment(o, c', ph)))
  {
    hide BlockOffset, Fresh, Loadable, Touch, PhdrAt;
  }

  lemma NoImage(data: seq<Byte>, eh: Ehdr)
    requires eh.phoff <= |data|
    ensures Image(data, eh, 0, map[], 0) && Again(data, eh, 0) == 0
  {
  }

  lemma TooMuch(data: seq<Byte>, eh: Ehdr, i: nat)
    requires eh.phoff + PHDR_SIZE * (i + 1) <= |data|
    ensures TooMuchFile(data, eh, i) <==> PhdrAt(data, eh, i).filesz > PhdrAt(data, eh, i).memsz
  {
  }

  lemma AgainNext(data: seq<Byte>, eh: Ehdr, n: nat, img: Program, top: nat)
    requires Image(data, eh, n, img, top) && IsLoad(data, eh, n)
    ensures Again(data, eh, n + 1) == Again(data, eh, n) + |SegPages(PhdrAt(data, eh, n)) * img.Keys|
  {
    hide IsLoad, PhdrAt, SegPages, Fills, Owns;
  }

  /** What is read at `at` is what the file holds there. */
  lemma HeaderRight(o: Opened, c: Cursor, at: nat, n: nat)
    requires PageBuffer(o) && InFile(o, c) && at + n <= |o.data|
    requires 0 < n && BlockOffset(at, o.bs) + n <= PAGE
    requires Fresh(c.(pos := at), o.bs)
    ensures at % U64 == at && SeekTo(o, c, at) == c.(pos := at)
    ensures HeaderHere(o, c.(pos := at), n) == Header(o.data[at..at + n], Touch(o, c.(pos := at), at + n))
  {
    hide Fresh, BlockOffset, BlockIndex, Layout.DivCeil, Picked, Touch, Reads, After;
    ExactRead(o, c.(pos := at), n);
    PickedWhen(o, c.(pos := at), n);
  }

  /** Where the cursor is makes no difference to what follows a seek. */
  lemma CleanMoved(o: Opened, eh: Ehdr, i: nat, c: Cursor, at: nat)
    requires PageBuffer(o) && InFile(o, c) && at <= |o.data| && Clean(o, eh, i, c)
    ensures Clean(o, eh, i, c.(pos := at))
  {
    hide BlockOffset, Fresh, Loadable, Touch, PhdrAt, AfterSegment;
  }

  /** The plan has come through the first `i` headers as it should. */
  ghost predicate OnCourse(o: Opened, eh: Ehdr, i: nat, p: Plan) {
    if exists j :: 0 <= j < i && TooMuchFile(o.data, eh, j) then p == Over(Refused(FileszExceedsMemsz))
    else
      && p.Going? && PageBuffer(o) && InFile(o, p.c) && Clean(o, eh, i, p.c)
      && Image(o.data, eh, i, p.img, p.top) && p.again == Again(o.data, eh, i)
  }

  /** One header, as it should be. */
  lemma EntryRight(o: Opened, eh: Ehdr, i: nat, p: Plan)
    requires p.Going? && PageBuffer(o) && InFile(o, p.c)
    requires Clean(o, eh, i, p.c) && SegmentsFit(o.data, eh)
    requires i < eh.phnum
    ensures eh.phoff + PHDR_SIZE * (i + 1) <= |o.data|
    ensures var at := eh.phoff + PHDR_SIZE * i;
      NextEntry(o, eh, i, p) == AfterHeader(o, PhdrAt(o.data, eh, i),
          p.(c := Touch(o, p.c.(pos := at), at + PHDR_SIZE)))
    ensures LowEntry(o, eh, i, p)
  {
    hide Clean, BlockOffset, Fresh, Touch, ParsePhdr, AfterHeader, HeaderHere, SegEnd;
    var at := eh.phoff + PHDR_SIZE * i;
    CleanHeader(o, eh, i, p.c);
    HeaderRight(o, p.c, at, PHDR_SIZE);
    HeaderIs(o.data, eh, i);
    assert o.data[at..at + PHDR_SIZE][..PHDR_SIZE] == o.data[at..at + PHDR_SIZE];
  }

  lemma SegmentRight(o: Opened, eh: Ehdr, i: nat, p: Plan, c: Cursor)
    requires PageBuffer(o) && InFile(o, c) && IsLoad(o.data, eh, i)
    requires i < eh.phnum && SegmentsFit(o.data, eh)
    requires p.Going? && Image(o.data, eh, i, p.img, p.top) && p.again == Again(o.data, eh, i)
    requires var ph := PhdrAt(o.data, eh, i);
      ph.filesz <= ph.memsz && Described(ph, |o.data|) && Loadable(|o.data|, o.bs, c, ph)
    ensures var q := AfterHeader(o, PhdrAt(o.data, eh, i), p.(c := c));
      && q.Going? && q.c == AfterSegment(o, c, PhdrAt(o.data, eh, i))
      && Image(o.data, eh, i + 1, q.img, q.top) && q.again == Again(o.data, eh, i + 1)
  {
    hide PhdrAt, Loads, AfterSegment, Loadable, Image, Again, SegPages, With, Right, Put, SegEnd, SegmentsFit;
    var ph := PhdrAt(o.data, eh, i);
    SoundLoads(o, c, ph);
    PutRight(o.data, ph, p.img);
    ImageNext(o.data, eh, i, p.img, p.top, With(p.img, Down(ph.vaddr), Right(o.data, ph)));
    AgainNext(o.data, eh, i, p.img, p.top);
  }

  lemma AgainSkip(data: seq<Byte>, eh: Ehdr, n: nat)
    requires !IsLoad(data, eh, n)
    ensures Again(data, eh, n + 1) == Again(data, eh, n)
  {
    hide IsLoad, PhdrAt, SegPages;
  }

  lemma CourseNext(o: Opened, eh: Ehdr, i: nat, p: Plan)
    requires p.Going? && OnCourse(o, eh, i, p) && SegmentsFit(o.data, eh) && i < eh.phnum
    ensures OnCourse(o, eh, i + 1, NextEntry(o, eh, i, p))
  {
    hide Clean, BlockOffset, Fresh, Touch, AfterSegment, Loadable, Image, Again, IsLoad, PhdrAt, SegmentsFit, NextEntry,
         TooMuchFile, Loads, With, SegPages;
    var at := eh.phoff + PHDR_SIZE * i;
    EntryRight(o, eh, i, p);
    CleanHeader(o, eh, i, p.c);
    CleanNext(o, eh, i, p.c);
    HeaderIs(o.data, eh, i);
    TooMuch(o.data, eh, i);
    var ph, c := PhdrAt(o.data, eh, i), Touch(o, p.c.(pos := at), at + PHDR_SIZE);
    if ph.filesz > ph.memsz {
      assert TooMuchFile(o.data, eh, i);
    } else if ph.type_ == PT_LOAD {
      SegmentRight(o, eh, i, p, c);
    } else {
      ImageSkip(o.data, eh, i, p.img, p.top);
      AgainSkip(o.data, eh, i);
    }
  }

  lemma {:induction false} Course(o: Opened, eh: Ehdr, c: Cursor, i: nat)
    requires PageBuffer(o) && InFile(o, c) && Clean(o, eh, 0, c)
    requires SegmentsFit(o.data, eh) && i <= eh.phnum
    ensures OnCourse(o, eh, i, Planned(o, eh, c, i))
    ensures i < eh.phnum && Planned(o, eh, c, i).Going? ==> LowEntry(o, eh, i, Planned(o, eh, c, i))
  {
    hide Clean, Image, Again, NextEntry, TooMuchFile, SegmentsFit, LowEntry;
    if i == 0 {
      FitsFrom(o.data, eh);
      NoImage(o.data, eh);
    } else {
      Course(o, eh, c, i - 1);
      var p := Planned(o, eh, c, i - 1);
      if p.Going? { CourseNext(o, eh, i - 1, p); }
    }
    if i < eh.phnum && Planned(o, eh, c, i).Going? { EntryRight(o, eh, i, Planned(o, eh, c, i)); }
  }

  lemma FitsFrom(data: seq<Byte>, eh: Ehdr)
    requires SegmentsFit(data, eh)
    ensures eh.phoff <= |data|
  {
  }

  /** A file that is read right: its segments are in memory, each page with the bytes of the last segment that has it,
      or the loader ends with the error the headers call for. */
  lemma ExecutionRight(o: Opened, c: Cursor)
    requires Readable(o, c)
    ensures Low(o, c)
    ensures var eh, x := ParseEhdr(o.data[..EHDR_SIZE]), Execution(o, c);
      if HeaderError(eh).Refused? then x == Over(HeaderError(eh))
      else if exists i :: 0 <= i < eh.phnum && TooMuchFile(o.data, eh, i) then x == Over(Refused(FileszExceedsMemsz))
      else x.Going? && Image(o.data, eh, eh.phnum, x.img, x.top) && x.again == Again(o.data, eh, eh.phnum)
  {
    hide ParseEhdr, HeaderError, Clean, SegmentsFit, Image, Again, TooMuchFile, Planned, Touch, Fresh, BlockOffset,
         HeaderHere, LowEntry;
    FreshAtStart(o, c);
    HeaderRight(o, c, 0, EHDR_SIZE);
    assert c.(pos := 0) == c && o.data[0..0 + EHDR_SIZE] == o.data[..EHDR_SIZE];
    assert o.data[..EHDR_SIZE][..EHDR_SIZE] == o.data[..EHDR_SIZE];
    var eh, c1 := ParseEhdr(o.data[..EHDR_SIZE]), Touch(o, c, EHDR_SIZE);
    var c2 := SeekTo(o, c1, eh.phoff);
    CleanMoved(o, eh, 0, c1, c2.pos);
    forall i | 0 <= i < eh.phnum && Planned(o, eh, c2, i).Going? ensures LowEntry(o, eh, i, Planned(o, eh, c2, i)) {
      Course(o, eh, c2, i);
    }
    Course(o, eh, c2, eh.phnum);
  }
}
