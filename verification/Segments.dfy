/** What the page loop of elf64_load_executable puts into the pages of one segment (kernel/kernel/elf.c:71-101), and
    when that is what the program header asks for. */
module Segments {
  import opened Machine
  import opened Division
  import opened Layout
  import opened DiskFormat
  import DiskTree
  import opened Populate
  import opened Cursors

  datatype Phdr = Phdr(type_: nat, offset: nat, vaddr: nat, filesz: nat, memsz: nat)

  // ---- what a segment should look like ------------------------------------------------------------

  function Down(a: nat): (r: nat)
    ensures r % PAGE == 0 && r <= a < r + PAGE
  {
    a - a % PAGE
  }

  function UpTo(a: nat): (r: nat)
    ensures r % PAGE == 0 && a <= r < a + PAGE
  {
    Down(a + PAGE - 1)
  }

  /** The pages of a segment are those from `Down(ph.vaddr)` up to `SegEnd(ph)`. */
  function SegEnd(ph: Phdr): nat {
    UpTo(ph.vaddr + ph.memsz)
  }

  function PageCount(ph: Phdr): nat {
    (SegEnd(ph) - Down(ph.vaddr)) / PAGE
  }

  /** The file bytes of the segment are in the file, and there is room for them in memory. */
  predicate Described(ph: Phdr, size: nat) {
    ph.filesz <= ph.memsz && ph.offset + ph.filesz <= size
  }

  /** The byte of the segment at address `a`: from the file, or zero. */
  function SegByte(data: seq<Byte>, ph: Phdr, a: nat): Byte
    requires ph.offset + ph.filesz <= |data|
  {
    if ph.vaddr <= a < ph.vaddr + ph.filesz then data[ph.offset + (a - ph.vaddr)] else 0
  }

  function SegPage(data: seq<Byte>, ph: Phdr, page: nat): (r: seq<Byte>)
    requires ph.offset + ph.filesz <= |data|
    ensures |r| == PAGE && forall k :: 0 <= k < PAGE ==> r[k] == SegByte(data, ph, page + k)
  {
    seq<Byte>(PAGE, k requires 0 <= k < PAGE => SegByte(data, ph, page + k))
  }

  /** `n` pages from `addr` on, as they should be. */
  function RightFrom(data: seq<Byte>, ph: Phdr, addr: nat, n: nat): (r: seq<seq<Byte>>)
    requires ph.offset + ph.filesz <= |data|
    ensures |r| == n
    decreases n
  {
    if n == 0 then [] else [SegPage(data, ph, addr)] + RightFrom(data, ph, addr + PAGE, n - 1)
  }

  function Right(data: seq<Byte>, ph: Phdr): seq<seq<Byte>>
    requires ph.offset + ph.filesz <= |data|
  {
    RightFrom(data, ph, Down(ph.vaddr), PageCount(ph))
  }

  // ---- what the loader does -----------------------------------------------------------------------

  /** The pages, or the error of a read, or a copy that leaves the file's buffer, the file or the page. */
  datatype Outcome = Pages(pages: seq<seq<Byte>>) | ReadError | Overran

  /** What is left to read is less than a page: that, less the offset in the page; else the page from the offset on. The
      number is passed as an unsigned 32-bit one. */
  function Count(remaining: int, off: nat): nat {
    (if remaining < PAGE then remaining - off else PAGE - off) % U32
  }

  /** The bytes of a page: from the file behind `off`, zero around them. */
  function PageWith(off: nat, bytes: seq<Byte>): (r: seq<Byte>)
    requires off + |bytes| <= PAGE
    ensures |r| == PAGE
  {
    Zeros(off) + bytes + Zeros(PAGE - off - |bytes|)
  }

  /** One page, and the cursor and the rest behind it. */
  datatype Step = Filled(page: seq<Byte>, c: Cursor, remaining: int) | Failed(why: Outcome)

  function FillPage(o: Opened, c: Cursor, off: nat, remaining: int): (s: Step)
    requires InFile(o, c)
    ensures s.Filled? ==> InFile(o, s.c) && |s.page| == PAGE
    ensures s.Failed? ==> !s.why.Pages?
  {
    if remaining <= 0 then Filled(Zeros(PAGE), c, remaining)
    else
      var r := Reads(o, c, Count(remaining, off));
      if r.SizeTooBig? then Failed(ReadError)
      else if !r.Bytes? || off + |r.out| > PAGE then Failed(Overran)
      else Filled(PageWith(off, r.out), After(o, c, Count(remaining, off)), remaining - |r.out|)
  }

  function LoadFrom(o: Opened, c: Cursor, n: nat, off: nat, remaining: int): (r: Outcome)
    requires InFile(o, c)
    ensures r.Pages? ==> |r.pages| == n
    decreases n
  {
    if n == 0 then Pages([])
    else
      var s := FillPage(o, c, off, remaining);
      if s.Failed? then s.why
      else
        var rest := LoadFrom(o, s.c, n - 1, 0, s.remaining);
        if rest.Pages? then Pages([s.page] + rest.pages) else rest
  }

  /** The cursor behind the pages. */
  function Behind(o: Opened, c: Cursor, n: nat, off: nat, remaining: int): (c': Cursor)
    requires InFile(o, c)
    ensures InFile(o, c')
    decreases n
  {
    if n == 0 || FillPage(o, c, off, remaining).Failed? then c
    else
      var s := FillPage(o, c, off, remaining);
      Behind(o, s.c, n - 1, 0, s.remaining)
  }

  /** The cursor after the seek to the segment. */
  function AtSegment(o: Opened, c: Cursor, ph: Phdr): (c': Cursor)
    requires InFile(o, c)
    ensures InFile(o, c')
  {
    c.(pos := Sought(|o.data|, c.pos, ph.offset, Set))
  }

  function Loads(o: Opened, c: Cursor, ph: Phdr): Outcome
    requires InFile(o, c)
  {
    LoadFrom(o, AtSegment(o, c, ph), PageCount(ph), ph.vaddr % PAGE, ph.filesz)
  }

  /** The cursor behind a segment. */
  function AfterSegment(o: Opened, c: Cursor, ph: Phdr): (c': Cursor)
    requires InFile(o, c)
    ensures InFile(o, c')
  {
    Behind(o, AtSegment(o, c, ph), PageCount(ph), ph.vaddr % PAGE, ph.filesz)
  }

  // ---- when it is right ---------------------------------------------------------------------------

  /** The file as kmain opens it: a buffer of one page, and no read longer than allowed. */
  predicate PageBuffer(o: Opened) {
    Usable(o) && o.bufsize == PAGE <= o.maxRead
  }

  /** The block the read begins in is not one that was read last behind another. */
  predicate Fresh(c: Cursor, bs: nat)
    requires bs > 0
  {
    First(c, bs) == BlockIndex(c.pos, bs)
  }

  /** The exact condition. Without file bytes nothing can go wrong. Otherwise the segment must not begin in a stale
      block, and
      - when it begins on a page boundary, its only read must fit the buffer, or else it must begin on a block
        boundary;
      - when it begins within a page and has at least a page of file bytes, file offset and address must agree modulo
        the block size; they may also differ when the first page is read within one block and the rest fits the
        buffer;
      - when it has less, the count wraps around, and it is right only at the very end of a small file. */
  predicate Loadable(size: nat, bs: nat, c: Cursor, ph: Phdr)
    requires bs > 0
  {
    var off, f := ph.vaddr % PAGE, ph.filesz;
    f == 0 ||
    (&& Fresh(c.(pos := ph.offset), bs)
     && if off == 0 then (if f < PAGE then BlockOffset(ph.offset, bs) + f <= PAGE else BlockOffset(ph.offset, bs) == 0)
        else if f >= PAGE then
          var first := PAGE - off;
          var rest := f - first;
          || BlockOffset(ph.offset + first, bs) == 0
          || (rest < PAGE && BlockOffset(ph.offset, bs) + first < bs &&
               BlockOffset(ph.offset + first, bs) + rest <= PAGE)
        else ph.offset + f < off && size == ph.offset + f && off + f <= PAGE)
  }

  /** Whatever the file holds, the pages are right. */
  ghost predicate AlwaysRight(size: nat, bs: nat, maxRead: nat, c: Cursor, ph: Phdr)
    requires forall data: seq<Byte> | |data| == size :: InFile(Opened(data, bs, PAGE, maxRead), c)
    requires Described(ph, size)
  {
    forall data: seq<Byte> | |data| == size :: Loads(Opened(data, bs, PAGE, maxRead), c, ph) == Pages(Right(data, ph))
  }

  // ---- one page -----------------------------------------------------------------------------------

  /** How much of the segment lies before the page at `addr`. */
  function Done(ph: Phdr, addr: nat): nat {
    if addr <= ph.vaddr then 0 else addr - ph.vaddr
  }

  lemma PageBytes(data: seq<Byte>, ph: Phdr, addr: nat, off: nat, n: nat)
    requires ph.offset + ph.filesz <= |data| && addr + off == ph.vaddr + Done(ph, addr) && (off > 0 ==> addr < ph.vaddr)
    requires Done(ph, addr) <= ph.filesz && off <= PAGE
    requires n == if ph.filesz - Done(ph, addr) < PAGE - off then ph.filesz - Done(ph, addr) else PAGE - off
    ensures var pos := ph.offset + Done(ph, addr);
      pos + n <= |data| && off + n <= PAGE && PageWith(off, data[pos..pos + n]) == SegPage(data, ph, addr)
  {
    var pos := ph.offset + Done(ph, addr);
    var page := PageWith(off, data[pos..pos + n]);
    forall k | 0 <= k < PAGE ensures page[k] == SegByte(data, ph, addr + k) {
      if off <= k < off + n { assert page[k] == data[pos..pos + n][k - off]; }
    }
  }

  lemma PageEmpty(data: seq<Byte>, ph: Phdr, addr: nat)
    requires ph.offset + ph.filesz <= |data| && ph.filesz <= Done(ph, addr)
    ensures SegPage(data, ph, addr) == Zeros(PAGE)
  {
    var page := SegPage(data, ph, addr);
    forall k | 0 <= k < PAGE ensures page[k] == 0 { assert page[k] == SegByte(data, ph, addr + k); }
  }

  /** A read of `n` bytes that are in the file. */
  lemma ExactRead(o: Opened, c: Cursor, n: nat)
    requires InFile(o, c) && PageBuffer(o) && n <= PAGE && c.pos + n <= |o.data|
    ensures Stop(|o.data|, o.bufsize, c.pos, n) == c.pos + n
    ensures BlockOffset(c.pos, o.bs) + n > PAGE ==> Reads(o, c, n) == Overrun
    ensures BlockOffset(c.pos, o.bs) + n <= PAGE ==>
      && First(c, o.bs) <= BlockIndex(c.pos, o.bs)
      && Reads(o, c, n) == Bytes(Picked(o.data, o.bs, First(c, o.bs), c.pos, c.pos + n))
      && After(o, c, n) == Touch(o, c, c.pos + n)
  {
    hide BlockOffset, BlockIndex, First, Picked, Touch;
    FirstBelow(o, c);
  }

  /** After a read, the next one begins in a stale block only if the position is within a block that was read behind
      another. */
  lemma FreshAfter(o: Opened, c: Cursor, n: nat)
    requires InFile(o, c) && c.pos + n <= |o.data| && n > 0 && Fresh(c, o.bs)
    ensures var c' := Touch(o, c, c.pos + n);
      && c'.pos == c.pos + n
      && (Fresh(c', o.bs) <==>
           BlockOffset(c.pos + n, o.bs) == 0 || BlockIndex(c.pos + n, o.bs) == BlockIndex(c.pos, o.bs))
  {
    hide BlockOffset, BlockIndex, DivCeil;
    var end := c.pos + n;
    IndexCeil(o.bs, c.pos, end);
    FirstBelow(o, c);
    LaterBlock(o.bs, c.pos, end);
  }

  lemma LaterBlock(bs: nat, pos: nat, end: nat)
    requires bs > 0 && pos < end
    ensures BlockIndex(pos, bs) < DivCeil(end, bs) && BlockIndex(pos, bs) <= BlockIndex(end, bs)
    ensures BlockOffset(pos, bs) + (end - pos) < bs <==> BlockIndex(end, bs) == BlockIndex(pos, bs)
  {
    hide BlockOffset, BlockIndex, DivCeil;
    Parts(pos, bs);
    Parts(end, bs);
    CeilBounds(end, bs);
    var s, k, e := BlockIndex(pos, bs), BlockIndex(end, bs), DivCeil(end, bs);
    if e < s { MulStep(s, e, bs); }
    if k < s { MulStep(s, k, bs); }
    if s < k { MulStep(k, s, bs); }
  }

  // ---- enough -------------------------------------------------------------------------------------

  /** Behind the file bytes of the segment. */
  lemma {:induction false} AllRead(o: Opened, c: Cursor, ph: Phdr, addr: nat, n: nat, off: nat, remaining: int)
    requires InFile(o, c) && Described(ph, |o.data|) && ph.filesz <= Done(ph, addr) && remaining <= 0
    ensures LoadFrom(o, c, n, off, remaining) == Pages(RightFrom(o.data, ph, addr, n))
    decreases n
  {
    hide Reads, After, SegPage, PageWith;
    if n > 0 {
      PageEmpty(o.data, ph, addr);
      AllRead(o, c, ph, addr + PAGE, n - 1, 0, remaining);
    }
  }

  /** From a page boundary of the segment on. */
  lemma {:induction false} LoadsRest(o: Opened, c: Cursor, ph: Phdr, addr: nat, n: nat, remaining: int)
    requires InFile(o, c) && PageBuffer(o) && Described(ph, |o.data|)
    requires addr >= ph.vaddr && remaining == ph.filesz - Done(ph, addr)
    requires remaining > 0 ==>
      && c.pos == ph.offset + Done(ph, addr) && Fresh(c, o.bs)
      && if remaining < PAGE then BlockOffset(c.pos, o.bs) + remaining <= PAGE else BlockOffset(c.pos, o.bs) == 0
    ensures LoadFrom(o, c, n, 0, remaining) == Pages(RightFrom(o.data, ph, addr, n))
    decreases n
  {
    hide BlockOffset, BlockIndex, DivCeil, Picked, Reads, After, SegPage, PageWith, Touch, Fresh;
    if n > 0 {
      if remaining <= 0 {
        AllRead(o, c, ph, addr, n, 0, remaining);
      } else {
        var k := if remaining < PAGE then remaining else PAGE;
        assert Count(remaining, 0) == k;
        ExactRead(o, c, k);
        PickedWhen(o, c, k);
        PageBytes(o.data, ph, addr, 0, k);
        FreshAfter(o, c, k);
        var c' := Touch(o, c, c.pos + k);
        if remaining < PAGE {
          AllRead(o, c', ph, addr + PAGE, n - 1, 0, 0);
        } else {
          NextAligned(o.bs, c.pos);
          LoadsRest(o, c', ph, addr + PAGE, n - 1, remaining - PAGE);
        }
      }
    }
  }

  lemma PickedWhen(o: Opened, c: Cursor, k: nat)
    requires InFile(o, c) && Fresh(c, o.bs) && c.pos + k <= |o.data|
    ensures First(c, o.bs) <= BlockIndex(c.pos, o.bs)
    ensures Picked(o.data, o.bs, First(c, o.bs), c.pos, c.pos + k) == o.data[c.pos..c.pos + k]
  {
    hide BlockIndex, Picked;
    PickedFresh(o.data, o.bs, c.pos, c.pos + k);
  }

  /** A page behind a block boundary is another one. */
  lemma NextAligned(bs: nat, pos: nat)
    requires bs > 0 && PAGE % bs == 0 && BlockOffset(pos, bs) == 0
    ensures BlockOffset(pos + PAGE, bs) == 0
  {
    AlignedSize(PAGE, bs);
    AlignedSum(pos, PAGE, bs);
  }

  /** The first page of a segment that begins within it, when the read is exact. */
  lemma LoadsFirst(o: Opened, c: Cursor, ph: Phdr, n: nat)
    requires InFile(o, c) && PageBuffer(o) && Described(ph, |o.data|)
    requires c.pos == ph.offset && n > 0 && PAGE <= ph.filesz
    requires var off := ph.vaddr % PAGE; var first := PAGE - off;
      off > 0 && Fresh(c, o.bs) && BlockOffset(c.pos, o.bs) + first <= PAGE
    ensures var off := ph.vaddr % PAGE; var first := PAGE - off;
      FillPage(o, c, off, ph.filesz) == Filled(SegPage(o.data, ph, Down(ph.vaddr)), Touch(o, c, ph.offset + first),
          ph.filesz - first)
  {
    hide BlockOffset, BlockIndex, DivCeil, Picked, Reads, After, SegPage, PageWith, Touch;
    var off := ph.vaddr % PAGE;
    var first := PAGE - off;
    assert Count(ph.filesz, off) == first;
    ExactRead(o, c, first);
    PickedWhen(o, c, first);
    PageBytes(o.data, ph, Down(ph.vaddr), off, first);
  }

  lemma TwoPages(ph: Phdr)
    requires ph.filesz <= ph.memsz
    ensures ph.filesz > 0 ==> PageCount(ph) > 0
    ensures ph.vaddr % PAGE > 0 && ph.filesz >= PAGE ==> PageCount(ph) > 1
  {
    var a, e := Down(ph.vaddr), SegEnd(ph);
    assert (e - a) % PAGE == 0;
  }

  /** A loadable segment is loaded right. */
  lemma SoundLoads(o: Opened, c: Cursor, ph: Phdr)
    requires InFile(o, c) && PageBuffer(o) && Described(ph, |o.data|) && Loadable(|o.data|, o.bs, c, ph)
    ensures Loads(o, c, ph) == Pages(Right(o.data, ph))
  {
    hide BlockOffset, BlockIndex, DivCeil, Fresh, FillPage, PageCount, LoadFrom, RightFrom;
    var c0, off, n, a := AtSegment(o, c, ph), ph.vaddr % PAGE, PageCount(ph), Down(ph.vaddr);
    TwoPages(ph);
    assert c0 == c.(pos := ph.offset);
    if ph.filesz == 0 {
      AllRead(o, c0, ph, a, n, off, 0);
    } else if off == 0 {
      LoadsRest(o, c0, ph, a, n, ph.filesz);
    } else if ph.filesz >= PAGE {
      FirstFits(o.bs, ph.offset, PAGE - off);
      SoundWithin(o, c0, ph, n);
    } else {
      SoundShort(o, c0, ph, n);
    }
  }

  lemma SoundWithin(o: Opened, c: Cursor, ph: Phdr, n: nat)
    requires InFile(o, c) && PageBuffer(o) && Described(ph, |o.data|)
    requires c.pos == ph.offset && n > 1 && PAGE <= ph.filesz
    requires ph.vaddr % PAGE > 0
    requires Fresh(c, o.bs) && BlockOffset(ph.offset, o.bs) + (PAGE - ph.vaddr % PAGE) <= PAGE
    requires var first := PAGE - ph.vaddr % PAGE; var rest := ph.filesz - first;
      || BlockOffset(ph.offset + first, o.bs) == 0
      || (rest < PAGE && BlockOffset(ph.offset, o.bs) + first < o.bs &&
           BlockOffset(ph.offset + first, o.bs) + rest <= PAGE)
    ensures LoadFrom(o, c, n, ph.vaddr % PAGE, ph.filesz) == Pages(RightFrom(o.data, ph, Down(ph.vaddr), n))
  {
    hide BlockOffset, BlockIndex, DivCeil, SegPage, Touch, Fresh, FillPage;
    var first := PAGE - ph.vaddr % PAGE;
    LoadsFirst(o, c, ph, n);
    FreshAfter(o, c, first);
    LaterBlock(o.bs, ph.offset, ph.offset + first);
    LoadsRest(o, Touch(o, c, ph.offset + first), ph, Down(ph.vaddr) + PAGE, n - 1, ph.filesz - first);
  }

  lemma SoundShort(o: Opened, c: Cursor, ph: Phdr, n: nat)
    requires InFile(o, c) && PageBuffer(o) && Described(ph, |o.data|)
    requires c.pos == ph.offset && n > 0 && Fresh(c, o.bs)
    requires var off := ph.vaddr % PAGE;
      ph.offset + ph.filesz < off && |o.data| == ph.offset + ph.filesz && 0 < ph.filesz && off + ph.filesz <= PAGE
    ensures LoadFrom(o, c, n, ph.vaddr % PAGE, ph.filesz) == Pages(RightFrom(o.data, ph, Down(ph.vaddr), n))
  {
    hide BlockOffset, BlockIndex, DivCeil, SegPage, Touch, Fresh, FillPage;
    SmallTail(o, c, ph);
    AllRead(o, Touch(o, c, |o.data|), ph, Down(ph.vaddr) + PAGE, n - 1, 0, 0);
  }

  lemma FirstFits(bs: nat, pos: nat, first: nat)
    requires 0 < bs <= PAGE && PAGE % bs == 0 && first < PAGE
    requires (BlockOffset(pos + first, bs) == 0 || BlockOffset(pos, bs) + first < bs)
    ensures BlockOffset(pos, bs) + first <= PAGE
  {
    var o, m := BlockOffset(pos, bs), PAGE / bs;
    if BlockOffset(pos + first, bs) == 0 {
      var s, k := BlockIndex(pos, bs), BlockIndex(pos + first, bs);
      Parts(pos, bs);
      Parts(pos + first, bs);
      assert PAGE == m * bs;
      hide BlockOffset, BlockIndex;
      assert o + first == (k - s) * bs;
      if k - s > m { MulStep(k - s, m, bs); }
    }
  }

  /** A short segment at the end of a small file. */
  lemma SmallTail(o: Opened, c: Cursor, ph: Phdr)
    requires InFile(o, c) && PageBuffer(o) && Described(ph, |o.data|)
    requires c.pos == ph.offset && Fresh(c, o.bs)
    requires var off := ph.vaddr % PAGE;
      ph.offset + ph.filesz < off && |o.data| == ph.offset + ph.filesz && 0 < ph.filesz && off + ph.filesz <= PAGE
    ensures FillPage(o, c, ph.vaddr % PAGE, ph.filesz) == Filled(SegPage(o.data, ph, Down(ph.vaddr)),
      Touch(o, c, |o.data|), 0)
  {
    hide BlockOffset, BlockIndex, DivCeil, Picked, SegPage, PageWith, Touch;
    var off, size := ph.vaddr % PAGE, |o.data|;
    var n := Count(ph.filesz, off);
    assert n == U32 + ph.filesz - off;
    assert Stop(size, PAGE, c.pos, n) == size;
    OffsetBelow(c.pos, o.bs);
    PickedWhen(o, c, ph.filesz);
    PageBytes(o.data, ph, Down(ph.vaddr), off, ph.filesz);
  }

  lemma OffsetBelow(pos: nat, bs: nat)
    requires bs > 0
    ensures BlockOffset(pos, bs) <= pos
  {
    Parts(pos, bs);
    hide BlockOffset, BlockIndex;
    if BlockIndex(pos, bs) > 0 { MulStep(BlockIndex(pos, bs), 0, bs); }
  }

  // ---- and needed ---------------------------------------------------------------------------------

  lemma WrongFirst(o: Opened, c: Cursor, n: nat, off: nat, remaining: int, ph: Phdr, addr: nat)
    requires InFile(o, c) && Described(ph, |o.data|) && n > 0
    requires var s := FillPage(o, c, off, remaining); s.Failed? || s.page != SegPage(o.data, ph, addr)
    ensures LoadFrom(o, c, n, off, remaining) != Pages(RightFrom(o.data, ph, addr, n))
  {
    hide FillPage, SegPage;
    var s, right := FillPage(o, c, off, remaining), RightFrom(o.data, ph, addr, n);
    assert right[0] == SegPage(o.data, ph, addr);
    if s.Filled? {
      var rest := LoadFrom(o, s.c, n - 1, 0, s.remaining);
      if rest.Pages? { assert ([s.page] + rest.pages)[0] == s.page; }
    }
  }

  lemma WrongSecond(o: Opened, c: Cursor, n: nat, off: nat, remaining: int, ph: Phdr, addr: nat)
    requires InFile(o, c) && Described(ph, |o.data|) && n > 0 && FillPage(o, c, off, remaining).Filled?
    requires var s := FillPage(o, c, off, remaining);
      LoadFrom(o, s.c, n - 1, 0, s.remaining) != Pages(RightFrom(o.data, ph, addr + PAGE, n - 1))
    ensures LoadFrom(o, c, n, off, remaining) != Pages(RightFrom(o.data, ph, addr, n))
  {
    hide FillPage, SegPage;
    var s := FillPage(o, c, off, remaining);
    var rest := LoadFrom(o, s.c, n - 1, 0, s.remaining);
    if rest.Pages? { assert ([s.page] + rest.pages)[1..] == rest.pages; }
    var right := RightFrom(o.data, ph, addr, n);
    assert right[1..] == RightFrom(o.data, ph, addr + PAGE, n - 1);
  }

  /** The read of a page that overruns the buffer. */
  lemma Overruns(o: Opened, c: Cursor, off: nat, remaining: int, k: nat)
    requires InFile(o, c) && PageBuffer(o) && remaining > 0
    requires Count(remaining, off) == k <= PAGE && c.pos + k <= |o.data|
    requires BlockOffset(c.pos, o.bs) + k > PAGE
    ensures FillPage(o, c, off, remaining).Failed?
  {
    hide BlockOffset, Reads;
    ExactRead(o, c, k);
  }

  /** The first byte of a read in a stale block comes from another. */
  lemma StaleByte(o: Opened, c: Cursor, off: nat, remaining: int, ph: Phdr, addr: nat, end: nat)
    requires InFile(o, c) && Described(ph, |o.data|) && remaining > 0 && !Fresh(c, o.bs)
    requires end == Stop(|o.data|, o.bufsize, c.pos, Count(remaining, off)) && c.pos < end <= |o.data| && off < PAGE
    requires c.pos == ph.offset + Done(ph, addr) && Done(ph, addr) < ph.filesz
    requires addr + off == ph.vaddr + Done(ph, addr)
    requires o.data == Single(|o.data|, c.pos)
    ensures var s := FillPage(o, c, off, remaining); s.Failed? || s.page != SegPage(o.data, ph, addr)
  {
    var s := FillPage(o, c, off, remaining);
    if s.Filled? {
      FirstBelow(o, c);
      var first := First(c, o.bs);
      hide BlockIndex, BlockOffset, DiskTree.Cap;
      ShiftDown(o.bs, first, c.pos);
      var got := Picked(o.data, o.bs, first, c.pos, end);
      assert Reads(o, c, Count(remaining, off)) == Bytes(got);
      assert got[0] == o.data[Source(o.bs, first, c.pos, c.pos + 0)] == 0;
      assert s.page[off] == got[0];
      assert SegPage(o.data, ph, addr)[off] == SegByte(o.data, ph, addr + off) == o.data[c.pos] == 1;
    }
  }

  function Ones(n: nat): (d: seq<Byte>)
    ensures |d| == n && forall i :: 0 <= i < n ==> d[i] == 1
  {
    seq(n, _ => 1)
  }

  /** A page that gets more or fewer of the file's bytes than belong there. */
  lemma WrongAmount(o: Opened, c: Cursor, ph: Phdr, remaining: int, end: nat)
    requires InFile(o, c) && Described(ph, |o.data|) && remaining > 0
    requires c.pos == ph.offset && o.data == Ones(|o.data|)
    requires var off := ph.vaddr % PAGE;
      end == Stop(|o.data|, o.bufsize, c.pos, Count(remaining, off)) && c.pos <= end <= |o.data|
    requires var off, len := ph.vaddr % PAGE, end - c.pos;
      len != ph.filesz < PAGE && off + len < PAGE + (if len > ph.filesz then 1 else 0)
    ensures var s := FillPage(o, c, ph.vaddr % PAGE, remaining);
      s.Failed? || s.page != SegPage(o.data, ph, Down(ph.vaddr))
  {
    hide BlockIndex, BlockOffset, Picked, PageWith, SegPage, Count, Stop, FillPage;
    var off, a := ph.vaddr % PAGE, Down(ph.vaddr);
    var s := FillPage(o, c, off, remaining);
    if s.Filled? {
      FilledWith(o, c, off, remaining);
      var got := Picked(o.data, o.bs, First(c, o.bs), c.pos, end);
      AllOnes(o.data, o.bs, First(c, o.bs), c.pos, end);
      if |got| < ph.filesz { TooFew(o.data, ph, got); } else { TooMany(o.data, ph, got); }
    }
  }

  lemma FilledWith(o: Opened, c: Cursor, off: nat, remaining: int)
    requires InFile(o, c) && remaining > 0 && FillPage(o, c, off, remaining).Filled?
    ensures var end := Stop(|o.data|, o.bufsize, c.pos, Count(remaining, off));
      && end <= |o.data| && off + (end - c.pos) <= PAGE && First(c, o.bs) <= BlockIndex(c.pos, o.bs)
      && FillPage(o, c, off, remaining).page == PageWith(off, Picked(o.data, o.bs, First(c, o.bs), c.pos, end))
  {
    hide BlockIndex, BlockOffset, Picked, PageWith, Count, Stop;
    FirstBelow(o, c);
  }

  lemma AllOnes(data: seq<Byte>, bs: nat, first: nat, pos: nat, end: nat)
    requires bs > 0 && pos <= end <= |data| && first <= BlockIndex(pos, bs) && data == Ones(|data|)
    ensures Picked(data, bs, first, pos, end) == Ones(end - pos)
  {
    hide BlockIndex, Source;
    forall i | 0 <= i < end - pos ensures Picked(data, bs, first, pos, end)[i] == 1 {
      assert Ones(|data|)[Source(bs, first, pos, pos + i)] == 1;
    }
  }

  lemma TooFew(data: seq<Byte>, ph: Phdr, got: seq<Byte>)
    requires Described(ph, |data|) && data == Ones(|data|) && |got| < ph.filesz && ph.vaddr % PAGE + |got| < PAGE
    ensures PageWith(ph.vaddr % PAGE, got) != SegPage(data, ph, Down(ph.vaddr))
  {
    var k := ph.vaddr % PAGE + |got|;
    assert PageWith(ph.vaddr % PAGE, got)[k] == 0;
    assert SegPage(data, ph, Down(ph.vaddr))[k] == SegByte(data, ph, Down(ph.vaddr) + k) == 1;
  }

  lemma TooMany(data: seq<Byte>, ph: Phdr, got: seq<Byte>)
    requires Described(ph, |data|) && got == Ones(|got|) && ph.filesz < |got| && ph.vaddr % PAGE + |got| <= PAGE
    ensures PageWith(ph.vaddr % PAGE, got) != SegPage(data, ph, Down(ph.vaddr))
  {
    var k := ph.vaddr % PAGE + ph.filesz;
    assert PageWith(ph.vaddr % PAGE, got)[k] == got[ph.filesz] == 1;
    assert SegPage(data, ph, Down(ph.vaddr))[k] == SegByte(data, ph, Down(ph.vaddr) + k) == 0;
  }

  /** A segment that is not loadable is loaded wrong for some file. */
  lemma UnsoundFails(size: nat, bs: nat, maxRead: nat, c: Cursor, ph: Phdr) returns (data: seq<Byte>)
    requires Described(ph, size) && PageBuffer(Opened(Zeros(size), bs, PAGE, maxRead))
    requires InFile(Opened(Zeros(size), bs, PAGE, maxRead), c)
    requires !Loadable(size, bs, c, ph)
    ensures |data| == size && InFile(Opened(data, bs, PAGE, maxRead), c)
    ensures Loads(Opened(data, bs, PAGE, maxRead), c, ph) != Pages(Right(data, ph))
  {
    var c0, off, f := c.(pos := ph.offset), ph.vaddr % PAGE, ph.filesz;
    TwoPages(ph);
    if off == 0 || f >= PAGE {
      data := UnsoundLong(size, bs, maxRead, c0, ph);
    } else {
      data := UnsoundShort(size, bs, maxRead, c0, ph);
    }
  }

  lemma UnsoundLong(size: nat, bs: nat, maxRead: nat, c: Cursor, ph: Phdr) returns (data: seq<Byte>)
    requires Described(ph, size) && PageBuffer(Opened(Zeros(size), bs, PAGE, maxRead))
    requires InFile(Opened(Zeros(size), bs, PAGE, maxRead), c)
    requires !Loadable(size, bs, c, ph) && c.pos == ph.offset && PageCount(ph) > 0
    requires (ph.vaddr % PAGE > 0 ==> PageCount(ph) > 1)
    requires ph.vaddr % PAGE == 0 || ph.filesz >= PAGE
    ensures |data| == size && InFile(Opened(data, bs, PAGE, maxRead), c)
    ensures LoadFrom(Opened(data, bs, PAGE, maxRead), c, PageCount(ph), ph.vaddr % PAGE,
      ph.filesz) != Pages(Right(data, ph))
  {
    hide BlockOffset, BlockIndex, DivCeil, Reads, After, SegPage, FillPage, PageCount, Fresh, Touch;
    var off, f, n, a := ph.vaddr % PAGE, ph.filesz, PageCount(ph), Down(ph.vaddr);
    var first := if f < PAGE - off then f else PAGE - off;
    assert c.(pos := ph.offset) == c;
    assert Count(f, off) == first;
    if BlockOffset(c.pos, bs) + first > PAGE || !Fresh(c, bs) {
      data := Single(size, c.pos);
      var o := Opened(data, bs, PAGE, maxRead);
      ExactRead(o, c, first);
      if BlockOffset(c.pos, bs) + first > PAGE {
        Overruns(o, c, off, f, first);
      } else {
        StaleByte(o, c, off, f, ph, a, c.pos + first);
      }
      WrongFirst(o, c, n, off, f, ph, a);
    } else {
      var pos, rest := ph.offset + first, f - first;
      var k := if rest < PAGE then rest else PAGE;
      data := Single(size, pos);
      var o := Opened(data, bs, PAGE, maxRead);
      LoadsFirst(o, c, ph, n);
      FreshAfter(o, c, first);
      LaterBlock(bs, ph.offset, pos);
      var c1 := Touch(o, c, pos);
      assert Count(rest, 0) == k;
      ExactRead(o, c1, k);
      if BlockOffset(pos, bs) + k > PAGE {
        Overruns(o, c1, 0, rest, k);
      } else {
        StaleByte(o, c1, 0, rest, ph, a + PAGE, pos + k);
      }
      WrongFirst(o, c1, n - 1, 0, rest, ph, a + PAGE);
      WrongSecond(o, c, n, off, f, ph, a);
    }
  }

  lemma UnsoundShort(size: nat, bs: nat, maxRead: nat, c: Cursor, ph: Phdr) returns (data: seq<Byte>)
    requires Described(ph, size) && PageBuffer(Opened(Zeros(size), bs, PAGE, maxRead))
    requires InFile(Opened(Zeros(size), bs, PAGE, maxRead), c)
    requires !Loadable(size, bs, c, ph) && c.pos == ph.offset && PageCount(ph) > 0
    requires 0 < ph.filesz < PAGE && ph.vaddr % PAGE > 0
    ensures |data| == size && InFile(Opened(data, bs, PAGE, maxRead), c)
    ensures LoadFrom(Opened(data, bs, PAGE, maxRead), c, PageCount(ph), ph.vaddr % PAGE,
      ph.filesz) != Pages(Right(data, ph))
  {
    hide BlockOffset, BlockIndex, DivCeil, SegPage, FillPage, PageCount, Fresh, Touch, Reads, After;
    var off, f, n, a := ph.vaddr % PAGE, ph.filesz, PageCount(ph), Down(ph.vaddr);
    assert c.(pos := ph.offset) == c;
    var k := Count(f, off);
    var end := Stop(size, PAGE, c.pos, k);
    if off <= f {
      assert k == f - off && end == c.pos + k;
      data := Ones(size);
      WrongAmount(Opened(data, bs, PAGE, maxRead), c, ph, f, end);
    } else {
      assert k == U32 + f - off;
      if end > size || off + (end - c.pos) > PAGE {
        data := Ones(size);
        Leaves(Opened(data, bs, PAGE, maxRead), c, off, f);
      } else if end - c.pos != f {
        data := Ones(size);
        WrongAmount(Opened(data, bs, PAGE, maxRead), c, ph, f, end);
      } else {
        data := Single(size, c.pos);
        StaleByte(Opened(data, bs, PAGE, maxRead), c, off, f, ph, a, end);
      }
    }
    WrongFirst(Opened(data, bs, PAGE, maxRead), c, n, off, f, ph, a);
  }

  /** A read past the end of the file, or a copy past the end of the page. */
  lemma Leaves(o: Opened, c: Cursor, off: nat, remaining: int)
    requires InFile(o, c) && remaining > 0
    requires var end := Stop(|o.data|, o.bufsize, c.pos, Count(remaining, off));
      end > |o.data| || off + (end - c.pos) > PAGE
    ensures FillPage(o, c, off, remaining).Failed?
  {
    hide BlockOffset, BlockIndex, Picked;
  }

  /** For kmain's buffer of one page: whatever the file holds, the pages of a segment are right exactly when it is
      loadable. */
  lemma LoadExact(size: nat, bs: nat, maxRead: nat, c: Cursor, ph: Phdr)
    requires Described(ph, size) && PageBuffer(Opened(Zeros(size), bs, PAGE, maxRead))
    requires InFile(Opened(Zeros(size), bs, PAGE, maxRead), c)
    ensures AlwaysRight(size, bs, maxRead, c, ph) <==> Loadable(size, bs, c, ph)
  {
    hide Loads, Right, Loadable;
    if Loadable(size, bs, c, ph) {
      forall data: seq<Byte> | |data| == size ensures Loads(Opened(data, bs, PAGE, maxRead), c,
          ph) == Pages(Right(data, ph)) {
        SoundLoads(Opened(data, bs, PAGE, maxRead), c, ph);
      }
    } else {
      var data := UnsoundFails(size, bs, maxRead, c, ph);
    }
  }

  // ---- segments that are loaded wrong -------------------------------------------------------------

  /** What a segment gets that begins within a page and has less than a page of file bytes: as many bytes as the
      offset in the page are missing at its end, and appear at the start of the next page, if it has one. */
  lemma ShortMisplaced(o: Opened, c: Cursor, ph: Phdr)
    requires InFile(o, c) && PageBuffer(o) && Described(ph, |o.data|) && Fresh(c.(pos := ph.offset), o.bs)
    requires 0 < ph.vaddr % PAGE < ph.filesz < PAGE && BlockOffset(ph.offset, o.bs) + ph.filesz < o.bs
    ensures var off, f, at := ph.vaddr % PAGE, ph.filesz, ph.offset;
      && Loads(o, c, ph).Pages? && PageCount(ph) > 0
      && Loads(o, c, ph).pages[0] == PageWith(off, o.data[at..at + (f - off)])
      && (PageCount(ph) > 1 ==> Loads(o, c, ph).pages[1] == PageWith(0, o.data[at + (f - off)..at + f]))
  {
    hide BlockOffset, BlockIndex, DivCeil, SegPage, PageWith, Touch, Fresh, PageCount, FillPage, LoadFrom;
    var off, f, at, n := ph.vaddr % PAGE, ph.filesz, ph.offset, PageCount(ph);
    TwoPages(ph);
    var c0 := AtSegment(o, c, ph);
    assert c0 == c.(pos := at);
    var k := f - off;
    Further(o.bs, at, k, off);
    ReadPart(o, c0, off, f, k);
    FreshAfter(o, c0, k);
    LaterBlock(o.bs, at, at + k);
    var c1 := Touch(o, c0, at + k);
    ReadPart(o, c1, 0, off, off);
    if n > 1 {
      NothingLeft(o, Touch(o, c1, at + f), n - 2);
      LoadOne(o, c1, n - 1, 0, off);
    } else {
      LoadNone(o, c1, off);
    }
    LoadOne(o, c0, n, off, f);
  }

  lemma LoadNone(o: Opened, c: Cursor, remaining: int)
    requires InFile(o, c)
    ensures LoadFrom(o, c, 0, 0, remaining) == Pages([])
  {
  }

  lemma LoadOne(o: Opened, c: Cursor, n: nat, off: nat, remaining: int)
    requires InFile(o, c) && n > 0 && FillPage(o, c, off, remaining).Filled?
    requires var s := FillPage(o, c, off, remaining); LoadFrom(o, s.c, n - 1, 0, s.remaining).Pages?
    ensures var s := FillPage(o, c, off, remaining);
      LoadFrom(o, c, n, off, remaining) == Pages([s.page] + LoadFrom(o, s.c, n - 1, 0, s.remaining).pages)
  {
    hide FillPage;
  }

  /** A read that brings `k` bytes into a page. */
  lemma ReadPart(o: Opened, c: Cursor, off: nat, remaining: int, k: nat)
    requires InFile(o, c) && PageBuffer(o) && remaining > 0
    requires Count(remaining, off) == k && off + k <= PAGE
    requires Fresh(c, o.bs) && c.pos + k <= |o.data| && BlockOffset(c.pos, o.bs) + k <= PAGE
    ensures FillPage(o, c, off, remaining) == Filled(PageWith(off, o.data[c.pos..c.pos + k]), Touch(o, c, c.pos + k),
      remaining - k)
  {
    hide BlockOffset, BlockIndex, DivCeil, Picked, Reads, After, PageWith, Touch;
    ExactRead(o, c, k);
    PickedWhen(o, c, k);
  }

  lemma Further(bs: nat, at: nat, k: nat, off: nat)
    requires 0 < bs <= PAGE && BlockOffset(at, bs) + k + off < bs
    ensures BlockOffset(at, bs) + k < bs && BlockOffset(at + k, bs) + off <= PAGE
  {
    Parts(at, bs);
    DivUnique(at + k, bs, BlockIndex(at, bs), BlockOffset(at, bs) + k);
  }

  lemma {:induction false} NothingLeft(o: Opened, c: Cursor, n: nat)
    requires InFile(o, c)
    ensures LoadFrom(o, c, n, 0, 0).Pages?
  {
    if n > 0 { NothingLeft(o, c, n - 1); }
  }

  /** 32 bytes for address 0x40_1010: the page gets the first 16 of them, and zeros where the others belong. */
  lemma ShortExample(o: Opened, c: Cursor)
    requires InFile(o, c) && PageBuffer(o) && o.bs == PAGE
    requires |o.data| >= 0x2000 && Fresh(c.(pos := 0x1010), o.bs)
    ensures Loads(o, c, Phdr(1, 0x1010, 0x40_1010, 32, 32)) == Pages([PageWith(16, o.data[0x1010..0x1020])])
  {
    var ph := Phdr(1, 0x1010, 0x40_1010, 32, 32);
    ShortMisplaced(o, c, ph);
    assert PageCount(ph) == 1;
    var pages := Loads(o, c, ph).pages;
    assert pages == [pages[0]];
  }

  /** Two pages at file offset 100, which is not on a block boundary: the first read overruns the buffer. */
  lemma IncongruentExample(o: Opened, c: Cursor)
    requires InFile(o, c) && PageBuffer(o) && |o.data| >= 0x3000 && o.bs >= 1024
    ensures Loads(o, c, Phdr(1, 100, 0x40_0000, 0x2000, 0x2000)) == Overran
  {
    var ph := Phdr(1, 100, 0x40_0000, 0x2000, 0x2000);
    assert PageCount(ph) == 2;
    var c0 := AtSegment(o, c, ph);
    DivUnique(100, o.bs, 0, 100);
    ExactRead(o, c0, PAGE);
  }

  /** 8 bytes for an address 16 bytes into a page: the count wraps around, and the copy leaves the page. */
  lemma WrapExample(o: Opened, c: Cursor)
    requires InFile(o, c) && PageBuffer(o) && |o.data| >= 0x3000
    ensures Loads(o, c, Phdr(1, 0x1010, 0x40_1010, 8, 8)) == Overran
  {
    hide BlockOffset, BlockIndex, Picked;
    var ph := Phdr(1, 0x1010, 0x40_1010, 8, 8);
    assert PageCount(ph) == 1;
    var c0 := AtSegment(o, c, ph);
    assert Count(8, 16) == U32 - 8;
    assert Stop(|o.data|, PAGE, 0x1010, U32 - 8) == 0x1010 + PAGE;
  }
}
