/** The caching file reader (kernel/common/bsfs/bsfs.c:92-251). */
module Reader {
  import opened Division
  import opened Layout
  import opened DiskFormat
  import opened Checksum
  import opened DiskTree
  import opened ImageBytes
  import opened Metadata
  import opened Populate
  import opened Cursors
  import opened Extract
  import opened Resolve

  // ---- bytes of a run of blocks -------------------------------------------------------------------

  lemma {:induction false} ReadBytesConcat(img: Image, bs: nat, a: seq<nat>, b: seq<nat>)
    ensures ReadBytes(img, bs, a + b) == ReadBytes(img, bs, a) + ReadBytes(img, bs, b)
    decreases |b|
  {
    hide ReadBytes, DiskTree.At;
    if b == [] {
      assert a + b == a && ReadBytes(img, bs, b) == [];
    } else {
      var front, last := b[..|b| - 1], b[|b| - 1];
      assert b == front + [last] && a + b == (a + front) + [last];
      ReadBytesConcat(img, bs, a, front);
      ReadBytesSnoc(img, bs, front, last);
      ReadBytesSnoc(img, bs, a + front, last);
    }
  }

  lemma ReadBytesSnoc(img: Image, bs: nat, a: seq<nat>, x: nat)
    ensures ReadBytes(img, bs, a + [x]) == ReadBytes(img, bs, a) + DiskTree.At(img, x, bs)
  {
    assert (a + [x])[..|a|] == a;
  }

  /** Blocks `s` to `e` of a run hold bytes `Cap(bs, s)` to `Cap(bs, e)` of it. */
  lemma Window(img: Image, bs: nat, ptrs: seq<nat>, s: nat, e: nat)
    requires s <= e <= |ptrs|
    ensures Cap(bs, s) <= Cap(bs, e) <= |ReadBytes(img, bs, ptrs)|
    ensures ReadBytes(img, bs, ptrs)[Cap(bs, s)..Cap(bs, e)] == ReadBytes(img, bs, ptrs[s..e])
  {
    assert ptrs == ptrs[..s] + ptrs[s..e] + ptrs[e..] && ptrs[..s] + ptrs[s..e] == ptrs[..e];
    ReadBytesConcat(img, bs, ptrs[..e], ptrs[e..]);
    ReadBytesConcat(img, bs, ptrs[..s], ptrs[s..e]);
    Lengths(img, bs, ptrs, s, e);
    hide ReadBytes, Cap;
    var a, b, c := ReadBytes(img, bs, ptrs[..s]), ReadBytes(img, bs, ptrs[s..e]), ReadBytes(img, bs, ptrs[e..]);
    assert (a + b + c)[|a|..|a + b|] == b;
  }

  lemma Lengths(img: Image, bs: nat, ptrs: seq<nat>, s: nat, e: nat)
    requires s <= e <= |ptrs|
    ensures |ReadBytes(img, bs, ptrs[..s])| == Cap(bs, s) && |ReadBytes(img, bs, ptrs[..e])| == Cap(bs, e)
  {
  }

  /** A slice of a file cut out of the blocks that hold it. */
  lemma Slice(img: Image, bs: nat, ptrs: seq<nat>, s: nat, e: nat, buf: seq<Byte>, start: nat, end: nat)
    requires s <= e <= |ptrs| && Cap(bs, e - s) <= |buf| && buf[..Cap(bs, e - s)] == ReadBytes(img, bs, ptrs[s..e])
    requires Cap(bs, s) <= start <= end <= Cap(bs, e)
    ensures end <= |ReadBytes(img, bs, ptrs)| && Cap(bs, s) <= start && end - Cap(bs, s) <= |buf|
    ensures buf[start - Cap(bs, s)..end - Cap(bs, s)] == ReadBytes(img, bs, ptrs)[start..end]
  {
    hide ReadBytes, Cap;
    Window(img, bs, ptrs, s, e);
    CapMinus(bs, s, e);
    CutOut(buf, ReadBytes(img, bs, ptrs), Cap(bs, s), Cap(bs, e - s), start, end);
  }

  lemma CutOut(buf: seq<Byte>, all: seq<Byte>, c: nat, w: nat, start: nat, end: nat)
    requires w <= |buf| && c + w <= |all| && buf[..w] == all[c..c + w] && c <= start <= end <= c + w
    ensures buf[start - c..end - c] == all[start..end]
  {
    forall x | start <= x < end ensures buf[x - c] == all[x] {
      assert buf[..w][x - c] == all[c..c + w][x - c];
    }
  }

  lemma CapMinus(bs: nat, s: nat, e: nat)
    requires s <= e
    ensures Cap(bs, e - s) == Cap(bs, e) - Cap(bs, s)
  {
    assert bs * (e - s) == bs * e - bs * s;
  }

  // ---- where a read begins and ends ---------------------------------------------------------------

  /** The blocks of a read: those from `pos / bs` up to the one of the last byte. */
  lemma Blocks(bs: nat, pos: nat, end: nat, size: nat, n: nat)
    requires bs > 0 && pos <= end <= size && Enough(size, bs, n)
    ensures var s, e, off := BlockIndex(pos, bs), DivCeil(end, bs), BlockOffset(pos, bs);
      && s <= e <= n && Cap(bs, s) <= pos && pos - Cap(bs, s) == off && end <= Cap(bs, e)
      && Cap(bs, e - s) < off + (end - pos) + bs && off < bs
  {
    var s, e := BlockIndex(pos, bs), DivCeil(end, bs);
    CeilBounds(end, bs);
    Parts(pos, bs);
    EndWithin(bs, end, size, n);
    hide BlockIndex, BlockOffset, DivCeil, Enough;
    if e < s { MulStep(s, e, bs); }
    CapMinus(bs, s, e);
  }

  lemma EndWithin(bs: nat, end: nat, size: nat, n: nat)
    requires bs > 0 && end <= size && Enough(size, bs, n)
    ensures DivCeil(end, bs) <= n
  {
    CeilBounds(end, bs);
    var e := DivCeil(end, bs);
    if e - 1 > n { MulStep(e - 1, n, bs); }
  }

  // ---- an open file -------------------------------------------------------------------------------

  /** `Failed`: a read is longer than the longest. `Undefined`: a read writes past the buffer or reads past the end. */
  datatype Verdict = Accepted | Rejected | Failed | Undefined

  /** What an open file is on disk. */
  ghost predicate OnDisk(img: Image, bs: nat, ino: Inode, data: seq<Byte>, own: set<nat>, ptrs: seq<nat>) {
    0 < bs < U32 && FileBlocks(img, bs, ino, data, own, ptrs) && ino.size == |data| < U32
  }

  /** The blocks are read by their sectors, which the image has. */
  ghost predicate InSectors(img: Image, c: Context, bs: nat, own: set<nat>) {
    Sectored(img, c) && c.header.blockSize == bs && forall b :: b in own ==> b < |img|
  }

  lemma SectorsHold(img: Image, c: Context, bs: nat, own: set<nat>, b: nat)
    requires InSectors(img, c, bs, own) && b in own
    ensures c.sector > 0 && c.header.blockSize == bs > 0 && BlockAt(img, c, b) == Got(DiskTree.At(img, b, bs))
  {
    hide BlockAt, DiskTree.At;
    BlockAtExact(img, c, b);
  }

  class BsfsFile {
    const img: Image
    const context: Context
    const bs: nat
    const maxRead: nat   // DISK_READ_MAX_BLOCKS sectors
    const bufsize: nat
    const ino: Inode
    ghost const data: seq<Byte>
    ghost const own: set<nat>
    ghost const ptrs: seq<nat>

    var position: nat
    var eof: bool
    var buf: seq<Byte>
    var cached: nat      // the block read last
    var table: seq<nat>
    var cachedL1: nat
    ghost var lead: nat  // the block at the front of `buf`

    ghost predicate Open()
      reads `buf, `cachedL1, `table
    {
      && OnDisk(img, bs, ino, data, own, ptrs) && bufsize >= bs && bufsize % bs == 0 && |buf| == bufsize
      && InSectors(img, context, bs, own)
      && (cachedL1 != NOWHERE ==> cachedL1 == ino.l1 && table == Indirect(img, bs, ino))
    }

    ghost predicate Valid()
      reads this
    {
      Open() && Front() && position <= |data| && |data| + bufsize < U32
      && (eof ==> position == |data|) && (position == |data| > 0 ==> eof)
    }

    /** The file as its reader sees it. */
    ghost function Spec(): Opened {
      Opened(data, bs, bufsize, maxRead)
    }

    ghost function At(): Cursor
      reads `position, `cached, `lead
    {
      Cursor(position, cached, lead)
    }

    /** The front of the buffer holds block `lead`. */
    ghost predicate Front()
      reads `cached, `lead, `buf
    {
      cached != NOWHERE ==> lead <= cached < |ptrs| && bs <= |buf| && buf[..bs] == DiskTree.At(img, ptrs[lead], bs)
    }

    /** The position and caches after bsfs_fopen. */
    constructor (img: Image, context: Context, maxRead: nat, bufsize: nat, ino: Inode, ghost data: seq<Byte>,
                 ghost own: set<nat>, ghost ptrs: seq<nat>)
      requires var bs := context.header.blockSize;
        && OnDisk(img, bs, ino, data, own, ptrs) && InSectors(img, context, bs, own) && bufsize >= bs
        && bufsize % bs == 0 && |data| + bufsize < U32
      ensures Valid() && this.img == img && this.bs == context.header.blockSize
      ensures this.maxRead == maxRead && this.bufsize == bufsize && this.ino == ino
      ensures this.data == data && this.ptrs == ptrs
      ensures position == 0 && !eof && cached == NOWHERE
    {
      hide OnDisk, InSectors;
      this.img, this.context, this.bs := img, context, context.header.blockSize;
      this.maxRead, this.bufsize, this.ino := maxRead, bufsize, ino;
      this.data, this.own, this.ptrs := data, own, ptrs;
      position, eof, cached, cachedL1 := 0, false, NOWHERE, NOWHERE;
      buf, table, lead := Zeros(bufsize), [], 0;
    }

    /** One block is read to offset `at` of the buffer, through the table of indirect blocks where need be. */
    method Load(i: nat, at: nat)
      requires Open() && i < |ptrs| && at + bs <= bufsize
      modifies `buf, `cached, `cachedL1, `table
      ensures Open() && cached == i && buf == old(buf)[..at] + DiskTree.At(img, ptrs[i], bs) + old(buf)[at + bs..]
      ensures cachedL1 == if i < DIRECT then old(cachedL1) else ino.l1
    {
      hide OnDisk, DiskTree.At, InSectors, BlockAt, ReadTable;
      Pointers(img, bs, ino, data, own, ptrs, i);
      SectorsHold(img, context, bs, own, ptrs[i]);
      var b;
      if i < DIRECT {
        b := ino.direct[i];
      } else {
        if cachedL1 == NOWHERE {
          SectorsHold(img, context, bs, own, ino.l1);
          table := ReadTable(BlockAt(img, context, ino.l1).value, bs / 4);
          cachedL1 := ino.l1;
        }
        b := table[i - DIRECT];
      }
      buf := buf[..at] + BlockAt(img, context, b).value + buf[at + bs..];
      cached := i;
    }

    /** The block loop of bsfs_fread; it passes over block `s` when that is the cached one. */
    method Fill(s: nat, e: nat)
      requires Open() && Front() && s < e <= |ptrs| && Cap(bs, e - s) <= bufsize
      modifies `buf, `cached, `cachedL1, `table, `lead
      ensures Open() && Front() && cached == e - 1
      ensures lead == (if old(cached) == s then old(lead) else s) && lead < |ptrs|
      ensures buf[..Cap(bs, e - s)] == ReadBytes(img, bs, ptrs[s := ptrs[lead]][s..e])
    {
      hide OnDisk, DiskTree.At, Indirect, ReadBytes, Cap;
      FewBlocks(img, bs, ino, data, own, ptrs);
      ghost var first := if cached == s then lead else s;
      ghost var run := ptrs[s := ptrs[first]];
      var at: nat := 0;
      NoBytes(img, bs, run, s);
      for i := s to e
        invariant Open() && at == Cap(bs, i - s) <= bufsize && buf[..at] == ReadBytes(img, bs, run[s..i])
        invariant if i == s then cached == old(cached) && lead == old(lead) && buf == old(buf)
          else cached == i - 1 && lead == first && buf[..bs] == DiskTree.At(img, ptrs[first], bs)
      {
        CapNext(bs, i - s);
        CapMore(bs, i + 1 - s, e - s);
        assert run[s..i + 1] == run[s..i] + [run[i]];
        ReadBytesSnoc(img, bs, run[s..i], run[i]);
        if i != cached {
          ghost var before := buf;
          Load(i, at);
          assert buf[..at + bs] == before[..at] + DiskTree.At(img, ptrs[i], bs);
          if i > s { FrontKept(before, buf, bs, at, i - s); }
        }
        lead := first;
        at := at + bs;
      }
    }

    /** bsfs_fread. A read whose blocks do not fit the buffer, or that goes past the end of the file, is refused here;
        the source goes on with it. */
    method Fread(n: nat) returns (r: ReadResult)
      requires Valid() && n < U32
      modifies this
      ensures Valid() && InFile(Spec(), old(At())) && r == Reads(Spec(), old(At()), n)
      ensures At() == After(Spec(), old(At()), n)
      ensures eof == if r.Bytes? then position == |data| else old(eof)
    {
      hide OnDisk, DiskTree.At, Indirect, ReadBytes, Cap, DivCeil, Open, Front, Picked, BlockIndex, BlockOffset,
           Enough, Stop32;
      Sizes();
      CursorFits();
      ghost var c := At();
      var start := position;
      var end := Stop32(ino.size, bufsize, start, n);
      StopExact(ino.size, bufsize, start, n);
      var total := end - start;
      if total > maxRead {
        return SizeTooBig;
      }
      if end > ino.size {
        return PastEnd;
      }
      var s, e, off := BlockIndex(start, bs), DivCeil(end, bs), BlockOffset(start, bs);
      OverrunExact(bs, bufsize, start, end);
      if Cap(bs, e - s) > bufsize {
        return Overrun;
      }
      FewBlocks(img, bs, ino, data, own, ptrs);
      Blocks(bs, start, end, |data|, |ptrs|);
      FirstBelow(Spec(), c);
      if s < e {
        Fill(s, e);
        Sizes();
        Brought(img, bs, ino, data, own, ptrs, start, end, buf, lead);
      }
      Sizes();
      r := Bytes(buf[off..off + total]);
      position := end;
      eof := position >= ino.size;
    }

    /** bsfs_fseeko, with the wrap-around of unsigned offsets. */
    method Fseeko(offset: nat, whence: Whence)
      requires Valid() && offset < U64
      modifies `position, `eof
      ensures Valid() && position == Sought(|data|, old(position), offset, whence) && eof == (position == |data|)
    {
      hide OnDisk, Front;
      Sizes();
      match whence {
        case Cur => position := (position + offset) % U64;
        case Set => position := offset;
        case FromEnd => position := (ino.size - offset) % U64;
      }
      if position >= ino.size {
        position := ino.size;
        eof := true;
      } else {
        eof := false;
      }
    }

    /** Every sequence of seeks and reads, up to the first read that is refused. */
    method Run(ops: seq<Op>) returns (rs: seq<ReadResult>)
      requires Valid() && InRange(ops)
      modifies this
      ensures Valid() && InFile(Spec(), old(At())) && rs == Results(Spec(), old(At()), ops)
    {
      hide Valid, Reads, After, Sought;
      CursorFits();
      rs := [];
      for i := 0 to |ops|
        invariant Valid() && InFile(Spec(), At())
        invariant rs + Results(Spec(), At(), ops[i..]) == Results(Spec(), old(At()), ops)
      {
        assert ops[i..][0] == ops[i] && ops[i..][1..] == ops[i + 1..];
        ghost var c := At();
        match ops[i] {
          case Seek(offset, whence) =>
            Fseeko(offset, whence);
            assert At() == c.(pos := Sought(|data|, c.pos, offset, whence));
          case Read(n) =>
            var r := Fread(n);
            rs := rs + [r];
            if Broken(r) {
              return;
            }
        }
      }
    }

    /** bsfs_verify_checksum, with reads of any length for which it ends (`Cursors.EndsExact`). */
    method VerifyChecksum(n: nat) returns (v: Verdict)
      requires Valid() && n < U32 && (n > 0 || position == |data|)
      modifies this
      ensures Valid() && InFile(Spec(), old(At()))
      ensures v == Judged(Drained(Spec(), old(At()), n), ino.checksum)
    {
      hide Valid, Reads, After, Fed, Finalize, Drained;
      CursorFits();
      ghost var whole := Drained(Spec(), At(), n);
      ghost var got: seq<Byte> := [];
      var checksum := START;
      FedNone(START);
      Positive();
      OntoNone(whole);
      while !eof
        invariant Valid() && InFile(Spec(), At()) && (eof ==> position == |data|) && checksum == Fed(START, got)
        invariant n > 0 || position == |data|
        invariant whole == Onto(got, Drained(Spec(), At(), n))
        decreases |data| - position, !eof
      {
        ghost var c := At();
        Positive();
        DrainStep(Spec(), c, n);
        var r := Fread(n);
        if r.SizeTooBig? {
          return Failed;
        }
        if Broken(r) {
          return Undefined;
        }
        checksum := Update(checksum, r.out);
        FedSplit(START, got, r.out);
        OntoTwice(got, r.out, Drained(Spec(), At(), n));
        got := got + r.out;
        Positive();
      }
      DrainEnd(Spec(), At(), n);
      assert got + [] == got;
      checksum := Finalize(checksum);
      v := if checksum != ino.checksum then Rejected else Accepted;
    }

    lemma CursorFits()
      requires Valid()
      ensures InFile(Spec(), At()) && ino.size == |data|
    {
      FewBlocks(img, bs, ino, data, own, ptrs);
    }

    lemma Positive()
      requires Valid()
      ensures (eof ==> position == |data|) && (position == |data| > 0 ==> eof)
    {
    }

    lemma Sizes()
      requires Open()
      ensures OnDisk(img, bs, ino, data, own, ptrs) && ino.size == |data| && |buf| == bufsize >= bs
      ensures bufsize % bs == 0 && |ptrs| < NOWHERE
    {
      FewBlocks(img, bs, ino, data, own, ptrs);
    }
  }

  function Indirect(img: Image, bs: nat, ino: Inode): (r: seq<nat>)
    ensures |r| == bs / 4
  {
    if bs % 4 == 0 then ReadTable(DiskTree.At(img, ino.l1, bs), bs / 4) else NoPtrs(bs / 4)
  }

  lemma Pointers(img: Image, bs: nat, ino: Inode, data: seq<Byte>, own: set<nat>, ptrs: seq<nat>, i: nat)
    requires OnDisk(img, bs, ino, data, own, ptrs) && i < |ptrs|
    ensures |ino.direct| == DIRECT && (i < DIRECT ==> ino.direct[i] == ptrs[i])
    ensures i >= DIRECT ==> i - DIRECT < bs / 4 && Indirect(img, bs, ino)[i - DIRECT] == ptrs[i]
    ensures ptrs[i] in own && (i >= DIRECT ==> ino.l1 in own && bs % 4 == 0)
  {
    hide ReadBytes, ReadTable, Cap;
    assert ptrs[i] in ptrs;
  }

  lemma FewBlocks(img: Image, bs: nat, ino: Inode, data: seq<Byte>, own: set<nat>, ptrs: seq<nat>)
    requires OnDisk(img, bs, ino, data, own, ptrs)
    ensures |ptrs| < NOWHERE && Enough(|data|, bs, |ptrs|) && 0 < bs
    ensures ino.size == |data| && |data| <= |ReadBytes(img, bs, ptrs)| && ReadBytes(img, bs, ptrs)[..|data|] == data
  {
  }

  lemma NoBytes(img: Image, bs: nat, run: seq<nat>, s: nat)
    requires s <= |run|
    ensures Cap(bs, 0) == 0 && ReadBytes(img, bs, run[s..s]) == []
  {
  }

  lemma FrontKept(before: seq<Byte>, after: seq<Byte>, bs: nat, at: nat, k: nat)
    requires k > 0 && at == Cap(bs, k) && at + bs <= |before|
    requires |after| == |before| && after[..at] == before[..at]
    ensures after[..bs] == before[..bs]
  {
    CapMore(bs, 1, k);
    assert Cap(bs, 1) == bs;
    assert after[..bs] == after[..at][..bs] && before[..bs] == before[..at][..bs];
  }

  /** A byte of a run of blocks. */
  lemma ByteOf(img: Image, bs: nat, ptrs: seq<nat>, x: nat)
    requires bs > 0 && x < Cap(bs, |ptrs|)
    ensures BlockIndex(x, bs) < |ptrs| && BlockOffset(x, bs) < bs && x < |ReadBytes(img, bs, ptrs)|
    ensures ReadBytes(img, bs, ptrs)[x] == DiskTree.At(img, ptrs[BlockIndex(x, bs)], bs)[BlockOffset(x, bs)]
  {
    hide ReadBytes, BlockIndex, BlockOffset, DiskTree.At;
    var s := BlockIndex(x, bs);
    WithinBlock(bs, |ptrs|, x);
    hide Cap;
    Window(img, bs, ptrs, s, s + 1);
    assert ptrs[s..s + 1] == [ptrs[s]];
    OneBlockBytes(img, bs, ptrs[s]);
    var all := ReadBytes(img, bs, ptrs);
    assert all[Cap(bs, s)..Cap(bs, s + 1)][x - Cap(bs, s)] == all[x];
  }

  lemma WithinBlock(bs: nat, n: nat, x: nat)
    requires bs > 0 && x < Cap(bs, n)
    ensures var s, o := BlockIndex(x, bs), BlockOffset(x, bs);
      s < n && o < bs && x == Cap(bs, s) + o && Cap(bs, s + 1) == Cap(bs, s) + bs
  {
    hide BlockIndex, BlockOffset;
    var s := BlockIndex(x, bs);
    Parts(x, bs);
    if s > n { MulStep(s, n, bs); }
    assert bs * (s + 1) == bs * s + bs;
  }

  lemma OneBlockBytes(img: Image, bs: nat, b: nat)
    ensures ReadBytes(img, bs, [b]) == DiskTree.At(img, b, bs)
  {
    assert [b][..0] == [];
    assert ReadBytes(img, bs, []) == [];
  }

  /** With block `first` in place of block `s`, the bytes are those of `Source`. */
  lemma ByteFrom(img: Image, bs: nat, ptrs: seq<nat>, first: nat, pos: nat, x: nat)
    requires bs > 0 && pos <= x < Cap(bs, |ptrs|) && first <= BlockIndex(pos, bs) < |ptrs|
    ensures var run := ptrs[BlockIndex(pos, bs) := ptrs[first]];
      ReadBytes(img, bs, run)[x] == ReadBytes(img, bs, ptrs)[Source(bs, first, pos, x)]
  {
    hide ReadBytes, BlockIndex, BlockOffset;
    var s := BlockIndex(pos, bs);
    ByteOf(img, bs, ptrs[s := ptrs[first]], x);
    var y := Source(bs, first, pos, x);
    ByteOf(img, bs, ptrs, y);
    if BlockIndex(x, bs) == s {
      SourceParts(bs, first, pos, x);
    }
  }

  lemma SourceParts(bs: nat, first: nat, pos: nat, x: nat)
    requires bs > 0 && pos <= x && first <= BlockIndex(pos, bs) == BlockIndex(x, bs)
    ensures var y := Source(bs, first, pos, x); BlockIndex(y, bs) == first && BlockOffset(y, bs) == BlockOffset(x, bs)
  {
    var s := BlockIndex(pos, bs);
    Parts(x, bs);
    assert bs * (s - first) == bs * s - bs * first;
    DivUnique(x - bs * (s - first), bs, first, BlockOffset(x, bs));
  }

  lemma Brought(img: Image, bs: nat, ino: Inode, data: seq<Byte>, own: set<nat>, ptrs: seq<nat>, pos: nat, end: nat,
                buf: seq<Byte>, first: nat)
    requires OnDisk(img, bs, ino, data, own, ptrs) && pos <= end <= |data| && bs > 0
    requires var s, e := BlockIndex(pos, bs), DivCeil(end, bs);
      && first <= s < e <= |ptrs| && Cap(bs, e - s) <= |buf|
      && buf[..Cap(bs, e - s)] == ReadBytes(img, bs, ptrs[s := ptrs[first]][s..e])
    ensures BlockOffset(pos, bs) + (end - pos) <= |buf|
    ensures buf[BlockOffset(pos, bs)..BlockOffset(pos, bs) + (end - pos)] == Picked(data, bs, first, pos, end)
  {
    hide OnDisk, ReadBytes, Cap, DivCeil, BlockIndex, BlockOffset, Enough, Source;
    FewBlocks(img, bs, ino, data, own, ptrs);
    var s, e := BlockIndex(pos, bs), DivCeil(end, bs);
    Blocks(bs, pos, end, |data|, |ptrs|);
    var run := ptrs[s := ptrs[first]];
    Slice(img, bs, run, s, e, buf, pos, end);
    EnoughBytes(|data|, bs, |ptrs|);
    var got, want := ReadBytes(img, bs, run)[pos..end], Picked(data, bs, first, pos, end);
    forall i | 0 <= i < end - pos ensures got[i] == want[i] {
      ByteFrom(img, bs, ptrs, first, pos, pos + i);
      assert ReadBytes(img, bs, ptrs)[..|data|][Source(bs, first, pos, pos + i)] == data[Source(bs, first, pos,
          pos + i)];
    }
    assert got == want;
  }

  lemma EnoughBytes(size: nat, bs: nat, n: nat)
    requires Enough(size, bs, n)
    ensures size <= Cap(bs, n)
  {
  }

  // ---- the verdict on a checksum ------------------------------------------------------------------

  function Judged(d: Drain, checksum: bv32): (v: Verdict)
    ensures v == Accepted <==> d.All? && Crc32(d.bytes) == checksum
    ensures v == Rejected <==> d.All? && Crc32(d.bytes) != checksum
  {
    if d.All? then (if Crc32(d.bytes) == checksum then Accepted else Rejected)
    else if d.r.SizeTooBig? then Failed else Undefined
  }

  ghost function Onto(got: seq<Byte>, rest: Drain): Drain {
    if rest.All? then All(got + rest.bytes) else rest
  }

  lemma OntoNone(rest: Drain)
    ensures Onto([], rest) == rest
  {
    if rest.All? { assert [] + rest.bytes == rest.bytes; }
  }

  lemma OntoTwice(a: seq<Byte>, b: seq<Byte>, rest: Drain)
    ensures Onto(a, Onto(b, rest)) == Onto(a + b, rest)
  {
    if rest.All? { assert a + (b + rest.bytes) == (a + b) + rest.bytes; }
  }

  lemma DrainStep(o: Opened, c: Cursor, n: nat)
    requires InFile(o, c) && n < U32 && (n > 0 || c.pos == |o.data|) && (c.pos < |o.data| || c.pos == 0)
    ensures Reads(o, c, n).Bytes? ==> After(o, c, n).pos > c.pos || After(o, c, n).pos == |o.data|
    ensures Drained(o, c, n) == if Reads(o, c, n).Bytes? then Onto(Reads(o, c, n).out, Drained(o, After(o, c, n), n))
      else Stuck(Reads(o, c, n))
  {
    if c.pos < |o.data| {
      if Reads(o, c, n).Bytes? { Progress(o, c, n); }
    } else {
      assert Stop(0, o.bufsize, 0, n) == 0 && o.data == [];
      assert BlockIndex(0, o.bs) == 0 && BlockOffset(0, o.bs) == 0;
      assert Reads(o, c, n) == Bytes([]);
    }
  }

  lemma DrainEnd(o: Opened, c: Cursor, n: nat)
    requires InFile(o, c) && c.pos == |o.data|
    ensures Drained(o, c, n) == All([])
  {
  }

  // ---- opening by path ----------------------------------------------------------------------------

  datatype OpenError = NoError | NotAFile | BufTooSmall | BufUnaligned

  lemma NodeKind(img: Image, c: Context, p: Placed, root: Node, own: set<nat>, inos: set<nat>, pos: seq<nat>)
    requires Mounted(img, c, p, root, own, inos) && Reaches(root, pos)
    ensures c.header.blockSize > 0 && PlacedAt(p, pos).idx < |TableOf(img, c)| <= NOWHERE
    ensures var ino := TableOf(img, c)[PlacedAt(p, pos).idx];
      && (ino.kind == File <==> NodeAt(root, pos).Leaf?)
      && (NodeAt(root, pos).Leaf? ==> FileRep(img, c.header.blockSize, ino, NodeAt(root, pos).data, own))
  {
    hide DirBlocks, FileBlocks;
    WholeEntries(c);
    RepAt(img, Per(c), TableOf(img, c), p, root, own, inos, pos);
  }

  /** The sentinel inode is no file. */
  lemma SentinelKind(img: Image, c: Context, p: Placed, root: Node, own: set<nat>, inos: set<nat>)
    requires Mounted(img, c, p, root, own, inos)
    ensures Geometry(c) && ReadInode(img, c, 0).Got? && ReadInode(img, c, 0).value.kind != File
  {
    hide ReadInode, TableOf;
    MountedInode(img, c, p, root, own, inos, 0);
  }

  lemma SmallFile(img: Image, bs: nat, ino: Inode, data: seq<Byte>, own: set<nat>, ptrs: seq<nat>)
    requires FileBlocks(img, bs, ino, data, own, ptrs) && ino.size == |data| && 0 < bs <= 0x1_0000
    ensures OnDisk(img, bs, ino, data, own, ptrs) && |data| <= 0x5000_0000
  {
    hide ReadBytes, ReadTable;
    var n := |ptrs|;
    assert n <= 0x5000;
    assert bs * n <= 0x1_0000 * n;
  }

  /** bsfs_fopen. */
  method Fopen(img: Image, c: Context, path: seq<Byte>, maxRead: nat, bufsize: nat, ghost p: Placed, ghost root: Node,
               ghost own: set<nat>, ghost inos: set<nat>)
    returns (err: OpenError, f: BsfsFile?)
    requires Mounted(img, c, p, root, own, inos) && c.header.blockSize <= 0x1_0000
    requires !PlaceOf(root, Per(c), path).ThroughFile? && 0 !in path
    requires bufsize < 0xB000_0000   // file and buffer together stay below the unsigned 32-bit range
    ensures c.header.blockSize > 0
    ensures var at := PlaceOf(root, Per(c), path);
      && err == (if !(at.Found? && NodeAt(root, at.pos).Leaf?) then NotAFile
                 else if bufsize < c.header.blockSize then BufTooSmall
                     else if bufsize % c.header.blockSize != 0 then BufUnaligned else NoError)
      && (err == NoError ==>
           f != null && fresh(f) && f.Valid() && f.data == NodeAt(root, at.pos).data &&
           f.ino.checksum == Crc32(f.data))
    ensures err == NoError ==>
      f.position == 0 && !f.eof && f.cached == NOWHERE && f.bs == c.header.blockSize && f.bufsize == bufsize &&
      f.maxRead == maxRead
  {
    hide Mounted, Rep, PlaceOf, PlacedAt, NodeAt, Reaches, FileBlocks, OnDisk, BsfsFile.Valid, Crc32, Resolved,
         ReadInode, TableOf;
    f := null;
    ghost var at := PlaceOf(root, Per(c), path);
    MountedFacts(img, c, p, root, own, inos);
    ResolvesTree(img, c, p, root, own, inos, path);
    SentinelKind(img, c, p, root, own, inos);
    if at.Found? {
      NodeKind(img, c, p, root, own, inos, at.pos);
      FoundNotSentinel(img, c, p, root, own, inos, at.pos);
      MountedInode(img, c, p, root, own, inos, PlacedAt(p, at.pos).idx);
    }
    var idx := ResolvePath(img, c, path);
    if idx == NOWHERE {
      return NotAFile, null;
    }
    var read := ReadInode(img, c, idx);
    var ino := read.value;
    if ino.kind != File {
      return NotAFile, null;
    }
    if bufsize < c.header.blockSize {
      return BufTooSmall, null;
    }
    if bufsize % c.header.blockSize != 0 {
      return BufUnaligned, null;
    }
    ghost var data := NodeAt(root, at.pos).data;
    ghost var ptrs: seq<nat> :| FileBlocks(img, c.header.blockSize, ino, data, own, ptrs);
    SmallFile(img, c.header.blockSize, ino, data, own, ptrs);
    f := new BsfsFile(img, c, maxRead, bufsize, ino, data, own, ptrs);
    err := NoError;
  }

  /** Every file of a populated tree, opened by the path of its names, passes its checksum. */
  method OpenAndVerify(img: Image, c: Context, names: seq<seq<Byte>>, maxRead: nat, bufsize: nat,
                       ghost p: Placed, ghost root: Node, ghost own: set<nat>, ghost inos: set<nat>,
                           ghost pos: seq<nat>) returns (v: Verdict)
    requires Mounted(img, c, p, root, own, inos) && 0 < c.header.blockSize <= 0x1_0000
    requires Proper(root) && Reaches(root, pos) && pos != []
    requires names == PathTo(root, pos) && NodeAt(root, pos).Leaf?
    requires c.header.blockSize <= bufsize <= maxRead && bufsize % c.header.blockSize == 0 && bufsize < 0xB000_0000
    ensures v == Accepted
  {
    hide *;
    NodePath(root, Per(c), names, pos);
    var err, f := Fopen(img, c, Joined(names), maxRead, bufsize, p, root, own, inos);
    SizesFit(f);
    AlignedSize(bufsize, f.bs);
    WholeFile(f, bufsize);
    v := f.VerifyChecksum(bufsize);
  }

  lemma SizesFit(f: BsfsFile)
    requires f.Valid()
    ensures |f.data| + f.bufsize < U32
  {
  }

  /** A file just opened is read whole by reads of whole blocks. */
  lemma WholeFile(f: BsfsFile, n: nat)
    requires f.Valid() && f.position == 0 && f.cached == NOWHERE
    requires f.bs > 0 && n > 0 && BlockOffset(n, f.bs) == 0
    requires |f.data| + n < U32 && n <= f.maxRead
    ensures InFile(f.Spec(), f.At()) && Drained(f.Spec(), f.At(), n) == All(f.data)
    ensures forall sum :: Judged(All(f.data), sum) == if Crc32(f.data) == sum then Accepted else Rejected
  {
    hide BsfsFile.Valid, Crc32, BlockOffset, BlockIndex, Drained;
    f.CursorFits();
    SecondBlock(f.bs);
    DrainedAligned(f.Spec(), f.At(), n);
    assert f.data[0..] == f.data;
  }

  /** A file whose bytes differ from those its checksum was made of, within four consecutive ones, is rejected. */
  method TamperedRejected(f: BsfsFile, n: nat, ghost before: seq<Byte>, ghost written: seq<Byte>,
                          ghost found: seq<Byte>, ghost after: seq<Byte>)
    returns (v: Verdict)
    requires f.Valid() && f.position == 0 && !f.eof
    requires f.cached == NOWHERE && f.bs > 0 && n > 0
    requires BlockOffset(n, f.bs) == 0 && |f.data| + n < U32 && n <= f.maxRead
    requires f.data == before + found + after && f.ino.checksum == Crc32(before + written + after)
    requires |written| == |found| <= 4 && written != found
    modifies f
    ensures v == Rejected
  {
    hide *;
    WindowDetected(before, written, found, after);
    WholeFile(f, n);
    v := f.VerifyChecksum(n);
  }
}
