/** Trees that do not end below 4 GiB: block 2^32 / block size is put on block 0, and the block as far behind it as the
    header is behind block 0 is put on the header, which is written after it (tools/bsfs/bsfs-populate.c:411-450,
    275-276). */
module Overflow {
  import opened Layout
  import opened DiskFormat
  import opened DiskTree
  import opened ImageBytes
  import opened Metadata
  import opened Populate
  import opened PopulateFile
  import opened PopulateTree
  import opened Extract

  /** The block that is put on the header. */
  function HeaderTwin(bs: nat, offset: nat): nat
    requires bs > 0
  {
    U32 / bs + offset
  }

  lemma TwinPlace(bs: nat, offset: nat)
    requires bs > 0 && U32 % bs == 0
    ensures Seek(bs, HeaderTwin(bs, offset), 0) == Seek(bs, offset, 0)
  {
    var n := U32 / bs;
    assert n * bs == U32;
    assert Cap(bs, n + offset) == U32 + Cap(bs, offset);
  }

  /** Whatever was written to that block, a read of it brings the header. */
  lemma TwinRead(img: Image, bs: nat, offset: nat)
    requires Signed(img, bs, Seek(bs, offset, 0)) && U32 % bs == 0 && offset < |img| && HEADER_SIZE <= bs
    ensures var block := Fetched(img, bs, HeaderTwin(bs, offset));
      |block| == bs && block[3..7] == PutU32(MAGIC)
  {
    hide Region, HeaderTwin;
    TwinPlace(bs, offset);
    CapBelow(bs, offset, |img|);
    var at := Seek(bs, offset, 0);
    RegionPart(img, bs, at, bs, 0, HEADER_SIZE);
    assert Region(img, bs, at, bs)[0..0 + HEADER_SIZE][3..7] == Region(img, bs, at, bs)[3..7];
  }

  /** Pointers that are 0 are passed over. */
  lemma {:induction false} ZerosPassed(img: Image, bs: nat, c: Copy, ptrs: seq<nat>, k: nat)
    requires bs > 0 && 0 < k <= |ptrs| && forall i :: 1 <= i < |ptrs| ==> ptrs[i] == 0
    ensures Steps(img, bs, c, ptrs, k) == Step(img, bs, c, ptrs[0])
  {
    hide Step;
    if k > 1 {
      ZerosPassed(img, bs, c, ptrs, k - 1);
      Skipped(img, bs, Step(img, bs, c, ptrs[0]));
    } else {
      assert Steps(img, bs, c, ptrs, 0) == c;
    }
  }

  /** What a file of one block comes out as. */
  lemma OneBlockCopied(img: Image, bs: nat, ino: Inode, b: nat)
    requires 0 < ino.size <= bs < U32 && bs % 4 == 0 && b != 0 && |Fetched(img, bs, b)| == bs
    requires ino.direct == [b] + NoPtrs(DIRECT - 1) && ino.l1 == 0
    ensures CopyOut(img, bs, ino) == Going(Fetched(img, bs, b)[..ino.size], ino.size - bs)
  {
    hide Fetched;
    ZerosPassed(img, bs, Going([], ino.size), ino.direct, DIRECT);
  }

  /** The inode of a file of one block. */
  lemma OneBlockInode(img: Image, bs: nat, ino: Inode, data: seq<Byte>, own: set<nat>)
    requires FileRep(img, bs, ino, data, own) && 0 < |data| <= bs
    ensures ino.size == |data| && |ino.direct| == DIRECT && ino.direct[0] != 0 && ino.l1 == 0
    ensures ino.direct == [ino.direct[0]] + NoPtrs(DIRECT - 1)
  {
    hide ReadBytes, ReadTable, Enough, Cap;
    var ptrs: seq<nat> :| FileBlocks(img, bs, ino, data, own, ptrs);
    OnePointer(|data|, bs, |ptrs|);
    assert ptrs == [ptrs[0]] && ptrs[0] in ptrs;
  }

  lemma OnePointer(size: nat, bs: nat, n: nat)
    requires Enough(size, bs, n) && 0 < size <= bs
    ensures n == 1
  {
    if n > 1 { CapBelow(bs, 0, n - 1); }
  }

  /** The last file of the tree is in the block that is put on the header. */
  ghost predicate EndsOnTwin(h: Header, entries: seq<Entry>, offset: nat) {
    && h.blockSize >= DIRENT_SIZE && U32 % h.blockSize == 0 && Cap(h.blockSize, h.dataStart) <= U32
    && entries != [] && OneBlock(entries[|entries| - 1].node, h.blockSize / DIRENT_SIZE)
    && TopOf(h, entries) == HeaderTwin(h.blockSize, offset) + 1
  }

  /** The file as it comes out: as long as it was, and with the header's signature. */
  ghost predicate Lost(img: Image, bs: nat, ino: Inode, data: seq<Byte>) {
    && bs > 0 && bs % 4 == 0
    && var c := CopyOut(img, bs, ino);
       && c.Going? && |c.out| == |data| && (|data| >= 7 ==> c.out[3..7] == PutU32(MAGIC))
       && (|data| >= 7 && data[3..7] != PutU32(MAGIC) ==> c.out != data)
  }

  lemma TwinLost(img: Image, bs: nat, offset: nat, ino: Inode, data: seq<Byte>)
    requires Signed(img, bs, Seek(bs, offset, 0)) && U32 % bs == 0 && offset < |img| && HEADER_SIZE <= bs < U32
    requires 0 < ino.size == |data| <= bs && bs % 4 == 0 && ino.l1 == 0
    requires ino.direct == [HeaderTwin(bs, offset)] + NoPtrs(DIRECT - 1) && HeaderTwin(bs, offset) != 0
    ensures Lost(img, bs, ino, data)
  {
    hide Fetched, Signed, HeaderTwin, CopyOut;
    TwinRead(img, bs, offset);
    OneBlockCopied(img, bs, ino, HeaderTwin(bs, offset));
    var block := Fetched(img, bs, HeaderTwin(bs, offset));
    if |data| >= 7 { SamePart(block, |data|); }
  }

  lemma SamePart(block: seq<Byte>, n: nat)
    requires 7 <= n <= |block|
    ensures block[..n][3..7] == block[3..7]
  {
  }

  /** The inode of the last file, as it is on the image. */
  lemma LastInode(d: Disk, h: Header, offset: nat, p: Placed, entries: seq<Entry>)
    requires Formatted(h, offset) && FitsOn(h, entries) && EndsOnTwin(h, entries, offset)
    requires Carries(d.img, h.blockSize, offset, p, entries, TopOf(h, entries))
    requires SuperAt(d.img, h.blockSize, offset).header == h.(freeBlocks := d.free)
    requires TableAt(d.img, h.blockSize, h.inodeTableStart, h.inodeCount) == CutAll(d.table)
    requires LastBlock(d, h.blockSize / DIRENT_SIZE, p, entries)
    requires TopOf(h, entries) + d.free == |d.img| == h.totalBlocks
    ensures |p.kids| == |entries| && p.kids[|entries| - 1].idx < |d.table| == h.inodeCount
    ensures var ino, data := CutAll(d.table)[p.kids[|entries| - 1].idx], entries[|entries| - 1].node.data;
      && ino.size == |data| && ino.l1 == 0 && HeaderTwin(h.blockSize, offset) != 0
      && ino.direct == [HeaderTwin(h.blockSize, offset)] + NoPtrs(DIRECT - 1)
  {
    hide Rep, Format, Fits, BlocksOf, SuperAt, TableAt, HeaderTwin, FileRep, Cut, Cap;
    var per, table, last := h.blockSize / DIRENT_SIZE, CutAll(d.table), |entries| - 1;
    Multiple(h.blockSize);
    var own: set<nat>, inos: set<nat> :| Rep(d.img, per, table, p, p.idx, Branch(entries), own, inos) &&
        Between(own, h.dataStart, TopOf(h, entries));
    ChildFacts(d.img, per, table, p, p.idx, entries, own, inos, last);
    var idx := p.kids[last].idx;
    OneBlockInode(d.img, h.blockSize, table[idx], entries[last].node.data, own);
    CutPointer(d.table[idx]);
  }

  lemma CutPointer(ino: Inode)
    requires |ino.direct| == DIRECT && ino.direct[0] < U32
    ensures |Cut(ino).direct| == DIRECT && Cut(ino).direct[0] == ino.direct[0]
  {
  }

  /** Populating with such a tree: the file comes out as the beginning of the header. */
  method FileLost(h: Header, entries: seq<Entry>, offset: nat, rest: Rest) returns (v: Volume, ghost p: Placed)
    requires Formatted(h, offset) && FitsOn(h, entries) && Suits(h, rest) && EndsOnTwin(h, entries, offset)
    ensures fresh(v) && |p.kids| == |entries|
    ensures var data, idx := entries[|entries| - 1].node.data, p.kids[|entries| - 1].idx;
      idx < h.inodeCount && Lost(v.img, h.blockSize, TableAt(v.img, h.blockSize, h.inodeTableStart, h.inodeCount)[idx],
        data)
  {
    hide Format, Volume.Valid, Fits, BlocksOf, InodesOf, Suits, MapsStored, Shaped, Carries, Signed, TableAt, CutAll,
         SuperAt, LastBlock, Lost, TopOf, HeaderTwin, Cap;
    v, p := PopulateImage(h, entries, offset, rest);
    Sizes(v, h);
    LastInode(v.State(), h, offset, p, entries);
    HeaderInside(h, offset, entries);
    TwinLost(v.img, h.blockSize, offset, CutAll(v.State().table)[p.kids[|entries| - 1].idx],
        entries[|entries| - 1].node.data);
  }

  lemma HeaderInside(h: Header, offset: nat, entries: seq<Entry>)
    requires Formatted(h, offset) && FitsOn(h, entries)
    ensures offset < h.totalBlocks && h.blockSize % 4 == 0
  {
    hide Format, Fits, BlocksOf, InodesOf, Cap;
    Consecutively(h, offset);
    Multiple(h.blockSize);
  }

  /** In every tree that reaches that block: the tree has it, and a read of it brings the header's signature. */
  method BlockLost(h: Header, entries: seq<Entry>, offset: nat, rest: Rest) returns (v: Volume, ghost p: Placed)
    requires Formatted(h, offset) && FitsOn(h, entries) && Suits(h, rest) && U32 % h.blockSize == 0
    requires Cap(h.blockSize, h.dataStart) <= U32 && HeaderTwin(h.blockSize, offset) < TopOf(h, entries)
    ensures fresh(v) && v.Valid() && h.dataStart <= HeaderTwin(h.blockSize, offset)
    ensures HeaderTwin(h.blockSize, offset) in v.State().used
    ensures Carries(v.State().img, h.blockSize, offset, p, entries, TopOf(h, entries))
    ensures var block := Fetched(v.img, h.blockSize, HeaderTwin(h.blockSize, offset));
      |block| == h.blockSize && block[3..7] == PutU32(MAGIC)
  {
    hide Format, Fits, BlocksOf, InodesOf, Suits, MapsStored, Carries, Signed, TableAt, CutAll, SuperAt, LastBlock,
         Cap, Shaped, Volume.Valid, Fetched;
    v, p := PopulateImage(h, entries, offset, rest);
    HeaderInside(h, offset, entries);
    Sizes(v, h);
    TwinRead(v.img, h.blockSize, offset);
    TwinAbove(h.blockSize, h.dataStart, offset);
    Good(v);
  }

  lemma TwinAbove(bs: nat, n: nat, offset: nat)
    requires bs > 0 && Cap(bs, n) <= U32
    ensures n <= HeaderTwin(bs, offset)
  {
    var q := U32 / bs;
    if n > q { CapBelow(bs, q, n); }
  }

  // ---- an image of 8 GiB --------------------------------------------------------------------------

  const BS: nat := 16384
  const TOTAL: nat := 0x8_0000

  function Image8(): Header {
    Format(TOTAL, BS, 0)
  }

  /** The layout of the image: 1031 blocks of metadata. */
  lemma Layout8()
    ensures Formatted(Image8(), 0) && Image8().dataStart == 1031 && Image8().inodeCount == 0x2_0000
    ensures Image8().totalBlocks == TOTAL && Image8().blockSize == BS
  {
  }

  /** Two letters. */
  function Name(i: nat): (name: seq<Byte>)
    requires i < 676
    ensures Storable(name) && name != DOT && name != DOTDOT
  {
    [97 + i / 26, 97 + i % 26]
  }

  function Blocks(i: nat, n: nat): Entry
    requires i < 676
  {
    Entry(Name(i), Leaf(Zeros(BS * n)))
  }

  /** Files as large as the format allows. */
  function Large(n: nat): (entries: seq<Entry>)
    requires n <= 676
    ensures |entries| == n && forall i :: 0 <= i < n ==> entries[i] == Blocks(i, 4106)
  {
    if n == 0 then [] else Large(n - 1) + [Blocks(n - 1, 4106)]
  }

  /** 63 of these, one of 2370 blocks, and a last one. */
  function Files8(data: seq<Byte>): seq<Entry> {
    Large(63) + [Blocks(63, 2370)] + [Entry(Name(64), Leaf(data))]
  }

  lemma CostOf(i: nat, n: nat, per: nat)
    requires i < 676 && per > 0 && n <= 4106 && DIRENT_SIZE * per == BS
    ensures BlocksOf(Blocks(i, n).node, per) == (if n > DIRECT then n + 1 else n) && Fits(Blocks(i, n).node, per)
    ensures InodesOf(Blocks(i, n).node) == 1
  {
    CeilUnique(BS * n, BS, n);
  }

  lemma {:induction false} LargeCost(n: nat, per: nat)
    requires n <= 676 && per > 0 && DIRENT_SIZE * per == BS
    ensures SumBlocks(Large(n), per) == 4107 * n && SumInodes(Large(n)) == n
  {
    if n > 0 {
      LargeCost(n - 1, per);
      CostOf(n - 1, 4106, per);
      SumSnoc(Large(n - 1), Blocks(n - 1, 4106), per);
    }
  }

  lemma SumSnoc(entries: seq<Entry>, e: Entry, per: nat)
    requires per > 0
    ensures SumBlocks(entries + [e], per) == SumBlocks(entries, per) + BlocksOf(e.node, per)
    ensures SumInodes(entries + [e]) == SumInodes(entries) + InodesOf(e.node)
  {
    hide BlocksOf, InodesOf;
    assert (entries + [e])[..|entries|] == entries;
  }

  /** They fit on the image, and the last one is in block 2^18. */
  lemma Ends8(data: seq<Byte>)
    requires 0 < |data| <= BS
    ensures FitsOn(Image8(), Files8(data)) && EndsOnTwin(Image8(), Files8(data), 0)
  {
    Layout8();
    hide Format;
    var per, entries := BS / DIRENT_SIZE, Files8(data);
    Cost8(data);
    Fits8(data);
    hide Fits;
    Totals(entries, per);
    CeilUnique(67, per, 1);
  }

  lemma Cost8(data: seq<Byte>)
    requires 0 < |data| <= BS
    ensures SumBlocks(Files8(data), 128) == 4107 * 63 + 2371 + 1 && SumInodes(Files8(data)) == 65
    ensures |Files8(data)| == 65
  {
    hide Large, Blocks;
    LargeCost(63, 128);
    CostOf(63, 2370, 128);
    SumSnoc(Large(63), Blocks(63, 2370), 128);
    SumSnoc(Large(63) + [Blocks(63, 2370)], Entry(Name(64), Leaf(data)), 128);
    CeilUnique(|data|, BS, 1);
  }

  lemma Fits8(data: seq<Byte>)
    requires 0 < |data| <= BS
    ensures Fits(Branch(Files8(data)), 128)
  {
    var entries := Files8(data);
    forall i | 0 <= i < |entries|
      ensures Storable(entries[i].name) && entries[i].name != DOT && entries[i].name != DOTDOT &&
              Fits(entries[i].node, 128)
    {
      if i < 63 { CostOf(i, 4106, 128); }
      else if i == 63 { CostOf(63, 2370, 128); }
      else { CeilUnique(|data|, BS, 1); }
    }
  }

  /** On an image of 8 GiB these files are stored, and the last one comes out as the header. */
  method EightGigabytes(data: seq<Byte>, rest: Rest) returns (v: Volume, ghost p: Placed)
    requires 0 < |data| <= BS && Suits(Image8(), rest)
    ensures |p.kids| == 65 && p.kids[64].idx < 0x2_0000
    ensures Lost(v.img, BS, TableAt(v.img, BS, Image8().inodeTableStart, 0x2_0000)[p.kids[64].idx], data)
  {
    Layout8();
    Ends8(data);
    Cost8(data);
    hide Format, Suits, EndsOnTwin, FitsOn, Formatted, Large, Blocks, Lost, TableAt;
    v, p := FileLost(Image8(), Files8(data), 0, rest);
  }
}
