/** The header and the inode table as bytes of an image (include/common/bsfs/bsfs.h:31-88): written at the end by
    tools/bsfs/bsfs-populate.c:272-276, read whole by tools/bsfs/bsfs-extract.c:118-196 and inode by inode by
    kernel/common/bsfs/bsfs.c:81-90. */
module Metadata {
  import opened Sequences
  import opened Division
  import opened Layout
  import opened DiskFormat
  import opened Checksum
  import opened DiskTree
  import opened DiskWrites
  import opened ImageBytes

  const MAGIC: nat := 0x4253_4653
  const VERSION: nat := 0x0103_0100
  const HEADER_SIZE: nat := 512
  const WORDS: nat := 18   // 32-bit fields of the header, from its magic number to its root inode

  // ---- one inode ----------------------------------------------------------------------------------

  function PutU64(x: nat): (b: seq<Byte>)
    requires x < U64
    ensures |b| == 8
  {
    PutU32(x % U32) + PutU32(x / U32)
  }

  function GetU64(b: seq<Byte>): (x: nat)
    requires |b| == 8
    ensures x < U64
  {
    GetU32(b[..4]) + U32 * GetU32(b[4..])
  }

  lemma LongRoundTrip(x: nat)
    requires x < U64
    ensures GetU64(PutU64(x)) == x
  {
    WordRoundTrip(x % U32);
    WordRoundTrip(x / U32);
    assert PutU64(x)[..4] == PutU32(x % U32) && PutU64(x)[4..] == PutU32(x / U32);
  }

  function Bits(c: bv32): (n: nat)
    ensures n < U32
  {
    c as nat
  }

  function OfBits(n: nat): bv32
    requires n < U32
  {
    n as bv32
  }

  lemma BitsRoundTrip(c: bv32)
    ensures OfBits(Bits(c)) == c
  {
  }

  function KindByte(k: Kind): Byte {
    match k case Free => 0 case File => 1 case Directory => 2
  }

  /** The readers treat a type that is neither a file nor a directory as a free inode. */
  function ByteKind(b: Byte): Kind {
    if b == 1 then File else if b == 2 then Directory else Free
  }

  /** The rest of an inode: permissions and owners, times and link count, deeper indirection, padding. */
  datatype Extra = Extra(owners: seq<Byte>, times: seq<Byte>, deeper: seq<Byte>, padding: seq<Byte>)

  predicate Sized(x: Extra) {
    |x.owners| == 10 && |x.times| == 28 && |x.deeper| == 8 && |x.padding| == 21
  }

  /** `n` words, each cut to 32 bits. */
  function Words(t: seq<nat>, n: nat): (r: seq<nat>)
    ensures |r| == n && forall i :: 0 <= i < n ==> r[i] < U32
  {
    seq(n, i => if 0 <= i < |t| then t[i] % U32 else 0)
  }

  /** An inode with its fields cut to their widths. */
  function Cut(ino: Inode): Inode {
    Inode(ino.kind, ino.size % U64, ino.blocks % U32, Words(ino.direct, DIRECT), ino.l1 % U32, ino.checksum)
  }

  function PutInode(ino: Inode, x: Extra): (b: seq<Byte>)
    requires Sized(x)
    ensures |b| == INODE_SIZE
  {
    [KindByte(ino.kind)] + x.owners + PutU64(ino.size % U64) + PutU32(ino.blocks % U32) + x.times
    + PutTable(Words(ino.direct, DIRECT)) + PutU32(ino.l1 % U32) + x.deeper + PutU32(Bits(ino.checksum)) + x.padding
  }

  function GetInode(b: seq<Byte>): Inode
    requires |b| == INODE_SIZE
  {
    Inode(ByteKind(b[0]), GetU64(b[11..19]), GetU32(b[19..23]), ReadTable(b[51..91], DIRECT), GetU32(b[91..95]),
        OfBits(GetU32(b[103..107])))
  }

  /** An inode read back is the one written, whatever the rest of it holds. */
  lemma InodeRoundTrip(ino: Inode, x: Extra)
    requires Sized(x)
    ensures GetInode(PutInode(ino, x)) == Cut(ino)
  {
    hide PutU64, GetU64, PutU32, GetU32, PutTable, ReadTable, Bits, OfBits, Words;
    var b := PutInode(ino, x);
    assert b[11..19] == PutU64(ino.size % U64) && b[19..23] == PutU32(ino.blocks % U32);
    assert b[51..91] == PutTable(Words(ino.direct, DIRECT)) && b[91..95] == PutU32(ino.l1 % U32);
    assert b[103..107] == PutU32(Bits(ino.checksum));
    LongRoundTrip(ino.size % U64);
    WordRoundTrip(ino.blocks % U32);
    TableRoundTrip(Words(ino.direct, DIRECT));
    WordRoundTrip(ino.l1 % U32);
    WordRoundTrip(Bits(ino.checksum));
    BitsRoundTrip(ino.checksum);
  }

  // ---- regions of an image ------------------------------------------------------------------------

  /** fseeko and fwrite of whole blocks from block `start` on. */
  function Laid(img: Image, bs: nat, start: nat, n: nat, bytes: seq<Byte>): (r: Image)
    requires |bytes| == Cap(bs, n) && start + n <= |img|
    ensures |r| == |img| && forall b :: 0 <= b < |img| && !(start <= b < start + n) ==> r[b] == img[b]
    ensures forall b :: start <= b < start + n ==> |r[b]| == bs
  {
    img[..start] + Pieces(bytes, bs, n) + img[start + n..]
  }

  function Pieces(bytes: seq<Byte>, bs: nat, n: nat): (r: seq<seq<Byte>>)
    requires |bytes| == Cap(bs, n)
    ensures |r| == n && forall k :: 0 <= k < n ==> |r[k]| == bs && r[k] == Piece(bytes, bs, n, k)
  {
    seq(n, k requires 0 <= k < n => Piece(bytes, bs, n, k))
  }

  function Piece(bytes: seq<Byte>, bs: nat, n: nat, k: nat): (r: seq<Byte>)
    requires |bytes| == Cap(bs, n) && k < n
    ensures |r| == bs
  {
    CapBelow(bs, k, n);
    bytes[Cap(bs, k)..Cap(bs, k) + bs]
  }

  /** What was written is read back. */
  lemma RegionLaid(img: Image, bs: nat, start: nat, n: nat, bytes: seq<Byte>, k: nat, m: nat)
    requires bs > 0 && |bytes| == Cap(bs, n) && start + n <= |img| && k + m <= |bytes|
    ensures Region(Laid(img, bs, start, n, bytes), bs, Cap(bs, start) + k, m) == bytes[k..k + m]
  {
    hide ByteAt, Laid;
    var img' := Laid(img, bs, start, n, bytes);
    var part := Region(img', bs, Cap(bs, start) + k, m);
    forall i | 0 <= i < m ensures part[i] == bytes[k..k + m][i] {
      ByteLaid(img, bs, start, n, bytes, k + i);
    }
  }

  lemma ByteLaid(img: Image, bs: nat, start: nat, n: nat, bytes: seq<Byte>, k: nat)
    requires bs > 0 && |bytes| == Cap(bs, n) && start + n <= |img| && k < |bytes|
    ensures ByteAt(Laid(img, bs, start, n, bytes), bs, Cap(bs, start) + k) == bytes[k]
  {
    var q, r := k / bs, k % bs;
    BlockPlace(bs, start, n, k);
    hide Cap;
    CapBelow(bs, q, n);
    assert Laid(img, bs, start, n, bytes)[start + q] == Piece(bytes, bs, n, q);
    assert Piece(bytes, bs, n, q)[r] == bytes[k];
  }

  // ---- the inode table ----------------------------------------------------------------------------

  function TableBytes(table: seq<Inode>, extras: seq<Extra>): (b: seq<Byte>)
    requires |extras| == |table| && forall i :: 0 <= i < |extras| ==> Sized(extras[i])
    ensures |b| == INODE_SIZE * |table|
  {
    seq(INODE_SIZE * |table|, i requires 0 <= i < INODE_SIZE * |table| => PutInode(table[i / INODE_SIZE],
        extras[i / INODE_SIZE])[i % INODE_SIZE])
  }

  lemma TableEntry(table: seq<Inode>, extras: seq<Extra>, i: nat)
    requires |extras| == |table| && (forall i :: 0 <= i < |extras| ==> Sized(extras[i])) && i < |table|
    ensures TableBytes(table, extras)[INODE_SIZE * i..INODE_SIZE * i + INODE_SIZE] == PutInode(table[i], extras[i])
  {
    hide PutInode;
    var b := TableBytes(table, extras);
    forall k | 0 <= k < INODE_SIZE ensures b[INODE_SIZE * i + k] == PutInode(table[i], extras[i])[k] {
      assert (INODE_SIZE * i + k) / INODE_SIZE == i && (INODE_SIZE * i + k) % INODE_SIZE == k;
    }
  }

  /** The inode table of an image, as fread brings it into memory from byte `at` on. */
  function TableFrom(img: Image, bs: nat, at: nat, count: nat): (t: seq<Inode>)
    requires bs > 0
    ensures |t| == count
  {
    seq(count, i requires 0 <= i < count => GetInode(Region(img, bs, at + INODE_SIZE * i, INODE_SIZE)))
  }

  function TableAt(img: Image, bs: nat, start: nat, count: nat): (t: seq<Inode>)
    requires bs > 0
    ensures |t| == count
  {
    TableFrom(img, bs, Cap(bs, start), count)
  }

  function CutAll(table: seq<Inode>): (t: seq<Inode>)
    ensures |t| == |table| && forall i :: 0 <= i < |t| ==> t[i] == Cut(table[i])
  {
    seq(|table|, i requires 0 <= i < |table| => Cut(table[i]))
  }

  /** The table read is the table written, whatever follows it in its last block. */
  lemma TableRead(img: Image, bs: nat, start: nat, table: seq<Inode>, extras: seq<Extra>, slack: seq<Byte>)
    requires bs > 0 && |extras| == |table| && forall i :: 0 <= i < |extras| ==> Sized(extras[i])
    requires var bytes := TableBytes(table, extras) + slack; Region(img, bs, Cap(bs, start), |bytes|) == bytes
    ensures TableAt(img, bs, start, |table|) == CutAll(table)
  {
    hide Region, TableBytes, Cut, GetInode, PutInode, Cap;
    var bytes := TableBytes(table, extras) + slack;
    forall i | 0 <= i < |table| ensures TableAt(img, bs, start, |table|)[i] == Cut(table[i]) {
      RegionPart(img, bs, Cap(bs, start), |bytes|, INODE_SIZE * i, INODE_SIZE);
      assert bytes[INODE_SIZE * i..INODE_SIZE * i + INODE_SIZE] == TableBytes(table,
          extras)[INODE_SIZE * i..INODE_SIZE * i + INODE_SIZE];
      TableEntry(table, extras, i);
      InodeRoundTrip(table[i], extras[i]);
    }
  }

  // ---- cutting loses nothing a tree needs ---------------------------------------------------------

  lemma SmallSizes(bs: nat, n: nat, size: nat)
    requires bs < U32 && n <= DIRECT + bs / 4 && size <= Cap(bs, n)
    ensures size < U64
  {
    assert n <= 0x4000_000A;
    MulLe(bs, 0xFFFF_FFFF, n);
  }

  lemma CutNarrow(ino: Inode)
    requires |ino.direct| == DIRECT && forall i :: 0 <= i < DIRECT ==> ino.direct[i] < U32
    ensures Cut(ino) == ino.(size := ino.size % U64, blocks := ino.blocks % U32, l1 := ino.l1 % U32)
  {
    assert Words(ino.direct, DIRECT) == ino.direct;
  }

  lemma SmallPointers(ptrs: seq<nat>, direct: seq<nat>, own: set<nat>)
    requires Inside(ptrs, own) && (forall b :: b in own ==> b < U32)
    requires direct == if |ptrs| <= DIRECT then ptrs + NoPtrs(DIRECT - |ptrs|) else ptrs[..DIRECT]
    ensures |direct| == DIRECT && forall i :: 0 <= i < DIRECT ==> direct[i] < U32
  {
    forall i | 0 <= i < DIRECT ensures direct[i] < U32 {
      if i < |ptrs| { assert ptrs[i] in ptrs; }
    }
  }

  lemma CutFile(img: Image, bs: nat, ino: Inode, data: seq<Byte>, own: set<nat>)
    requires FileRep(img, bs, ino, data, own) && bs < U32 && forall b :: b in own ==> b < U32
    ensures FileRep(img, bs, Cut(ino), data, own)
  {
    hide ReadBytes, ReadTable, Cap, Cut, Crc32, Inside;
    var ptrs: seq<nat> :| FileBlocks(img, bs, ino, data, own, ptrs);
    SmallSizes(bs, |ptrs|, |data|);
    SmallPointers(ptrs, ino.direct, own);
    CutNarrow(ino);
    assert FileBlocks(img, bs, Cut(ino), data, own, ptrs);
  }

  lemma CutDir(img: Image, per: nat, ino: Inode, slots: seq<Dirent>, own: set<nat>)
    requires DirRep(img, per, ino, slots, own) && DIRENT_SIZE * per < U32 && forall b :: b in own ==> b < U32
    ensures DirRep(img, per, Cut(ino), slots, own)
  {
    hide ReadDir, Cut, Inside, NoDup;
    var ptrs: seq<nat> :| DirBlocks(img, per, ino, slots, own, ptrs);
    assert |slots| <= per * |ptrs| <= per * DIRECT;
    SmallPointers(ptrs, ino.direct, own);
    CutNarrow(ino);
    assert DirBlocks(img, per, Cut(ino), slots, own, ptrs);
  }

  lemma {:induction false} RepCut(img: Image, per: nat, table: seq<Inode>, p: Placed, parent: nat, node: Node,
                                  own: set<nat>, inos: set<nat>)
    requires Rep(img, per, table, p, parent, node, own, inos) && DIRENT_SIZE * per < U32
    requires forall b :: b in own ==> b < U32
    ensures Rep(img, per, CutAll(table), p, parent, node, own, inos)
    decreases node
  {
    hide Cut, DirRep, FileRep;
    match node
    case Leaf(data) => CutFile(img, DIRENT_SIZE * per, table[p.idx], data, own);
    case Branch(entries) =>
      CutDir(img, per, table[p.idx], Slots(p, parent, entries), own);
      forall i | 0 <= i < |entries| ensures Rep(img, per, CutAll(table), p.kids[i], p.idx, entries[i].node, own, inos) {
        RepCut(img, per, table, p.kids[i], p.idx, entries[i].node, own, inos);
      }
  }

  lemma CutZero()
    ensures Cut(ZeroInode()) == ZeroInode()
  {
    CutNarrow(ZeroInode());
  }

  // ---- the header ---------------------------------------------------------------------------------

  /** The header as it is on disk: with its magic number and version, and the root inode. */
  datatype Super = Super(magic: nat, version: nat, header: Header, freeInodes: nat, root: nat)

  /** The 32-bit fields, in the order they are stored. */
  function Fields(s: Super): (w: seq<int>)
    ensures |w| == WORDS
  {
    var h := s.header;
    [s.magic, s.version, h.blockSize, h.totalBlocks, h.inodeCount, h.freeBlocks, s.freeInodes,
     h.blockBitmapStart, h.blockBitmapBlocks, h.megablockBitmapStart, h.megablockBitmapBlocks, h.megablockBitmapSize,
     h.inodeBitmapStart, h.inodeBitmapBlocks, h.inodeTableStart, h.inodeTableBlocks, h.dataStart, s.root]
  }

  function OfFields(w: seq<nat>): Super
    requires |w| == WORDS
  {
    Super(w[0], w[1], Header(w[2], w[3], w[4], w[5], w[7], w[8], w[9], w[10], w[11], w[12], w[13], w[14], w[15],
        w[16]), w[6], w[17])
  }

  /** Every field has its width. */
  predicate Storable32(s: Super) {
    forall i :: 0 <= i < WORDS ==> 0 <= Fields(s)[i] < U32
  }

  /** The rest of the header: the jump before the magic number; the label and the boot code behind the root inode. */
  function PutHeader(s: Super, jump: seq<Byte>, rest: seq<Byte>): (b: seq<Byte>)
    requires Storable32(s) && |jump| == 3 && |rest| == HEADER_SIZE - 3 - 4 * WORDS
    ensures |b| == HEADER_SIZE
  {
    jump + PutTable(Fields(s)) + rest
  }

  function GetHeader(b: seq<Byte>): Super
    requires |b| == HEADER_SIZE
  {
    OfFields(ReadTable(b[3..3 + 4 * WORDS], WORDS))
  }

  lemma HeaderRoundTrip(s: Super, jump: seq<Byte>, rest: seq<Byte>)
    requires Storable32(s) && |jump| == 3 && |rest| == HEADER_SIZE - 3 - 4 * WORDS
    ensures GetHeader(PutHeader(s, jump, rest)) == s
  {
    hide PutTable, ReadTable;
    assert PutHeader(s, jump, rest)[3..3 + 4 * WORDS] == PutTable(Fields(s));
    TableRoundTrip(Fields(s));
  }

  /** The header at byte `at`. */
  function SuperFrom(img: Image, bs: nat, at: nat): Super
    requires bs > 0
  {
    GetHeader(Region(img, bs, at, HEADER_SIZE))
  }

  /** The header in block `offset`. */
  function SuperAt(img: Image, bs: nat, offset: nat): Super
    requires bs > 0
  {
    SuperFrom(img, bs, Cap(bs, offset))
  }

  lemma HeaderRead(img: Image, bs: nat, offset: nat, b: seq<Byte>)
    requires HEADER_SIZE <= bs && |b| == HEADER_SIZE && offset < |img| && |img[offset]| == bs
    ensures SuperAt(WriteAt(img, offset, 0, b), bs, offset) == GetHeader(b)
  {
    var img' := WriteAt(img, offset, 0, b);
    assert img'[offset] == b + img[offset][HEADER_SIZE..];
    var x := Cap(bs, offset);
    var got := Region(img', bs, x, HEADER_SIZE);
    forall i | 0 <= i < HEADER_SIZE ensures got[i] == b[i] {
      DivUnique(x + i, bs, offset, i);
      assert got[i] == ByteAt(img', bs, x + i) == img'[offset][i];
    }
    assert got == b;
  }

  // ---- all the metadata ---------------------------------------------------------------------------

  /** Bytes stay where none of their blocks is written. */
  lemma RegionFrame(img: Image, img': Image, bs: nat, start: nat, n: nat, m: nat)
    requires bs > 0 && m <= Cap(bs, n) && |img'| == |img|
    requires forall b :: start <= b < start + n && b < |img| ==> img'[b] == img[b]
    ensures Region(img', bs, Cap(bs, start), m) == Region(img, bs, Cap(bs, start), m)
  {
    hide Cap;
    var x := Cap(bs, start);
    var after, before := Region(img', bs, x, m), Region(img, bs, x, m);
    forall k | 0 <= k < m ensures after[k] == before[k] {
      BlockPlace(bs, start, n, k);
      assert after[k] == ByteAt(img', bs, x + k) && before[k] == ByteAt(img, bs, x + k);
    }
  }

  /** A bitmap as bytes. */
  function BitmapBytes(a: seq<bv8>): (b: seq<Byte>)
    ensures |b| == |a|
  {
    seq<Byte>(|a|, i requires 0 <= i < |a| => Bits8(a[i]))
  }

  function Bits8(c: bv8): Byte {
    c as nat
  }

  function BitmapAt(img: Image, bs: nat, start: nat, n: nat): (a: seq<bv8>)
    requires bs > 0
    ensures |a| == n
  {
    seq(n, i requires 0 <= i < n => OfBits8(Region(img, bs, Cap(bs, start), n)[i]))
  }

  function OfBits8(b: Byte): bv8 {
    b as bv8
  }

  lemma Bits8RoundTrip(c: bv8)
    ensures OfBits8(Bits8(c)) == c
  {
  }

  lemma BitmapRead(img: Image, bs: nat, start: nat, a: seq<bv8>)
    requires bs > 0 && Region(img, bs, Cap(bs, start), |a|) == BitmapBytes(a)
    ensures BitmapAt(img, bs, start, |a|) == a
  {
    hide Region, Bits8, OfBits8;
    forall i | 0 <= i < |a| ensures BitmapAt(img, bs, start, |a|)[i] == a[i] { Bits8RoundTrip(a[i]); }
  }

  /** The bytes of the five regions. */
  datatype Regions = Regions(blocks: seq<Byte>, megas: seq<Byte>, inodes: seq<Byte>, table: seq<Byte>,
      header: seq<Byte>)

  predicate Fill(h: Header, offset: nat, r: Regions, total: nat) {
    && |r.blocks| == Cap(h.blockSize, h.blockBitmapBlocks) && |r.megas| == Cap(h.blockSize, h.megablockBitmapBlocks)
    && |r.inodes| == Cap(h.blockSize, h.inodeBitmapBlocks) && |r.table| == Cap(h.blockSize, h.inodeTableBlocks)
    && |r.header| == HEADER_SIZE <= h.blockSize && Consecutive(h, offset) && h.dataStart <= total
  }

  /** The regions follow one another from the block behind the header on. */
  predicate Consecutive(h: Header, offset: nat) {
    && offset < h.blockBitmapStart && h.blockBitmapStart + h.blockBitmapBlocks == h.megablockBitmapStart
    && h.megablockBitmapStart + h.megablockBitmapBlocks == h.inodeBitmapStart
    && h.inodeBitmapStart + h.inodeBitmapBlocks == h.inodeTableStart
    && h.inodeTableStart + h.inodeTableBlocks == h.dataStart
  }

  /** The five writes at the end of bsfs-populate, each at a 32-bit offset and of a 32-bit length. */
  function Stamped(img: Image, h: Header, offset: nat, r: Regions): (img': Image)
    requires Even(img, h.blockSize)
    ensures |img'| == |img| && Even(img', h.blockSize)
  {
    var bs := h.blockSize;
    var img1 := Overwritten(img, bs, Seek(bs, h.blockBitmapStart, 0), Cut32(r.blocks));
    var img2 := Overwritten(img1, bs, Seek(bs, h.megablockBitmapStart, 0), Cut32(r.megas));
    var img3 := Overwritten(img2, bs, Seek(bs, h.inodeBitmapStart, 0), Cut32(r.inodes));
    var img4 := Overwritten(img3, bs, Seek(bs, h.inodeTableStart, 0), Cut32(r.table));
    Overwritten(img4, bs, Seek(bs, offset, 0), r.header)
  }

  /** The bytes written when the length is an unsigned 32-bit product. */
  function Cut32(bytes: seq<Byte>): seq<Byte> {
    bytes[..|bytes| % U32]
  }

  /** The header is written last. */
  lemma StampedHeader(img: Image, h: Header, offset: nat, r: Regions)
    requires h.blockSize > 0 && Even(img, h.blockSize) && offset < |img| && |r.header| <= h.blockSize
    ensures Region(Stamped(img, h, offset, r), h.blockSize, Seek(h.blockSize, offset, 0), |r.header|) == r.header
  {
    hide Overwritten, Region, Cut32;
    var bs := h.blockSize;
    CapBelow(bs, offset, |img|);
    var img1 := Overwritten(img, bs, Seek(bs, h.blockBitmapStart, 0), Cut32(r.blocks));
    var img2 := Overwritten(img1, bs, Seek(bs, h.megablockBitmapStart, 0), Cut32(r.megas));
    var img3 := Overwritten(img2, bs, Seek(bs, h.inodeBitmapStart, 0), Cut32(r.inodes));
    var img4 := Overwritten(img3, bs, Seek(bs, h.inodeTableStart, 0), Cut32(r.table));
    OverwrittenRead(img4, bs, Seek(bs, offset, 0), r.header);
  }

  lemma OverwrittenLaid(img: Image, bs: nat, start: nat, n: nat, bytes: seq<Byte>)
    requires Even(img, bs) && bs > 0 && |bytes| == Cap(bs, n) && start + n <= |img|
    ensures Overwritten(img, bs, Cap(bs, start), bytes) == Laid(img, bs, start, n, bytes)
  {
    var r, w := Overwritten(img, bs, Cap(bs, start), bytes), Laid(img, bs, start, n, bytes);
    forall x | 0 <= x < |img| ensures r[x] == w[x] {
      BlockOfRegion(bs, start, n, x);
      hide Cap;
      if start <= x < start + n {
        assert w[x] == Piece(bytes, bs, n, x - start);
      }
      forall i | 0 <= i < bs ensures r[x][i] == w[x][i] { }
    }
  }

  /** The bytes of block `x` lie before, in or behind `n` blocks from `start` on. */
  lemma BlockOfRegion(bs: nat, start: nat, n: nat, x: nat)
    ensures x < start ==> Cap(bs, x) + bs <= Cap(bs, start)
    ensures start <= x < start + n ==>
      Cap(bs, x) == Cap(bs, start) + Cap(bs, x - start) && Cap(bs, x - start) + bs <= Cap(bs, n)
    ensures start + n <= x ==> Cap(bs, start) + Cap(bs, n) <= Cap(bs, x)
  {
    assert Cap(bs, start + n) == Cap(bs, start) + Cap(bs, n);
    if x < start { CapBelow(bs, x, start); }
    else if x < start + n {
      CapBelow(bs, x - start, n);
      assert bs * x == bs * start + bs * (x - start);
    } else if start + n < x { CapBelow(bs, start + n, x); }
  }

  /** Below 4 GiB the metadata is written where it belongs. */
  lemma StampedInPlace(img: Image, h: Header, offset: nat, r: Regions)
    requires Fill(h, offset, r, |img|) && Even(img, h.blockSize) && Cap(h.blockSize, h.dataStart) <= U32
    ensures Stamped(img, h, offset, r) == Finished(img, h, offset, r)
  {
    hide Overwritten, Seek, Cut32, Cap, Laid, WriteAt;
    var bs := h.blockSize;
    OneInPlace(img, bs, h.blockBitmapStart, h.blockBitmapBlocks, r.blocks, h.dataStart);
    var img1 := Laid(img, bs, h.blockBitmapStart, h.blockBitmapBlocks, r.blocks);
    OneInPlace(img1, bs, h.megablockBitmapStart, h.megablockBitmapBlocks, r.megas, h.dataStart);
    var img2 := Laid(img1, bs, h.megablockBitmapStart, h.megablockBitmapBlocks, r.megas);
    OneInPlace(img2, bs, h.inodeBitmapStart, h.inodeBitmapBlocks, r.inodes, h.dataStart);
    var img3 := Laid(img2, bs, h.inodeBitmapStart, h.inodeBitmapBlocks, r.inodes);
    OneInPlace(img3, bs, h.inodeTableStart, h.inodeTableBlocks, r.table, h.dataStart);
    var img4 := Laid(img3, bs, h.inodeTableStart, h.inodeTableBlocks, r.table);
    CapBelow(bs, offset, h.dataStart);
    SeekExact(bs, offset);
    OverwrittenBlock(img4, bs, offset, 0, r.header);
  }

  lemma OneInPlace(img: Image, bs: nat, start: nat, n: nat, bytes: seq<Byte>, end: nat)
    requires Even(img, bs) && bs > 0 && |bytes| == Cap(bs, n)
    requires 0 < start && start + n <= end <= |img|
    requires Cap(bs, end) <= U32
    ensures Overwritten(img, bs, Seek(bs, start, 0), Cut32(bytes)) == Laid(img, bs, start, n, bytes)
    ensures Even(Laid(img, bs, start, n, bytes), bs)
  {
    OverwrittenLaid(img, bs, start, n, bytes);
    if n > 0 {
      BlockOfRegion(bs, start, n, end);
      BlockOfRegion(bs, 0, start, 0);
      assert Cut32(bytes) == bytes;
    } else {
      OverwrittenNone(img, bs, Cap(bs, start));
      OverwrittenNone(img, bs, Seek(bs, start, 0));
    }
  }

  /** The same writes, with every region where it belongs. */
  function Finished(img: Image, h: Header, offset: nat, r: Regions): (img': Image)
    requires Fill(h, offset, r, |img|) && forall b :: 0 <= b < |img| ==> |img[b]| == h.blockSize
    ensures |img'| == |img| && forall b :: h.dataStart <= b < |img| ==> img'[b] == img[b]
  {
    var img1 := Laid(img, h.blockSize, h.blockBitmapStart, h.blockBitmapBlocks, r.blocks);
    var img2 := Laid(img1, h.blockSize, h.megablockBitmapStart, h.megablockBitmapBlocks, r.megas);
    var img3 := Laid(img2, h.blockSize, h.inodeBitmapStart, h.inodeBitmapBlocks, r.inodes);
    var img4 := Laid(img3, h.blockSize, h.inodeTableStart, h.inodeTableBlocks, r.table);
    WriteAt(img4, offset, 0, r.header)
  }

  /** Each region reads back as written. */
  lemma FinishedRead(img: Image, h: Header, offset: nat, r: Regions)
    requires Fill(h, offset, r, |img|) && forall b :: 0 <= b < |img| ==> |img[b]| == h.blockSize
    ensures var img', bs := Finished(img, h, offset, r), h.blockSize;
      && Region(img', bs, Cap(bs, h.blockBitmapStart), |r.blocks|) == r.blocks
      && Region(img', bs, Cap(bs, h.megablockBitmapStart), |r.megas|) == r.megas
      && Region(img', bs, Cap(bs, h.inodeBitmapStart), |r.inodes|) == r.inodes
      && Region(img', bs, Cap(bs, h.inodeTableStart), |r.table|) == r.table
      && SuperAt(img', bs, offset) == GetHeader(r.header)
    ensures forall b :: 0 <= b < |img| ==> |Finished(img, h, offset, r)[b]| == h.blockSize
  {
    hide Region, Cap, GetHeader, SuperAt;
    var bs := h.blockSize;
    var img1 := Laid(img, bs, h.blockBitmapStart, h.blockBitmapBlocks, r.blocks);
    var img2 := Laid(img1, bs, h.megablockBitmapStart, h.megablockBitmapBlocks, r.megas);
    var img3 := Laid(img2, bs, h.inodeBitmapStart, h.inodeBitmapBlocks, r.inodes);
    var img4 := Laid(img3, bs, h.inodeTableStart, h.inodeTableBlocks, r.table);
    var img' := WriteAt(img4, offset, 0, r.header);
    assert img' == Finished(img, h, offset, r);
    assert forall b :: 0 <= b < |img| ==> |img'[b]| == bs;
    HeaderRead(img4, bs, offset, r.header);
    hide WriteAt, Finished;
    LaidWhole(img, img', bs, h.blockBitmapStart, h.blockBitmapBlocks, r.blocks);
    LaidWhole(img1, img', bs, h.megablockBitmapStart, h.megablockBitmapBlocks, r.megas);
    LaidWhole(img2, img', bs, h.inodeBitmapStart, h.inodeBitmapBlocks, r.inodes);
    LaidWhole(img3, img', bs, h.inodeTableStart, h.inodeTableBlocks, r.table);
  }

  lemma LaidWhole(img: Image, img': Image, bs: nat, start: nat, n: nat, bytes: seq<Byte>)
    requires bs > 0 && |bytes| == Cap(bs, n) && start + n <= |img| == |img'|
    requires forall b :: start <= b < start + n ==> img'[b] == Laid(img, bs, start, n, bytes)[b]
    ensures Region(img', bs, Cap(bs, start), |bytes|) == bytes
  {
    hide Region, Cap, Laid;
    RegionLaid(img, bs, start, n, bytes, 0, |bytes|);
    assert bytes[0..0 + |bytes|] == bytes;
    RegionFrame(Laid(img, bs, start, n, bytes), img', bs, start, n, |bytes|);
  }

  /** What the tools store that no reader here uses: the rest of the inodes and of the header, and what follows the
      inode table and the megablock bitmap in their last blocks. */
  datatype Rest = Rest(extras: seq<Extra>, tableSlack: seq<Byte>, megaSlack: seq<Byte>, jump: seq<Byte>,
      boot: seq<Byte>)

  predicate Suits(h: Header, x: Rest) {
    && |x.extras| == h.inodeCount && (forall i :: 0 <= i < |x.extras| ==> Sized(x.extras[i]))
    && INODE_SIZE * h.inodeCount + |x.tableSlack| == Cap(h.blockSize, h.inodeTableBlocks)
    && h.megablockBitmapSize + |x.megaSlack| == Cap(h.blockSize, h.megablockBitmapBlocks)
    && |x.jump| == 3 && |x.boot| == HEADER_SIZE - 3 - 4 * WORDS
  }

  function RegionsOf(h: Header, blocks: seq<bv8>, megas: seq<bv8>, inodes: seq<bv8>, table: seq<Inode>, s: Super,
                     x: Rest): (r: Regions)
    requires Suits(h, x) && |table| == h.inodeCount && Storable32(s)
    requires |blocks| == Cap(h.blockSize, h.blockBitmapBlocks)
    requires |megas| == h.megablockBitmapSize && |inodes| == Cap(h.blockSize, h.inodeBitmapBlocks)
    ensures |r.blocks| == |blocks| && |r.megas| == Cap(h.blockSize, h.megablockBitmapBlocks) && |r.inodes| == |inodes|
    ensures |r.table| == Cap(h.blockSize, h.inodeTableBlocks) && |r.header| == HEADER_SIZE
  {
    Regions(BitmapBytes(blocks), BitmapBytes(megas) + x.megaSlack, BitmapBytes(inodes),
        TableBytes(table, x.extras) + x.tableSlack,
            PutHeader(s, x.jump, x.boot))
  }

  /** From the image alone: the header, the bitmaps and the inode table. */
  lemma ReadsBack(img: Image, h: Header, offset: nat, blocks: seq<bv8>, megas: seq<bv8>, inodes: seq<bv8>,
                  table: seq<Inode>, s: Super, x: Rest)
    requires Suits(h, x) && |table| == h.inodeCount && Storable32(s)
    requires |blocks| == Cap(h.blockSize, h.blockBitmapBlocks)
    requires |megas| == h.megablockBitmapSize && |inodes| == Cap(h.blockSize, h.inodeBitmapBlocks)
    requires Fill(h, offset, RegionsOf(h, blocks, megas, inodes, table, s, x), |img|)
    requires forall b :: 0 <= b < |img| ==> |img[b]| == h.blockSize
    ensures var img', bs := Finished(img, h, offset, RegionsOf(h, blocks, megas, inodes, table, s, x)), h.blockSize;
      && SuperAt(img', bs, offset) == s && TableAt(img', bs, h.inodeTableStart, h.inodeCount) == CutAll(table)
      && BitmapAt(img', bs, h.blockBitmapStart, |blocks|) == blocks
      && BitmapAt(img', bs, h.inodeBitmapStart, |inodes|) == inodes
      && BitmapAt(img', bs, h.megablockBitmapStart, |megas|) == megas
  {
    hide Finished, Region, Cap, GetHeader, PutHeader, SuperAt, BitmapBytes, TableBytes, TableAt, BitmapAt, Fields;
    var r, bs := RegionsOf(h, blocks, megas, inodes, table, s, x), h.blockSize;
    var img' := Finished(img, h, offset, r);
    FinishedRead(img, h, offset, r);
    HeaderRoundTrip(s, x.jump, x.boot);
    TableRead(img', bs, h.inodeTableStart, table, x.extras, x.tableSlack);
    BitmapRead(img', bs, h.blockBitmapStart, blocks);
    BitmapRead(img', bs, h.inodeBitmapStart, inodes);
    RegionPart(img', bs, Cap(bs, h.megablockBitmapStart), |r.megas|, 0, |megas|);
    assert r.megas[0..0 + |megas|] == BitmapBytes(megas);
    BitmapRead(img', bs, h.megablockBitmapStart, megas);
  }

  // ---- the kernel's read of one inode -------------------------------------------------------------

  /** What the kernel knows of a volume: its header, its root inode and the sector size of the disk. */
  datatype Context = Context(header: Header, root: nat, sector: nat)

  /** What a read of the disk returns. */
  datatype DiskRead<T> = DiskError | Got(value: T)

  /** The sectors hold whole inodes and the blocks whole sectors. */
  predicate Geometry(c: Context) {
    c.sector > 0 && c.sector % INODE_SIZE == 0 && c.header.blockSize > 0 && c.header.blockSize % c.sector == 0
  }

  /** The directory entries of a block. */
  function Per(c: Context): nat {
    c.header.blockSize / DIRENT_SIZE
  }

  /** Besides, the image ends below 4 GiB. */
  predicate Sectored(img: Image, c: Context) {
    Geometry(c) && Cap(c.header.blockSize, |img|) <= U32
  }

  /** The sectors of block `b`, in unsigned 32-bit arithmetic. Sectors outside the image are a failed read. */
  function BlockAt(img: Image, c: Context, b: nat): (r: DiskRead<seq<Byte>>)
    requires c.sector > 0 && c.header.blockSize > 0
    ensures r.Got? ==> |r.value| == c.header.blockSize
  {
    var lba := b * c.header.blockSize % U32 / c.sector;
    SectorsAt(img, c.header.blockSize, Cap(c.sector, lba))
  }

  function SectorsAt(img: Image, bs: nat, off: nat): (r: DiskRead<seq<Byte>>)
    requires bs > 0
    ensures r.Got? ==> |r.value| == bs
  {
    if off + bs > Cap(bs, |img|) then DiskError else Got(Region(img, bs, off, bs))
  }

  /** Below 4 GiB, block `b` is read where it is. */
  lemma BlockAtExact(img: Image, c: Context, b: nat)
    requires Sectored(img, c) && b < |img|
    ensures BlockAt(img, c, b) == Got(DiskTree.At(img, b, c.header.blockSize))
  {
    hide Region, SectorsAt;
    var bs, ss := c.header.blockSize, c.sector;
    BlockOffsetExact(bs, ss, b, |img|);
    WholeBlockRead(img, bs, b);
  }

  lemma BlockOffsetExact(bs: nat, ss: nat, b: nat, total: nat)
    requires ss > 0 && bs > 0 && bs % ss == 0
    requires b < total && Cap(bs, total) <= U32
    ensures Cap(ss, b * bs % U32 / ss) == Cap(bs, b)
  {
    CapBelow(bs, b, total);
    var off, k := b * bs, bs / ss;
    assert off == Cap(bs, b) < U32;
    assert bs == k * ss;
    Regroup(b, k, ss);
    DivUnique(off, ss, b * k, 0);
  }

  lemma Regroup(b: nat, k: nat, ss: nat)
    ensures b * (k * ss) == (b * k) * ss
  {
  }

  lemma WholeBlockRead(img: Image, bs: nat, b: nat)
    requires bs > 0 && b < |img|
    ensures SectorsAt(img, bs, Cap(bs, b)) == Got(DiskTree.At(img, b, bs))
  {
    CapBelow(bs, b, |img|);
    RegionBlock(img, bs, b);
  }

  /** bsfs_read_inode: the sector the inode is in, then the inode within it, in unsigned 32-bit arithmetic. A sector
      outside the image is a failed read. */
  function ReadInode(img: Image, c: Context, idx: nat): DiskRead<Inode>
    requires c.sector > 0 && c.header.blockSize > 0
  {
    InodeAt(img, c.header.blockSize, c.sector, (c.header.inodeTableStart * c.header.blockSize + INODE_SIZE * idx) % U32)
  }

  function InodeAt(img: Image, bs: nat, ss: nat, off: nat): DiskRead<Inode>
    requires ss > 0 && bs > 0
  {
    var lba, k := off / ss, off % ss / INODE_SIZE;
    if Cap(ss, lba) + ss > Cap(bs, |img|) || INODE_SIZE * k + INODE_SIZE > ss then DiskError
    else Got(GetInode(Region(img, bs, Cap(ss, lba), ss)[INODE_SIZE * k..INODE_SIZE * k + INODE_SIZE]))
  }

  /** The inode at byte `off` lies within its sector, and the sector within the image. */
  ghost predicate InSector(ss: nat, off: nat, total: nat)
    requires ss > 0
  {
    var k := off % ss / INODE_SIZE;
    INODE_SIZE * k + INODE_SIZE <= ss && Cap(ss, off / ss) + INODE_SIZE * k == off && Cap(ss, off / ss) + ss <= total
  }

  lemma SectorPlace(ss: nat, off: nat, total: nat)
    requires ss > 0 && ss % INODE_SIZE == 0 && off % INODE_SIZE == 0
    requires off < total && total % ss == 0
    ensures InSector(ss, off, total)
  {
    var q, r, m := off / ss, off % ss, total / ss;
    assert off == q * ss + r && total == m * ss;
    Remainder(ss, q, r);
    if q > m { MulStep(q, m, ss); }
    MulStep(m, q, ss);
  }

  lemma Remainder(ss: nat, q: nat, r: nat)
    requires ss % INODE_SIZE == 0 && (q * ss + r) % INODE_SIZE == 0 && r < ss
    ensures r % INODE_SIZE == 0 && r + INODE_SIZE <= ss
  {
    var u := ss / INODE_SIZE;
    assert ss == INODE_SIZE * u;
    var v := q * u;
    assert q * ss == INODE_SIZE * v;
  }

  /** Read by its sector, inode `idx` is the one the table has there. */
  lemma ReadInodeExact(img: Image, c: Context, idx: nat)
    requires Sectored(img, c) && idx < c.header.inodeCount
    requires INODE_SIZE * c.header.inodeCount <= Cap(c.header.blockSize, c.header.inodeTableBlocks)
    requires c.header.inodeTableStart + c.header.inodeTableBlocks <= |img|
    ensures ReadInode(img, c, idx) == Got(TableAt(img, c.header.blockSize, c.header.inodeTableStart,
      c.header.inodeCount)[idx])
  {
    hide Cap, GetInode, Region, InodeAt, InSector;
    var bs, start := c.header.blockSize, c.header.inodeTableStart;
    InodeSector(bs, c.sector, start, c.header.inodeTableBlocks, |img|, idx);
    SectorRead(img, bs, c.sector, Cap(bs, start) + INODE_SIZE * idx);
  }

  /** Inode `idx` lies below 4 GiB and within a sector of the image. */
  lemma InodeSector(bs: nat, ss: nat, start: nat, n: nat, total: nat, idx: nat)
    requires bs > 0 && ss > 0 && ss % INODE_SIZE == 0 && bs % ss == 0
    requires INODE_SIZE * idx < Cap(bs, n) && start + n <= total && Cap(bs, total) <= U32
    ensures InSector(ss, Cap(bs, start) + INODE_SIZE * idx, Cap(bs, total))
    ensures (start * bs + INODE_SIZE * idx) % U32 == Cap(bs, start) + INODE_SIZE * idx
  {
    hide Cap, InSector;
    TableInside(bs, start, n, total, INODE_SIZE * idx);
    WholeSectors(bs, ss, total, start);
    SectorPlace(ss, Cap(bs, start) + INODE_SIZE * idx, Cap(bs, total));
  }

  lemma SectorRead(img: Image, bs: nat, ss: nat, off: nat)
    requires ss > 0 && bs > 0 && InSector(ss, off, Cap(bs, |img|))
    ensures InodeAt(img, bs, ss, off) == Got(GetInode(Region(img, bs, off, INODE_SIZE)))
  {
    hide GetInode, Region, Cap;
    var lba, k := off / ss, off % ss / INODE_SIZE;
    RegionPart(img, bs, Cap(ss, lba), ss, INODE_SIZE * k, INODE_SIZE);
  }

  lemma TableInside(bs: nat, start: nat, n: nat, total: nat, k: nat)
    requires start + n <= total && k < Cap(bs, n)
    ensures Cap(bs, start) + k < Cap(bs, total) && Cap(bs, start) == start * bs
  {
    assert bs * (start + n) == bs * start + bs * n;
    if start + n < total { MulStep(total, start + n, bs); }
  }

  lemma WholeSectors(bs: nat, ss: nat, total: nat, start: nat)
    requires ss > 0 && ss % INODE_SIZE == 0 && bs % ss == 0 && bs > 0
    ensures Cap(bs, total) % ss == 0 && Cap(bs, start) % INODE_SIZE == 0 && ss >= INODE_SIZE
  {
    var k, u := bs / ss, ss / INODE_SIZE;
    assert bs == k * ss && ss == INODE_SIZE * u;
    assert bs * total == (k * total) * ss + 0;
    DivUnique(bs * total, ss, k * total, 0);
    assert bs * start == INODE_SIZE * (k * u * start);
  }
}
