/** Writing a directory tree into an image (tools/bsfs/bsfs-populate.c:252-475). */
module Populate {
  import opened Division
  import opened Layout
  import opened BlockAllocator
  import opened DiskFormat
  import opened DiskTree
  import opened DiskWrites
  import opened ImageBytes

  /** Every block has the block size, and blocks not in use are zero. */
  ghost predicate Clean(img: Image, bs: nat, used: set<nat>) {
    forall b :: 0 <= b < |img| ==> |img[b]| == bs && (b !in used ==> img[b] == Zeros(bs))
  }

  /** Inodes not in use are zero. */
  ghost predicate Blank(table: seq<Inode>, used: set<nat>) {
    forall i :: 0 <= i < |table| ==> i !in used ==> table[i] == ZeroInode()
  }

  /** The state of a volume: its blocks and inodes, which of them are in use, and the header's counts. */
  datatype Disk = Disk(img: Image, table: seq<Inode>, used: set<nat>, iused: set<nat>, free: nat, ifree: nat)

  /** Blocks are taken from below: those in use come before those that are free. */
  ghost predicate Sound(d: Disk, per: nat) {
    && per > 0 && |d.img| <= U32 && |d.table| <= U32 && 0 in d.used && 0 in d.iused
    && (forall b: nat :: b in d.used <==> b + d.free < |d.img|) && (forall i :: i in d.iused ==> i < |d.table|)
    && Clean(d.img, DIRENT_SIZE * per, d.used) && Blank(d.table, d.iused)
  }

  /** Nothing in use before has changed, but for inode `idx`. */
  ghost predicate Kept(d: Disk, d': Disk, idx: nat) {
    && d.used <= d'.used && d.iused <= d'.iused && SameBlocks(d.img, d'.img, d.used)
    && |d'.table| == |d.table| && forall i :: i in d.iused && i < |d.table| && i != idx ==> d'.table[i] == d.table[i]
  }

  /** Which block of an inode byte `size` is in, and where in it. */
  function BlockIndex(size: nat, bs: nat): nat
    requires bs > 0
  {
    size / bs
  }

  function BlockOffset(size: nat, bs: nat): nat
    requires bs > 0
  {
    size % bs
  }

  /** Where the next directory entry goes, as bsfs_alloc_dirent computes it from the size. */
  lemma SlotPlace(n: nat, per: nat, ptrs: nat)
    requires per > 0 && Enough(n, per, ptrs)
    ensures var size, bs := DIRENT_SIZE * n, DIRENT_SIZE * per;
      if n == Cap(per, ptrs) then BlockIndex(size, bs) == ptrs && BlockOffset(size, bs) == 0
      else
        && ptrs > 0 && Cap(per, ptrs - 1) <= n && BlockIndex(size, bs) == ptrs - 1
        && BlockOffset(size, bs) == DIRENT_SIZE * (n - Cap(per, ptrs - 1))
  {
    var size, bs := DIRENT_SIZE * n, DIRENT_SIZE * per;
    if n == per * ptrs {
      Scaled(ptrs, per);
      DivUnique(size, bs, ptrs, 0);
    } else {
      Scaled(ptrs - 1, per);
      assert per * ptrs == per * (ptrs - 1) + per;
      DivUnique(size, bs, ptrs - 1, DIRENT_SIZE * (n - per * (ptrs - 1)));
    }
  }

  lemma Scaled(k: nat, per: nat)
    ensures DIRENT_SIZE * (per * k) == k * (DIRENT_SIZE * per)
  {
  }

  /** Every entry lies within one block exactly when the entry size divides the block size; a block size of 1100,
      which the tools accept, fails. */
  lemma EntriesWithinBlocks(bs: nat)
    requires bs > 0
    ensures (forall n: nat ::
      BlockIndex(DIRENT_SIZE * n, bs) < DIRECT ==> BlockOffset(DIRENT_SIZE * n, bs) + DIRENT_SIZE <= bs) <==>
      bs % DIRENT_SIZE == 0
    ensures BlockOffset(DIRENT_SIZE * 8, 1100) + DIRENT_SIZE > 1100
  {
    var per := bs / DIRENT_SIZE;
    if bs % DIRENT_SIZE == 0 {
      forall n: nat ensures BlockOffset(DIRENT_SIZE * n, bs) + DIRENT_SIZE <= bs { OffsetOnGrid(n, per); }
    } else {
      DivUnique(DIRENT_SIZE * per, bs, 0, DIRENT_SIZE * per);
      assert BlockIndex(DIRENT_SIZE * per, bs) < DIRECT && BlockOffset(DIRENT_SIZE * per, bs) + DIRENT_SIZE > bs;
    }
  }

  lemma OffsetOnGrid(n: nat, per: nat)
    requires per > 0
    ensures BlockOffset(DIRENT_SIZE * n, DIRENT_SIZE * per) + DIRENT_SIZE <= DIRENT_SIZE * per
  {
    var q, r := n / per, n % per;
    assert n == q * per + r;
    Scaled(q, per);
    DivUnique(DIRENT_SIZE * n, DIRENT_SIZE * per, q, DIRENT_SIZE * r);
  }

  lemma HeaderFits(h: Header, offset: nat)
    requires 0 < h.blockSize < U32 && h == Format(h.totalBlocks, h.blockSize, offset)
    ensures h.totalBlocks <= 8 * (h.blockBitmapBlocks * h.blockSize) && h.blockBitmapBlocks <= 8 * h.megablockBitmapSize
    ensures h.inodeCount <= 8 * (h.inodeBitmapBlocks * h.blockSize) && h.inodeCount <= h.totalBlocks && h.dataStart > 0
  {
    RegionsFit(h.totalBlocks, h.blockSize, offset);
  }

  lemma Multiple(bs: nat)
    requires bs > 0 && bs % DIRENT_SIZE == 0
    ensures bs % 8 == 0 && bs / DIRENT_SIZE > 0 && DIRENT_SIZE * (bs / DIRENT_SIZE) == bs
  {
  }

  // ---- the volume -----------------------------------------------------------------------------------------

  class Volume {
    const per: nat   // directory entries per block
    const blocks: BlockMap
    const inodes: InodeMap
    var img: Image
    var table: seq<Inode>
    ghost var intended: Image   // what the writes would make of the image if every block were at its own place

    /** While the blocks in use end below 4 GiB, the image is as intended. */
    ghost predicate Valid()
      reads this, blocks, blocks.blocks, blocks.megas, inodes, inodes.bitmap
    {
      && blocks.Valid() && inodes.Valid() && inodes.bitmap != blocks.blocks && inodes.bitmap != blocks.megas
      && blocks.blockSize == DIRENT_SIZE * per && |img| == |intended| == blocks.total && |table| == inodes.count
      && blocks.dataStart > 0 && blocks.free <= blocks.total && Even(img, DIRENT_SIZE * per)
      && Sound(State(), per)
      && (Cap(DIRENT_SIZE * per, blocks.total - blocks.free) <= U32 ==> img == intended)
    }

    /** The volume as intended. */
    ghost function State(): Disk
      reads this, blocks, blocks.blocks, inodes, inodes.bitmap
    {
      Disk(intended, table, blocks.Used(), inodes.Used(), blocks.free, inodes.free)
    }

    /** A zeroed image formatted as `h`, with the metadata blocks and the sentinel inode taken. */
    constructor (h: Header, ghost offset: nat)
      requires 0 < h.blockSize < U32 && h == Format(h.totalBlocks, h.blockSize, offset)
      requires h.blockSize % DIRENT_SIZE == 0
      requires h.dataStart <= h.totalBlocks && 8 * (h.blockBitmapBlocks * h.blockSize) < U32
      requires 8 * h.megablockBitmapSize < U32 && h.inodeCount > 0
      ensures Valid() && fresh(blocks) && fresh(blocks.blocks)
      ensures fresh(blocks.megas) && fresh(inodes) && fresh(inodes.bitmap)
      ensures per == h.blockSize / DIRENT_SIZE && State().iused == {0} && State().free == h.totalBlocks - h.dataStart
      ensures State().ifree == h.inodeCount - 1
      ensures (forall i: nat :: i in State().used <==> i < h.dataStart) && |State().table| == h.inodeCount
      ensures State().table[0] == ZeroInode()
      ensures blocks.total == h.totalBlocks && inodes.count == h.inodeCount
      ensures blocks.blocks.Length == First(h.blockBitmapBlocks, h.blockSize)
      ensures h.megablockBitmapSize <= blocks.megas.Length
      ensures inodes.bitmap.Length == WholeWords(First(h.inodeBitmapBlocks, h.blockSize))
    {
      HeaderFits(h, offset);
      Multiple(h.blockSize);
      hide Format;
      per := h.blockSize / DIRENT_SIZE;
      blocks := new BlockMap(h);
      inodes := new InodeMap(h);
      img := seq(h.totalBlocks, _ => Zeros(h.blockSize));
      intended := seq(h.totalBlocks, _ => Zeros(h.blockSize));
      table := seq(h.inodeCount, _ => ZeroInode());
      new;
      hide BlockMap.Valid, InodeMap.Valid, BlockMap.Used, InodeMap.Used, First, WholeWords;
      TakeSentinel();
    }

    /** Inode 0 is never handed out as data. */
    method TakeSentinel()
      requires inodes.Valid() && inodes.free > 0 && inodes.Used() == {}
      modifies inodes, inodes.bitmap
      ensures inodes.Valid() && inodes.Used() == {0} && inodes.free == old(inodes.free) - 1
    {
      var sentinel := inodes.Alloc();
      assert 0 !in old(inodes.Used());
    }

    /** A fresh block. */
    method AllocBlock() returns (b: nat)
      requires Valid() && State().free > 0
      modifies blocks, blocks.blocks, blocks.megas
      ensures Valid() && TookBlock(old(State()), State(), per, b)
    {
      hide BlockMap.Valid, InodeMap.Valid, BlockMap.Used, InodeMap.Used, Cap;
      b := blocks.Alloc();
      NextBlock(old(State()), b);
      CapBelow(DIRENT_SIZE * per, b, b + 1);
    }

    /** A fresh inode. */
    method AllocInode() returns (i: nat)
      requires Valid() && State().ifree > 0
      modifies inodes, inodes.bitmap
      ensures Valid() && TookInode(old(State()), State(), i)
    {
      hide BlockMap.Valid, InodeMap.Valid, BlockMap.Used, InodeMap.Used;
      i := inodes.Alloc();
    }

    /** Writes to blocks in use, given by the images they make. */
    method Overwrite(img': Image, ghost intended': Image)
      requires Valid() && |img'| == |State().img| && Even(img', DIRENT_SIZE * per)
      requires |intended'| == |State().img| && Even(intended', DIRENT_SIZE * per)
      requires forall b :: 0 <= b < |intended'| && b !in State().used ==> intended'[b] == State().img[b]
      requires Cap(DIRENT_SIZE * per, |State().img| - State().free) <= U32 ==> img' == intended'
      modifies `img, `intended
      ensures Valid() && State() == old(State()).(img := intended') && img == img'
    {
      hide BlockMap.Valid, InodeMap.Valid, BlockMap.Used, InodeMap.Used, Cap;
      img, intended := img', intended';
    }

    /** A write to a block in use, at a 32-bit offset. */
    method Write(b: nat, off: nat, data: seq<Byte>)
      requires Valid() && b in State().used && off + |data| <= DIRENT_SIZE * per
      modifies `img, `intended
      ensures Valid() && b < |old(State()).img| && |old(State()).img[b]| == DIRENT_SIZE * per
      ensures State() == old(State()).(img := WriteAt(old(State()).img, b, off, data))
      ensures img == Overwritten(old(img), DIRENT_SIZE * per, Seek(DIRENT_SIZE * per, b, off), data)
    {
      hide BlockMap.Valid, InodeMap.Valid, BlockMap.Used, InodeMap.Used, Overwritten, WriteAt, Seek, Cap;
      WriteInPlace(img, DIRENT_SIZE * per, b, off, data, blocks.total - blocks.free);
      img := Overwritten(img, DIRENT_SIZE * per, Seek(DIRENT_SIZE * per, b, off), data);
      intended := WriteAt(intended, b, off, data);
    }

    /** An inode in use gets new contents. */
    method SetInode(i: nat, ino: Inode)
      requires Valid() && i in State().iused
      modifies `table
      ensures Valid() && i < |old(State()).table| && State() == old(State()).(table := old(State()).table[i := ino])
    {
      hide BlockMap.Valid, InodeMap.Valid, BlockMap.Used, InodeMap.Used;
      table := table[i := ino];
    }
  }

  lemma NextBlock(d: Disk, b: nat)
    requires (forall i: nat :: i in d.used <==> i + d.free < |d.img|) && b !in d.used && d.free <= |d.img|
    requires forall i: nat :: i < b ==> i in d.used
    ensures b + d.free == |d.img|
  {
    var n: nat := |d.img| - d.free;
    assert n !in d.used;
  }

  /** Among the first `n` blocks, which end below 4 GiB, a write goes where it belongs. */
  lemma WriteInPlace(img: Image, bs: nat, b: nat, off: nat, data: seq<Byte>, n: nat)
    requires Even(img, bs) && b < n <= |img| && off + |data| <= bs
    ensures Cap(bs, n) <= U32 ==> Overwritten(img, bs, Seek(bs, b, off), data) == WriteAt(img, b, off, data)
  {
    OverwrittenBlock(img, bs, b, off, data);
    CapBelow(bs, b, n);
    if Cap(bs, n) <= U32 && off == bs {
      assert data == [];
      OverwrittenNone(img, bs, Seek(bs, b, off));
      OverwrittenNone(img, bs, Cap(bs, b) + off);
    }
  }

  /** The next block is taken. */
  ghost predicate TookBlock(d: Disk, d': Disk, per: nat, b: nat) {
    && d.free > 0 && d' == d.(used := d.used + {b}, free := d.free - 1) && b + d.free == |d.img|
    && b !in d.used && 0 < b < |d.img| && d.img[b] == Zeros(DIRENT_SIZE * per)
  }

  ghost predicate TookInode(d: Disk, d': Disk, i: nat) {
    && d.ifree > 0 && d' == d.(iused := d.iused + {i}, ifree := d.ifree - 1)
    && i !in d.iused && 0 < i < |d.table| && d.table[i] == ZeroInode()
  }
}
