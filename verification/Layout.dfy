/** Where mkfs.bsfs puts the regions of an image (tools/bsfs/mkfs.bsfs.c:124-146). */
module Layout {
  import opened Division

  const INODE_SIZE: nat := 128
  const DIRENT_SIZE: nat := 128
  const U32: nat := 0x1_0000_0000
  const MOST_BLOCKS: nat := 0x800_0000   // from 2^27 blocks on, the size of the inode table does not fit 32 bits

  /** DIV_CEIL. */
  function DivCeil(a: nat, b: nat): nat
    requires b > 0
  {
    (a + b - 1) / b
  }

  /** The fields of the header that describe the layout. */
  datatype Header = Header(
    blockSize: nat, totalBlocks: nat, inodeCount: nat, freeBlocks: int,
    blockBitmapStart: nat, blockBitmapBlocks: nat,
    megablockBitmapStart: nat, megablockBitmapBlocks: nat, megablockBitmapSize: nat,
    inodeBitmapStart: nat, inodeBitmapBlocks: nat,
    inodeTableStart: nat, inodeTableBlocks: nat,
    dataStart: nat)

  /** The layout of an image of `total` blocks of `bs` bytes with the header in block `offset`. The size of the inode
      table is a 32-bit product. */
  function Format(total: nat, bs: nat, offset: nat): Header
    requires bs > 0
  {
    var inodes := total / 4;
    var bb := DivCeil(DivCeil(total, 8), bs);
    var mega := DivCeil(DivCeil(total, bs * 8), 8);
    var mb := DivCeil(mega, bs);
    var ib := DivCeil(DivCeil(inodes, 8), bs);
    var it := DivCeil(inodes * INODE_SIZE % U32, bs);
    var reserved := offset + 1;
    Header(bs, total, inodes, total - (reserved + bb + mb + ib + it),
           reserved, bb, reserved + bb, mb, mega, reserved + bb + mb, ib, reserved + bb + mb + ib, it,
               reserved + bb + mb + ib + it)
  }

  /** Rounding up: the least multiple of `b` that covers `a`. */
  lemma CeilBounds(a: nat, b: nat)
    requires b > 0
    ensures var q := DivCeil(a, b); a <= q * b && (if a == 0 then q == 0 else q > 0 && (q - 1) * b < a)
  {
    var q, r := (a + b - 1) / b, (a + b - 1) % b;
    assert a + b - 1 == q * b + r;
    if a == 0 {
      DivUnique(b - 1, b, 0, b - 1);
    } else {
      assert (q - 1) * b == q * b - b;
    }
  }

  lemma CeilUnique(a: nat, b: nat, q: nat)
    requires b > 0 && a <= q * b && (if a == 0 then q == 0 else q > 0 && (q - 1) * b < a)
    ensures DivCeil(a, b) == q
  {
    if q == 0 {
      DivUnique(a + b - 1, b, 0, a + b - 1);
    } else {
      assert (q - 1) * b == q * b - b;
      DivUnique(a + b - 1, b, q, a + b - 1 - q * b);
    }
  }

  lemma MulLe(a: nat, b: nat, c: nat)
    requires a <= b
    ensures a * c <= b * c
  {
  }

  lemma MulAssoc(a: nat, b: nat, c: nat)
    ensures a * (b * c) == a * c * b
  {
  }

  /** Rounding up twice is rounding up once. */
  lemma CeilCeil(a: nat, b: nat, c: nat)
    requires b > 0 && c > 0
    ensures b * c > 0 && DivCeil(DivCeil(a, b), c) == DivCeil(a, b * c)
  {
    MulStep(c, 0, b);
    var x := DivCeil(a, b);
    var q := DivCeil(x, c);
    CeilBounds(a, b);
    CeilBounds(x, c);
    CeilMul(a, b, c, x, q);
    CeilUnique(a, b * c, q);
  }

  lemma CeilMul(a: nat, b: nat, c: nat, x: nat, q: nat)
    requires a <= x * b && (if a == 0 then x == 0 else x > 0 && (x - 1) * b < a)
    requires x <= q * c && (if x == 0 then q == 0 else q > 0 && (q - 1) * c < x)
    ensures a <= q * (b * c) && (if a == 0 then q == 0 else q > 0 && (q - 1) * (b * c) < a)
  {
    MulAssoc(q, b, c);
    MulLe(x, q * c, b);
    if a > 0 {
      MulAssoc(q - 1, b, c);
      MulLe((q - 1) * c, x - 1, b);
    }
  }

  /** The block bitmap takes one block for every megablock, so a slice of it describes one megablock. */
  lemma BitmapPerMegablock(total: nat, bs: nat, offset: nat)
    requires bs > 0
    ensures Format(total, bs, offset).blockBitmapBlocks == DivCeil(total, bs * 8)
  {
    CeilCeil(total, 8, bs);
  }

  /** The regions follow one another without gap or overlap, and the data begins where they end. The bitmaps have room
      for what they hold; the inode table does exactly on images of less than 2^27 blocks. */
  lemma RegionsFit(total: nat, bs: nat, offset: nat)
    requires 0 < bs < U32
    ensures var h := Format(total, bs, offset);
      && offset < h.blockBitmapStart
      && h.blockBitmapStart + h.blockBitmapBlocks == h.megablockBitmapStart
      && h.megablockBitmapStart + h.megablockBitmapBlocks == h.inodeBitmapStart
      && h.inodeBitmapStart + h.inodeBitmapBlocks == h.inodeTableStart
      && h.inodeTableStart + h.inodeTableBlocks == h.dataStart
      && h.freeBlocks == total - h.dataStart
      && total <= 8 * (h.blockBitmapBlocks * bs)
      && h.blockBitmapBlocks <= 8 * h.megablockBitmapSize <= 8 * (h.megablockBitmapBlocks * bs)
      && h.inodeCount <= 8 * (h.inodeBitmapBlocks * bs)
      && (h.inodeCount * INODE_SIZE <= h.inodeTableBlocks * bs <==> total < MOST_BLOCKS)
  {
    BitmapPerMegablock(total, bs, offset);
    var inodes := total / 4;
    CeilBounds(total, 8);
    CeilBounds(DivCeil(total, 8), bs);
    CeilBounds(DivCeil(total, bs * 8), 8);
    CeilBounds(DivCeil(DivCeil(total, bs * 8), 8), bs);
    CeilBounds(inodes, 8);
    CeilBounds(DivCeil(inodes, 8), bs);
    CeilBounds(inodes * INODE_SIZE % U32, bs);
    TableWraps(inodes * INODE_SIZE, bs);
    hide DivCeil;
  }

  /** No region has a block, and the megablock bitmap no byte, that what it holds does not need; there is one inode for
      every four blocks. */
  lemma NothingWasted(total: nat, bs: nat, offset: nat)
    requires 0 < bs < U32
    ensures var h := Format(total, bs, offset);
      && h.blockBitmapStart == offset + 1 && h.blockSize == bs && h.totalBlocks == total
      && (h.blockBitmapBlocks > 0 ==> 8 * ((h.blockBitmapBlocks - 1) * bs) < total)
      && (h.megablockBitmapSize > 0 ==> 8 * (h.megablockBitmapSize - 1) < h.blockBitmapBlocks)
      && (h.megablockBitmapBlocks > 0 ==> (h.megablockBitmapBlocks - 1) * bs < h.megablockBitmapSize)
      && (h.inodeBitmapBlocks > 0 ==> 8 * ((h.inodeBitmapBlocks - 1) * bs) < h.inodeCount)
      && (h.inodeTableBlocks > 0 ==> (h.inodeTableBlocks - 1) * bs < h.inodeCount * INODE_SIZE)
      && 4 * h.inodeCount <= total < 4 * h.inodeCount + 4
  {
    BitmapPerMegablock(total, bs, offset);
    var inodes := total / 4;
    CeilBounds(total, 8);
    CeilBounds(DivCeil(total, 8), bs);
    CeilBounds(DivCeil(total, bs * 8), 8);
    CeilBounds(DivCeil(DivCeil(total, bs * 8), 8), bs);
    CeilBounds(inodes, 8);
    CeilBounds(DivCeil(inodes, 8), bs);
    CeilBounds(inodes * INODE_SIZE % U32, bs);
    hide DivCeil;
  }

  lemma TableWraps(bytes: nat, bs: nat)
    requires 0 < bs < U32
    ensures bytes <= DivCeil(bytes % U32, bs) * bs <==> bytes < U32
  {
    CeilBounds(bytes % U32, bs);
    var q := DivCeil(bytes % U32, bs);
    if q > 0 { assert (q - 1) * bs == q * bs - bs; }
  }
}
