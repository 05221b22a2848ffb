/** The two-level block allocator of BSFS (tools/bsfs/bsfs.c:59-96, tools/bsfs/bsfs-populate.c:206-251): a bit per
    block, and a bit per megablock that tells whether its slice of the block bitmap is full. */
module BlockAllocator {
  import opened Bitmap
  import opened Division
  import L = Layout

  /** Bits of a bitmap slice are bits of the bitmap. */
  lemma SliceBits(bytes: seq<bv8>, from: nat, k: nat)
    requires from <= |bytes| && k < 8 * (|bytes| - from)
    ensures Bits(bytes[from..])[k] == Bits(bytes)[8 * from + k]
  {
    assert (8 * from + k) / 8 == from + k / 8 && (8 * from + k) % 8 == k % 8;
  }

  /** All bits of [lo, hi) are set. */
  ghost predicate AllSet(bits: seq<bool>, lo: nat, hi: nat)
    requires hi <= |bits|
  {
    forall i :: lo <= i < hi ==> bits[i]
  }

  /** The first block of megablock `m`, each having `w` blocks. */
  function First(m: nat, w: nat): nat {
    m * w
  }

  /** The bytes of a bitmap, rounded up to whole 64-bit words. */
  function WholeWords(bytes: nat): nat {
    (bytes + 7) / 8 * 8
  }

  lemma WholeWordsSearchable(bytes: nat)
    requires 8 * bytes <= UINT32_MAX
    ensures bytes <= WholeWords(bytes) && Searchable(WholeWords(bytes), 8 * bytes)
  {
  }

  lemma FirstOrder(m: nat, n: nat, w: nat)
    requires m <= n
    ensures First(m, w) <= First(n, w)
  {
    if m < n { MulStep(n, m, w); }
  }

  /** Megablock `m` of `w` blocks is full. */
  ghost predicate Full(bits: seq<bool>, w: nat, m: nat) {
    First(m + 1, w) <= |bits| && AllSet(bits, First(m, w), First(m + 1, w))
  }

  function SetBelow(bits: seq<bool>, n: nat): set<nat>
    requires n <= |bits|
  {
    set i | 0 <= i < n && bits[i]
  }

  lemma Counted(bits: seq<bool>, n: nat)
    requires n <= |bits|
    ensures |SetBelow(bits, n)| <= n && (|SetBelow(bits, n)| < n ==> exists i :: 0 <= i < n && !bits[i])
  {
    if n > 0 {
      Counted(bits, n - 1);
      assert SetBelow(bits, n) == SetBelow(bits, n - 1) + if bits[n - 1] then {n - 1} else {};
      if |SetBelow(bits, n)| < n && bits[n - 1] {
        assert |SetBelow(bits, n - 1)| < n - 1;
      }
    }
  }

  lemma CountSet(bits: seq<bool>, n: nat, b: nat)
    requires n <= |bits| && b < n && !bits[b]
    ensures SetBelow(bits[b := true], n) == SetBelow(bits, n) + {b}
    ensures |SetBelow(bits[b := true], n)| == |SetBelow(bits, n)| + 1
  {
  }

  /** The slice of a megablock is full exactly when its bytes are all 0xFF. */
  method SliceFull(bitmap: array<bv8>, from: nat, count: nat) returns (full: bool)
    requires from + count <= bitmap.Length
    ensures full <==> AllSet(Bits(bitmap[..]), 8 * from, 8 * (from + count))
  {
    ghost var bits := Bits(bitmap[..]);
    full := true;
    var i := 0;
    while i < count
      invariant 0 <= i <= count && AllSet(bits, 8 * from, 8 * (from + i))
    {
      ByteOf(bitmap[..], from + i);
      if bitmap[from + i] != 0xFF { return false; }
      i := i + 1;
    }
  }

  lemma ByteOf(bytes: seq<bv8>, i: nat)
    requires i < |bytes|
    ensures bytes[i] == 0xFF <==> AllSet(Bits(bytes), 8 * i, 8 * (i + 1))
  {
    FullByte(bytes[i]);
    hide ByteBit;
    assert forall k :: 0 <= k < 8 ==> Bits(bytes)[8 * i + k] == ByteBit(bytes[i], k) by {
      forall k | 0 <= k < 8 ensures Bits(bytes)[8 * i + k] == ByteBit(bytes[i], k) {
        assert (8 * i + k) / 8 == i && (8 * i + k) % 8 == k;
      }
    }
    if AllSet(Bits(bytes), 8 * i, 8 * (i + 1)) {
      forall k | 0 <= k < 8 ensures ByteBit(bytes[i], k) { assert Bits(bytes)[8 * i + k]; }
    }
    if bytes[i] == 0xFF {
      forall j | 8 * i <= j < 8 * (i + 1) ensures Bits(bytes)[j] { assert Bits(bytes)[8 * i + (j - 8 * i)]; }
    }
  }

  /** Every megablock bit tells whether its slice is full. */
  ghost predicate Summary(bits: seq<bool>, megas: seq<bool>, w: nat, mega: nat) {
    && w > 0 && |bits| == First(mega, w) && mega <= |megas|
    && forall m {:trigger megas[m]} :: 0 <= m < mega ==> megas[m] == Full(bits, w, m)
  }

  lemma Place(i: nat, w: nat, mega: nat) returns (m: nat)
    requires w > 0 && i < First(mega, w)
    ensures m < mega && First(m, w) <= i < First(m + 1, w) <= First(mega, w)
  {
    m := i / w;
    assert i == m * w + i % w;
    if m >= mega { FirstOrder(mega, m, w); }
    FirstOrder(m + 1, mega, w);
  }

  /** A clear block shows in the summary. */
  lemma SummaryOpen(bits: seq<bool>, megas: seq<bool>, w: nat, mega: nat, i: nat) returns (m: nat)
    requires Summary(bits, megas, w, mega) && i < |bits| && !bits[i]
    ensures m < mega && !megas[m]
  {
    m := Place(i, w, mega);
    assert megas[m] == Full(bits, w, m);
  }

  /** The first open megablock and the first clear block in it give the first clear block of all. */
  lemma LowestOfAll(bits: seq<bool>, megas: seq<bool>, w: nat, mega: nat, m: nat, b: nat)
    requires Summary(bits, megas, w, mega) && m < mega && First(m, w) <= b < First(m + 1, w) && b < |bits|
    requires AllSet(megas, 0, m) && AllSet(bits, First(m, w), b)
    ensures AllSet(bits, 0, b)
  {
    hide First;
    forall i | 0 <= i < b ensures bits[i] {
      var n := Place(i, w, mega);
      if n > m { FirstOrder(m + 1, n, w); }
      if n < m { assert megas[n] == Full(bits, w, n); }
    }
  }

  lemma OpenSlice(bits: seq<bool>, megas: seq<bool>, w: nat, mega: nat, m: nat)
    requires Summary(bits, megas, w, mega) && m < mega && !megas[m]
    ensures First(m + 1, w) <= |bits| && !AllSet(bits, First(m, w), First(m + 1, w))
  {
    FirstOrder(m + 1, mega, w);
    hide First;
    assert megas[m] == Full(bits, w, m);
  }

  lemma FullElsewhere(bits: seq<bool>, w: nat, m: nat, b: nat, j: nat)
    requires First(m, w) <= b < First(m + 1, w) <= |bits| && j != m
    ensures Full(bits[b := true], w, j) == Full(bits, w, j)
  {
    if j < m { FirstOrder(j + 1, m, w); } else { FirstOrder(m + 1, j, w); }
    hide First;
    var bits' := bits[b := true];
    assert First(j + 1, w) <= |bits| ==> forall i :: First(j, w) <= i < First(j + 1, w) ==> bits'[i] == bits[i];
  }

  /** Taking block `b` of megablock `m` touches no other slice. */
  lemma SummaryStep(bits: seq<bool>, megas: seq<bool>, w: nat, mega: nat, m: nat, b: nat, megas': seq<bool>)
    requires Summary(bits, megas, w, mega) && m < mega && First(m, w) <= b < First(m + 1, w) <= |bits|
    requires |megas'| == |megas|
    requires megas'[m] == Full(bits[b := true], w, m)
    requires forall j :: 0 <= j < |megas| && j != m ==> megas'[j] == megas[j]
    ensures Summary(bits[b := true], megas', w, mega)
  {
    var bits' := bits[b := true];
    hide Full, First;
    forall j | 0 <= j < mega ensures megas'[j] == Full(bits', w, j) {
      assert megas[j] == Full(bits, w, j);
      if j != m { FullElsewhere(bits, w, m, b, j); }
    }
  }

  /** With fewer blocks set than there are, one is clear and so is its megablock. */
  lemma SomeOpen(bits: seq<bool>, megas: seq<bool>, w: nat, mega: nat, n: nat)
    requires Summary(bits, megas, w, mega) && n <= |bits| && |SetBelow(bits, n)| < n
    ensures exists c :: 0 <= c < n && !bits[c]
    ensures exists m :: 0 <= m < mega && !megas[m]
  {
    hide First, Full;
    Counted(bits, n);
    var c :| 0 <= c < n && !bits[c];
    var m := SummaryOpen(bits, megas, w, mega, c);
  }

  class BlockMap {
    const blockSize: nat
    const total: nat
    const dataStart: nat
    const mega: nat       // megablocks, and blocks of block bitmap
    const megaSize: nat   // megablock_bitmap_size, in bytes
    const blocks: array<bv8>
    const megas: array<bv8>
    var free: nat         // free_blocks

    ghost predicate Valid()
      reads this, blocks, megas
    {
      && blocks != megas && blockSize > 0 && blockSize % 8 == 0 && blocks.Length == First(mega, blockSize)
      && total <= 8 * blocks.Length <= UINT32_MAX
      && megaSize <= megas.Length && Searchable(megas.Length, 8 * megaSize) && mega <= 8 * megaSize
      && Summary(Bits(blocks[..]), Bits(megas[..]), 8 * blockSize, mega)
      && dataStart <= total && AllSet(Bits(blocks[..]), 0, dataStart)
      && free + |Used()| == total
    }

    /** The bitmaps of a freshly formatted image: the metadata blocks are taken, and full megablocks are marked. */
    constructor (h: L.Header)
      requires h.blockSize > 0 && h.blockSize % 8 == 0
      requires h.dataStart <= h.totalBlocks <= 8 * First(h.blockBitmapBlocks, h.blockSize) <= UINT32_MAX
      requires h.blockBitmapBlocks <= 8 * h.megablockBitmapSize <= UINT32_MAX
      ensures Valid() && fresh(blocks) && fresh(megas)
      ensures blockSize == h.blockSize && total == h.totalBlocks && dataStart == h.dataStart
      ensures blocks.Length == First(h.blockBitmapBlocks, h.blockSize)
      ensures megaSize == h.megablockBitmapSize <= megas.Length
      ensures (forall i: nat :: i in Used() <==> i < dataStart) && free == total - dataStart
    {
      hide Bit, First, Full, Summary, WholeWords, Searchable;
      WholeWordsSearchable(h.megablockBitmapSize);
      blockSize, total, dataStart, mega, megaSize := h.blockSize, h.totalBlocks, h.dataStart, h.blockBitmapBlocks,
          h.megablockBitmapSize;
      blocks := new bv8[First(h.blockBitmapBlocks, h.blockSize)](_ => 0);
      megas := new bv8[WholeWords(h.megablockBitmapSize)](_ => 0);
      free := h.totalBlocks - h.dataStart;
      new;
      Reserve();
      Summarise();
      CountPrefix(Bits(blocks[..]), dataStart, total);
    }

    method Reserve()
      requires dataStart <= 8 * blocks.Length && forall i :: 0 <= i < blocks.Length ==> blocks[i] == 0
      modifies blocks
      ensures forall i :: 0 <= i < 8 * blocks.Length ==> Bits(blocks[..])[i] == (i < dataStart)
    {
      for i := 0 to dataStart
        invariant forall j :: 0 <= j < 8 * blocks.Length ==> Bits(blocks[..])[j] == (j < i)
      {
        Set(blocks, i);
      }
    }

    method Summarise()
      requires blocks != megas && blockSize > 0 && blocks.Length == First(mega, blockSize) && mega <= 8 * megas.Length
      requires forall i :: 0 <= i < megas.Length ==> megas[i] == 0
      modifies megas
      ensures Summary(Bits(blocks[..]), Bits(megas[..]), 8 * blockSize, mega)
    {
      ghost var bits, w := Bits(blocks[..]), 8 * blockSize;
      FirstBytes(mega, blockSize);
      hide Full, First, Bit;
      for m := 0 to mega
        invariant forall j {:trigger Bits(megas[..])[j]} :: 0 <= j < m ==> Bits(megas[..])[j] == Full(bits, w, j)
        invariant forall j {:trigger Bits(megas[..])[j]} :: m <= j < 8 * megas.Length ==> !Bits(megas[..])[j]
      {
        SliceLengths(m, mega, blockSize);
        var full := SliceFull(blocks, m * blockSize, blockSize);
        FullSlice(bits, w, m);
        if full { Set(megas, m); }
      }
    }

    /** The blocks in use. */
    ghost function Used(): (used: set<nat>)
      reads blocks
      ensures forall b :: b in used ==> b < total
    {
      if total <= 8 * blocks.Length then SetBelow(Bits(blocks[..]), total) else {}
    }

    /** The first megablock that is not full. */
    method FindMegablock() returns (m: nat)
      requires Valid() && free > 0
      ensures m < mega && !Bits(megas[..])[m] && AllSet(Bits(megas[..]), 0, m)
    {
      SomeOpen(Bits(blocks[..]), Bits(megas[..]), 8 * blockSize, mega, total);
      hide Bit, First, Summary, Full;
      m := Find(megas, megaSize * 8);
    }

    /** The search of bsfs_alloc_block: the first megablock that is not full, then the first clear bit of its slice. */
    method Search() returns (m: nat, b: nat)
      requires Valid() && free > 0
      ensures m < mega && m * blockSize + blockSize <= blocks.Length
      ensures 8 * (m * blockSize) <= b < 8 * (m * blockSize + blockSize)
      ensures b < total && !Bits(blocks[..])[b] && AllSet(Bits(blocks[..]), 0, b)
    {
      hide Bit, First, Summary, Full;
      ghost var w, bits, marks := 8 * blockSize, Bits(blocks[..]), Bits(megas[..]);
      Counted(bits, total);
      ghost var c :| 0 <= c < total && !bits[c];
      m := FindMegablock();
      SliceLengths(m, mega, blockSize);
      OpenSlice(bits, marks, w, mega, m);
      var from := m * blockSize;
      var k := FindFree(from);
      b := k + from * 8;
      LowestOfAll(bits, marks, w, mega, m, b);
    }

    /** bsfs_alloc_block: the lowest free block. */
    method Alloc() returns (b: nat)
      requires Valid() && free > 0
      modifies blocks, megas, `free
      ensures Valid() && free == old(free) - 1
      ensures dataStart <= b < total && b !in old(Used()) && Used() == old(Used()) + {b}
      ensures forall i: nat :: i < b ==> i in old(Used())
    {
      ghost var w, bits, marks := 8 * blockSize, Bits(blocks[..]), Bits(megas[..]);
      hide Bit, Summary, First;
      var m;
      m, b := Search();
      SliceLengths(m, mega, blockSize);
      CountSet(bits, total, b);
      Set(blocks, b);
      var full := SliceFull(blocks, m * blockSize, blockSize);
      assert full == Full(Bits(blocks[..]), w, m);
      if full { Set(megas, m); }
      SummaryStep(bits, marks, w, mega, m, b, Bits(megas[..]));
      free := free - 1;
    }

    /** The search inside a slice of the block bitmap. */
    method FindFree(from: nat) returns (k: nat)
      requires from + blockSize <= blocks.Length && 8 * blocks.Length <= UINT32_MAX && blockSize % 8 == 0
      requires !AllSet(Bits(blocks[..]), 8 * from, 8 * (from + blockSize))
      ensures k < 8 * blockSize && !Bits(blocks[..])[8 * from + k] && AllSet(Bits(blocks[..]), 8 * from, 8 * from + k)
    {
      ghost var bits := Bits(blocks[..]);
      ghost var slice := Bits(blocks[..][from..]);
      hide Bit;
      assert blocks[..][from..] == blocks[from..];
      k := FindIn(blocks[from..], blockSize * 8);
      forall j | 8 * from <= j < 8 * (from + blockSize) ensures bits[j] == slice[j - 8 * from] {
        SliceBits(blocks[..], from, j - 8 * from);
      }
    }
  }

  lemma FirstBytes(mega: nat, bs: nat)
    ensures First(mega, 8 * bs) == 8 * (mega * bs)
  {
  }

  lemma FullSlice(bits: seq<bool>, w: nat, m: nat)
    requires First(m + 1, w) <= |bits|
    ensures Full(bits, w, m) == AllSet(bits, First(m, w), First(m + 1, w))
  {
  }

  lemma CountPrefix(bits: seq<bool>, k: nat, n: nat)
    requires k <= n <= |bits| && forall i :: 0 <= i < |bits| ==> bits[i] == (i < k)
    ensures |SetBelow(bits, n)| == k
  {
    if n == 0 {
    } else if k < n {
      assert SetBelow(bits, n) == SetBelow(bits, n - 1);
      CountPrefix(bits, k, n - 1);
    } else {
      assert SetBelow(bits, n) == SetBelow(bits, n - 1) + {n - 1};
      CountPrefixFull(bits, n - 1);
    }
  }

  lemma {:induction false} CountPrefixFull(bits: seq<bool>, n: nat)
    requires n <= |bits| && forall i :: 0 <= i < n ==> bits[i]
    ensures |SetBelow(bits, n)| == n
  {
    if n > 0 {
      CountPrefixFull(bits, n - 1);
      assert SetBelow(bits, n) == SetBelow(bits, n - 1) + {n - 1};
    }
  }

  lemma SliceLengths(m: nat, mega: nat, bs: nat)
    requires m < mega
    ensures First(m, 8 * bs) == 8 * (m * bs) && First(m + 1, 8 * bs) == 8 * (m * bs + bs)
    ensures m * bs + bs <= First(mega, bs)
  {
    if m + 1 < mega { MulStep(mega, m + 1, bs); }
    assert (m + 1) * bs == m * bs + bs;
  }

  /** The inode bitmap (tools/bsfs/bsfs.c:98-107). */
  class InodeMap {
    const count: nat
    const bitmap: array<bv8>
    var free: nat   // free_inodes

    ghost predicate Valid()
      reads this, bitmap
    {
      Searchable(bitmap.Length, count) && count <= 8 * bitmap.Length && free + |Used()| == count
    }

    /** The inodes in use. */
    ghost function Used(): (used: set<nat>)
      reads bitmap
      ensures forall i :: i in used ==> i < count
    {
      if count <= 8 * bitmap.Length then SetBelow(Bits(bitmap[..]), count) else {}
    }

    constructor (h: L.Header)
      requires h.inodeCount <= 8 * (h.inodeBitmapBlocks * h.blockSize) && h.inodeCount <= UINT32_MAX
      ensures Valid() && fresh(bitmap) && count == h.inodeCount
      ensures Used() == {} && free == count
      ensures bitmap.Length == WholeWords(First(h.inodeBitmapBlocks, h.blockSize))
    {
      count := h.inodeCount;
      bitmap := new bv8[WholeWords(h.inodeBitmapBlocks * h.blockSize)](_ => 0);
      free := h.inodeCount;
    }

    /** bsfs_alloc_inode: the lowest free inode. */
    method Alloc() returns (i: nat)
      requires Valid() && free > 0
      modifies bitmap, `free
      ensures Valid() && free == old(free) - 1
      ensures i < count && i !in old(Used()) && Used() == old(Used()) + {i}
      ensures forall j: nat :: j < i ==> j in old(Used())
    {
      ghost var bits := Bits(bitmap[..]);
      hide Bit;
      Counted(bits, count);
      i := Find(bitmap, count);
      CountSet(bits, count, i);
      Set(bitmap, i);
      free := free - 1;
    }
  }
}
