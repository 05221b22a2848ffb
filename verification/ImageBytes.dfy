/** The bytes of an image file, and where the tools put and look for a block: at offsets that are unsigned 32-bit
    products (tools/bsfs/bsfs.c:128-129, tools/bsfs/bsfs-populate.c:263-450, tools/bsfs/bsfs-extract.c:183-312). */
module ImageBytes {
  import opened Division
  import opened Layout
  import opened DiskFormat
  import opened DiskTree
  import opened DiskWrites

  // ---- bytes by offset ----------------------------------------------------------------------------

  function ByteAt(img: Image, bs: nat, x: nat): Byte
    requires bs > 0
  {
    DiskTree.At(img, x / bs, bs)[x % bs]
  }

  /** `n` bytes at offset `x` of the image. */
  function Region(img: Image, bs: nat, x: nat, n: nat): (r: seq<Byte>)
    requires bs > 0
    ensures |r| == n
  {
    seq<Byte>(n, i requires 0 <= i < n => ByteAt(img, bs, x + i))
  }

  lemma RegionPart(img: Image, bs: nat, x: nat, n: nat, k: nat, m: nat)
    requires bs > 0 && k + m <= n
    ensures Region(img, bs, x, n)[k..k + m] == Region(img, bs, x + k, m)
  {
    hide ByteAt;
    var part, whole := Region(img, bs, x + k, m), Region(img, bs, x, n);
    forall i | 0 <= i < m ensures part[i] == whole[k..k + m][i] {
      assert x + (k + i) == x + k + i;
    }
  }

  lemma CapBelow(bs: nat, k: nat, n: nat)
    requires k < n
    ensures Cap(bs, k) + bs <= Cap(bs, n)
  {
    MulStep(n, k, bs);
  }

  lemma CapMore(bs: nat, a: nat, b: nat)
    requires a <= b
    ensures Cap(bs, a) <= Cap(bs, b)
  {
    if a < b { MulStep(b, a, bs); }
  }

  /** The block and the place in it of byte `k` from block `start` on. */
  lemma BlockPlace(bs: nat, start: nat, n: nat, k: nat)
    requires bs > 0 && k < Cap(bs, n)
    ensures var q, r, x := k / bs, k % bs, Cap(bs, start) + k;
      q < n && r < bs && k == Cap(bs, q) + r && x / bs == start + q && x % bs == r
  {
    var q, r := k / bs, k % bs;
    assert k == q * bs + r;
    if q > n { MulStep(q, n, bs); }
    DivUnique(Cap(bs, start) + k, bs, start + q, r) by {
      assert (start + q) * bs == start * bs + q * bs;
    }
  }

  lemma RegionBlock(img: Image, bs: nat, b: nat)
    requires bs > 0
    ensures Region(img, bs, Cap(bs, b), bs) == DiskTree.At(img, b, bs)
  {
    var got := Region(img, bs, Cap(bs, b), bs);
    forall i | 0 <= i < bs ensures got[i] == DiskTree.At(img, b, bs)[i] {
      DivUnique(Cap(bs, b) + i, bs, b, i);
      assert got[i] == ByteAt(img, bs, Cap(bs, b) + i);
    }
  }

  /** Every block has the block size. */
  predicate Even(img: Image, bs: nat) {
    forall b :: 0 <= b < |img| ==> |img[b]| == bs
  }

  /** fseeko to byte `at` and fwrite. */
  function Overwritten(img: Image, bs: nat, at: nat, data: seq<Byte>): (r: Image)
    requires Even(img, bs)
    ensures |r| == |img| && Even(r, bs)
    ensures forall x, i :: 0 <= x < |img| && 0 <= i < bs ==> r[x][i] == Mixed(img[x][i], Cap(bs, x) + i, at, data)
  {
    seq(|img|, x requires 0 <= x < |img| && |img[x]| == bs => seq<Byte>(bs,
        i requires 0 <= i < bs && |img[x]| == bs => Mixed(img[x][i], Cap(bs, x) + i, at, data)))
  }

  /** Byte `y` of the file, `was` before. */
  function Mixed(was: Byte, y: nat, at: nat, data: seq<Byte>): Byte {
    if at <= y < at + |data| then data[y - at] else was
  }

  /** A write within a block. */
  lemma OverwrittenBlock(img: Image, bs: nat, b: nat, off: nat, data: seq<Byte>)
    requires Even(img, bs) && b < |img| && off + |data| <= bs
    ensures Overwritten(img, bs, Cap(bs, b) + off, data) == WriteAt(img, b, off, data)
  {
    var r, w := Overwritten(img, bs, Cap(bs, b) + off, data), WriteAt(img, b, off, data);
    forall x | 0 <= x < |img| ensures r[x] == w[x] {
      if x < b { MulStep(b, x, bs); } else if x > b { MulStep(x, b, bs); }
      hide Cap;
      forall i | 0 <= i < bs ensures r[x][i] == w[x][i] { }
    }
  }

  lemma OverwrittenNone(img: Image, bs: nat, at: nat)
    requires Even(img, bs)
    ensures Overwritten(img, bs, at, []) == img
  {
    var r := Overwritten(img, bs, at, []);
    forall x | 0 <= x < |img| ensures r[x] == img[x] { }
  }

  /** What is written is read. */
  lemma OverwrittenRead(img: Image, bs: nat, at: nat, data: seq<Byte>)
    requires Even(img, bs) && bs > 0 && at + |data| <= Cap(bs, |img|)
    ensures Region(Overwritten(img, bs, at, data), bs, at, |data|) == data
  {
    var r := Overwritten(img, bs, at, data);
    var got := Region(r, bs, at, |data|);
    forall i | 0 <= i < |data| ensures got[i] == data[i] {
      BlockPlace(bs, 0, |img|, at + i);
      assert got[i] == ByteAt(r, bs, at + i);
    }
  }

  // ---- 32-bit offsets -----------------------------------------------------------------------------

  /** Where the tools look for byte `off` of block `b`. */
  function Seek(bs: nat, b: nat, off: nat): (at: nat)
    ensures at < U32 && at <= Cap(bs, b) + off
  {
    (Cap(bs, b) + off) % U32
  }

  /** A block begins at its own place exactly when it begins below 4 GiB; every byte of the first `n` blocks is at its
      own place exactly when they end there. */
  lemma SeekExact(bs: nat, n: nat)
    requires bs > 0
    ensures Seek(bs, n, 0) == Cap(bs, n) <==> Cap(bs, n) < U32
    ensures (forall b, off {:trigger Seek(bs, b, off)} ::
      0 <= b < n && 0 <= off < bs ==> Seek(bs, b, off) == Cap(bs, b) + off) <==> Cap(bs, n) <= U32
  {
    if Cap(bs, n) <= U32 {
      forall b, off | 0 <= b < n && 0 <= off < bs ensures Seek(bs, b, off) == Cap(bs, b) + off {
        CapBelow(bs, b, n);
      }
    } else {
      BlockPlace(bs, 0, n, U32);
      assert Seek(bs, U32 / bs, U32 % bs) != Cap(bs, U32 / bs) + U32 % bs;
    }
  }

  /** The first `n` blocks are at places that do not overlap exactly when the last of them begins below 4 GiB: the
      first block that does not is put on block 0. */
  lemma PlacesApart(bs: nat, n: nat)
    requires 0 < bs <= U32
    ensures (forall a, b {:trigger Seek(bs, a, 0), Seek(bs, b, 0)} ::
      0 <= a < b < n ==> Seek(bs, a, 0) + bs <= Seek(bs, b, 0) || Seek(bs, b, 0) + bs <= Seek(bs, a, 0)) <==>
      (n == 0 || Cap(bs, n - 1) < U32)
  {
    if n > 0 && Cap(bs, n - 1) < U32 {
      forall a, b | 0 <= a < b < n
        ensures Seek(bs, a, 0) + bs <= Seek(bs, b, 0) || Seek(bs, b, 0) + bs <= Seek(bs, a, 0)
      {
        CapBelow(bs, a, b);
        if b < n - 1 { CapBelow(bs, b, n - 1); }
      }
    } else if n > 0 {
      var b := OnBlockZero(bs, n);
      assert Seek(bs, 0, 0) == 0;
    }
  }

  /** The first block that begins at or above 4 GiB. */
  lemma OnBlockZero(bs: nat, n: nat) returns (b: nat)
    requires 0 < bs <= U32 && n > 0 && Cap(bs, n - 1) >= U32
    ensures 0 < b < n && Seek(bs, b, 0) < bs
  {
    b := DivCeil(U32, bs);
    CeilBounds(U32, bs);
    assert (b - 1) * bs == b * bs - bs;
    if b > n - 1 { Less(b - 1, n - 1, bs); }
  }

  lemma Less(a: nat, b: nat, bs: nat)
    requires a >= b
    ensures a * bs >= Cap(bs, b)
  {
    if a > b { MulStep(a, b, bs); }
  }

  /** What a read of block `b` brings; at the end of the file it is short. */
  function Fetched(img: Image, bs: nat, b: nat): (r: seq<Byte>)
    requires bs > 0
    ensures |r| <= bs
  {
    var at, end := Seek(bs, b, 0), Cap(bs, |img|);
    Region(img, bs, at, if at + bs <= end then bs else if at <= end then end - at else 0)
  }

  /** A block that begins below 4 GiB is read where it is. */
  lemma FetchedExact(img: Image, bs: nat, b: nat)
    requires bs > 0 && b < |img| && Cap(bs, b) < U32
    ensures Fetched(img, bs, b) == DiskTree.At(img, b, bs)
  {
    CapBelow(bs, b, |img|);
    SeekExact(bs, b);
    RegionBlock(img, bs, b);
  }
}
