/** Which tree bin a chunk size belongs to (userspace/libc/malloc.c:2845-2857, 2908-2920). */
module TreeIndex {
  import opened Division

  const BINS: nat := 32
  const MIN_LARGE: nat := 256
  const LIMIT: nat := 0x100_0000_0000   // 2^40: sizes below this survive the narrowing to 32 bits

  function Pow2(n: nat): (p: nat)
    ensures p >= 1
  {
    if n == 0 then 1 else 2 * Pow2(n - 1)
  }

  /** Index of the highest set bit: `31 - __builtin_clz(x)`. */
  function Log2(x: nat): nat {
    if x < 2 then 0 else 1 + Log2(x / 2)
  }

  /** compute_tree_index, with `X` narrowed to an unsigned int as in the source. */
  function Index(size: nat): nat {
    var x := size / 256 % 0x1_0000_0000;
    if x == 0 then 0
    else if x > 0xFFFF then BINS - 1
    else 2 * Log2(x) + size / Pow2(Log2(x) + 7) % 2
  }

  /** The index the bins are meant to use: no narrowing. */
  function IdealIndex(size: nat): nat {
    var x := size / 256;
    if x == 0 then 0
    else if x > 0xFFFF then BINS - 1
    else 2 * Log2(x) + size / Pow2(Log2(x) + 7) % 2
  }

  /** minsize_for_tree_index. */
  function MinSize(i: nat): nat {
    Pow2(i / 2 + 8) + i % 2 * Pow2(i / 2 + 7)
  }

  /** The trie of bin `i` splits an interval of 2^Bits(i) sizes starting at Base(i), highest bit first;
      the last bin takes every remaining size. */
  function Bits(i: nat): nat {
    if i == BINS - 1 then 64 else i / 2 + 7
  }

  function Base(i: nat): nat {
    if i == BINS - 1 then 0 else MinSize(i)
  }

  lemma {:induction false} Log2Bounds(x: nat)
    requires x >= 1
    ensures Pow2(Log2(x)) <= x < 2 * Pow2(Log2(x))
  {
    if x >= 2 { Log2Bounds(x / 2); }
  }

  lemma {:induction false} Log2Small(x: nat, k: nat)
    requires 1 <= x < Pow2(k)
    ensures Log2(x) < k
  {
    if x >= 2 { Log2Small(x / 2, k - 1); }
  }

  lemma PowSucc(n: nat)
    ensures Pow2(n + 1) == 2 * Pow2(n)
  {
  }

  lemma {:induction false} PowShift(a: nat, b: nat)
    ensures Pow2(a + b) == Pow2(a) * Pow2(b)
  {
    if b > 0 {
      PowShift(a, b - 1);
      assert Pow2(a + b) == 2 * Pow2(a + (b - 1));
    }
  }

  /** The two bins of a power of two halve it. */
  lemma Halves(size: nat, k: nat)
    requires Pow2(k + 8) <= size < 2 * Pow2(k + 8)
    ensures var b := size / Pow2(k + 7) % 2;
      Pow2(k + 8) + b * Pow2(k + 7) <= size < Pow2(k + 8) + b * Pow2(k + 7) + Pow2(k + 7)
  {
    assert Pow2(k + 8) == 2 * Pow2(k + 7);
    Third(size, Pow2(k + 7));
  }

  lemma Third(size: nat, h: nat)
    requires h > 0 && 2 * h <= size < 4 * h
    ensures var b := size / h % 2; 2 * h + b * h <= size < 2 * h + b * h + h
  {
    if size < 3 * h { DivUnique(size, h, 2, size - 2 * h); } else { DivUnique(size, h, 3, size - 3 * h); }
  }

  lemma ScaleUp(size: nat, p: nat, q: nat)
    requires p <= size / 256 < 2 * p && q == 256 * p
    ensures q <= size < 2 * q
  {
  }

  /** A size of at least 256 and less than 2^24 lies in the power of two its leading bit names. */
  lemma Octave(size: nat)
    requires 1 <= size / 256 <= 0xFFFF
    ensures var k := Log2(size / 256); k < 16 && Pow2(k + 8) <= size < 2 * Pow2(k + 8)
  {
    var x := size / 256;
    var k := Log2(x);
    assert Pow2(16) == 0x1_0000 && Pow2(8) == 256;
    Log2Small(x, 16);
    Log2Bounds(x);
    PowShift(k, 8);
    ScaleUp(size, Pow2(k), Pow2(k + 8));
  }

  lemma LastBin()
    ensures MinSize(31) == 0xC0_0000
  {
    assert Pow2(16) == 0x1_0000 && Pow2(7) == 128 && Pow2(6) == 64;
    PowShift(16, 7);
    PowShift(16, 6);
  }

  /** Sizes that survive the narrowing go to the bin whose interval holds them. */
  lemma IndexRange(size: nat)
    requires MIN_LARGE <= size < LIMIT
    ensures Index(size) < BINS && Index(size) == IdealIndex(size)
    ensures MinSize(Index(size)) <= size
    ensures Index(size) < BINS - 1 ==> size < MinSize(Index(size)) + Pow2(Bits(Index(size)))
  {
    var x := size / 256;
    assert x % 0x1_0000_0000 == x;
    if x > 0xFFFF {
      LastBin();
    } else {
      var k := Log2(x);
      Octave(size);
      hide Pow2, Log2;
      Halves(size, k);
      IndexHalf(size, k);
    }
  }

  lemma IndexHalf(size: nat, k: nat)
    ensures var i := 2 * k + size / Pow2(k + 7) % 2; i / 2 == k && i % 2 == size / Pow2(k + 7) % 2
  {
  }

  /** The index is in range whatever the size. */
  lemma IndexBound(size: nat)
    ensures Index(size) < BINS
  {
    var x := size / 256 % 0x1_0000_0000;
    if 1 <= x <= 0xFFFF {
      assert Pow2(8) == 256;
      PowShift(8, 8);
      Log2Small(x, 16);
    }
  }

  /** Each bin ends where the next begins. */
  lemma BinsAdjoin(i: nat)
    requires i < BINS - 1
    ensures MinSize(i) + Pow2(Bits(i)) == MinSize(i + 1)
  {
    hide Pow2;
    var h := i / 2;
    PowSucc(h + 7);
    PowSucc(h + 8);
    if i % 2 == 0 {
      assert i == 2 * h && (i + 1) / 2 == h && (i + 1) % 2 == 1;
      assert MinSize(i) == Pow2(h + 8) && MinSize(i + 1) == Pow2(h + 8) + Pow2(h + 7);
    } else {
      assert i == 2 * h + 1 && (i + 1) / 2 == h + 1 && (i + 1) % 2 == 0;
      assert MinSize(i) == Pow2(h + 8) + Pow2(h + 7) && MinSize(i + 1) == Pow2(h + 9);
    }
  }

  lemma {:induction false} MinSizeGrows(i: nat, j: nat)
    requires i <= j < BINS
    ensures MinSize(i) <= MinSize(j)
  {
    if i < j {
      MinSizeGrows(i, j - 1);
      BinsAdjoin(j - 1);
    }
  }

  /** Every size of a lower bin is smaller than every size of a higher bin. */
  lemma BinsOrdered(a: nat, b: nat)
    requires MIN_LARGE <= a < LIMIT && MIN_LARGE <= b < LIMIT && Index(a) < Index(b)
    ensures a < b
  {
    hide Index, MinSize, Pow2, Bits;
    IndexRange(a);
    IndexRange(b);
    BinsAdjoin(Index(a));
    MinSizeGrows(Index(a) + 1, Index(b));
  }

  /** The narrowing is harmless exactly below 2^40 and, above, when the low 32 bits of size / 256 still
      select the last bin. */
  lemma NarrowingExact(size: nat)
    requires MIN_LARGE <= size
    ensures Index(size) == IdealIndex(size) <==> size < LIMIT || size / 256 % 0x1_0000_0000 >= 0xC000
  {
    if size < LIMIT {
      IndexRange(size);
    } else {
      var x := size / 256 % 0x1_0000_0000;
      if 1 <= x <= 0xFFFF { NarrowLast(size, x); }
    }
  }

  /** Which narrowed values below 2^16 select the last bin. */
  lemma NarrowLast(size: nat, x: nat)
    requires x == size / 256 % 0x1_0000_0000 && 1 <= x <= 0xFFFF
    ensures Index(size) == BINS - 1 <==> x >= 0xC000
  {
    var k := Log2(x);
    assert Pow2(16) == 0x1_0000 && Pow2(15) == 0x8000 && Pow2(14) == 0x4000 && Pow2(6) == 64;
    PowShift(16, 6);
    Log2Small(x, 16);
    Log2Bounds(x);
    if x < 0x8000 {
      Log2Small(x, 15);
    } else {
      if k < 15 { PowLe(k, 14); }
      assert k == 15;
      TopPair(size, x);
    }
  }

  lemma {:induction false} PowLe(a: nat, b: nat)
    requires a <= b
    ensures Pow2(a) <= Pow2(b)
  {
    if a < b { PowLe(a, b - 1); }
  }

  lemma Requotient(y: nat, a: nat, x: nat)
    requires y == a * 0x1_0000_0000 + x
    ensures y / 0x4000 == a * 0x4_0000 + x / 0x4000
  {
  }

  lemma TopPair(size: nat, x: nat)
    requires x == size / 256 % 0x1_0000_0000 && 0x8000 <= x <= 0xFFFF
    ensures size / 0x40_0000 % 2 == 1 <==> x >= 0xC000
  {
    var y := size / 256;
    assert size / 0x40_0000 == y / 0x4000;
    Requotient(y, y / 0x1_0000_0000, x);
    assert x / 0x4000 == if x >= 0xC000 then 3 else 2;
  }

  /** A chunk of exactly 2^40 bytes is filed with the smallest tree chunks. */
  lemma NarrowingExample()
    ensures Index(LIMIT) == 0 && IdealIndex(LIMIT) == 31
  {
  }
}
