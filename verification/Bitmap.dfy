/** Byte-array bitmaps (kernel/bitmap.c and the identical copy in tools/bsfs/bsfs.c).

The abstract value of a bitmap is the sequence of its bits.  `Set`, `Clear` and `Test` touch one
byte; `Find` reads eight bytes at a time as one 64-bit register and is proved to return the least
clear bit, including the masked partial word at the end.
*/
module Bitmap {

  const UINT32_MAX: nat := 0xFFFF_FFFF

  // ---- bytes ------------------------------------------------------------------------------------

  /** The one-bit byte `1 << k`. */
  function ByteMask(k: nat): bv8
    requires k < 8
  {
    match k
    case 0 => 1 case 1 => 2 case 2 => 4 case 3 => 8 case 4 => 16 case 5 => 32 case 6 => 64 case 7 => 128
  }

  /** The mask of bit `k` is one shifted left by `k`. */
  lemma MaskIsShift(k: nat)
    requires k < 8
    ensures ByteMask(k) == (1 as bv8) << k
  {
    assert k == 0 || k == 1 || k == 2 || k == 3 || k == 4 || k == 5 || k == 6 || k == 7;
  }

  predicate ByteBit(b: bv8, k: nat)
    requires k < 8
  {
    b & ByteMask(k) != 0
  }

  /** Or-ing a mask sets that one bit. */
  lemma {:induction false} ByteSet(b: bv8, k: nat, j: nat)
    requires k < 8 && j < 8
    ensures ByteBit(b | ByteMask(k), j) == (j == k || ByteBit(b, j))
  {
  }

  /** And-ing the complement of a mask clears that one bit. */
  lemma {:induction false} ByteClear(b: bv8, k: nat, j: nat)
    requires k < 8 && j < 8
    ensures ByteBit(b & !ByteMask(k), j) == (j != k && ByteBit(b, j))
  {
  }

  /** A byte is 0xFF exactly when all its bits are set. */
  lemma {:induction false} FullByte(b: bv8)
    ensures b == 0xFF <==> forall k :: 0 <= k < 8 ==> ByteBit(b, k)
  {
    if forall k :: 0 <= k < 8 ==> ByteBit(b, k) {
      assert ByteBit(b, 0) && ByteBit(b, 1) && ByteBit(b, 2) && ByteBit(b, 3);
      assert ByteBit(b, 4) && ByteBit(b, 5) && ByteBit(b, 6) && ByteBit(b, 7);
    }
  }

  // ---- bitmaps ----------------------------------------------------------------------------------

  /** Bit `i` of the bitmap stored in `bytes`. */
  predicate Bit(bytes: seq<bv8>, i: nat)
    requires i < 8 * |bytes|
  {
    ByteBit(bytes[i / 8], i % 8)
  }

  /** The abstract value: all bits, lowest index first. */
  function Bits(bytes: seq<bv8>): (bits: seq<bool>)
    ensures |bits| == 8 * |bytes|
    ensures forall i :: 0 <= i < |bits| ==> bits[i] == Bit(bytes, i)
  {
    seq(8 * |bytes|, i requires 0 <= i < 8 * |bytes| => Bit(bytes, i))
  }

  /** `r` is the least clear bit among the first `count`, or `UINT32_MAX` when they are all set. */
  ghost predicate IsLeastClear(bits: seq<bool>, count: nat, r: nat)
    requires count <= |bits|
  {
    if r < count then !bits[r] && forall i :: 0 <= i < r ==> bits[i]
    else r == UINT32_MAX && forall i :: 0 <= i < count ==> bits[i]
  }

  // ---- 64-bit registers, as their bits ----------------------------------------------------------

  type Word = w: seq<bool> | |w| == 64 witness seq(64, _ => false)

  /** The little-endian load of word `i`: bit `k` of byte `j` becomes bit `8 * j + k`. */
  function LoadWord(bytes: seq<bv8>, i: nat): (w: Word)
    requires 8 * i + 8 <= |bytes|
    ensures w == Bits(bytes)[64 * i..64 * i + 64]
  {
    LoadedBits(bytes, i);
    Bits(bytes[8 * i..8 * i + 8])
  }

  lemma LoadedBits(bytes: seq<bv8>, i: nat)
    requires 8 * i + 8 <= |bytes|
    ensures Bits(bytes[8 * i..8 * i + 8]) == Bits(bytes)[64 * i..64 * i + 64]
  {
    hide ByteBit;
    var slice := bytes[8 * i..8 * i + 8];
    forall k | 0 <= k < 64 ensures Bits(slice)[k] == Bits(bytes)[64 * i + k] {
      assert (64 * i + k) / 8 == 8 * i + k / 8 && (64 * i + k) % 8 == k % 8;
    }
  }

  const UINT64_MAX: Word := seq(64, _ => true)

  function Not(w: Word): (r: Word)
    ensures forall k {:trigger r[k]} {:trigger w[k]} :: 0 <= k < 64 ==> r[k] == !w[k]
  {
    seq(64, k requires 0 <= k < 64 => !w[k])
  }

  function Or(v: Word, w: Word): (r: Word)
    ensures forall k {:trigger r[k]} {:trigger v[k]} :: 0 <= k < 64 ==> r[k] == (v[k] || w[k])
  {
    seq(64, k requires 0 <= k < 64 => v[k] || w[k])
  }

  /** `(1 << r) - 1`. */
  function LowMask(r: nat): Word {
    seq(64, k => k < r)
  }

  /** `__builtin_ctzll`: index of the lowest set bit. */
  function Ctz(bits: seq<bool>): (r: nat)
    ensures r <= |bits| && (r < |bits| ==> bits[r])
    ensures forall i :: 0 <= i < r ==> !bits[i]
  {
    if bits == [] || bits[0] then 0 else 1 + Ctz(bits[1..])
  }

  /** `__builtin_ctzll(~w)` is the least clear bit of a word that is not all ones. */
  lemma CtzOfComplement(w: Word)
    requires w != UINT64_MAX
    ensures Ctz(Not(w)) < 64 && !w[Ctz(Not(w))]
    ensures forall i :: 0 <= i < Ctz(Not(w)) ==> w[i]
  {
    var k :| 0 <= k < 64 && !w[k];
    assert Not(w)[k];
  }

  // ---- the operations ---------------------------------------------------------------------------

  method Set(bitmap: array<bv8>, index: nat)
    requires index < 8 * bitmap.Length
    modifies bitmap
    ensures Bits(bitmap[..]) == old(Bits(bitmap[..]))[index := true]
  {
    var slot := index / 8;
    ghost var before := bitmap[..];
    bitmap[slot] := bitmap[slot] | ByteMask(index % 8);
    forall i | 0 <= i < 8 * |before| ensures Bit(bitmap[..], i) == (i == index || Bit(before, i)) {
      ByteSet(before[slot], index % 8, i % 8);
    }
  }

  method Clear(bitmap: array<bv8>, index: nat)
    requires index < 8 * bitmap.Length
    modifies bitmap
    ensures Bits(bitmap[..]) == old(Bits(bitmap[..]))[index := false]
  {
    var slot := index / 8;
    ghost var before := bitmap[..];
    bitmap[slot] := bitmap[slot] & !ByteMask(index % 8);
    forall i | 0 <= i < 8 * |before| ensures Bit(bitmap[..], i) == (i != index && Bit(before, i)) {
      ByteClear(before[slot], index % 8, i % 8);
    }
  }

  method Test(bitmap: array<bv8>, index: nat) returns (on: bool)
    requires index < 8 * bitmap.Length
    ensures on == Bits(bitmap[..])[index]
  {
    var slot := index / 8;
    on := bitmap[slot] & ByteMask(index % 8) != 0;
  }

  /** The first `count` bits can be searched by 64-bit reads that stay inside the buffer. */
  predicate Searchable(length: nat, count: nat) {
    count <= UINT32_MAX && (count + 63) / 64 * 8 <= length
  }

  /** The word-at-a-time search returns the least clear bit below `count`. */
  method FindIn(bitmap: seq<bv8>, count: nat) returns (r: nat)
    requires Searchable(|bitmap|, count)
    ensures IsLeastClear(Bits(bitmap), count, r)
  {
    hide Bit;
    var words := count / 64;
    ghost var bits := Bits(bitmap);
    for i := 0 to words
      invariant forall k :: 0 <= k < 64 * i ==> bits[k]
    {
      var word := LoadWord(bitmap, i);
      assert forall k :: 64 * i <= k < 64 * i + 64 ==> bits[k] == word[k - 64 * i];
      if word != UINT64_MAX {
        CtzOfComplement(word);
        return i * 64 + Ctz(Not(word));
      }
    }
    var remaining := count % 64;
    if remaining != 0 {
      var word := LoadWord(bitmap, words);
      var masked := Or(word, Not(LowMask(remaining)));
      assert forall k :: 64 * words <= k < 64 * words + 64 ==>
                 masked[k - 64 * words] == (k >= count || bits[k]);
      if masked != UINT64_MAX {
        CtzOfComplement(masked);
        return words * 64 + Ctz(Not(masked));
      }
    }
    return UINT32_MAX;
  }

  method Find(bitmap: array<bv8>, count: nat) returns (r: nat)
    requires Searchable(bitmap.Length, count)
    ensures IsLeastClear(Bits(bitmap[..]), count, r)
  {
    r := FindIn(bitmap[..], count);
  }
}
