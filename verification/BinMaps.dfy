/** The 32-bit bin maps of the allocator and the bit tricks on them (userspace/libc/malloc.c:2925-2954).

A machine word is its sequence of bits, lowest first; negation is two's complement, complement plus
one with a rippling carry. */
module BinMaps {

  type BinMap = m: seq<bool> | |m| == 32 witness seq(32, _ => false)

  function Not(x: seq<bool>): (r: seq<bool>)
    ensures |r| == |x| && forall i :: 0 <= i < |x| ==> r[i] == !x[i]
  {
    seq(|x|, i requires 0 <= i < |x| => !x[i])
  }

  function And(x: seq<bool>, y: seq<bool>): (r: seq<bool>)
    requires |x| == |y|
    ensures |r| == |x| && forall i :: 0 <= i < |x| ==> r[i] == (x[i] && y[i])
  {
    seq(|x|, i requires 0 <= i < |x| => x[i] && y[i])
  }

  function Or(x: seq<bool>, y: seq<bool>): (r: seq<bool>)
    requires |x| == |y|
    ensures |r| == |x| && forall i :: 0 <= i < |x| ==> r[i] == (x[i] || y[i])
  {
    seq(|x|, i requires 0 <= i < |x| => x[i] || y[i])
  }

  /** Adding one: the carry ripples through the low ones. */
  function Inc(x: seq<bool>): (r: seq<bool>)
    ensures |r| == |x|
  {
    if x == [] then [] else if !x[0] then [true] + x[1..] else [false] + Inc(x[1..])
  }

  function Neg(x: seq<bool>): (r: seq<bool>)
    ensures |r| == |x|
  {
    Inc(Not(x))
  }

  function ShiftLeft(x: seq<bool>): (r: seq<bool>)
    ensures |r| == |x|
  {
    if x == [] then [] else [false] + x[..|x| - 1]
  }

  /** idx2bit. */
  function IdxToBit(i: nat): BinMap {
    seq(32, k => k == i)
  }

  /** least_bit. */
  function LeastBit(x: BinMap): BinMap {
    And(x, Neg(x))
  }

  /** left_bits. */
  function LeftBits(x: BinMap): BinMap {
    Or(ShiftLeft(x), Neg(ShiftLeft(x)))
  }

  /** compute_bit2idx: index of the lowest set bit. */
  function BitToIdx(x: seq<bool>): (r: nat)
    ensures r <= |x| && (forall i :: 0 <= i < r ==> !x[i]) && (r < |x| ==> x[r])
  {
    if x == [] || x[0] then 0 else 1 + BitToIdx(x[1..])
  }

  /** Negation keeps a word up to its lowest set bit and complements it above. */
  lemma {:induction false} NegBits(x: seq<bool>, i: nat)
    requires i < |x|
    ensures Neg(x)[i] == if exists j :: 0 <= j < i && x[j] then !x[i] else x[i]
  {
    assert Not(x)[1..] == Not(x[1..]);
    if x[0] {
      assert Neg(x) == [true] + Not(x)[1..];
    } else {
      assert Neg(x) == [false] + Neg(x[1..]);
      if i > 0 {
        NegBits(x[1..], i - 1);
        if exists j :: 0 <= j < i && x[j] {
          var j :| 0 <= j < i && x[j];
          assert x[1..][j - 1];
        }
      }
    }
  }

  /** `left_bits(idx2bit(i)) & map` keeps exactly the marks above `i`. */
  lemma MarkedAbove(m: BinMap, i: nat)
    requires i < 32
    ensures forall j :: 0 <= j < 32 ==> And(LeftBits(IdxToBit(i)), m)[j] == (j > i && m[j])
  {
    var s := ShiftLeft(IdxToBit(i));
    assert forall k :: 0 <= k < 32 ==> s[k] == (k == i + 1);
    forall j | 0 <= j < 32 ensures LeftBits(IdxToBit(i))[j] == (j > i) {
      NegBits(s, j);
      if j > i + 1 { assert s[i + 1]; }
    }
  }

  /** `least_bit` followed by `compute_bit2idx` finds the first marked bin. */
  lemma FirstMarked(x: BinMap)
    requires exists j :: 0 <= j < 32 && x[j]
    ensures BitToIdx(LeastBit(x)) == BitToIdx(x) < 32
  {
    var first := BitToIdx(x);
    forall i | 0 <= i < 32 ensures LeastBit(x)[i] == (i == first) {
      NegBits(x, i);
      if i > first { assert x[first]; }
    }
  }

  /** `x >> n`. */
  function ShiftDownBy(x: BinMap, n: nat): BinMap {
    seq(32, i requires 0 <= i < 32 => i + n < 32 && x[i + n])
  }

  /** `x << n`. */
  function ShiftUpBy(x: BinMap, n: nat): BinMap {
    seq(32, i requires 0 <= i < 32 => i >= n && x[i - n])
  }

  /** The marks from bin `i` on, `(map >> i) << i`, without that of bin `i`. */
  lemma MarkedBeyond(m: BinMap, i: nat)
    requires i < 32
    ensures var beyond := And(ShiftUpBy(ShiftDownBy(m, i), i), LeftBits(IdxToBit(i)));
      forall j :: 0 <= j < 32 ==> beyond[j] == (j > i && m[j])
  {
    hide LeftBits, IdxToBit, ShiftUpBy, ShiftDownBy;
    var n := ShiftUpBy(ShiftDownBy(m, i), i);
    MarkedAbove(n, i);
    forall j | 0 <= j < 32 ensures And(n, LeftBits(IdxToBit(i)))[j] == (j > i && m[j]) {
      ShiftedBack(m, i, j);
      assert And(LeftBits(IdxToBit(i)), n)[j] == (j > i && n[j]);
    }
  }

  lemma ShiftedBack(m: BinMap, i: nat, j: nat)
    requires i < 32 && j < 32
    ensures ShiftUpBy(ShiftDownBy(m, i), i)[j] == (j >= i && m[j])
  {
  }
}
