/** The checksum as the remainder of a division of polynomials (section 8 of RFC 1952 and ISO 3309, which
    kernel/common/crc32.c implements bit by bit). */
module Polynomial {
  import opened DiskFormat
  import opened Checksum

  /** Coefficients over the two-element field, that of the highest power first. */
  type Poly = seq<bool>

  /** The generator without its leading term: x^26 + x^23 + x^22 + x^16 + x^12 + x^11 + x^10 + x^8 + x^7 + x^5 + x^4 +
      x^2 + x + 1. */
  const POWERS: set<nat> := {26, 23, 22, 16, 12, 11, 10, 8, 7, 5, 4, 2, 1, 0}

  function Generator(): (g: Poly)
    ensures |g| == 32 && forall i :: 0 <= i < 32 ==> g[i] == ((31 - i) in POWERS)
  {
    seq(32, i => (31 - i) in POWERS)
  }

  /** `p` with the 32 coefficients of `q` added to its highest ones. */
  function AddTop(p: Poly, q: Poly): (r: Poly)
    requires |q| == 32 <= |p|
    ensures |r| == |p| && forall i :: 0 <= i < |p| ==> r[i] == (p[i] != (i < 32 && q[i]))
  {
    seq(|p|, i requires 0 <= i < |p| => p[i] != (i < 32 && q[i]))
  }

  /** The remainder modulo x^32 plus the generator, by long division: a leading term is removed by subtracting the
      generator from the terms behind it. */
  function Remainder(p: Poly): (r: Poly)
    requires |p| >= 32
    ensures |r| == 32
    decreases |p|
  {
    if |p| == 32 then p else Remainder(if p[0] then AddTop(p[1..], Generator()) else p[1..])
  }

  function Falses(n: nat): (z: Poly)
    ensures |z| == n && forall i :: 0 <= i < n ==> !z[i]
  {
    seq(n, _ => false)
  }

  function Trues(n: nat): (z: Poly)
    ensures |z| == n && forall i :: 0 <= i < n ==> z[i]
  {
    seq(n, _ => true)
  }

  /** The bits of a byte, the lowest first. */
  function BitsOfByte(b: Byte): (r: Poly)
    ensures |r| == 8
  {
    [b % 2 == 1, b / 2 % 2 == 1, b / 4 % 2 == 1, b / 8 % 2 == 1, b / 16 % 2 == 1, b / 32 % 2 == 1, b / 64 % 2 == 1,
        b / 128 % 2 == 1]
  }

  function Message(data: seq<Byte>): Poly {
    if data == [] then [] else Message(data[..|data| - 1]) + BitsOfByte(data[|data| - 1])
  }

  function Mask(i: nat): bv32 {
    if i == 0 then 0x1 else if i == 1 then 0x2 else if i == 2 then 0x4 else if i == 3 then 0x8
    else if i == 4 then 0x10 else if i == 5 then 0x20 else if i == 6 then 0x40 else if i == 7 then 0x80
    else if i == 8 then 0x100 else if i == 9 then 0x200 else if i == 10 then 0x400 else if i == 11 then 0x800
    else if i == 12 then 0x1000 else if i == 13 then 0x2000 else if i == 14 then 0x4000 else if i == 15 then 0x8000
    else if i == 16 then 0x10000 else if i == 17 then 0x20000 else if i == 18 then 0x40000 else if i == 19 then 0x80000
    else if i == 20 then 0x100000 else if i == 21 then 0x200000 else if i == 22 then 0x400000
        else if i == 23 then 0x800000
    else if i == 24 then 0x1000000 else if i == 25 then 0x2000000 else if i == 26 then 0x4000000
        else if i == 27 then 0x8000000
    else if i == 28 then 0x10000000 else if i == 29 then 0x20000000 else if i == 30 then 0x40000000 else 0x80000000
  }

  predicate Has(c: bv32, mask: bv32) {
    c & mask != 0
  }

  /** The bits of a register, the lowest first. */
  function BitsOf(c: bv32): (r: Poly)
    ensures |r| == 32 && forall i :: 0 <= i < 32 ==> r[i] == Has(c, Mask(i))
  {
    seq(32, i requires 0 <= i < 32 => Has(c, Mask(i)))
  }

  // ---- the register as a polynomial ---------------------------------------------------------------

  /** The mask of the next bit. */
  function Doubled(m: bv32): bv32 {
    m << 1
  }

  predicate Single(m: bv32) {
    m != 0 && m & (m - 1) == 0
  }

  /** The mask selects bit `i`, which is the coefficient of x^(31 - i). */
  predicate MaskRight(i: nat)
    requires i < 32
  {
    && Single(Mask(i)) && Doubled(Mask(i)) == (if i < 31 then Mask(i + 1) else 0)
    && Has(0xEDB8_8320, Mask(i)) == Generator()[i]
  }

  lemma MaskFacts0(i: nat)
    requires 0 <= i < 8
    ensures MaskRight(i)
  {
  }

  lemma MaskFacts1(i: nat)
    requires 8 <= i < 16
    ensures MaskRight(i)
  {
  }

  lemma MaskFacts2(i: nat)
    requires 16 <= i < 24
    ensures MaskRight(i)
  {
  }

  lemma MaskFacts3(i: nat)
    requires 24 <= i < 32
    ensures MaskRight(i)
  {
  }

  lemma MaskFacts(i: nat)
    requires i < 32
    ensures Single(Mask(i)) && Mask(0) == 1
    ensures (if i < 31 then Doubled(Mask(i)) == Mask(i + 1) else Doubled(Mask(i)) == 0)
    ensures Has(0xEDB8_8320, Mask(i)) == Generator()[i]
  {
    assert Mask(0) == 1;
    hide Mask, Has, Single, Doubled;
    if i < 8 { MaskFacts0(i); } else if i < 16 { MaskFacts1(i); } else if i < 24 { MaskFacts2(i); }
        else { MaskFacts3(i); }
  }

  lemma ShiftMask(c: bv32, m: bv32)
    requires m & (m - 1) == 0
    ensures (((c >> 1) ^ (0xEDB8_8320 & (0 - (c & 1)))) & m != 0) == ((c & (m << 1) != 0) != (0xEDB8_8320 & m != 0 &&
      c & 1 != 0))
  {
  }

  lemma ShiftHas(c: bv32, m: bv32)
    requires Single(m)
    ensures Has(Shift(c), m) == (Has(c, Doubled(m)) != (Has(0xEDB8_8320, m) && Has(c, 1)))
  {
    ShiftMask(c, m);
  }

  lemma ShiftBit(c: bv32, i: nat)
    requires i < 32
    ensures Has(Shift(c), Mask(i)) == ((i < 31 && Has(c, Mask(i + 1))) != (Generator()[i] && Has(c, Mask(0))))
  {
    NoBits(c);
    hide Has, Shift, Mask, Single, Generator, Doubled;
    MaskFacts(i);
    ShiftHas(c, Mask(i));
  }

  lemma NoBits(c: bv32)
    ensures !Has(c, 0)
  {
  }

  /** One step without input: multiplication by x, modulo the generator. */
  function Step(s: Poly): (r: Poly)
    requires |s| == 32
    ensures |r| == 32
  {
    if s[0] then AddTop(s[1..] + [false], Generator()) else s[1..] + [false]
  }

  lemma ShiftBits(c: bv32)
    ensures BitsOf(Shift(c)) == Step(BitsOf(c))
  {
    hide Has, Shift, Mask;
    var s, t := BitsOf(c), BitsOf(Shift(c));
    forall i | 0 <= i < 32 ensures t[i] == Step(s)[i] { ShiftBit(c, i); }
  }

  lemma XorMask(a: bv32, b: bv32, m: bv32)
    requires m & (m - 1) == 0
    ensures ((a ^ b) & m != 0) == ((a & m != 0) != (b & m != 0))
  {
  }

  lemma XorHas(a: bv32, b: bv32, m: bv32)
    requires Single(m)
    ensures Has(Xor(a, b), m) == (Has(a, m) != Has(b, m))
  {
    XorMask(a, b, m);
  }

  lemma XorBits(a: bv32, b: bv32)
    ensures BitsOf(Xor(a, b)) == AddTop(BitsOf(a), BitsOf(b))
  {
    hide Has, Xor, Mask, Single;
    forall i | 0 <= i < 32 ensures BitsOf(Xor(a, b))[i] == AddTop(BitsOf(a), BitsOf(b))[i] {
      MaskFacts(i);
      XorHas(a, b, Mask(i));
    }
  }

  lemma NotHas(c: bv32, m: bv32)
    requires Single(m)
    ensures Has(Finalize(c), m) == !Has(c, m)
  {
  }

  lemma NotBits(c: bv32)
    ensures BitsOf(Finalize(c)) == AddTop(BitsOf(c), Trues(32))
  {
    hide Has, Finalize, Mask, Single;
    forall i | 0 <= i < 32 ensures BitsOf(Finalize(c))[i] == AddTop(BitsOf(c), Trues(32))[i] {
      MaskFacts(i);
      NotHas(c, Mask(i));
    }
  }

  lemma FlagsHas(a: bool, b: bool, c: bool, d: bool, e: bool, f: bool, g: bool, h: bool, m: bv32)
    requires Single(m)
    ensures Has(Flags(a, b, c, d, e, f, g, h), m) ==
      ((a && m == 1) || (b && m == 2) || (c && m == 4) || (d && m == 8) || (e && m == 16) || (f && m == 32) ||
          (g && m == 64) || (h && m == 128))
  {
  }

  lemma WordBit(b: Byte, i: nat)
    requires i < 32
    ensures Has(Word(b), Mask(i)) == (i < 8 && BitsOfByte(b)[i])
  {
    hide Has, Flags, Single;
    MaskFacts(i);
    FlagsHas(b % 2 == 1, b / 2 % 2 == 1, b / 4 % 2 == 1, b / 8 % 2 == 1, b / 16 % 2 == 1, b / 32 % 2 == 1,
        b / 64 % 2 == 1, b / 128 % 2 == 1, Mask(i));
  }

  lemma WordBits(b: Byte)
    ensures BitsOf(Word(b)) == BitsOfByte(b) + Falses(24)
  {
    hide Has, Word, Mask, BitsOfByte;
    forall i | 0 <= i < 32 ensures BitsOf(Word(b))[i] == (BitsOfByte(b) + Falses(24))[i] { WordBit(b, i); }
  }

  lemma StartHas(m: bv32)
    requires Single(m)
    ensures Has(START, m)
  {
  }

  lemma StartBits()
    ensures BitsOf(START) == Trues(32)
  {
    hide Has, Mask, Single;
    forall i | 0 <= i < 32 ensures BitsOf(START)[i] {
      MaskFacts(i);
      StartHas(Mask(i));
    }
  }

  // ---- feeding bits -------------------------------------------------------------------------------

  function Bit(b: bool): (r: Poly)
    ensures |r| == 32
  {
    [b] + Falses(31)
  }

  /** The register after reading bits one by one. */
  function Feed(s: Poly, bits: Poly): (r: Poly)
    requires |s| == 32
    ensures |r| == 32
    decreases |bits|
  {
    if bits == [] then s else Feed(Step(AddTop(s, Bit(bits[0]))), bits[1..])
  }

  lemma {:induction false} FeedSplit(s: Poly, a: Poly, b: Poly)
    requires |s| == 32
    ensures Feed(s, a + b) == Feed(Feed(s, a), b)
    decreases |a|
  {
    hide Step, AddTop;
    if a == [] {
      assert a + b == b;
    } else {
      assert (a + b)[1..] == a[1..] + b;
      FeedSplit(Step(AddTop(s, Bit(a[0]))), a[1..], b);
    }
  }

  function Steps(s: Poly, n: nat): (r: Poly)
    requires |s| == 32
    ensures |r| == 32
    decreases n
  {
    if n == 0 then s else Steps(Step(s), n - 1)
  }

  /** What has not reached the front passes through unchanged. */
  lemma StepAdd(s: Poly, t: Poly)
    requires |s| == 32 && |t| == 31
    ensures Step(AddTop(s, [false] + t)) == AddTop(Step(s), t + [false])
  {
    var a, b := Step(AddTop(s, [false] + t)), AddTop(Step(s), t + [false]);
    assert AddTop(s, [false] + t)[0] == s[0];
    forall i | 0 <= i < 32 ensures a[i] == b[i] {
      if i < 31 { assert ([false] + t)[i + 1] == t[i]; }
    }
  }

  lemma FirstApart(s: Poly, bits: Poly)
    requires |s| == 32 && 0 < |bits| <= 32
    ensures var n := |bits|;
      AddTop(s, bits + Falses(32 - n)) == AddTop(AddTop(s, Bit(bits[0])), [false] + (bits[1..] + Falses(32 - n)))
  {
    var n := |bits|;
    var a, b := AddTop(s, bits + Falses(32 - n)), AddTop(AddTop(s, Bit(bits[0])),
        [false] + (bits[1..] + Falses(32 - n)));
    forall i | 0 <= i < 32 ensures a[i] == b[i] {
    }
  }

  /** Bits added at once and then stepped over are bits read one by one. */
  lemma {:induction false} FeedAtOnce(s: Poly, bits: Poly)
    requires |s| == 32 && |bits| <= 32
    ensures Steps(AddTop(s, bits + Falses(32 - |bits|)), |bits|) == Feed(s, bits)
    decreases |bits|
  {
    var n := |bits|;
    if n == 0 {
      assert AddTop(s, bits + Falses(32)) == s;
    } else {
      var rest := bits[1..];
      var s1 := AddTop(s, Bit(bits[0]));
      var t := rest + Falses(32 - n);
      FirstApart(s, bits);
      hide Step, AddTop, Bit;
      StepAdd(s1, t);
      assert t + [false] == rest + Falses(32 - (n - 1));
      FeedAtOnce(Step(s1), rest);
    }
  }

  lemma {:induction false} ShiftsBits(c: bv32, n: nat)
    ensures BitsOf(Shifts(c, n)) == Steps(BitsOf(c), n)
    decreases n
  {
    hide Shift, BitsOf, Step;
    if n > 0 {
      ShiftBits(c);
      ShiftsBits(Shift(c), n - 1);
    }
  }

  /** crc32_update reads the bits of the message one by one. */
  lemma {:induction false} FedBits(c: bv32, data: seq<Byte>)
    ensures BitsOf(Fed(c, data)) == Feed(BitsOf(c), Message(data))
    decreases |data|
  {
    hide BitsOf, Feed, Steps, Shifts, Xor, Word, AddTop, BitsOfByte;
    if data == [] {
      FeedNone(BitsOf(c));
    } else {
      var n := |data| - 1;
      var d, b := Fed(c, data[..n]), data[n];
      FedBits(c, data[..n]);
      ShiftsBits(Xor(d, Word(b)), 8);
      XorBits(d, Word(b));
      WordBits(b);
      FeedAtOnce(BitsOf(d), BitsOfByte(b));
      FeedSplit(BitsOf(c), Message(data[..n]), BitsOfByte(b));
    }
  }

  lemma FeedNone(s: Poly)
    requires |s| == 32
    ensures Feed(s, []) == s
  {
  }

  // ---- the division -------------------------------------------------------------------------------

  /** Reading bits from register `s` divides: the bits, followed by 32 zeros, with `s` added to the first of them. */
  lemma {:induction false} FeedDivides(s: Poly, bits: Poly)
    requires |s| == 32
    ensures Remainder(AddTop(bits + Falses(32), s)) == Feed(s, bits)
    decreases |bits|
  {
    var p := AddTop(bits + Falses(32), s);
    if bits == [] {
      assert p == s;
    } else {
      var rest, s1 := bits[1..], Step(AddTop(s, Bit(bits[0])));
      DivideStep(s, bits);
      hide Step, AddTop;
      FeedDivides(s1, rest);
    }
  }

  lemma DivideStep(s: Poly, bits: Poly)
    requires |s| == 32 && bits != []
    ensures var p := AddTop(bits + Falses(32), s);
      (if p[0] then AddTop(p[1..], Generator()) else p[1..]) == AddTop(bits[1..] + Falses(32),
          Step(AddTop(s, Bit(bits[0]))))
  {
    var p, s0 := AddTop(bits + Falses(32), s), AddTop(s, Bit(bits[0]));
    assert s0[0] == p[0];
    var left := if p[0] then AddTop(p[1..], Generator()) else p[1..];
    var right := AddTop(bits[1..] + Falses(32), Step(s0));
    forall i | 0 <= i < |left| ensures left[i] == right[i] {
      assert p[1..][i] == p[i + 1] && (bits + Falses(32))[i + 1] == (bits[1..] + Falses(32))[i];
      if i < 31 { assert s0[i + 1] == s[i + 1]; }
    }
  }

  /** The checksum of `data` is the complement of the remainder of its bits, the lowest of each byte first, multiplied
      by x^32 and with the first 32 complemented. */
  lemma CrcIsRemainder(data: seq<Byte>)
    ensures BitsOf(Crc32(data)) == AddTop(Remainder(AddTop(Message(data) + Falses(32), Trues(32))), Trues(32))
  {
    hide BitsOf, Remainder, AddTop, Feed, Message, Fed, Finalize;
    FedBits(START, data);
    StartBits();
    FeedDivides(Trues(32), Message(data));
    NotBits(Fed(START, data));
  }
}
