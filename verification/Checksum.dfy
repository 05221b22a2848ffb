/** CRC-32 (kernel/common/crc32.c, tools/bsfs/bsfs-populate.c:37-48). */
module Checksum {
  import opened DiskFormat
  import opened Division

  const START: bv32 := 0xFFFF_FFFF

  /** One bit. */
  function Shift(c: bv32): bv32 {
    (c >> 1) ^ (0xEDB8_8320 & (0 - (c & 1)))
  }

  function Shifts(c: bv32, n: nat): bv32
    decreases n
  {
    if n == 0 then c else Shifts(Shift(c), n - 1)
  }

  function Xor(a: bv32, b: bv32): bv32 {
    a ^ b
  }

  function Double(x: bv32): bv32 {
    x << 1
  }

  function Flag(on: bool, mask: bv32): bv32 {
    if on then mask else 0
  }

  function Flags(a: bool, b: bool, c: bool, d: bool, e: bool, f: bool, g: bool, h: bool): bv32 {
    Flag(a, 1) | Flag(b, 2) | Flag(c, 4) | Flag(d, 8) | Flag(e, 16) | Flag(f, 32) | Flag(g, 64) | Flag(h, 128)
  }

  /** A byte as a 32-bit word, bit by bit. */
  function Word(b: Byte): bv32 {
    Flags(b % 2 == 1, b / 2 % 2 == 1, b / 4 % 2 == 1, b / 8 % 2 == 1, b / 16 % 2 == 1, b / 32 % 2 == 1,
        b / 64 % 2 == 1, b / 128 % 2 == 1)
  }

  lemma FlagsInjective(a: bool, b: bool, c: bool, d: bool, e: bool, f: bool, g: bool, h: bool,
                       a': bool, b': bool, c': bool, d': bool, e': bool, f': bool, g': bool, h': bool)
    requires Flags(a, b, c, d, e, f, g, h) == Flags(a', b', c', d', e', f', g', h')
    ensures a == a' && b == b' && c == c'
    ensures d == d' && e == e' && f == f'
    ensures g == g' && h == h'
  {
  }

  lemma FlagsSmall(a: bool, b: bool, c: bool, d: bool, e: bool, f: bool, g: bool, h: bool)
    ensures Flags(a, b, c, d, e, f, g, h) < 0x100
  {
  }

  lemma ByteBits(b: Byte, c: Byte)
    requires b % 2 == c % 2 && b / 2 % 2 == c / 2 % 2 && b / 4 % 2 == c / 4 % 2 && b / 8 % 2 == c / 8 % 2
    requires b / 16 % 2 == c / 16 % 2 && b / 32 % 2 == c / 32 % 2 && b / 64 % 2 == c / 64 % 2
    requires b / 128 % 2 == c / 128 % 2
    ensures b == c
  {
    Halves(b, c, 256, 128);
    Halves(b, c, 128, 64);
    Halves(b, c, 64, 32);
    Halves(b, c, 32, 16);
    Halves(b, c, 16, 8);
    Halves(b, c, 8, 4);
    Halves(b, c, 4, 2);
    Halves(b, c, 2, 1);
  }

  lemma Halves(b: nat, c: nat, m: nat, h: nat)
    requires h > 0 && m == 2 * h && b / m == c / m && b / h % 2 == c / h % 2
    ensures b / h == c / h
  {
    Half(b, h);
    Half(c, h);
  }

  lemma Half(b: nat, h: nat)
    requires h > 0
    ensures b / h == 2 * (b / (2 * h)) + b / h % 2
  {
    var q := b / h;
    assert b == q * h + b % h;
    var k, r := q / 2, q % 2;
    assert q == 2 * k + r;
    DivUnique(b, 2 * h, k, r * h + b % h);
  }

  lemma WordInjective(a: Byte, b: Byte)
    requires Word(a) == Word(b)
    ensures a == b
  {
    hide Flags;
    FlagsInjective(a % 2 == 1, a / 2 % 2 == 1, a / 4 % 2 == 1, a / 8 % 2 == 1, a / 16 % 2 == 1, a / 32 % 2 == 1,
        a / 64 % 2 == 1, a / 128 % 2 == 1,
                   b % 2 == 1, b / 2 % 2 == 1, b / 4 % 2 == 1, b / 8 % 2 == 1, b / 16 % 2 == 1, b / 32 % 2 == 1,
                       b / 64 % 2 == 1, b / 128 % 2 == 1);
    hide Word;
    SameParity(a, b, 1);
    SameParity(a, b, 2);
    SameParity(a, b, 4);
    SameParity(a, b, 8);
    SameParity(a, b, 16);
    SameParity(a, b, 32);
    SameParity(a, b, 64);
    SameParity(a, b, 128);
    ByteBits(a, b);
  }

  lemma SameParity(a: nat, b: nat, h: nat)
    requires h > 0 && (a / h % 2 == 1 <==> b / h % 2 == 1)
    ensures a / h % 2 == b / h % 2
  {
  }

  lemma WordSmall(a: Byte)
    ensures Word(a) < 0x100
  {
    hide Flags;
    FlagsSmall(a % 2 == 1, a / 2 % 2 == 1, a / 4 % 2 == 1, a / 8 % 2 == 1, a / 16 % 2 == 1, a / 32 % 2 == 1,
        a / 64 % 2 == 1, a / 128 % 2 == 1);
  }

  // ---- the register ---------------------------------------------------------------------------------

  lemma ShiftInjective(c: bv32, d: bv32)
    requires Shift(c) == Shift(d)
    ensures c == d
  {
  }

  /** Bits that have not reached the low end pass through unchanged. */
  lemma ShiftXor(c: bv32, x: bv32)
    requires x < 0x8000_0000
    ensures Shift(Xor(c, Double(x))) == Xor(Shift(c), x)
  {
    hide Shift;
    ShiftXorBits(c, x);
  }

  lemma ShiftXorBits(c: bv32, x: bv32)
    requires x < 0x8000_0000
    ensures Shift(c ^ (x << 1)) == Shift(c) ^ x
  {
  }

  lemma {:induction false} ShiftsInjective(c: bv32, d: bv32, n: nat)
    requires Shifts(c, n) == Shifts(d, n)
    ensures c == d
    decreases n
  {
    hide Shift;
    if n > 0 {
      ShiftsInjective(Shift(c), Shift(d), n - 1);
      ShiftInjective(c, d);
    }
  }

  function Doubled(x: bv32, n: nat): bv32 {
    if n == 0 then x else Double(Doubled(x, n - 1))
  }

  ghost predicate NoCarry(x: bv32, n: nat) {
    n == 0 || (Doubled(x, n - 1) < 0x8000_0000 && NoCarry(x, n - 1))
  }

  /** What lies `n` places up comes down by `n` places. */
  lemma {:induction false} ShiftsXor(c: bv32, x: bv32, n: nat)
    requires NoCarry(x, n)
    ensures Shifts(Xor(c, Doubled(x, n)), n) == Xor(Shifts(c, n), x)
    decreases n
  {
    hide Shift, Xor, Double;
    if n > 0 {
      ShiftXor(c, Doubled(x, n - 1));
      ShiftsXor(Shift(c), x, n - 1);
    }
  }

  lemma DoubleLess(x: bv32, m: bv32, m2: bv32)
    requires x < m && m <= 0x4000_0000 && m2 == m << 1
    ensures Double(x) < m2
  {
  }

  lemma DoubledStep(x: bv32, n: nat)
    requires n > 0
    ensures Doubled(x, n) == Double(Doubled(x, n - 1)) && Doubled(x, 0) == x
    ensures NoCarry(x, n) == (Doubled(x, n - 1) < 0x8000_0000 && NoCarry(x, n - 1)) && NoCarry(x, 0)
  {
  }

  /** Moving up a byte. */
  lemma DoubledIsShift(x: bv32)
    ensures Doubled(x, 8) == x << 8
  {
    EightDoubles(x);
    hide Double, Doubled, NoCarry;
    DoubledStep(x, 1);
    DoubledStep(x, 2);
    DoubledStep(x, 3);
    DoubledStep(x, 4);
    DoubledStep(x, 5);
    DoubledStep(x, 6);
    DoubledStep(x, 7);
    DoubledStep(x, 8);
  }

  lemma EightDoubles(x: bv32)
    ensures Double(Double(Double(Double(Double(Double(Double(Double(x)))))))) == x << 8
  {
  }

  /** A 24-bit value moves up a byte without loss. */
  lemma ByteUp(x: bv32)
    requires x < 0x100_0000
    ensures NoCarry(x, 8)
  {
    hide Double, Doubled, NoCarry;
    DoubledStep(x, 1);
    DoubleLess(x, 0x100_0000, 0x200_0000);
    DoubledStep(x, 2);
    DoubleLess(Doubled(x, 1), 0x200_0000, 0x400_0000);
    DoubledStep(x, 3);
    DoubleLess(Doubled(x, 2), 0x400_0000, 0x800_0000);
    DoubledStep(x, 4);
    DoubleLess(Doubled(x, 3), 0x800_0000, 0x1000_0000);
    DoubledStep(x, 5);
    DoubleLess(Doubled(x, 4), 0x1000_0000, 0x2000_0000);
    DoubledStep(x, 6);
    DoubleLess(Doubled(x, 5), 0x2000_0000, 0x4000_0000);
    DoubledStep(x, 7);
    DoubleLess(Doubled(x, 6), 0x4000_0000, 0x8000_0000);
    DoubledStep(x, 8);
  }

  /** A difference above the low byte comes down by one byte. */
  lemma ByteDown(c: bv32, x: bv32)
    requires x < 0x100_0000
    ensures Shifts(Xor(c, x << 8), 8) == Xor(Shifts(c, 8), x)
  {
    hide Shifts, Xor, Doubled;
    ByteUp(x);
    DoubledIsShift(x);
    ShiftsXor(c, x, 8);
  }

  // ---- whole inputs -----------------------------------------------------------------------------------

  /** The register after reading `data`. */
  function Fed(c: bv32, data: seq<Byte>): bv32 {
    if data == [] then c else Shifts(Xor(Fed(c, data[..|data| - 1]), Word(data[|data| - 1])), 8)
  }

  /** crc32_finalize. */
  function Finalize(c: bv32): bv32 {
    !c
  }

  function Crc32(data: seq<Byte>): bv32 {
    Finalize(Fed(START, data))
  }

  /** crc32_update: two nested loops. */
  method Update(c: bv32, data: seq<Byte>) returns (r: bv32)
    ensures r == Fed(c, data)
  {
    r := c;
    for i := 0 to |data|
      invariant r == Fed(c, data[..i])
    {
      r := Xor(r, Word(data[i]));
      ghost var x := r;
      hide Shift, Xor, Word;
      for j := 0 to 8
        invariant Shifts(r, 8 - j) == Shifts(x, 8)
      {
        r := Shift(r);
      }
      assert data[..i + 1][..i] == data[..i];
    }
    assert data[..|data|] == data;
  }

  /** crc32 of the kernel, all at once. */
  method OneShot(data: seq<Byte>) returns (r: bv32)
    ensures r == Crc32(data)
  {
    var c := Update(START, data);
    r := Finalize(c);
  }

  /** Feeding in pieces is feeding the whole. */
  lemma {:induction false} FedSplit(c: bv32, a: seq<Byte>, b: seq<Byte>)
    ensures Fed(c, a + b) == Fed(Fed(c, a), b)
    decreases |b|
  {
    hide Shifts, Xor, Word;
    if b == [] {
      assert a + b == a;
    } else {
      assert (a + b)[..|a + b| - 1] == a + b[..|b| - 1];
      FedSplit(c, a, b[..|b| - 1]);
    }
  }

  /** Different registers stay different while reading the same bytes. */
  lemma {:induction false} FedInjective(c: bv32, d: bv32, data: seq<Byte>)
    requires Fed(c, data) == Fed(d, data)
    ensures c == d
    decreases |data|
  {
    hide *;
    if data != [] {
      var n := |data| - 1;
      FedStep(c, data);
      FedStep(d, data);
      ShiftsInjective(Xor(Fed(c, data[..n]), Word(data[n])), Xor(Fed(d, data[..n]), Word(data[n])), 8);
      XorCancel(Fed(c, data[..n]), Fed(d, data[..n]), Word(data[n]));
      FedInjective(c, d, data[..n]);
    } else {
      FedNone(c);
      FedNone(d);
    }
  }

  lemma FedStep(c: bv32, data: seq<Byte>)
    requires data != []
    ensures Fed(c, data) == Shifts(Xor(Fed(c, data[..|data| - 1]), Word(data[|data| - 1])), 8)
  {
    hide Shifts, Xor, Word;
  }

  lemma FedNone(c: bv32)
    ensures Fed(c, []) == c
  {
  }

  lemma XorCancel(a: bv32, b: bv32, x: bv32)
    requires Xor(a, x) == Xor(b, x)
    ensures a == b
  {
  }

  /** Registers `e` apart before a byte are found apart by one step back. */
  lemma StepBack(s: bv32, t: bv32, x: Byte, y: Byte, e: bv32)
    requires e < 0x100_0000 && Xor(Shifts(Xor(s, Word(x)), 8), e) == Shifts(Xor(t, Word(y)), 8)
    ensures Xor(Xor(s, Word(x)), e << 8) == Xor(t, Word(y))
  {
    hide Shifts, Xor, Word;
    ByteDown(Xor(s, Word(x)), e);
    ShiftsInjective(Xor(Xor(s, Word(x)), e << 8), Xor(t, Word(y)), 8);
  }

  lemma XorBack(p: bv32, q: bv32, b: bv32)
    requires p == Xor(q, b)
    ensures Xor(p, b) == q
  {
  }

  lemma XorAssoc(a: bv32, b: bv32, c: bv32)
    ensures Xor(Xor(a, b), c) == Xor(a, Xor(b, c))
  {
  }

  lemma XorComm(a: bv32, b: bv32)
    ensures Xor(a, b) == Xor(b, a)
  {
  }

  /** The difference after a byte, from that before it. */
  lemma Carry(s: bv32, t: bv32, a: bv32, b: bv32, f: bv32)
    requires Xor(Xor(s, a), f) == Xor(t, b)
    ensures Xor(s, Xor(Xor(a, b), f)) == t
  {
    hide Xor;
    XorBack(Xor(Xor(s, a), f), t, b);
    XorAssoc(Xor(s, a), f, b);
    XorAssoc(s, a, Xor(f, b));
    XorComm(f, b);
    XorAssoc(a, b, f);
  }

  lemma Bounds(a: bv32, b: bv32, e: bv32)
    requires a < 0x100 && b < 0x100
    ensures Xor(Xor(a, b), 0 << 8) < 0x100
    ensures e < 0x100 ==> Xor(Xor(a, b), e << 8) < 0x1_0000
    ensures e < 0x1_0000 ==> Xor(Xor(a, b), e << 8) < 0x100_0000
    ensures e < 0x100_0000 && Xor(Xor(a, b), e << 8) == 0 ==> a == b && e == 0
  {
  }

  /** Four different bytes never lead to the same register. */
  lemma FourBytes(c: bv32, x: seq<Byte>, y: seq<Byte>)
    requires |x| == 4 && |y| == 4 && Fed(c, x) == Fed(c, y)
    ensures x == y
  {
    hide Fed, Shifts, Xor, Word;
    var s1, t1 := Fed(c, x[..1]), Fed(c, y[..1]);
    var s2, t2 := Fed(c, x[..2]), Fed(c, y[..2]);
    var s3, t3 := Fed(c, x[..3]), Fed(c, y[..3]);
    Unfold(c, x);
    Unfold(c, y);
    var a0, a1, a2, a3 := Word(x[0]), Word(x[1]), Word(x[2]), Word(x[3]);
    var b0, b1, b2, b3 := Word(y[0]), Word(y[1]), Word(y[2]), Word(y[3]);
    ShiftsInjective(Xor(s3, a3), Xor(t3, b3), 8);
    var e3 := Xor(a3, b3);
    Last(s3, t3, a3, b3);
    WordSmall(x[0]); WordSmall(x[1]); WordSmall(x[2]); WordSmall(x[3]);
    WordSmall(y[0]); WordSmall(y[1]); WordSmall(y[2]); WordSmall(y[3]);
    LowBounds(a3, b3);
    StepBack(s2, t2, x[2], y[2], e3);
    Carry(s2, t2, a2, b2, e3 << 8);
    var e2 := Xor(Xor(a2, b2), e3 << 8);
    Bounds(a2, b2, e3);
    StepBack(s1, t1, x[1], y[1], e2);
    Carry(s1, t1, a1, b1, e2 << 8);
    var e1 := Xor(Xor(a1, b1), e2 << 8);
    Bounds(a1, b1, e2);
    StepBack(c, c, x[0], y[0], e1);
    Carry(c, c, a0, b0, e1 << 8);
    XorZero(c, Xor(Xor(a0, b0), e1 << 8));
    Bounds(a0, b0, e1);
    LowZero(a3, b3);
    WordInjective(x[0], y[0]);
    WordInjective(x[1], y[1]);
    WordInjective(x[2], y[2]);
    WordInjective(x[3], y[3]);
    assert x == [x[0], x[1], x[2], x[3]] && y == [y[0], y[1], y[2], y[3]];
  }

  lemma Unfold(c: bv32, x: seq<Byte>)
    requires |x| == 4
    ensures Fed(c, x[..1]) == Shifts(Xor(c, Word(x[0])), 8)
    ensures Fed(c, x[..2]) == Shifts(Xor(Fed(c, x[..1]), Word(x[1])), 8)
    ensures Fed(c, x[..3]) == Shifts(Xor(Fed(c, x[..2]), Word(x[2])), 8)
    ensures Fed(c, x) == Shifts(Xor(Fed(c, x[..3]), Word(x[3])), 8)
  {
    hide Shifts, Xor, Word;
    assert x[..1][..0] == [] && x[..2][..1] == x[..1] && x[..3][..2] == x[..2];
    assert Fed(c, x[..1][..0]) == c;
  }

  lemma Last(s: bv32, t: bv32, a: bv32, b: bv32)
    requires Xor(s, a) == Xor(t, b)
    ensures Xor(s, Xor(a, b)) == t
  {
    hide Xor;
    XorBack(Xor(s, a), t, b);
    XorAssoc(s, a, b);
  }

  lemma LowBounds(a: bv32, b: bv32)
    requires a < 0x100 && b < 0x100
    ensures Xor(a, b) < 0x100
  {
  }

  lemma LowZero(a: bv32, b: bv32)
    ensures Xor(a, b) == 0 ==> a == b
  {
  }

  lemma XorZero(c: bv32, x: bv32)
    requires Xor(c, x) == c
    ensures x == 0
  {
  }

  /** Up to four bytes determine the register they lead to. */
  lemma FewBytes(c: bv32, x: seq<Byte>, y: seq<Byte>)
    requires |x| == |y| <= 4 && Fed(c, x) == Fed(c, y)
    ensures x == y
  {
    var pad := Zeros(4 - |x|);
    FedSplit(c, x, pad);
    FedSplit(c, y, pad);
    hide Fed;
    FourBytes(c, x + pad, y + pad);
    assert x == (x + pad)[..|x|] && y == (y + pad)[..|y|];
  }

  /** A change confined to four consecutive bytes always changes the checksum. */
  lemma WindowDetected(before: seq<Byte>, x: seq<Byte>, y: seq<Byte>, after: seq<Byte>)
    requires |x| == |y| <= 4 && x != y
    ensures Crc32(before + x + after) != Crc32(before + y + after)
  {
    var c := Fed(START, before);
    FedSplit(START, before, x);
    FedSplit(START, before, y);
    FedSplit(START, before + x, after);
    FedSplit(START, before + y, after);
    var cx, cy := Fed(c, x), Fed(c, y);
    assert Fed(START, before + x + after) == Fed(cx, after) && Fed(START, before + y + after) == Fed(cy, after);
    hide Fed;
    if cx == cy {
      FewBytes(c, x, y);
    } else if Fed(cx, after) == Fed(cy, after) {
      FedInjective(cx, cy, after);
    }
    NotInjective(Fed(cx, after), Fed(cy, after));
  }

  lemma NotInjective(a: bv32, b: bv32)
    ensures Finalize(a) == Finalize(b) ==> a == b
  {
  }

  // ---- the check value ------------------------------------------------------------------------------

  lemma EightShifts(c: bv32)
    ensures Shifts(c, 8) == Shift(Shift(Shift(Shift(Shift(Shift(Shift(Shift(c))))))))
  {
    hide Shift;
    var d := Shift(Shift(Shift(Shift(c))));
    assert Shifts(c, 8) == Shifts(Shift(Shift(c)), 6) == Shifts(d, 4);
    assert Shifts(d, 4) == Shifts(Shift(Shift(d)), 2);
  }

  /** One byte of the check string. */
  lemma CheckStep(c: bv32, b: Byte, w: bv32, d: bv32)
    requires Word(b) == w
    requires Shift(Shift(Shift(Shift(Shift(Shift(Shift(Shift(Xor(c, w))))))))) == d
    ensures Shifts(Xor(c, Word(b)), 8) == d
  {
    hide Shift, Xor, Word;
    EightShifts(Xor(c, w));
  }

  lemma FedThree(c: bv32, x: Byte, y: Byte, z: Byte, c1: bv32, c2: bv32, c3: bv32)
    requires Shifts(Xor(c, Word(x)), 8) == c1 && Shifts(Xor(c1, Word(y)), 8) == c2 && Shifts(Xor(c2, Word(z)), 8) == c3
    ensures Fed(c, [x, y, z]) == c3
  {
    hide Shifts, Xor, Word;
    assert [x, y, z][..2] == [x, y] && [x, y][..1] == [x] && [x][..0] == [];
    FedNone(c);
    FedStep(c, [x]);
    FedStep(c, [x, y]);
    FedStep(c, [x, y, z]);
  }

  lemma CheckFirst()
    ensures Fed(0xFFFF_FFFF, [49, 50, 51]) == 0x77B7_9C2D
  {
    CheckStep(0xFFFF_FFFF, 49, 0x0000_0031, 0x7C23_1048);
    CheckStep(0x7C23_1048, 50, 0x0000_0032, 0xB0AC_BB32);
    CheckStep(0xB0AC_BB32, 51, 0x0000_0033, 0x77B7_9C2D);
    hide Shifts, Xor, Word;
    FedThree(0xFFFF_FFFF, 49, 50, 51, 0x7C23_1048, 0xB0AC_BB32, 0x77B7_9C2D);
  }

  lemma CheckSecond()
    ensures Fed(0x77B7_9C2D, [52, 53, 54]) == 0xF68D_2C9E
  {
    CheckStep(0x77B7_9C2D, 52, 0x0000_0034, 0x641C_1F5C);
    CheckStep(0x641C_1F5C, 53, 0x0000_0035, 0x340A_C5E3);
    CheckStep(0x340A_C5E3, 54, 0x0000_0036, 0xF68D_2C9E);
    hide Shifts, Xor, Word;
    FedThree(0x77B7_9C2D, 52, 53, 54, 0x641C_1F5C, 0x340A_C5E3, 0xF68D_2C9E);
  }

  lemma CheckThird()
    ensures Fed(0xF68D_2C9E, [55, 56, 57]) == 0x340B_C6D9
  {
    CheckStep(0xF68D_2C9E, 55, 0x0000_0037, 0xAFFC_9660);
    CheckStep(0xAFFC_9660, 56, 0x0000_0038, 0x651F_2550);
    CheckStep(0x651F_2550, 57, 0x0000_0039, 0x340B_C6D9);
    hide Shifts, Xor, Word;
    FedThree(0xF68D_2C9E, 55, 56, 57, 0xAFFC_9660, 0x651F_2550, 0x340B_C6D9);
  }

  /** The digits 1 to 9 have the checksum that identifies CRC-32: 0xCBF43926. */
  lemma CheckValue(digits: seq<Byte>)
    requires digits == [49, 50, 51, 52, 53, 54, 55, 56, 57]
    ensures Crc32(digits) == 0xCBF4_3926
  {
    hide Fed;
    CheckFirst();
    CheckSecond();
    CheckThird();
    var a, b := digits[..3], digits[..6];
    assert a == [49, 50, 51] && b == a + [52, 53, 54] && digits == b + [55, 56, 57];
    FedSplit(START, a, [52, 53, 54]);
    FedSplit(START, b, [55, 56, 57]);
  }
}
