/** Numbers as little-endian fields of a packed structure, said digit by digit. */
module LittleEndian {
  import opened Layout
  import opened DiskFormat
  import Division

  /** 256 to the power of `k`. */
  function Pow256(k: nat): (p: nat)
    ensures p > 0
  {
    if k == 0 then 1 else 256 * Pow256(k - 1)
  }

  /** The `w` bytes of `v`, the lowest first. */
  function Encode(v: nat, w: nat): (b: seq<Byte>)
    ensures |b| == w
  {
    seq<Byte>(w, k requires 0 <= k < w => v / Pow256(k) % 256)
  }

  /** Byte `off + k` is digit `k` of `v` in base 256, and `v` has no more digits than `w`. */
  ghost predicate FieldAt(b: seq<Byte>, off: nat, w: nat, v: nat) {
    off + w <= |b| && v < Pow256(w) && forall k :: 0 <= k < w ==> b[off + k] == v / Pow256(k) % 256
  }

  lemma EncodeIsField(v: nat, w: nat)
    requires v < Pow256(w)
    ensures FieldAt(Encode(v, w), 0, w, v)
  {
  }

  /** A field of a part is a field of the whole. */
  lemma FieldWithin(b: seq<Byte>, at: nat, n: nat, off: nat, w: nat, v: nat)
    requires at + n <= |b| && FieldAt(b[at..at + n], off, w, v)
    ensures FieldAt(b, at + off, w, v)
  {
    forall k | 0 <= k < w ensures b[at + off + k] == v / Pow256(k) % 256 {
      assert b[at..at + n][off + k] == b[at + off + k];
    }
  }

  lemma DivDiv(v: nat, p: nat)
    requires p > 0
    ensures v / (256 * p) == v / 256 / p
  {
    var q, r := v / 256, v % 256;
    var s, t := q / p, q % p;
    assert v == 256 * q + r && q == s * p + t;
    assert v == s * (256 * p) + (256 * t + r);
    Division.DivUnique(v, 256 * p, s, 256 * t + r);
  }

  /** A field has one value. */
  lemma {:induction false} FieldUnique(b: seq<Byte>, off: nat, w: nat, v: nat, u: nat)
    requires FieldAt(b, off, w, v) && FieldAt(b, off, w, u)
    ensures v == u
    decreases w
  {
    if w > 0 {
      assert b[off + 0] == v / Pow256(0) % 256 == u / Pow256(0) % 256;
      Upper(b, off, w, v);
      Upper(b, off, w, u);
      FieldUnique(b, off + 1, w - 1, v / 256, u / 256);
    }
  }

  lemma Upper(b: seq<Byte>, off: nat, w: nat, v: nat)
    requires w > 0 && FieldAt(b, off, w, v)
    ensures FieldAt(b, off + 1, w - 1, v / 256)
  {
    forall k | 0 <= k < w - 1 ensures b[off + 1 + k] == v / 256 / Pow256(k) % 256 {
      assert b[off + (k + 1)] == v / Pow256(k + 1) % 256;
      DivDiv(v, Pow256(k));
    }
  }

  lemma Powers()
    ensures Pow256(0) == 1 && Pow256(1) == 256 && Pow256(2) == 0x1_0000
    ensures Pow256(3) == 0x100_0000 && Pow256(4) == U32
  {
    assert Pow256(2) == 256 * Pow256(1) && Pow256(3) == 256 * Pow256(2) && Pow256(4) == 256 * Pow256(3);
  }

  lemma MorePowers(k: nat)
    requires k <= 4
    ensures Pow256(4 + k) == U32 * Pow256(k) && Pow256(8) == U64
  {
    Powers();
    assert Pow256(5) == 256 * Pow256(4) && Pow256(6) == 256 * Pow256(5) && Pow256(7) == 256 * Pow256(6) &&
      Pow256(8) == 256 * Pow256(7);
  }

  /** Two bytes read as a number. */
  lemma HalfWordField(b: seq<Byte>)
    requires |b| == 2
    ensures var p: nat, q: nat := b[0], b[1]; FieldAt(b, 0, 2, p + 256 * q)
  {
    Powers();
    var p: nat, q: nat := b[0], b[1];
    assert (p + 256 * q) / 256 == q && (p + 256 * q) % 256 == p;
  }

  lemma WordField(b: seq<Byte>)
    requires |b| == 4
    ensures FieldAt(b, 0, 4, GetU32(b))
  {
    var p: nat, q: nat, r: nat, s: nat := b[0], b[1], b[2], b[3];
    Powers();
    WordDigits(p, q, r, s);
    hide Pow256;
    var x := GetU32(b);
    assert x == p + 256 * q + 0x1_0000 * r + 0x100_0000 * s;
  }

  lemma WordDigits(p: nat, q: nat, r: nat, s: nat)
    requires p < 256 && q < 256 && r < 256 && s < 256
    ensures var x := p + 256 * q + 0x1_0000 * r + 0x100_0000 * s;
      x % 256 == p && x / 256 % 256 == q && x / 0x1_0000 % 256 == r && x / 0x100_0000 % 256 == s
  {
    var x, c := p + 256 * q + 0x1_0000 * r + 0x100_0000 * s, r + 256 * s;
    var a := q + 256 * c;
    Division.DivUnique(x, 256, a, p);
    Division.DivUnique(a, 256, c, q);
    Division.DivUnique(c, 256, s, r);
    Division.DivUnique(x, 0x1_0000, c, p + 256 * q);
    Division.DivUnique(x, 0x100_0000, s, p + 256 * q + 0x1_0000 * r);
  }

  /** A number of eight digits from its halves. */
  lemma LongField(b: seq<Byte>, lo: nat, hi: nat)
    requires FieldAt(b, 0, 4, lo) && FieldAt(b, 4, 4, hi) && |b| == 8
    ensures FieldAt(b, 0, 8, lo + U32 * hi)
  {
    var x := lo + U32 * hi;
    Powers();
    MorePowers(4);
    forall k | 0 <= k < 8 ensures b[0 + k] == x / Pow256(k) % 256 {
      if k < 4 {
        assert b[0 + k] == lo / Pow256(k) % 256;
        LowDigit(lo, hi, k);
      } else {
        assert b[4 + (k - 4)] == hi / Pow256(k - 4) % 256;
        HighDigit(lo, hi, k - 4);
      }
    }
  }

  lemma LowDigit(lo: nat, hi: nat, k: nat)
    requires lo < U32 && k < 4
    ensures (lo + U32 * hi) / Pow256(k) % 256 == lo / Pow256(k) % 256
  {
    Powers();
    Carry(lo, hi, Pow256(k), if k == 0 then 0x100_0000 else if k == 1 then 0x1_0000 else if k == 2 then 256 else 1);
  }

  /** What is a multiple of 256 times `p` does not show in the digit at `p`. */
  lemma Carry(lo: nat, hi: nat, p: nat, d: nat)
    requires p > 0 && U32 == p * d * 256
    ensures (lo + U32 * hi) / p % 256 == lo / p % 256
  {
    var q, r, e := lo / p, lo % p, d * hi;
    assert U32 * hi == (256 * e) * p by { Regroup(p, d, hi); }
    Carried(lo, U32 * hi, p, q, 256 * e, r);
    Multiple(q, e);
  }

  lemma Carried(lo: nat, m: nat, p: nat, q: nat, c: nat, r: nat)
    requires p > 0 && lo == q * p + r && r < p && m == c * p
    ensures (lo + m) / p == q + c
  {
    assert (q + c) * p == q * p + c * p;
    Division.DivUnique(lo + m, p, q + c, r);
  }

  lemma Multiple(q: nat, e: nat)
    ensures (q + 256 * e) % 256 == q % 256
  {
  }

  lemma Regroup(p: nat, d: nat, hi: nat)
    ensures p * d * 256 * hi == (256 * (d * hi)) * p
  {
  }

  lemma HighDigit(lo: nat, hi: nat, k: nat)
    requires lo < U32 && k < 4
    ensures (lo + U32 * hi) / Pow256(4 + k) == hi / Pow256(k)
  {
    MorePowers(k);
    Powers();
    Scaled(lo, hi, Pow256(k));
  }

  lemma Scaled(lo: nat, hi: nat, p: nat)
    requires lo < U32 && p > 0
    ensures U32 * p > 0 && (lo + U32 * hi) / (U32 * p) == hi / p
  {
    var q, r := hi / p, hi % p;
    assert hi == q * p + r;
    var m := U32 * p;
    assert U32 * hi == q * m + U32 * r by { Spread(q, p, r); }
    Division.DivUnique(lo + U32 * hi, m, q, U32 * r + lo);
  }

  lemma Spread(q: nat, p: nat, r: nat)
    ensures U32 * (q * p + r) == q * (U32 * p) + U32 * r
  {
  }
}
