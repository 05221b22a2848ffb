/** Boundary tags (userspace/libc/malloc.c:2080-2160, 2220-2300): the heads and feet in memory and the tiling of the
segment by chunks that they describe. */
module Tags {

  const ALIGN: nat := 16
  const MIN_CHUNK: nat := 32

  /** A head word: chunk size, own in-use bit, previous chunk's in-use bit. */
  datatype Head = Head(size: nat, cinuse: bool, pinuse: bool)

  /** A chunk of the tiling, with the address of the one before it. */
  datatype Block = Block(size: nat, used: bool, prev: nat)

  type Blocks = map<nat, Block>

  // ---- the tiling ---------------------------------------------------------------------------------

  /** Chunk `a` ends where its successor begins and begins where its predecessor ends. */
  predicate Fits(bl: Blocks, base: nat, top: nat, end: nat, a: nat) {
    && a in bl && base <= a && a + bl[a].size <= end && a % ALIGN == 0 && bl[a].size % ALIGN == 0 && bl[a].size > 0
    && (if a == top then a + bl[a].size == end && !bl[a].used
        else bl[a].size >= MIN_CHUNK && a + bl[a].size in bl && bl[a + bl[a].size].prev == a)
    && (a != base ==> bl[a].prev in bl && bl[a].prev != top && bl[a].prev + bl[bl[a].prev].size == a)
  }

  /** Its head, the foot before it and its neighbours agree with the tiling; no two free chunks touch. */
  predicate Tagged(bl: Blocks, heads: map<nat, Head>, feet: map<nat, nat>, base: nat, a: nat) {
    && a in bl && (a != base ==> bl[a].prev in bl)
    && a in heads && heads[a] == Head(bl[a].size, bl[a].used, a == base || bl[bl[a].prev].used)
    && (a != base && !bl[bl[a].prev].used ==> bl[a].used && a in feet && feet[a] == bl[bl[a].prev].size)
  }

  predicate Ok(bl: Blocks, heads: map<nat, Head>, feet: map<nat, nat>, base: nat, top: nat, end: nat, a: nat) {
    Fits(bl, base, top, end, a) && Tagged(bl, heads, feet, base, a)
  }

  ghost predicate Inv(bl: Blocks, heads: map<nat, Head>, feet: map<nat, nat>, base: nat, top: nat, end: nat) {
    && 0 < base && base in bl && top in bl
    && forall a {:trigger Ok(bl, heads, feet, base, top, end, a)} :: a in bl ==> Ok(bl, heads, feet, base, top, end, a)
  }

  lemma Step(bl: Blocks, heads: map<nat, Head>, feet: map<nat, nat>, base: nat, top: nat, end: nat, a: nat)
    requires Inv(bl, heads, feet, base, top, end) && a in bl
    ensures Ok(bl, heads, feet, base, top, end, a)
    ensures a != top ==> Ok(bl, heads, feet, base, top, end, a + bl[a].size)
    ensures a != base ==> Ok(bl, heads, feet, base, top, end, bl[a].prev)
  {
    assert Ok(bl, heads, feet, base, top, end, a);
  }

  // ---- exactly one chunk at every address -----------------------------------------------------------

  /** Different chunks do not overlap. */
  lemma {:induction false} Apart(bl: Blocks, heads: map<nat, Head>, feet: map<nat, nat>, base: nat, top: nat,
                                 end: nat, a: nat, b: nat)
    requires Inv(bl, heads, feet, base, top, end) && a in bl && b in bl && a < b
    ensures a + bl[a].size <= b
    decreases b
  {
    Step(bl, heads, feet, base, top, end, a);
    Step(bl, heads, feet, base, top, end, b);
    var q := bl[b].prev;
    if q > a {
      Apart(bl, heads, feet, base, top, end, a, q);
    } else if q < a {
      Apart(bl, heads, feet, base, top, end, q, a);
    }
  }

  /** Every address of the segment lies in a chunk. */
  lemma {:induction false} Covers(bl: Blocks, heads: map<nat, Head>, feet: map<nat, nat>, base: nat, top: nat,
                                  end: nat, from: nat, y: nat)
    returns (a: nat)
    requires Inv(bl, heads, feet, base, top, end) && from in bl && from <= y < end
    ensures a in bl && a <= y < a + bl[a].size
    decreases end - from
  {
    Step(bl, heads, feet, base, top, end, from);
    if y < from + bl[from].size { a := from; }
    else { a := Covers(bl, heads, feet, base, top, end, from + bl[from].size, y); }
  }

  /** The chunks tile the segment exactly. */
  lemma Tiling(bl: Blocks, heads: map<nat, Head>, feet: map<nat, nat>, base: nat, top: nat, end: nat, y: nat)
    requires Inv(bl, heads, feet, base, top, end)
    ensures base <= y < end <==> exists a :: a in bl && a <= y < a + bl[a].size
    ensures forall a, b :: a in bl && b in bl && a <= y < a + bl[a].size && b <= y < b + bl[b].size ==> a == b
  {
    if base <= y < end {
      var a := Covers(bl, heads, feet, base, top, end, base, y);
    }
    forall a | a in bl ensures base <= a && a + bl[a].size <= end { Step(bl, heads, feet, base, top, end, a); }
    forall a, b | a in bl && b in bl && a <= y < a + bl[a].size && b <= y < b + bl[b].size ensures a == b {
      if a < b { Apart(bl, heads, feet, base, top, end, a, b); }
      if b < a { Apart(bl, heads, feet, base, top, end, b, a); }
    }
  }

  // ---- taking a free chunk --------------------------------------------------------------------------

  /** Free chunk `p` goes into use whole: set_inuse_and_pinuse. */
  lemma Take(bl: Blocks, heads: map<nat, Head>, feet: map<nat, nat>, base: nat, top: nat, end: nat, p: nat)
    requires Inv(bl, heads, feet, base, top, end) && p in bl && !bl[p].used && p != top
    ensures var n := p + bl[p].size;
      && n in heads
      && Inv(bl[p := bl[p].(used := true)], heads[p := Head(bl[p].size, true, true)][n := heads[n].(pinuse := true)],
           feet, base, top, end)
  {
    Step(bl, heads, feet, base, top, end, p);
    var n := p + bl[p].size;
    var bl', heads' := bl[p := bl[p].(used := true)],
        heads[p := Head(bl[p].size, true, true)][n := heads[n].(pinuse := true)];
    forall a | a in bl' ensures Ok(bl', heads', feet, base, top, end, a) {
      Step(bl, heads, feet, base, top, end, a);
    }
  }

  /** Chunk `p` split after `nb` bytes: the first part in use, the rest free. */
  function Split(bl: Blocks, p: nat, nb: nat): Blocks
    requires p in bl && nb <= bl[p].size
  {
    var r, n := p + nb, p + bl[p].size;
    var cut := bl[p := bl[p].(size := nb, used := true)][r := Block(bl[p].size - nb, false, p)];
    if n in bl then cut[n := bl[n].(prev := r)] else cut
  }

  lemma SplitKeys(bl: Blocks, p: nat, nb: nat)
    requires p in bl && nb <= bl[p].size
    ensures Split(bl, p, nb).Keys == bl.Keys + {p + nb}
  {
  }

  function SplitHeads(heads: map<nat, Head>, p: nat, nb: nat, rsize: nat): map<nat, Head> {
    heads[p := Head(nb, true, true)][p + nb := Head(rsize, false, true)]
  }

  lemma {:induction false} SplitNew(bl: Blocks, heads: map<nat, Head>, feet: map<nat, nat>, base: nat, top: nat,
                                    end: nat, p: nat, nb: nat)
    requires Inv(bl, heads, feet, base, top, end) && p in bl && 0 < nb < bl[p].size
    ensures p + nb !in bl && (p + bl[p].size in bl <==> p != top)
  {
    Step(bl, heads, feet, base, top, end, p);
    if p + nb in bl { Apart(bl, heads, feet, base, top, end, p, p + nb); }
    if p == top && end in bl { Step(bl, heads, feet, base, top, end, end); }
  }

  /** The top chunk is split: the rest is the new top. */
  lemma CarveTop(bl: Blocks, heads: map<nat, Head>, feet: map<nat, nat>, base: nat, top: nat, end: nat, nb: nat)
    requires Inv(bl, heads, feet, base, top, end) && nb >= MIN_CHUNK && nb % ALIGN == 0 && nb < bl[top].size
    ensures Inv(Split(bl, top, nb), SplitHeads(heads, top, nb, bl[top].size - nb), feet, base, top + nb, end)
  {
    SplitNew(bl, heads, feet, base, top, end, top, nb);
    var bl', heads', r := Split(bl, top, nb), SplitHeads(heads, top, nb, bl[top].size - nb), top + nb;
    CarveTopHere(bl, heads, feet, base, top, end, nb);
    assert bl'.Keys == bl.Keys + {r};
    hide Split, SplitHeads, Ok;
    forall a | a in bl' ensures Ok(bl', heads', feet, base, r, end, a) {
      if a != top && a != r { CarveTopOther(bl, heads, feet, base, top, end, nb, a); }
    }
  }

  lemma CarveTopHere(bl: Blocks, heads: map<nat, Head>, feet: map<nat, nat>, base: nat, top: nat, end: nat, nb: nat)
    requires Inv(bl, heads, feet, base, top, end) && nb >= MIN_CHUNK && nb % ALIGN == 0
    requires nb < bl[top].size && top + nb !in bl && top + bl[top].size !in bl
    ensures var bl', heads', r := Split(bl, top, nb), SplitHeads(heads, top, nb, bl[top].size - nb), top + nb;
      Ok(bl', heads', feet, base, r, end, top) && Ok(bl', heads', feet, base, r, end, r)
  {
    Step(bl, heads, feet, base, top, end, top);
  }

  lemma CarveTopOther(bl: Blocks, heads: map<nat, Head>, feet: map<nat, nat>, base: nat, top: nat, end: nat, nb: nat,
                      a: nat)
    requires Inv(bl, heads, feet, base, top, end) && 0 < nb < bl[top].size && a in bl
    requires a != top && top + nb !in bl && top + bl[top].size !in bl
    ensures Ok(Split(bl, top, nb), SplitHeads(heads, top, nb, bl[top].size - nb), feet, base, top + nb, end, a)
  {
    Step(bl, heads, feet, base, top, end, a);
    Step(bl, heads, feet, base, top, end, top);
  }

  /** A free chunk other than top is split: the rest stays free, with a foot. */
  lemma Carve(bl: Blocks, heads: map<nat, Head>, feet: map<nat, nat>, base: nat, top: nat, end: nat, p: nat, nb: nat)
    requires Inv(bl, heads, feet, base, top, end) && p in bl && !bl[p].used && p != top
    requires nb >= MIN_CHUNK && nb % ALIGN == 0 && nb + MIN_CHUNK <= bl[p].size
    ensures var rsize := bl[p].size - nb;
      Inv(Split(bl, p, nb), SplitHeads(heads, p, nb, rsize), feet[p + bl[p].size := rsize], base, top, end)
  {
    hide Split, SplitHeads, Ok;
    SplitNew(bl, heads, feet, base, top, end, p, nb);
    var rsize := bl[p].size - nb;
    var bl', heads', feet' := Split(bl, p, nb), SplitHeads(heads, p, nb, rsize), feet[p + bl[p].size := rsize];
    CarveFront(bl, heads, feet, base, top, end, p, nb);
    CarveRest(bl, heads, feet, base, top, end, p, nb);
    CarveNext(bl, heads, feet, base, top, end, p, nb);
    SplitKeys(bl, p, nb);
    forall a | a in bl' ensures Ok(bl', heads', feet', base, top, end, a) {
      if a != p && a != p + nb && a != p + bl[p].size {
        CarveOther(bl, heads, feet, base, top, end, p, nb, a);
      }
    }
  }

  lemma CarveFront(bl: Blocks, heads: map<nat, Head>, feet: map<nat, nat>, base: nat, top: nat, end: nat, p: nat,
                   nb: nat)
    requires Inv(bl, heads, feet, base, top, end) && p in bl && !bl[p].used && p != top
    requires nb >= MIN_CHUNK && nb % ALIGN == 0 && nb + MIN_CHUNK <= bl[p].size && p + nb !in bl
    ensures Ok(Split(bl, p, nb), SplitHeads(heads, p, nb, bl[p].size - nb), feet[p + bl[p].size := bl[p].size - nb],
      base, top, end, p)
  {
    Step(bl, heads, feet, base, top, end, p);
  }

  lemma CarveRest(bl: Blocks, heads: map<nat, Head>, feet: map<nat, nat>, base: nat, top: nat, end: nat, p: nat,
                  nb: nat)
    requires Inv(bl, heads, feet, base, top, end) && p in bl && !bl[p].used && p != top
    requires nb >= MIN_CHUNK && nb % ALIGN == 0 && nb + MIN_CHUNK <= bl[p].size && p + nb !in bl
    ensures Ok(Split(bl, p, nb), SplitHeads(heads, p, nb, bl[p].size - nb), feet[p + bl[p].size := bl[p].size - nb],
      base, top, end, p + nb)
  {
    Step(bl, heads, feet, base, top, end, p);
    CarveRestFits(bl, base, top, end, p, nb);
  }

  lemma CarveRestFits(bl: Blocks, base: nat, top: nat, end: nat, p: nat, nb: nat)
    requires Fits(bl, base, top, end, p) && p != top && base in bl && top in bl
    requires nb >= MIN_CHUNK && nb % ALIGN == 0 && nb + MIN_CHUNK <= bl[p].size && p + nb !in bl
    ensures Fits(Split(bl, p, nb), base, top, end, p + nb)
  {
  }

  lemma CarveNext(bl: Blocks, heads: map<nat, Head>, feet: map<nat, nat>, base: nat, top: nat, end: nat, p: nat,
                  nb: nat)
    requires Inv(bl, heads, feet, base, top, end) && p in bl && !bl[p].used && p != top
    requires nb >= MIN_CHUNK && nb % ALIGN == 0 && nb + MIN_CHUNK <= bl[p].size && p + nb !in bl
    ensures Ok(Split(bl, p, nb), SplitHeads(heads, p, nb, bl[p].size - nb), feet[p + bl[p].size := bl[p].size - nb],
      base, top, end, p + bl[p].size)
  {
    Step(bl, heads, feet, base, top, end, p);
  }

  lemma CarveOther(bl: Blocks, heads: map<nat, Head>, feet: map<nat, nat>, base: nat, top: nat, end: nat, p: nat,
                   nb: nat, a: nat)
    requires Inv(bl, heads, feet, base, top, end) && p in bl && !bl[p].used && p != top
    requires 0 < nb < bl[p].size && p + nb !in bl && a in bl
    requires a != p && a != p + bl[p].size
    ensures var rsize := bl[p].size - nb;
      Ok(Split(bl, p, nb), SplitHeads(heads, p, nb, rsize), feet[p + bl[p].size := rsize], base, top, end, a)
  {
    Step(bl, heads, feet, base, top, end, a);
    Step(bl, heads, feet, base, top, end, p);
  }

  // ---- giving a chunk back --------------------------------------------------------------------------

  /** Where the free chunk begins that chunk `p` becomes part of: at its free predecessor, or at `p`. */
  function FreeFrom(bl: Blocks, base: nat, p: nat): nat
    requires p in bl && (p != base ==> bl[p].prev in bl)
  {
    if p != base && !bl[bl[p].prev].used then bl[p].prev else p
  }

  /** Where it ends: at the end of its free successor, or of `p`. */
  function FreeTo(bl: Blocks, p: nat): nat
    requires p in bl && p + bl[p].size in bl
  {
    var n := p + bl[p].size;
    if bl[n].used then n else n + bl[n].size
  }

  function MergedSize(bl: Blocks, base: nat, p: nat): nat
    requires p in bl && p + bl[p].size in bl && (p != base ==> bl[p].prev in bl)
  {
    var n := p + bl[p].size;
    (if p != base && !bl[bl[p].prev].used then bl[bl[p].prev].size else 0) + bl[p].size + (if bl[n].used then 0
        else bl[n].size)
  }

  /** Chunk `p` freed and merged with its free neighbours. */
  function Merge(bl: Blocks, base: nat, p: nat): Blocks
    requires p in bl && p + bl[p].size in bl && (p != base ==> bl[p].prev in bl)
  {
    var a, e, n := FreeFrom(bl, base, p), FreeTo(bl, p), p + bl[p].size;
    var rest := bl - ({p, n} - (if bl[n].used then {n} else {}));
    var free := rest[a := Block(MergedSize(bl, base, p), false, bl[a].prev)];
    if e in free then free[e := free[e].(prev := a)] else free
  }

  function MergeTop(bl: Blocks, base: nat, top: nat, p: nat): nat
    requires p in bl && p + bl[p].size in bl && (p != base ==> bl[p].prev in bl)
  {
    if p + bl[p].size == top then FreeFrom(bl, base, p) else top
  }

  /** The head of the merged chunk, and no longer in use for the chunk after it. */
  function MergeHeads(bl: Blocks, heads: map<nat, Head>, base: nat, top: nat, p: nat): map<nat, Head>
    requires p in bl && p + bl[p].size in bl && (p != base ==> bl[p].prev in bl)
  {
    var a, e := FreeFrom(bl, base, p), FreeTo(bl, p);
    var free := heads[a := Head(MergedSize(bl, base, p), false, true)];
    if p + bl[p].size == top || e !in heads then free else free[e := heads[e].(pinuse := false)]
  }

  function MergeFeet(bl: Blocks, feet: map<nat, nat>, base: nat, top: nat, p: nat): map<nat, nat>
    requires p in bl && p + bl[p].size in bl && (p != base ==> bl[p].prev in bl)
  {
    if p + bl[p].size == top then feet else feet[FreeTo(bl, p) := MergedSize(bl, base, p)]
  }

  /** What is known about the chunks around `p`. */
  lemma Around(bl: Blocks, heads: map<nat, Head>, feet: map<nat, nat>, base: nat, top: nat, end: nat, p: nat)
    requires Inv(bl, heads, feet, base, top, end) && p in bl && bl[p].used
    ensures p != top && p + bl[p].size in bl && (p != base ==> bl[p].prev in bl)
    ensures var n, a, e := p + bl[p].size, FreeFrom(bl, base, p), FreeTo(bl, p);
      && a in bl && a + MergedSize(bl, base, p) == e && e <= end && a <= p < n <= e
      && Ok(bl, heads, feet, base, top, end, p) && Ok(bl, heads, feet, base, top, end, a)
      && Ok(bl, heads, feet, base, top, end, n)
      && (a == p || (a == bl[p].prev && a + bl[a].size == p && !bl[a].used))
      && (n == top ==> e == end && end !in bl)
      && (n != top ==> e in bl && Ok(bl, heads, feet, base, top, end, e) && bl[e].used)
      && (a != base ==> Ok(bl, heads, feet, base, top, end, bl[a].prev) && bl[bl[a].prev].used)
  {
    Step(bl, heads, feet, base, top, end, p);
    var n := p + bl[p].size;
    Step(bl, heads, feet, base, top, end, n);
    Step(bl, heads, feet, base, top, end, FreeFrom(bl, base, p));
    if n == top && end in bl { Step(bl, heads, feet, base, top, end, end); }
  }

  /** Freeing chunk `p` keeps every tag true. */
  lemma MergeInv(bl: Blocks, heads: map<nat, Head>, feet: map<nat, nat>, base: nat, top: nat, end: nat, p: nat)
    requires Inv(bl, heads, feet, base, top, end) && p in bl && bl[p].used
    ensures p + bl[p].size in bl && (p != base ==> bl[p].prev in bl)
    ensures Inv(Merge(bl, base, p), MergeHeads(bl, heads, base, top, p), MergeFeet(bl, feet, base, top, p), base,
      MergeTop(bl, base, top, p), end)
  {
    Around(bl, heads, feet, base, top, end, p);
    var bl', heads', feet', top' := Merge(bl, base, p), MergeHeads(bl, heads, base, top, p),
        MergeFeet(bl, feet, base, top, p), MergeTop(bl, base, top, p);
    var n, a, e := p + bl[p].size, FreeFrom(bl, base, p), FreeTo(bl, p);
    MergeHere(bl, heads, feet, base, top, end, p);
    MergeNext(bl, heads, feet, base, top, end, p);
    MergeKeys(bl, heads, feet, base, top, end, p);
    hide Merge, MergeHeads, MergeFeet, MergeTop, FreeFrom, FreeTo, MergedSize, Ok;
    forall x | x in bl' ensures Ok(bl', heads', feet', base, top', end, x) {
      if x != a && x != e {
        MergeOther(bl, heads, feet, base, top, end, p, x);
      }
    }
  }

  lemma MergeKeys(bl: Blocks, heads: map<nat, Head>, feet: map<nat, nat>, base: nat, top: nat, end: nat, p: nat)
    requires Inv(bl, heads, feet, base, top, end) && p in bl && bl[p].used
    ensures p + bl[p].size in bl && (p != base ==> bl[p].prev in bl)
    ensures var bl', a, e := Merge(bl, base, p), FreeFrom(bl, base, p), FreeTo(bl, p);
      && base in bl' && MergeTop(bl, base, top, p) in bl'
      && forall x :: x in bl' ==> x in bl && (x == a || (x != p && (x != p + bl[p].size || bl[x].used)))
  {
    Around(bl, heads, feet, base, top, end, p);
  }

  /** The merged tiling, address by address. */
  lemma MergeAt(bl: Blocks, base: nat, p: nat, y: nat)
    requires p in bl && p + bl[p].size in bl && (p != base ==> bl[p].prev in bl)
    requires var n, a, e := p + bl[p].size, FreeFrom(bl, base, p), FreeTo(bl, p);
      a in bl && a <= p < n <= e && (bl[n].used || n < e)
    ensures var bl', n, a, e := Merge(bl, base, p), p + bl[p].size, FreeFrom(bl, base, p), FreeTo(bl, p);
      && (y in bl' <==> y in bl && (y == a || (y != p && (y != n || bl[n].used))))
      && (y in bl' ==>
           bl'[y] == if y == a then Block(MergedSize(bl, base, p), false, bl[a].prev)
           else if y == e then bl[e].(prev := a) else bl[y])
  {
  }

  /** The merged chunk and its neighbours. */
  lemma MergeSees(bl: Blocks, heads: map<nat, Head>, feet: map<nat, nat>, base: nat, top: nat, end: nat, p: nat)
    requires Inv(bl, heads, feet, base, top, end) && p in bl && bl[p].used
    ensures p + bl[p].size in bl && (p != base ==> bl[p].prev in bl)
    ensures var bl', a, e, m := Merge(bl, base, p), FreeFrom(bl, base, p), FreeTo(bl, p), MergedSize(bl, base, p);
      && a in bl && a in bl' && bl'[a] == Block(m, false, bl[a].prev) && a + m == e <= end && m > 0
      && (if p + bl[p].size == top then e == end else e in bl' && bl'[e].prev == a && m >= MIN_CHUNK)
      && (a != base ==>
           bl[a].prev in bl && bl[a].prev in bl' && bl'[bl[a].prev] == bl[bl[a].prev] && bl[bl[a].prev].used)
  {
    Around(bl, heads, feet, base, top, end, p);
    var a, e := FreeFrom(bl, base, p), FreeTo(bl, p);
    hide Merge;
    MergeAt(bl, base, p, a);
    MergeAt(bl, base, p, e);
    MergeAt(bl, base, p, bl[a].prev);
    assert a != base ==> bl[a].prev < a;
  }

  lemma MergeHere(bl: Blocks, heads: map<nat, Head>, feet: map<nat, nat>, base: nat, top: nat, end: nat, p: nat)
    requires Inv(bl, heads, feet, base, top, end) && p in bl && bl[p].used
    ensures p + bl[p].size in bl && (p != base ==> bl[p].prev in bl)
    ensures Ok(Merge(bl, base, p), MergeHeads(bl, heads, base, top, p), MergeFeet(bl, feet, base, top, p), base,
      MergeTop(bl, base, top, p), end,
               FreeFrom(bl, base, p))
  {
    Around(bl, heads, feet, base, top, end, p);
    MergeSees(bl, heads, feet, base, top, end, p);
    MergeAligned(bl, heads, feet, base, top, end, p);
    MergeHead(bl, heads, feet, base, top, end, p);
    hide Merge, MergedSize, FreeTo, FreeFrom, MergeHeads, MergeFeet;
  }

  lemma MergeHead(bl: Blocks, heads: map<nat, Head>, feet: map<nat, nat>, base: nat, top: nat, end: nat, p: nat)
    requires Inv(bl, heads, feet, base, top, end) && p in bl && bl[p].used
    ensures p + bl[p].size in bl && (p != base ==> bl[p].prev in bl)
    ensures var heads', a := MergeHeads(bl, heads, base, top, p), FreeFrom(bl, base, p);
      a in heads' && heads'[a] == Head(MergedSize(bl, base, p), false, true)
  {
    Around(bl, heads, feet, base, top, end, p);
  }

  lemma MergeAligned(bl: Blocks, heads: map<nat, Head>, feet: map<nat, nat>, base: nat, top: nat, end: nat, p: nat)
    requires Inv(bl, heads, feet, base, top, end) && p in bl && bl[p].used
    ensures p + bl[p].size in bl && (p != base ==> bl[p].prev in bl)
    ensures MergedSize(bl, base, p) % ALIGN == 0
  {
    Around(bl, heads, feet, base, top, end, p);
  }

  lemma MergeNext(bl: Blocks, heads: map<nat, Head>, feet: map<nat, nat>, base: nat, top: nat, end: nat, p: nat)
    requires Inv(bl, heads, feet, base, top, end) && p in bl && bl[p].used
    ensures p + bl[p].size in bl && (p != base ==> bl[p].prev in bl)
    ensures FreeTo(bl, p) in Merge(bl, base, p) ==>
      Ok(Merge(bl, base, p), MergeHeads(bl, heads, base, top, p), MergeFeet(bl, feet, base, top, p), base,
          MergeTop(bl, base, top, p), end, FreeTo(bl, p))
  {
    Around(bl, heads, feet, base, top, end, p);
    var bl', a, e := Merge(bl, base, p), FreeFrom(bl, base, p), FreeTo(bl, p);
    if e in bl' {
      Step(bl, heads, feet, base, top, end, e);
      hide Merge, MergedSize;
      MergeAt(bl, base, p, a);
      MergeAt(bl, base, p, e);
      MergeAt(bl, base, p, e + bl[e].size);
    }
  }

  lemma MergeOther(bl: Blocks, heads: map<nat, Head>, feet: map<nat, nat>, base: nat, top: nat, end: nat, p: nat,
                   x: nat)
    requires Inv(bl, heads, feet, base, top, end) && p in bl && bl[p].used && x in bl
    requires p + bl[p].size in bl && (p != base ==> bl[p].prev in bl)
    requires x != FreeFrom(bl, base, p) && x != FreeTo(bl, p) && x != p && (x != p + bl[p].size || bl[x].used)
    ensures Ok(Merge(bl, base, p), MergeHeads(bl, heads, base, top, p), MergeFeet(bl, feet, base, top, p), base,
      MergeTop(bl, base, top, p), end, x)
  {
    Around(bl, heads, feet, base, top, end, p);
    Step(bl, heads, feet, base, top, end, x);
    MergeNeighbours(bl, heads, feet, base, top, end, p, x);
    MergeTags(bl, heads, feet, base, top, end, p, x);
    hide Merge, MergeHeads, MergeFeet, FreeFrom, FreeTo, MergedSize;
  }

  /** A chunk not touched by the merge keeps its neighbours. */
  lemma MergeNeighbours(bl: Blocks, heads: map<nat, Head>, feet: map<nat, nat>, base: nat, top: nat, end: nat, p: nat,
                        x: nat)
    requires Inv(bl, heads, feet, base, top, end) && p in bl && bl[p].used && x in bl
    requires p + bl[p].size in bl && (p != base ==> bl[p].prev in bl)
    requires x != FreeFrom(bl, base, p) && x != FreeTo(bl, p) && x != p && (x != p + bl[p].size || bl[x].used)
    ensures MergeTop(bl, base, top, p) == x <==> x == top
    ensures var bl' := Merge(bl, base, p);
      && x in bl' && bl'[x] == bl[x]
      && (x != top ==> x + bl[x].size in bl' && bl'[x + bl[x].size].prev == x)
      && (x != base ==>
           bl[x].prev in bl && bl[x].prev in bl' && bl'[bl[x].prev].size == bl[bl[x].prev].size &&
           bl'[bl[x].prev].used == bl[bl[x].prev].used)
      && (x != base ==> bl[x].prev != MergeTop(bl, base, top, p))
  {
    Around(bl, heads, feet, base, top, end, p);
    Step(bl, heads, feet, base, top, end, x);
    MergeAt(bl, base, p, x);
    MergeAt(bl, base, p, x + bl[x].size);
    MergeAt(bl, base, p, bl[x].prev);
    hide Merge, MergedSize;
  }

  lemma MergeTags(bl: Blocks, heads: map<nat, Head>, feet: map<nat, nat>, base: nat, top: nat, end: nat, p: nat, x: nat)
    requires Inv(bl, heads, feet, base, top, end) && p in bl && bl[p].used && x in bl
    requires p + bl[p].size in bl && (p != base ==> bl[p].prev in bl)
    requires x != FreeFrom(bl, base, p) && x != FreeTo(bl, p)
    ensures var heads', feet' := MergeHeads(bl, heads, base, top, p), MergeFeet(bl, feet, base, top, p);
      x in heads && x in heads' && heads'[x] == heads[x] && (x in feet ==> x in feet' && feet'[x] == feet[x])
  {
    Step(bl, heads, feet, base, top, end, x);
  }

  // ---- growing, shrinking and creating the segment ----------------------------------------------------

  /** init_top on the existing top: the segment ends where the new top ends. */
  lemma ResizeTop(bl: Blocks, heads: map<nat, Head>, feet: map<nat, nat>, base: nat, top: nat, end: nat, size: nat)
    requires Inv(bl, heads, feet, base, top, end) && size > 0 && size % ALIGN == 0
    ensures Inv(bl[top := bl[top].(size := size)], heads[top := Head(size, false, true)], feet, base, top, top + size)
  {
    var bl', heads' := bl[top := bl[top].(size := size)], heads[top := Head(size, false, true)];
    Step(bl, heads, feet, base, top, end, top);
    forall a | a in bl' ensures Ok(bl', heads', feet, base, top, top + size, a) {
      Step(bl, heads, feet, base, top, end, a);
      if a != top {
        if a < top { Apart(bl, heads, feet, base, top, end, a, top); }
            else { Apart(bl, heads, feet, base, top, end, top, a); }
      }
    }
  }

  lemma FirstTop(heads: map<nat, Head>, feet: map<nat, nat>, base: nat, size: nat)
    requires base > 0 && base % ALIGN == 0 && size > 0 && size % ALIGN == 0
    ensures Inv(map[base := Block(size, false, 0)], heads[base := Head(size, false, true)], feet, base, base,
      base + size)
  {
    var bl', heads' := map[base := Block(size, false, 0)], heads[base := Head(size, false, true)];
    forall a | a in bl' ensures Ok(bl', heads', feet, base, base, base + size, a) {
    }
  }

  // ---- the chunks in use ------------------------------------------------------------------------------

  /** The chunks in use, address to size. */
  ghost function Live(bl: Blocks): map<nat, nat> {
    map a | a in bl && bl[a].used :: bl[a].size
  }

  lemma LiveTake(bl: Blocks, p: nat)
    requires p in bl && !bl[p].used
    ensures p !in Live(bl) && Live(bl[p := bl[p].(used := true)]) == Live(bl)[p := bl[p].size]
  {
  }

  lemma LiveSplit(bl: Blocks, heads: map<nat, Head>, feet: map<nat, nat>, base: nat, top: nat, end: nat, p: nat,
                  nb: nat)
    requires Inv(bl, heads, feet, base, top, end) && p in bl && !bl[p].used && 0 < nb < bl[p].size
    ensures p !in Live(bl) && Live(Split(bl, p, nb)) == Live(bl)[p := nb]
  {
    SplitNew(bl, heads, feet, base, top, end, p, nb);
  }

  lemma LiveMerge(bl: Blocks, heads: map<nat, Head>, feet: map<nat, nat>, base: nat, top: nat, end: nat, p: nat)
    requires Inv(bl, heads, feet, base, top, end) && p in bl && bl[p].used
    ensures p + bl[p].size in bl && (p != base ==> bl[p].prev in bl)
    ensures Live(Merge(bl, base, p)) == Live(bl) - {p}
  {
    Around(bl, heads, feet, base, top, end, p);
    var bl' := Merge(bl, base, p);
    hide Merge;
    forall y ensures (y in bl' && bl'[y].used) == (y in bl && bl[y].used && y != p) &&
        (y in bl' && bl'[y].used ==> bl'[y].size == bl[y].size) {
      if y >= 0 { MergeAt(bl, base, p, y); }
    }
  }
}
