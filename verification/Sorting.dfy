/** Which free chunk is kept where: every free chunk but the top and the designated victim (dv) is in the one bin its
size selects (userspace/libc/malloc.c:2416-2470). */
module Sorting {
  import opened Tags

  const LARGE: nat := 256   // MIN_LARGE_SIZE

  predicate Free(bl: Blocks, dv: nat, top: nat, x: nat) {
    x in bl && !bl[x].used && x != top && x != dv
  }

  predicate Binned(bl: Blocks, smalls: map<nat, nat>, larges: map<nat, nat>, dv: nat, top: nat, x: nat) {
    && (x in smalls <==> Free(bl, dv, top, x) && bl[x].size < LARGE) && (x in smalls ==> smalls[x] == bl[x].size)
    && (x in larges <==> Free(bl, dv, top, x) && bl[x].size >= LARGE) && (x in larges ==> larges[x] == bl[x].size)
  }

  ghost predicate Sorted(bl: Blocks, smalls: map<nat, nat>, larges: map<nat, nat>, dv: nat, dvsize: nat, top: nat) {
    && (forall x: nat {:trigger Binned(bl, smalls, larges, dv, top, x)} :: Binned(bl, smalls, larges, dv, top, x))
    && (if dv == 0 then dvsize == 0 else dv in bl && !bl[dv].used && dv != top && dvsize == bl[dv].size)
  }

  lemma SortedAt(bl: Blocks, smalls: map<nat, nat>, larges: map<nat, nat>, dv: nat, dvsize: nat, top: nat, x: nat)
    requires Sorted(bl, smalls, larges, dv, dvsize, top)
    ensures Binned(bl, smalls, larges, dv, top, x)
  {
  }

  // ---- taking and splitting ---------------------------------------------------------------------------

  lemma SortedTake(bl: Blocks, heads: map<nat, Head>, feet: map<nat, nat>, base: nat, top: nat, end: nat,
                   smalls: map<nat, nat>, larges: map<nat, nat>, dv: nat, dvsize: nat, p: nat)
    requires Inv(bl, heads, feet, base, top, end) && Sorted(bl, smalls, larges, dv, dvsize, top) && p in bl
    requires !bl[p].used && p != top
    ensures var bl' := bl[p := bl[p].(used := true)];
      if p == dv then Sorted(bl', smalls, larges, 0, 0, top)
          else Sorted(bl', smalls - {p}, larges - {p}, dv, dvsize, top)
  {
    var bl' := bl[p := bl[p].(used := true)];
    Step(bl, heads, feet, base, top, end, p);
    forall x: nat ensures if p == dv then Binned(bl', smalls, larges, 0, top, x)
        else Binned(bl', smalls - {p}, larges - {p}, dv, top, x) {
      SortedAt(bl, smalls, larges, dv, dvsize, top, x);
      if x in bl { Step(bl, heads, feet, base, top, end, x); }
    }
  }

  /** The split tiling, address by address, as far as sizes and use go. */
  lemma SplitAt(bl: Blocks, heads: map<nat, Head>, feet: map<nat, nat>, base: nat, top: nat, end: nat, p: nat,
                nb: nat, x: nat)
    requires Inv(bl, heads, feet, base, top, end) && p in bl && 0 < nb < bl[p].size
    ensures var bl', r := Split(bl, p, nb), p + nb;
      && r !in bl && r != 0 && 0 !in bl && (x in bl' <==> x in bl || x == r)
      && (x in bl' ==> bl'[x].used == (if x == p then true else if x == r then false else bl[x].used))
      && (x in bl' ==> bl'[x].size == if x == p then nb else if x == r then bl[p].size - nb else bl[x].size)
  {
    SplitNew(bl, heads, feet, base, top, end, p, nb);
    if 0 in bl { Step(bl, heads, feet, base, top, end, 0); }
  }

  /** The rest of a split becomes the dv, and the old dv goes to its bin. */
  lemma SortedNewDv(bl: Blocks, heads: map<nat, Head>, feet: map<nat, nat>, base: nat, top: nat, end: nat,
                    smalls: map<nat, nat>, larges: map<nat, nat>, dv: nat, dvsize: nat, p: nat, nb: nat)
    requires Inv(bl, heads, feet, base, top, end) && Sorted(bl, smalls, larges, dv, dvsize, top) && dvsize < LARGE
    requires p in bl && !bl[p].used && p != top
    requires p != dv && 0 < nb < bl[p].size
    ensures var smalls1 := smalls - {p};
      Sorted(Split(bl, p, nb), if dv == 0 then smalls1 else smalls1[dv := dvsize], larges - {p}, p + nb,
          bl[p].size - nb, top)
  {
    var bl', r, smalls1 := Split(bl, p, nb), p + nb, smalls - {p};
    var smalls2 := if dv == 0 then smalls1 else smalls1[dv := dvsize];
    forall x: nat ensures Binned(bl', smalls2, larges - {p}, r, top, x) {
      SortedAt(bl, smalls, larges, dv, dvsize, top, x);
      SplitAt(bl, heads, feet, base, top, end, p, nb, x);
      hide Split, Inv;
    }
    SplitAt(bl, heads, feet, base, top, end, p, nb, r);
    SplitAt(bl, heads, feet, base, top, end, p, nb, top);
  }

  /** The dv itself is split. */
  lemma SortedSplitDv(bl: Blocks, heads: map<nat, Head>, feet: map<nat, nat>, base: nat, top: nat, end: nat,
                      smalls: map<nat, nat>, larges: map<nat, nat>, dv: nat, dvsize: nat, nb: nat)
    requires Inv(bl, heads, feet, base, top, end) && Sorted(bl, smalls, larges, dv, dvsize, top) && dv != 0
    requires 0 < nb < dvsize
    ensures Sorted(Split(bl, dv, nb), smalls, larges, dv + nb, dvsize - nb, top)
  {
    var bl', r := Split(bl, dv, nb), dv + nb;
    forall x: nat ensures Binned(bl', smalls, larges, r, top, x) {
      SortedAt(bl, smalls, larges, dv, dvsize, top, x);
      SplitAt(bl, heads, feet, base, top, end, dv, nb, x);
      hide Split, Inv;
    }
    SplitAt(bl, heads, feet, base, top, end, dv, nb, r);
    SplitAt(bl, heads, feet, base, top, end, dv, nb, top);
  }

  /** The rest of a split goes to its bin. */
  lemma SortedSplitBin(bl: Blocks, heads: map<nat, Head>, feet: map<nat, nat>, base: nat, top: nat, end: nat,
                       smalls: map<nat, nat>, larges: map<nat, nat>, dv: nat, dvsize: nat, p: nat, nb: nat)
    requires Inv(bl, heads, feet, base, top, end) && Sorted(bl, smalls, larges, dv, dvsize, top)
    requires p in bl && !bl[p].used && p != top
    requires p != dv && 0 < nb < bl[p].size
    ensures var bl', r, rsize, smalls1, larges1 := Split(bl, p, nb), p + nb, bl[p].size - nb, smalls - {p},
      larges - {p};
      if rsize < LARGE then Sorted(bl', smalls1[r := rsize], larges1, dv, dvsize, top)
          else Sorted(bl', smalls1, larges1[r := rsize], dv, dvsize, top)
  {
    var bl', r, rsize, smalls1, larges1 := Split(bl, p, nb), p + nb, bl[p].size - nb, smalls - {p}, larges - {p};
    var smalls2 := if rsize < LARGE then smalls1[r := rsize] else smalls1;
    var larges2 := if rsize < LARGE then larges1 else larges1[r := rsize];
    forall x: nat ensures Binned(bl', smalls2, larges2, dv, top, x) {
      SortedAt(bl, smalls, larges, dv, dvsize, top, x);
      SplitAt(bl, heads, feet, base, top, end, p, nb, x);
      hide Split, Inv;
    }
    SplitAt(bl, heads, feet, base, top, end, p, nb, dv);
    SplitAt(bl, heads, feet, base, top, end, p, nb, top);
  }

  lemma SortedSplitTop(bl: Blocks, heads: map<nat, Head>, feet: map<nat, nat>, base: nat, top: nat, end: nat,
                       smalls: map<nat, nat>, larges: map<nat, nat>, dv: nat, dvsize: nat, nb: nat)
    requires Inv(bl, heads, feet, base, top, end) && Sorted(bl, smalls, larges, dv, dvsize, top)
    requires 0 < nb < bl[top].size
    ensures Sorted(Split(bl, top, nb), smalls, larges, dv, dvsize, top + nb)
  {
    var bl', top' := Split(bl, top, nb), top + nb;
    forall x: nat ensures Binned(bl', smalls, larges, dv, top', x) {
      SortedAt(bl, smalls, larges, dv, dvsize, top, x);
      SplitAt(bl, heads, feet, base, top, end, top, nb, x);
      hide Split, Inv;
    }
    SplitAt(bl, heads, feet, base, top, end, top, nb, dv);
  }

  lemma SortedResize(bl: Blocks, smalls: map<nat, nat>, larges: map<nat, nat>, dv: nat, dvsize: nat, top: nat,
                     size: nat)
    requires Sorted(bl, smalls, larges, dv, dvsize, top) && top in bl
    ensures Sorted(bl[top := bl[top].(size := size)], smalls, larges, dv, dvsize, top)
  {
    var bl' := bl[top := bl[top].(size := size)];
    forall x: nat ensures Binned(bl', smalls, larges, dv, top, x) {
      SortedAt(bl, smalls, larges, dv, dvsize, top, x);
    }
  }

  lemma SortedFirst(base: nat, size: nat)
    ensures Sorted(map[base := Block(size, false, 0)], map[], map[], 0, 0, base)
  {
    var bl: Blocks, none: map<nat, nat> := map[base := Block(size, false, 0)], map[];
    forall x: nat ensures Binned(bl, none, none, 0, base, x) { }
  }

  // ---- giving back --------------------------------------------------------------------------------------

  /** The merged tiling, address by address, as far as sizes and use go. */
  lemma MergedAt(bl: Blocks, heads: map<nat, Head>, feet: map<nat, nat>, base: nat, top: nat, end: nat, p: nat, x: nat)
    requires Inv(bl, heads, feet, base, top, end) && p in bl && bl[p].used
    ensures p != top && p + bl[p].size in bl && (p != base ==> bl[p].prev in bl) && 0 !in bl
    ensures var bl', a, n := Merge(bl, base, p), FreeFrom(bl, base, p), p + bl[p].size;
      && a in bl && a != n && n != p && a != 0 && (a == p || !bl[a].used) && a != top
      && (x in bl' <==> x in bl && (x == a || (x != p && (x != n || bl[n].used))))
      && (x in bl' ==> bl'[x].used == (x != a && bl[x].used))
      && (x in bl' ==> bl'[x].size == if x == a then MergedSize(bl, base, p) else bl[x].size)
      && MergeTop(bl, base, top, p) == if n == top then a else top
  {
    Around(bl, heads, feet, base, top, end, p);
    if 0 in bl { Step(bl, heads, feet, base, top, end, 0); }
    hide Merge;
    MergeAt(bl, base, p, x);
  }

  /** The freed chunk joins the top. */
  lemma SortedMergeTop(bl: Blocks, heads: map<nat, Head>, feet: map<nat, nat>, base: nat, top: nat, end: nat,
                       smalls: map<nat, nat>, larges: map<nat, nat>, dv: nat, dvsize: nat, p: nat)
    requires Inv(bl, heads, feet, base, top, end) && Sorted(bl, smalls, larges, dv, dvsize, top) && p in bl
    requires bl[p].used && p + bl[p].size == top
    ensures p != base ==> bl[p].prev in bl
    ensures var a := FreeFrom(bl, base, p);
      Sorted(Merge(bl, base, p), smalls - {a}, larges - {a}, if a == dv then 0 else dv, if a == dv then 0
          else dvsize, a)
  {
    MergedAt(bl, heads, feet, base, top, end, p, dv);
    var bl', a := Merge(bl, base, p), FreeFrom(bl, base, p);
    var smalls', larges', dv' := smalls - {a}, larges - {a}, if a == dv then 0 else dv;
    forall x: nat ensures Binned(bl', smalls', larges', dv', a, x) {
      SortedAt(bl, smalls, larges, dv, dvsize, top, x);
      MergedAt(bl, heads, feet, base, top, end, p, x);
      hide Merge, Inv, FreeFrom, MergedSize;
    }
  }

  /** The freed chunk joins the dv, which lies before or after it. */
  lemma SortedMergeDv(bl: Blocks, heads: map<nat, Head>, feet: map<nat, nat>, base: nat, top: nat, end: nat,
                      smalls: map<nat, nat>, larges: map<nat, nat>, dv: nat, dvsize: nat, p: nat)
    requires Inv(bl, heads, feet, base, top, end) && Sorted(bl, smalls, larges, dv, dvsize, top) && p in bl
    requires bl[p].used && p + bl[p].size != top
    requires dv != 0 && (p != base ==> bl[p].prev in bl) && (p + bl[p].size == dv || FreeFrom(bl, base, p) == dv)
    ensures p + bl[p].size in bl
    ensures var a, n := FreeFrom(bl, base, p), p + bl[p].size;
      Sorted(Merge(bl, base, p), smalls - {a} - {n}, larges - {a} - {n}, a, MergedSize(bl, base, p), top)
  {
    var a, n := FreeFrom(bl, base, p), p + bl[p].size;
    MergedAt(bl, heads, feet, base, top, end, p, a);
    var bl', smalls', larges' := Merge(bl, base, p), smalls - {a} - {n}, larges - {a} - {n};
    forall x: nat ensures Binned(bl', smalls', larges', a, top, x) {
      SortedAt(bl, smalls, larges, dv, dvsize, top, x);
      MergedAt(bl, heads, feet, base, top, end, p, x);
      hide Merge, Inv, FreeFrom, MergedSize;
    }
  }

  /** A map with at most one new entry, that of size `size` at `a` if it belongs. */
  function Put(m: map<nat, nat>, belongs: bool, a: nat, size: nat): map<nat, nat> {
    if belongs then m[a := size] else m
  }

  /** The freed chunk goes to the bin of its merged size. */
  lemma SortedMergeBin(bl: Blocks, heads: map<nat, Head>, feet: map<nat, nat>, base: nat, top: nat, end: nat,
                       smalls: map<nat, nat>, larges: map<nat, nat>, dv: nat, dvsize: nat, p: nat)
    requires Inv(bl, heads, feet, base, top, end) && Sorted(bl, smalls, larges, dv, dvsize, top) && p in bl
    requires bl[p].used && p + bl[p].size != top
    requires (p != base ==> bl[p].prev in bl) && p + bl[p].size != dv && FreeFrom(bl, base, p) != dv
    ensures p + bl[p].size in bl
    ensures var a, n, size := FreeFrom(bl, base, p), p + bl[p].size, MergedSize(bl, base, p);
      Sorted(Merge(bl, base, p), Put(smalls - {a} - {n}, size < LARGE, a, size),
          Put(larges - {a} - {n}, size >= LARGE, a, size), dv, dvsize, top)
  {
    MergedAt(bl, heads, feet, base, top, end, p, dv);
    MergedAt(bl, heads, feet, base, top, end, p, top);
    var a, n, size, bl' := FreeFrom(bl, base, p), p + bl[p].size, MergedSize(bl, base, p), Merge(bl, base, p);
    var smalls', larges' := Put(smalls - {a} - {n}, size < LARGE, a, size),
        Put(larges - {a} - {n}, size >= LARGE, a, size);
    hide Merge, Inv, FreeFrom, MergedSize, Put;
    forall x: nat ensures Binned(bl', smalls', larges', dv, top, x) {
      MergeBinAt(bl, heads, feet, base, top, end, smalls, larges, dv, dvsize, p, x);
    }
  }

  lemma MergeBinAt(bl: Blocks, heads: map<nat, Head>, feet: map<nat, nat>, base: nat, top: nat, end: nat,
                   smalls: map<nat, nat>, larges: map<nat, nat>, dv: nat, dvsize: nat, p: nat, x: nat)
    requires Inv(bl, heads, feet, base, top, end) && Sorted(bl, smalls, larges, dv, dvsize, top) && p in bl
    requires bl[p].used && p + bl[p].size != top
    requires (p != base ==> bl[p].prev in bl) && p + bl[p].size != dv && FreeFrom(bl, base, p) != dv
    requires p + bl[p].size in bl
    ensures var a, n, size := FreeFrom(bl, base, p), p + bl[p].size, MergedSize(bl, base, p);
      Binned(Merge(bl, base, p), Put(smalls - {a} - {n}, size < LARGE, a, size),
          Put(larges - {a} - {n}, size >= LARGE, a, size), dv, top, x)
  {
    SortedAt(bl, smalls, larges, dv, dvsize, top, x);
    MergedAt(bl, heads, feet, base, top, end, p, x);
    hide Merge, Inv, FreeFrom, MergedSize, Sorted;
  }
}
