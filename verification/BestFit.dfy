/** The best-fit search of tmalloc_large and tmalloc_small (userspace/libc/malloc.c:4441-4487, 4517-4532). */
module BestFit {
  import opened BinMaps
  import opened TreeIndex
  import opened Tries
  import opened TrieStore
  import opened TreeBins

  const TOP: nat := 0x1_0000_0000_0000_0000   // 2^64

  /** `size - nb` in a 64-bit word. */
  function Rem(size: nat, nb: nat): (r: nat)
    requires size < TOP && nb < TOP
    ensures r < TOP
  {
    if size >= nb then size - nb else TOP + size - nb
  }

  ghost predicate AtMost(t: Tree, s: nat) {
    forall r :: r in Sizes(t) ==> r <= s
  }

  ghost predicate AtLeast(t: Tree, s: nat) {
    forall r :: r in Sizes(t) ==> r >= s
  }

  /** Every size of `t` that could serve `nb` is no better than `best`, or still ahead in `u`, or no better than
      something ahead in `rst`. */
  ghost predicate Covered(t: Tree, nb: nat, best: nat, u: Tree, rst: Tree) {
    forall s ::
        s in Sizes(t) && s >= nb ==> best <= s || s in Sizes(u) || (rst.Fork? && (s in Sizes(rst) || AtMost(rst, s)))
  }

  function Better(best: nat, size: nat, nb: nat): nat {
    if nb <= size < best then size else best
  }

  /** One node on the path of `nb`: the untaken right subtree becomes the one to fall back on. */
  lemma PathStep(t: Tree, nb: nat, best: nat, u: Tree, rst: Tree, lo: nat, k: nat)
    requires Covered(t, nb, best, u, rst) && u.Fork? && Trie(u, lo, k)
    requires lo <= nb < lo + Pow2(k) && k > 0
    requires AtLeast(rst, lo + Pow2(k))
    ensures var right := nb >= lo + Pow2(k - 1);
      var u', lo' := if right then u.right else u.left, if right then lo + Pow2(k - 1) else lo;
      var rst' := if !right && u.right.Fork? then u.right else rst;
      Covered(t, nb, Better(best, u.size, nb), u', rst') && AtLeast(rst', lo' + Pow2(k - 1))
  {
    var right := nb >= lo + Pow2(k - 1);
    var u', lo' := if right then u.right else u.left, if right then lo + Pow2(k - 1) else lo;
    var rst' := if !right && u.right.Fork? then u.right else rst;
    var best' := Better(best, u.size, nb);
    assert Pow2(k) == 2 * Pow2(k - 1);
    forall r | r in Sizes(u.right) ensures lo + Pow2(k - 1) <= r < lo + Pow2(k) { SizeRange(u.right, lo + Pow2(k - 1),
        k - 1, r); }
    forall r | r in Sizes(u.left) ensures lo <= r < lo + Pow2(k - 1) { SizeRange(u.left, lo, k - 1, r); }
    hide Trie, Pow2;
    assert AtLeast(rst', lo' + Pow2(k - 1));
    forall s | s in Sizes(t) && s >= nb
      ensures best' <= s || s in Sizes(u') || (rst'.Fork? && (s in Sizes(rst') || AtMost(rst', s)))
    {
      if best <= s {
      } else if s in Sizes(u) {
        assert s == u.size || s in Sizes(u.left) || s in Sizes(u.right);
      } else if !right && u.right.Fork? {
        PastRight(u, rst, s, lo + Pow2(k));
      }
    }
  }

  lemma PastRight(u: Tree, rst: Tree, s: nat, bound: nat)
    requires u.Fork? && rst.Fork? && (s in Sizes(rst) || AtMost(rst, s)) && AtLeast(rst, bound)
    requires forall r :: r in Sizes(u.right) ==> r < bound
    ensures AtMost(u.right, s)
  {
    assert rst.size in Sizes(rst);
  }

  /** One node of the walk to the left: nothing left behind is better. */
  lemma LeftStep(t: Tree, nb: nat, best: nat, w: Tree, lo: nat, k: nat)
    requires Covered(t, nb, best, Nil, w) && w.Fork? && Trie(w, lo, k) && (AtLeast(w, nb) || best == nb)
    ensures var w' := if w.left.Fork? then w.left else w.right;
      && Covered(t, nb, Better(best, w.size, nb), Nil, w') && (AtLeast(w', nb) || Better(best, w.size, nb) == nb)
      && (w'.Fork? ==> k > 0 && Trie(w', if w.left.Fork? then lo else lo + Pow2(k - 1), k - 1))
  {
    var w' := if w.left.Fork? then w.left else w.right;
    var best' := Better(best, w.size, nb);
    assert Sizes(w) == {w.size} + Sizes(w.left) + Sizes(w.right);
    if best != nb {
      if k > 0 {
        forall r | r in Sizes(w.right) ensures lo + Pow2(k - 1) <= r { SizeRange(w.right, lo + Pow2(k - 1), k - 1, r); }
        forall r | r in Sizes(w.left) ensures r < lo + Pow2(k - 1) { SizeRange(w.left, lo, k - 1, r); }
      }
      hide Trie, Pow2, Sizes;
      assert best' <= w.size;
      forall s | s in Sizes(t) && s >= nb ensures best' <= s || (w'.Fork? && (s in Sizes(w') || AtMost(w', s))) {
        if s in Sizes(w) {
        } else if best > s {
          assert AtMost(w, s);
        }
      }
    }
  }

  // ---- a place in a trie --------------------------------------------------------------------------

  /** A subtree with the interval of its sizes and its parent link. */
  datatype Place = Place(t: Tree, lo: nat, k: nat, link: Link)

  function Go(c: Place, right: bool): Place
    requires c.t.Fork? && c.k > 0
  {
    Place(if right then c.t.right else c.t.left, if right then c.lo + Pow2(c.k - 1) else c.lo, c.k - 1, Node(c.t.x))
  }

  const NOWHERE := Place(Nil, 0, 0, Null)

  function Down(c: Place, right: bool): (r: Place)
    requires c.t.Fork?
    ensures r.t < c.t
  {
    if c.k == 0 then Place(c.t.left, 0, 0, Null) else Go(c, right)
  }

  ghost predicate Sub(u: Tree, t: Tree) {
    forall a: nat, s: nat :: Holds(u, a, s) ==> Holds(t, a, s)
  }

  ghost predicate Sized(t: Tree) {
    forall a: nat, s: nat :: Holds(t, a, s) ==> MIN_LARGE <= s < LIMIT
  }

  /** Pointer `p` leads to place `c` of `tree`, the trie of bin `i`. */
  ghost predicate At(mem: Store, tree: Tree, i: nat, c: Place, p: nat) {
    Rep(mem, c.t, p, c.link, i) && Trie(c.t, c.lo, c.k) && Sub(c.t, tree) && Sized(tree)
  }

  lemma AtRoot(mem: Store, tree: Tree, i: nat, c: Place, p: nat)
    requires At(mem, tree, i, c, p)
    ensures p == 0 <==> c.t.Nil?
    ensures c.t.Fork? ==>
      p == c.t.x && p in mem && mem[p].size == c.t.size && Holds(tree, p, c.t.size) && MIN_LARGE <= c.t.size < LIMIT
  {
    if c.t.Fork? { assert Holds(c.t, c.t.x, c.t.size); }
  }

  lemma AtKid(mem: Store, tree: Tree, i: nat, c: Place, p: nat, right: bool)
    requires At(mem, tree, i, c, p) && c.t.Fork?
    ensures p in mem
    ensures var q := if right then mem[p].right else mem[p].left;
      (c.k == 0 ==> q == 0 && c.t.left.Nil? && c.t.right.Nil?) && (c.k > 0 ==> At(mem, tree, i, Go(c, right), q))
  {
    hide Ring, Chained, Sizes;
    var u := if right then c.t.right else c.t.left;
    assert Sub(u, tree) by {
      forall a: nat, s: nat | Holds(u, a, s) ensures Holds(tree, a, s) { assert Holds(c.t, a, s); }
    }
    if c.k == 0 { assert Rep(mem, u, if right then mem[p].right else mem[p].left, Node(p), i); }
  }

  /** The best chunk met so far: none, or `v` with `rsize` bytes to spare. */
  ghost predicate SoFar(tree: Tree, nb: nat, v: nat, rsize: nat) {
    if v == 0 then rsize + nb == TOP else Holds(tree, v, rsize + nb)
  }

  lemma Compare(tree: Tree, nb: nat, v: nat, rsize: nat, p: nat, size: nat)
    requires SoFar(tree, nb, v, rsize) && Holds(tree, p, size) && p != 0
    requires MIN_LARGE <= size < LIMIT && 0 < nb < TOP && rsize + nb <= TOP
    ensures var closer := Rem(size, nb) < rsize;
      && Better(rsize + nb, size, nb) == (if closer then Rem(size, nb) else rsize) + nb
      && SoFar(tree, nb, if closer then p else v, if closer then Rem(size, nb) else rsize)
  {
  }

  // ---- the three parts of the search --------------------------------------------------------------

  /** Walking the path of `nb` from the root of its bin, `rst` the deepest untaken right subtree. */
  ghost predicate OnPath(mem: Store, tree: Tree, i: nat, nb: nat, c: Place, t: nat, w: nat, r: Place, rst: nat,
                         v: nat, rsize: nat) {
    && At(mem, tree, i, c, t) && At(mem, tree, i, r, rst) && Leading(w, nb, c.lo, c.k) && AtLeast(r.t, c.lo + Pow2(c.k))
    && Covered(tree, nb, rsize + nb, c.t, r.t) && SoFar(tree, nb, v, rsize) && rsize + nb <= TOP
  }

  /** The path has been left: what remains is the subtree at `t`. */
  ghost predicate OffPath(mem: Store, tree: Tree, i: nat, nb: nat, c: Place, t: nat, v: nat, rsize: nat) {
    && At(mem, tree, i, c, t) && (AtLeast(c.t, nb) || rsize == 0)
    && Covered(tree, nb, rsize + nb, Nil, c.t) && SoFar(tree, nb, v, rsize) && rsize + nb <= TOP
  }

  /** A request beyond every size never matches anything. */
  ghost predicate Empty(nb: nat, v: nat, rsize: nat) {
    v == 0 && rsize + nb == TOP
  }

  ghost predicate Path(mem: Store, tree: Tree, i: nat, nb: nat, c: Place, t: nat, w: nat, r: Place, rst: nat, v: nat,
                       rsize: nat) {
    if nb < LIMIT then OnPath(mem, tree, i, nb, c, t, w, r, rst, v, rsize)
    else At(mem, tree, i, c, t) && At(mem, tree, i, r, rst) && Empty(nb, v, rsize)
  }

  ghost predicate Rest(mem: Store, tree: Tree, i: nat, nb: nat, c: Place, t: nat, v: nat, rsize: nat) {
    if nb < LIMIT then OffPath(mem, tree, i, nb, c, t, v, rsize) else At(mem, tree, i, c, t) && Empty(nb, v, rsize)
  }

  lemma LeavePath(mem: Store, tree: Tree, i: nat, nb: nat, c: Place, t: nat, w: nat, r: Place, rst: nat, v: nat,
                  rsize: nat)
    requires Path(mem, tree, i, nb, c, t, w, r, rst, v, rsize) && t == 0
    ensures Rest(mem, tree, i, nb, r, rst, v, rsize)
  {
    AtRoot(mem, tree, i, c, t);
    if nb < LIMIT { PathAbove(c, w, nb, r.t); }
    hide Rep, Trie, Holds, Leading, At, Pow2;
    assert Sizes(Nil) == {};
  }

  lemma PathAbove(c: Place, w: nat, nb: nat, rst: Tree)
    requires Leading(w, nb, c.lo, c.k) && AtLeast(rst, c.lo + Pow2(c.k))
    ensures AtLeast(rst, nb)
  {
  }

  /** The state of the walk one node further down. */
  ghost predicate Further(mem: Store, tree: Tree, i: nat, nb: nat, c: Place, t: nat, w: nat, r: Place, rst: nat,
                          v: nat, rsize: nat)
    requires t in mem && c.t.Fork?
  {
    var right, rt := TopBit(w), mem[t].right;
    var t' := if right then rt else mem[t].left;
    var took := rt != 0 && rt != t';
    Path(mem, tree, i, nb, Down(c, right), t', Shl(w, 1), if took then Down(c, true) else r, if took then rt
        else rst, v, rsize)
  }

  lemma FollowPath(mem: Store, tree: Tree, i: nat, nb: nat, c: Place, t: nat, w: nat, r: Place, rst: nat, v: nat,
                   rsize: nat)
    requires Path(mem, tree, i, nb, c, t, w, r, rst, v, rsize) && c.t.Fork? && 0 < nb < TOP && rsize > 0
    ensures t in mem && t != 0 && mem[t].size < TOP
    ensures var trem := Rem(mem[t].size, nb);
      var v', rsize' := if trem < rsize then t else v, if trem < rsize then trem else rsize;
      if rsize' == 0 then Rest(mem, tree, i, nb, c, t, v', rsize')
          else Further(mem, tree, i, nb, c, t, w, r, rst, v', rsize')
  {
    AtRoot(mem, tree, i, c, t);
    if nb < LIMIT { FollowNear(mem, tree, i, nb, c, t, w, r, rst, v, rsize); } else {
      hide Rep, Trie, Holds, TopBit, Shl, Sub;
      AtDown(mem, tree, i, c, t, false);
      AtDown(mem, tree, i, c, t, true);
    }
  }

  lemma AtDown(mem: Store, tree: Tree, i: nat, c: Place, t: nat, right: bool)
    requires At(mem, tree, i, c, t) && c.t.Fork?
    ensures t in mem && At(mem, tree, i, Down(c, right), if right then mem[t].right else mem[t].left)
  {
    AtKid(mem, tree, i, c, t, right);
    hide Rep, Trie, Holds;
    if c.k == 0 {
      AtNowhere(mem, tree, i);
      assert Down(c, right) == NOWHERE;
    }
  }

  lemma FollowNear(mem: Store, tree: Tree, i: nat, nb: nat, c: Place, t: nat, w: nat, r: Place, rst: nat, v: nat,
                   rsize: nat)
    requires OnPath(mem, tree, i, nb, c, t, w, r, rst, v, rsize) && c.t.Fork? && 0 < nb < LIMIT && rsize > 0
    requires t in mem && t != 0 && mem[t].size < TOP
    ensures var trem := Rem(mem[t].size, nb);
      var v', rsize' := if trem < rsize then t else v, if trem < rsize then trem else rsize;
      if rsize' == 0 then OffPath(mem, tree, i, nb, c, t, v', rsize')
          else Further(mem, tree, i, nb, c, t, w, r, rst, v', rsize')
  {
    AtRoot(mem, tree, i, c, t);
    Compare(tree, nb, v, rsize, t, mem[t].size);
    var trem := Rem(mem[t].size, nb);
    var v', rsize' := if trem < rsize then t else v, if trem < rsize then trem else rsize;
    if rsize' == 0 {
      CoveredAll(tree, nb, c.t);
      hide Rep, Trie, Holds, Leading, Pow2, Sizes, Covered, SoFar, Sub, AtLeast;
      assert OffPath(mem, tree, i, nb, c, t, v', rsize');
    } else {
      hide Rep, Trie, Holds, Leading, Pow2, Sizes, Covered, SoFar, Sub, AtLeast;
      PathSome(c, w, nb);
      FollowFurther(mem, tree, i, nb, c, t, w, r, rst, v, rsize, v', rsize');
    }
  }

  lemma FollowFurther(mem: Store, tree: Tree, i: nat, nb: nat, c: Place, t: nat, w: nat, r: Place, rst: nat, v: nat,
                      rsize: nat, v': nat, rsize': nat)
    requires OnPath(mem, tree, i, nb, c, t, w, r, rst, v, rsize) && c.t.Fork? && c.k > 0
    requires t in mem && c.lo <= nb < c.lo + Pow2(c.k) && nb < LIMIT
    requires SoFar(tree, nb, v', rsize') && rsize' + nb == Better(rsize + nb, c.t.size, nb) && rsize' + nb <= TOP
    ensures Further(mem, tree, i, nb, c, t, w, r, rst, v', rsize')
  {
    hide Rep, Trie, Holds, Leading, Pow2, Sizes, Covered, SoFar, Sub, AtLeast, TopBit, Shl;
    AtKid(mem, tree, i, c, t, false);
    AtKid(mem, tree, i, c, t, true);
    KidsDiffer(mem, tree, i, c, t);
    AtRoot(mem, tree, i, Go(c, true), mem[t].right);
    LeadingStep(w, nb, c.lo, c.k);
    PathStep(tree, nb, rsize + nb, c.t, r.t, c.lo, c.k);
    hide At;
    var right, rt := TopBit(w), mem[t].right;
    var t' := if right then rt else mem[t].left;
    assert (rt != 0 && rt != t') == (!right && c.t.right.Fork?);
    assert Further(mem, tree, i, nb, c, t, w, r, rst, v', rsize');
  }

  lemma CoveredAll(t: Tree, nb: nat, u: Tree)
    ensures Covered(t, nb, nb, Nil, u)
  {
  }

  /** A node on the path whose size is not `nb` has more bits to follow. */
  lemma PathSome(c: Place, w: nat, nb: nat)
    requires c.t.Fork? && Trie(c.t, c.lo, c.k) && Leading(w, nb, c.lo, c.k) && c.t.size != nb
    ensures c.k > 0 && c.lo <= nb < c.lo + Pow2(c.k)
  {
    PowOne();
  }

  lemma KidsDiffer(mem: Store, tree: Tree, i: nat, c: Place, t: nat)
    requires At(mem, tree, i, c, t) && c.t.Fork? && c.k > 0
    ensures t in mem && (mem[t].right != 0 ==> mem[t].right != mem[t].left)
  {
    AtKid(mem, tree, i, c, t, false);
    AtKid(mem, tree, i, c, t, true);
    AtRoot(mem, tree, i, Go(c, false), mem[t].left);
    AtRoot(mem, tree, i, Go(c, true), mem[t].right);
  }

  /** leftmost_child. */
  function LeftmostChild(mem: Store, t: nat): nat
    requires t in mem
  {
    if mem[t].left != 0 then mem[t].left else mem[t].right
  }

  lemma FollowLeft(mem: Store, tree: Tree, i: nat, nb: nat, c: Place, t: nat, v: nat, rsize: nat)
    requires Rest(mem, tree, i, nb, c, t, v, rsize) && c.t.Fork? && 0 < nb < TOP
    ensures t in mem && t != 0 && mem[t].size < TOP
    ensures var trem := Rem(mem[t].size, nb);
      Rest(mem, tree, i, nb, Down(c, mem[t].left == 0), LeftmostChild(mem, t),
           if trem < rsize then t else v, if trem < rsize then trem else rsize)
    ensures v == 0 && nb < LIMIT ==> Rem(mem[t].size, nb) < rsize
  {
    AtRoot(mem, tree, i, c, t);
    if nb < LIMIT { LeftNear(mem, tree, i, nb, c, t, v, rsize); } else {
      hide Rep, Trie, Holds, Sub;
      AtDown(mem, tree, i, c, t, false);
      AtDown(mem, tree, i, c, t, true);
    }
  }

  lemma LeftNear(mem: Store, tree: Tree, i: nat, nb: nat, c: Place, t: nat, v: nat, rsize: nat)
    requires OffPath(mem, tree, i, nb, c, t, v, rsize) && c.t.Fork? && 0 < nb < LIMIT
    requires t in mem && mem[t].size < TOP
    ensures var trem := Rem(mem[t].size, nb);
      OffPath(mem, tree, i, nb, Down(c, mem[t].left == 0), LeftmostChild(mem, t),
              if trem < rsize then t else v, if trem < rsize then trem else rsize)
    ensures v == 0 ==> Rem(mem[t].size, nb) < rsize
  {
    AtRoot(mem, tree, i, c, t);
    Compare(tree, nb, v, rsize, t, mem[t].size);
    assert c.t.size in Sizes(c.t);
    assert v == 0 ==> Rem(mem[t].size, nb) < rsize;
    hide Rep, Holds, Sizes, Covered, SoFar, Sub, AtLeast;
    LeftStep(tree, nb, rsize + nb, c.t, c.lo, c.k);
    AtKid(mem, tree, i, c, t, false);
    AtKid(mem, tree, i, c, t, true);
    hide Trie;
    if c.k > 0 {
      AtRoot(mem, tree, i, Go(c, false), mem[t].left);
    } else {
      AtNowhere(mem, tree, i);
      assert Down(c, mem[t].left == 0) == NOWHERE;
    }
  }

  lemma AtNowhere(mem: Store, tree: Tree, i: nat)
    requires Sized(tree)
    ensures At(mem, tree, i, NOWHERE, 0) && NOWHERE.t == Nil
  {
  }

  // ---- the search over all bins -------------------------------------------------------------------

  /** Chunk `v` is a smallest that can hold `nb` bytes, with `rsize` to spare; 0 when there is none. */
  ghost predicate BestChunk(contents: map<nat, nat>, nb: nat, v: nat, rsize: nat) {
    if v == 0 then forall a :: a in contents ==> contents[a] < nb
    else && v in contents && contents[v] == nb + rsize
         && forall a :: a in contents && contents[a] >= nb ==> contents[v] <= contents[a]
  }

  /** Everything that can hold `nb` bytes is in bin `j` or above, and nothing is above an empty-handed `j`. */
  ghost predicate Remaining(contents: map<nat, nat>, nb: nat, j: nat) {
    forall a :: a in contents && contents[a] >= nb ==> Index(contents[a]) >= j
  }

  lemma Conclude(trees: seq<Tree>, contents: map<nat, nat>, mem: Store, nb: nat, j: nat, c: Place, v: nat, rsize: nat)
    requires Holding(trees, contents) && j < BINS && Rest(mem, trees[j], j, nb, c, 0, v, rsize)
    requires Remaining(contents, nb, j)
    requires nb < LIMIT && v == 0 ==> forall a :: a in contents && contents[a] >= nb ==> Index(contents[a]) == j
    ensures BestChunk(contents, nb, v, rsize)
  {
    if nb < LIMIT { ConcludeNear(trees, contents, mem, nb, j, c, v, rsize); }
  }

  lemma ConcludeNear(trees: seq<Tree>, contents: map<nat, nat>, mem: Store, nb: nat, j: nat, c: Place, v: nat,
                     rsize: nat)
    requires Holding(trees, contents) && j < BINS && OffPath(mem, trees[j], j, nb, c, 0, v, rsize) && nb < LIMIT
    requires Remaining(contents, nb, j)
    requires v == 0 ==> forall a :: a in contents && contents[a] >= nb ==> Index(contents[a]) == j
    ensures BestChunk(contents, nb, v, rsize)
  {
    hide Index, Rep;
    AtRoot(mem, trees[j], j, c, 0);
    assert Sizes(Nil) == {};
    hide Sizes;
    if v != 0 { assert Filed(contents, v, rsize + nb, j); }
    forall a | a in contents && contents[a] >= nb ensures v != 0 && rsize + nb <= contents[a] {
      var s := contents[a];
      if Index(s) == j {
        assert Filed(contents, a, s, j);
        HoldsIn(trees[j], a, s);
      } else {
        BinsOrdered(rsize + nb, s);
      }
    }
  }

  lemma StartAt(mem: Store, bins: seq<nat>, treemap: BinMap, trees: seq<Tree>, contents: map<nat, nat>, j: nat)
    requires Shape(mem, bins, treemap, trees) && Holding(trees, contents) && j < BINS
    ensures At(mem, trees[j], j, Place(trees[j], Base(j), Bits(j), BinSlot(j)), bins[j])
    ensures forall s :: s in Sizes(trees[j]) ==> MIN_LARGE <= s < LIMIT && Index(s) == j
  {
    assert Bin(mem, trees[j], bins[j], j);
    hide Index, Rep, Trie, Base, Bits, Distinct;
    forall a: nat, s: nat | Holds(trees[j], a, s) ensures MIN_LARGE <= s < LIMIT { assert Filed(contents, a, s, j); }
    forall s | s in Sizes(trees[j]) ensures MIN_LARGE <= s < LIMIT && Index(s) == j {
      var a := SizeHolds(trees[j], s);
      assert Filed(contents, a, s, j);
    }
  }

  lemma {:induction false} SizeHolds(t: Tree, s: nat) returns (a: nat)
    requires s in Sizes(t)
    ensures Holds(t, a, s)
  {
    if s == t.size { a := t.x; }
    else if s in Sizes(t.left) { a := SizeHolds(t.left, s); }
    else { a := SizeHolds(t.right, s); }
  }

  /** The bin of the request itself. */
  lemma StartPath(mem: Store, bins: seq<nat>, treemap: BinMap, trees: seq<Tree>, contents: map<nat, nat>, nb: nat)
    requires Shape(mem, bins, treemap, trees) && Holding(trees, contents) && MIN_LARGE <= nb < TOP
    ensures Index(nb) < BINS && Remaining(contents, nb, Index(nb)) && |bins| == BINS && |trees| == BINS
    ensures var i := Index(nb);
      Path(mem, trees[i], i, nb, Place(trees[i], Base(i), Bits(i), BinSlot(i)), bins[i], Shl(nb, LeftShift(i)),
          NOWHERE, 0, 0, TOP - nb)
  {
    var i := Index(nb);
    IndexBound(nb);
    hide Index;
    if nb < LIMIT { LeadingStart(nb, i); }
    StartAt(mem, bins, treemap, trees, contents, i);
    AtNowhere(mem, trees[i], i);
    assert Sizes(Nil) == {};
    forall a | a in contents && contents[a] >= nb ensures Index(contents[a]) >= i {
      if Index(contents[a]) < i { BinsOrdered(contents[a], nb); }
    }
    hide Rep, Trie, Base, Bits, Leading, Pow2, Shl, LeftShift, Holds;
  }

  function None(): BinMap {
    seq(32, _ => false)
  }

  /** The request's own bin has nothing to offer: the next marked bin has the best. */
  lemma NextBin(mem: Store, bins: seq<nat>, treemap: BinMap, trees: seq<Tree>, contents: map<nat, nat>, nb: nat,
                c: Place)
    requires Shape(mem, bins, treemap, trees) && Holding(trees, contents) && MIN_LARGE <= nb < TOP && Index(nb) < BINS
    requires Remaining(contents, nb, Index(nb)) && Rest(mem, trees[Index(nb)], Index(nb), nb, c, 0, 0, TOP - nb)
    ensures var above := And(LeftBits(IdxToBit(Index(nb))), treemap);
      var j := BitToIdx(LeastBit(above));
      if above == None() then forall a :: a in contents ==> contents[a] < nb
      else && j < BINS && Remaining(contents, nb, j) && bins[j] != 0
           && Rest(mem, trees[j], j, nb, Place(trees[j], Base(j), Bits(j), BinSlot(j)), bins[j], 0, TOP - nb)
  {
    var i := Index(nb);
    hide Index;
    if nb < LIMIT { Exhausted(trees, contents, mem, nb, i, c); }
    MarkedAbove(treemap, i);
    var above := And(LeftBits(IdxToBit(i)), treemap);
    hide And, LeftBits, IdxToBit, Rest;
    if above == None() {
      forall a | a in contents ensures contents[a] < nb {
        if contents[a] >= nb { Marked(mem, bins, treemap, trees, contents, a); }
      }
    } else {
      SomeMark(above);
      FirstMarked(above);
      var j := BitToIdx(above);
      hide LeastBit;
      assert j > i && treemap[j];
      forall a | a in contents && contents[a] >= nb ensures Index(contents[a]) >= j {
        Marked(mem, bins, treemap, trees, contents, a);
      }
      StartFresh(mem, bins, treemap, trees, contents, nb, j);
    }
  }

  lemma SomeMark(x: BinMap)
    requires x != None()
    ensures exists j :: 0 <= j < 32 && x[j]
  {
    assert exists j :: 0 <= j < |x| && x[j] != None()[j];
  }

  lemma Exhausted(trees: seq<Tree>, contents: map<nat, nat>, mem: Store, nb: nat, i: nat, c: Place)
    requires Holding(trees, contents) && i < BINS && nb < LIMIT && OffPath(mem, trees[i], i, nb, c, 0, 0, TOP - nb)
    ensures forall a :: a in contents && contents[a] >= nb ==> Index(contents[a]) != i
  {
    hide Index, Rep;
    AtRoot(mem, trees[i], i, c, 0);
    assert Sizes(Nil) == {};
    hide Sizes;
    forall a | a in contents && contents[a] >= nb ensures Index(contents[a]) != i {
      if Index(contents[a]) == i {
        assert Filed(contents, a, contents[a], i);
        HoldsIn(trees[i], a, contents[a]);
      }
    }
  }

  lemma Marked(mem: Store, bins: seq<nat>, treemap: BinMap, trees: seq<Tree>, contents: map<nat, nat>, a: nat)
    requires Shape(mem, bins, treemap, trees) && Holding(trees, contents) && a in contents
    ensures Index(contents[a]) < BINS && treemap[Index(contents[a])]
  {
    IndexRange(contents[a]);
    hide Index;
    assert Filed(contents, a, contents[a], Index(contents[a]));
  }

  lemma StartFresh(mem: Store, bins: seq<nat>, treemap: BinMap, trees: seq<Tree>, contents: map<nat, nat>, nb: nat,
                   j: nat)
    requires Shape(mem, bins, treemap, trees) && Holding(trees, contents) && MIN_LARGE <= nb < TOP
    requires Index(nb) < j < BINS && treemap[j]
    ensures bins[j] != 0
    ensures Rest(mem, trees[j], j, nb, Place(trees[j], Base(j), Bits(j), BinSlot(j)), bins[j], 0, TOP - nb)
  {
    hide Index;
    StartAt(mem, bins, treemap, trees, contents, j);
    AtRoot(mem, trees[j], j, Place(trees[j], Base(j), Bits(j), BinSlot(j)), bins[j]);
    if nb < LIMIT {
      forall s | s in Sizes(trees[j]) ensures s >= nb { BinsOrdered(nb, s); }
    }
    hide Rep, Trie, Holds, Base, Bits, Sizes;
  }

  /** First part of tmalloc_large: down the path of `nb`, remembering the best node and the deepest untaken right
      subtree. */
  method SearchPath(b: Bins, nb: nat, i: nat) returns (t: nat, v: nat, rsize: nat, ghost c: Place)
    requires b.Valid() && MIN_LARGE <= nb < TOP && i == Index(nb) < BINS && b.bins[i] != 0
    ensures Rest(b.mem, b.trees[i], i, nb, c, t, v, rsize)
  {
    assert Shape(b.mem, b.bins, b.treemap, b.trees) && Holding(b.trees, b.contents);
    hide *;
    StartPath(b.mem, b.bins, b.treemap, b.trees, b.contents, nb);
    v, rsize, t := 0, TOP - nb, b.bins[i];
    var sizebits := Shl(nb, LeftShift(i));
    var rst: nat := 0;
    ghost var tree, r := b.trees[i], NOWHERE;
    c := Place(tree, Base(i), Bits(i), BinSlot(i));
    PathNode(b.mem, tree, i, nb, c, t, sizebits, r, rst, v, rsize);
    while true
      invariant Path(b.mem, tree, i, nb, c, t, sizebits, r, rst, v, rsize) && c.t.Fork? && rsize > 0
      decreases c.t
    {
      FollowPath(b.mem, tree, i, nb, c, t, sizebits, r, rst, v, rsize);
      var trem := Rem(b.mem[t].size, nb);
      if trem < rsize {
        v, rsize := t, trem;
        if rsize == 0 { break; }
      }
      FurtherFacts(b.mem, tree, i, nb, c, t, sizebits, r, rst, v, rsize);
      var right := TopBit(sizebits);
      var rt := b.mem[t].right;
      ghost var c0 := c;
      c := Down(c0, right);
      t := if right then rt else b.mem[t].left;
      if rt != 0 && rt != t { rst, r := rt, Down(c0, true); }
      sizebits := Shl(sizebits, 1);
      PathNode(b.mem, tree, i, nb, c, t, sizebits, r, rst, v, rsize);
      if t == 0 {
        LeavePath(b.mem, tree, i, nb, c, t, sizebits, r, rst, v, rsize);
        t, c := rst, r;
        break;
      }
    }
  }

  lemma PathNode(mem: Store, tree: Tree, i: nat, nb: nat, c: Place, t: nat, w: nat, r: Place, rst: nat, v: nat,
                 rsize: nat)
    requires Path(mem, tree, i, nb, c, t, w, r, rst, v, rsize)
    ensures t == 0 <==> c.t.Nil?
  {
    AtRoot(mem, tree, i, c, t);
  }

  lemma FurtherFacts(mem: Store, tree: Tree, i: nat, nb: nat, c: Place, t: nat, w: nat, r: Place, rst: nat, v: nat,
                     rsize: nat)
    requires t in mem && c.t.Fork? && Further(mem, tree, i, nb, c, t, w, r, rst, v, rsize)
    ensures var right, rt := TopBit(w), mem[t].right;
      var t' := if right then rt else mem[t].left;
      var took := rt != 0 && rt != t';
      Path(mem, tree, i, nb, Down(c, right), t', Shl(w, 1), if took then Down(c, true) else r, if took then rt
          else rst, v, rsize)
  {
    hide Path, Down, Shl, TopBit;
  }

  /** Last part of both searches: to the left as far as possible. */
  method SearchLeft(b: Bins, nb: nat, ghost j: nat, ghost c0: Place, t0: nat, v0: nat, rsize0: nat)
    returns (v: nat, rsize: nat, ghost c: Place)
    requires |b.trees| == BINS && j < BINS && 0 < nb < TOP && Rest(b.mem, b.trees[j], j, nb, c0, t0, v0, rsize0)
    ensures Rest(b.mem, b.trees[j], j, nb, c, 0, v, rsize) && (nb < LIMIT && (t0 != 0 || v0 != 0) ==> v != 0)
  {
    var t := t0;
    v, rsize, c := v0, rsize0, c0;
    hide *;
    LeftNode(b.mem, b.trees[j], j, nb, c, t, v, rsize);
    while t != 0
      invariant Rest(b.mem, b.trees[j], j, nb, c, t, v, rsize) && (t == 0 <==> c.t.Nil?)
      invariant nb < LIMIT && (t0 != 0 || v0 != 0) ==> t != 0 || v != 0
      decreases c.t
    {
      FollowLeft(b.mem, b.trees[j], j, nb, c, t, v, rsize);
      var trem := Rem(b.mem[t].size, nb);
      if trem < rsize {
        v, rsize := t, trem;
      }
      c := Down(c, b.mem[t].left == 0);
      t := LeftmostChild(b.mem, t);
      LeftNode(b.mem, b.trees[j], j, nb, c, t, v, rsize);
    }
  }

  lemma LeftNode(mem: Store, tree: Tree, i: nat, nb: nat, c: Place, t: nat, v: nat, rsize: nat)
    requires Rest(mem, tree, i, nb, c, t, v, rsize)
    ensures t == 0 <==> c.t.Nil?
  {
    AtRoot(mem, tree, i, c, t);
  }

  /** The search of tmalloc_large finds a smallest chunk that fits, and fails only when none does. */
  method FindLarge(b: Bins, nb: nat) returns (v: nat, rsize: nat)
    requires b.Valid() && MIN_LARGE <= nb < TOP
    ensures BestChunk(b.contents, nb, v, rsize)
  {
    assert Shape(b.mem, b.bins, b.treemap, b.trees) && Holding(b.trees, b.contents);
    var idx := Index(nb);
    hide *;
    StartPath(b.mem, b.bins, b.treemap, b.trees, b.contents, nb);
    ghost var j, c := idx, NOWHERE;
    var t := b.bins[idx];
    v, rsize := 0, TOP - nb;
    if t != 0 {
      t, v, rsize, c := SearchPath(b, nb, idx);
    } else {
      LeavePath(b.mem, b.trees[idx], idx, nb, Place(b.trees[idx], Base(idx), Bits(idx), BinSlot(idx)), t,
          Shl(nb, LeftShift(idx)), c, 0, v, rsize);
    }
    if t == 0 && v == 0 {
      Unspent(b.mem, b.trees[idx], idx, nb, c, t, v, rsize);
      var leftbits := And(LeftBits(IdxToBit(idx)), b.treemap);
      NextBin(b.mem, b.bins, b.treemap, b.trees, b.contents, nb, c);
      if leftbits != None() {
        var i := BitToIdx(LeastBit(leftbits));
        t := b.bins[i];
        j, c := i, Place(b.trees[i], Base(i), Bits(i), BinSlot(i));
      }
    }
    v, rsize, c := SearchLeft(b, nb, j, c, t, v, rsize);
    Conclude(b.trees, b.contents, b.mem, nb, j, c, v, rsize);
  }

  lemma Unspent(mem: Store, tree: Tree, i: nat, nb: nat, c: Place, t: nat, v: nat, rsize: nat)
    requires Rest(mem, tree, i, nb, c, t, v, rsize) && v == 0
    ensures nb <= TOP && rsize == TOP - nb
  {
  }

  /** Below the sizes of the tree bins, the first marked bin has the best. */
  lemma FirstBin(mem: Store, bins: seq<nat>, treemap: BinMap, trees: seq<Tree>, contents: map<nat, nat>, nb: nat)
    requires Shape(mem, bins, treemap, trees) && Holding(trees, contents) && nb < MIN_LARGE && treemap != None()
    ensures var j := BitToIdx(LeastBit(treemap));
      && |bins| == BINS && |trees| == BINS && j < BINS && Remaining(contents, nb, j) && bins[j] != 0
      && Rest(mem, trees[j], j, nb, Place(trees[j], Base(j), Bits(j), BinSlot(j)), bins[j], 0, TOP - nb)
  {
    SomeMark(treemap);
    FirstMarked(treemap);
    var j := BitToIdx(treemap);
    hide Index, LeastBit;
    forall a | a in contents ensures Index(contents[a]) >= j {
      Marked(mem, bins, treemap, trees, contents, a);
    }
    StartAt(mem, bins, treemap, trees, contents, j);
    AtRoot(mem, trees[j], j, Place(trees[j], Base(j), Bits(j), BinSlot(j)), bins[j]);
    hide Rep, Trie, Holds, Base, Bits, Sizes;
  }

  /** The search of tmalloc_small finds a smallest chunk of all. */
  method FindSmall(b: Bins, nb: nat) returns (v: nat, rsize: nat)
    requires b.Valid() && 0 < nb < MIN_LARGE && b.treemap != None()
    ensures v != 0 && BestChunk(b.contents, nb, v, rsize)
  {
    assert Shape(b.mem, b.bins, b.treemap, b.trees) && Holding(b.trees, b.contents);
    assert nb < LIMIT && nb < TOP;
    hide *;
    FirstBin(b.mem, b.bins, b.treemap, b.trees, b.contents, nb);
    var i := BitToIdx(LeastBit(b.treemap));
    var t := b.bins[i];
    v := t;
    ghost var c := Place(b.trees[i], Base(i), Bits(i), BinSlot(i));
    LeftNode(b.mem, b.trees[i], i, nb, c, t, 0, TOP - nb);
    FollowLeft(b.mem, b.trees[i], i, nb, c, t, 0, TOP - nb);
    rsize := Rem(b.mem[t].size, nb);
    c := Down(c, b.mem[t].left == 0);
    t := LeftmostChild(b.mem, t);
    v, rsize, c := SearchLeft(b, nb, i, c, t, v, rsize);
    Conclude(b.trees, b.contents, b.mem, nb, i, c, v, rsize);
  }
}
