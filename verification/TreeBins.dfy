/** The array of tree bins with its map (userspace/libc/malloc.c:2567-2600, 3656-3793). */
module TreeBins {
  import opened Division
  import opened BinMaps
  import opened TreeIndex
  import opened Tries
  import opened TrieStore
  import opened TrieUnlink

  const WORD := 64   // SIZE_T_BITSIZE

  // ---- what the bins hold -------------------------------------------------------------------------

  /** Every bin holds a trie of its sizes, and its mark tells whether it is empty. */
  ghost predicate Shape(mem: Store, bins: seq<nat>, treemap: BinMap, trees: seq<Tree>) {
    && |bins| == BINS && |trees| == BINS
    && (forall i :: 0 <= i < BINS ==> Bin(mem, trees[i], bins[i], i) && treemap[i] == trees[i].Fork?)
  }

  ghost predicate Bin(mem: Store, t: Tree, p: nat, i: nat) {
    Rep(mem, t, p, BinSlot(i), i) && Trie(t, Base(i), Bits(i)) && Distinct(t)
  }

  predicate Filed(contents: map<nat, nat>, a: nat, s: nat, i: nat) {
    a in contents && contents[a] == s && Index(s) == i
  }

  /** The bins hold exactly the chunks of `contents`, address to size, each in the bin of its size. */
  ghost predicate Holding(trees: seq<Tree>, contents: map<nat, nat>) {
    && |trees| == BINS
    && (forall i, a: nat, s: nat :: 0 <= i < BINS ==> Holds(trees[i], a, s) == Filed(contents, a, s, i))
    && (forall a :: a in contents ==> a != 0 && MIN_LARGE <= contents[a] < LIMIT)
  }

  lemma {:induction false} AddrHolds(t: Tree, a: nat) returns (s: nat)
    requires a in Addrs(t)
    ensures Holds(t, a, s)
  {
    if a == t.x || a in t.ring { s := t.size; }
    else if a in Addrs(t.left) { s := AddrHolds(t.left, a); }
    else { s := AddrHolds(t.right, a); }
  }

  lemma AddrIn(trees: seq<Tree>, contents: map<nat, nat>, i: nat, a: nat)
    requires Holding(trees, contents) && i < BINS
    ensures a in Addrs(trees[i]) <==> a in contents && Index(contents[a]) == i
  {
    hide Index;
    if a in Addrs(trees[i]) {
      var s := AddrHolds(trees[i], a);
      assert Filed(contents, a, s, i);
    }
    if a in contents && Index(contents[a]) == i {
      assert Filed(contents, a, contents[a], i);
      HoldsIn(trees[i], a, contents[a]);
    }
  }

  /** A bin that loses or gains memory elsewhere keeps its trie. */
  lemma Others(mem: Store, mem': Store, bins: seq<nat>, treemap: BinMap, trees: seq<Tree>, contents: map<nat, nat>,
               i: nat, x: nat, j: nat)
    requires Shape(mem, bins, treemap, trees) && Holding(trees, contents) && i < BINS
    requires j < BINS && i != j
    requires x in contents ==> Index(contents[x]) == i
    requires Agree(mem, mem', mem.Keys - Addrs(trees[i]) - {x})
    ensures Bin(mem', trees[j], bins[j], j)
  {
    forall y | y in Addrs(trees[j]) ensures y !in Addrs(trees[i]) && y != x {
      AddrIn(trees, contents, i, y);
      AddrIn(trees, contents, j, y);
    }
    assert Bin(mem, trees[j], bins[j], j);
    RepFrame(mem, mem', trees[j], bins[j], BinSlot(j), j);
  }

  /** One bin changes its trie; the rest stay. */
  lemma ShapeStep(mem: Store, mem': Store, bins: seq<nat>, treemap: BinMap, treemap': BinMap, trees: seq<Tree>,
                  contents: map<nat, nat>,
                  i: nat, x: nat, t: Tree, p: nat)
    requires Shape(mem, bins, treemap, trees) && Holding(trees, contents) && i < BINS
    requires x in contents ==> Index(contents[x]) == i
    requires Agree(mem, mem', mem.Keys - Addrs(trees[i]) - {x})
    requires Bin(mem', t, p, i) && treemap'[i] == t.Fork?
    requires forall j :: 0 <= j < BINS && j != i ==> treemap'[j] == treemap[j]
    ensures Shape(mem', bins[i := p], treemap', trees[i := t])
  {
    hide Holding, Bin;
    forall j | 0 <= j < BINS && j != i ensures Bin(mem', trees[j], bins[j], j) {
      Others(mem, mem', bins, treemap, trees, contents, i, x, j);
    }
  }

  lemma InsertHolding(trees: seq<Tree>, contents: map<nat, nat>, i: nat, x: nat, s: nat)
    requires Holding(trees, contents) && x != 0 && x !in contents
    requires MIN_LARGE <= s < LIMIT && i == Index(s) < BINS
    requires Trie(trees[i], Base(i), Bits(i)) && Base(i) <= s < Base(i) + Pow2(Bits(i))
    ensures Holding(trees[i := Insert(trees[i], x, s, Base(i), Bits(i))], contents[x := s])
  {
    var t := Insert(trees[i], x, s, Base(i), Bits(i));
    var trees', contents' := trees[i := t], contents[x := s];
    hide Index, Insert, Remove, Holds, Trie, Base, Bits;
    forall j, a: nat, b: nat | 0 <= j < BINS
      ensures Holds(trees'[j], a, b) == Filed(contents', a, b, j)
    {
      InsertHolds(trees[i], x, s, Base(i), Bits(i), a, b);
    }
  }

  lemma RemoveHolding(trees: seq<Tree>, contents: map<nat, nat>, i: nat, x: nat, s: nat)
    requires Holding(trees, contents) && x in contents && s == contents[x] && i == Index(s) < BINS
    requires Trie(trees[i], Base(i), Bits(i)) && Distinct(trees[i])
    ensures Holding(trees[i := Remove(trees[i], x, s, Base(i), Bits(i))], contents - {x})
  {
    var t := Remove(trees[i], x, s, Base(i), Bits(i));
    var trees', contents' := trees[i := t], contents - {x};
    assert Holds(trees[i], x, s);
    hide Index, Insert, Remove, Holds, Trie, Base, Bits;
    forall j, a: nat, b: nat | 0 <= j < BINS
      ensures Holds(trees'[j], a, b) == Filed(contents', a, b, j)
    {
      RemoveHolds(trees[i], x, s, Base(i), Bits(i), a, b);
    }
  }

  // ---- following the bits of a size ---------------------------------------------------------------

  /** `x << n` in a 64-bit word. */
  function Shl(x: nat, n: nat): nat {
    x * Pow2(n) % Pow2(WORD)
  }

  /** The highest bit of a 64-bit word. */
  predicate TopBit(x: nat) {
    x / Pow2(WORD - 1) % 2 == 1
  }

  /** leftshift_for_tree_index. */
  function LeftShift(i: nat): nat
    requires i < BINS
  {
    if i == BINS - 1 then 0 else 63 - (i / 2 + 6)
  }

  /** A word whose leading bits are those of `s` that select below the interval at `lo` of 2^k sizes. */
  ghost predicate Leading(w: nat, s: nat, lo: nat, k: nat) {
    k <= WORD && lo <= s < lo + Pow2(k) && w == (s - lo) * Pow2(WORD - k)
  }

  lemma MulLess(a: nat, b: nat, c: nat)
    requires a < b && c >= 1
    ensures a * c < b * c
  {
  }

  lemma Small(w: nat, top: nat)
    requires w < top
    ensures w / top == 0 && w * 2 % (2 * top) == 2 * w
  {
    DivUnique(w, top, 0, w);
    DivUnique(w * 2, 2 * top, 0, w * 2);
  }

  lemma Large(w: nat, top: nat)
    requires 0 < top <= w < 2 * top
    ensures w / top == 1 && w * 2 % (2 * top) == 2 * (w - top)
  {
    DivUnique(w, top, 1, w - top);
    DivUnique(w * 2, 2 * top, 1, 2 * (w - top));
  }

  lemma Halve(d: nat, h: nat, c: nat, top: nat)
    requires h >= 1 && c >= 1 && h * c == top && d < 2 * h
    ensures d * c / top % 2 == 1 <==> d >= h
    ensures d * c * 2 % (2 * top) == (if d >= h then d - h else d) * (2 * c)
  {
    if d < h {
      MulLess(d, h, c);
      Small(d * c, top);
    } else {
      MulLess(d - h, h, c);
      assert d * c == (d - h) * c + top;
      Large(d * c, top);
    }
  }

  /** The highest bit chooses the half, and shifting moves to it. */
  lemma LeadingStep(w: nat, s: nat, lo: nat, k: nat)
    requires Leading(w, s, lo, k) && k > 0
    ensures TopBit(w) <==> s >= lo + Pow2(k - 1)
    ensures Leading(Shl(w, 1), s, if TopBit(w) then lo + Pow2(k - 1) else lo, k - 1)
  {
    hide Pow2;
    assert Pow2(0) == 1 && Pow2(1) == 2 by { PowOne(); }
    PowShift(k - 1, WORD - k);
    PowSucc(k - 1);
    PowSucc(WORD - k);
    PowSucc(WORD - 1);
    assert (k - 1) + (WORD - k) == WORD - 1 && WORD - k + 1 == WORD - (k - 1);
    Halve(s - lo, Pow2(k - 1), Pow2(WORD - k), Pow2(WORD - 1));
  }

  lemma PowOne()
    ensures Pow2(0) == 1 && Pow2(1) == 2
  {
  }

  /** The word the walk starts with. */
  lemma LeadingStart(s: nat, i: nat)
    requires MIN_LARGE <= s < LIMIT && i == Index(s)
    ensures i < BINS && Leading(Shl(s, LeftShift(i)), s, Base(i), Bits(i))
  {
    hide Index, Pow2;
    IndexRange(s);
    LimitFits();
    if i == BINS - 1 {
      Keep(s, Pow2(WORD));
    } else {
      BaseMultiple(i);
      PowShift(Bits(i), LeftShift(i));
      assert Bits(i) + LeftShift(i) == WORD && WORD - Bits(i) == LeftShift(i) && Base(i) == MinSize(i);
      hide MinSize, Bits, LeftShift;
      Wrap(s, Base(i), 2 + i % 2, Pow2(Bits(i)), Pow2(LeftShift(i)));
    }
  }

  lemma Keep(x: nat, m: nat)
    requires x < m
    ensures x * 1 % m == x
  {
  }

  lemma LimitFits()
    ensures LIMIT < Pow2(WORD) && Pow2(0) == 1
  {
    assert Pow2(10) == 1024;
    PowShift(10, 10);
    PowShift(20, 20);
    PowShift(40, 24);
  }

  lemma BaseMultiple(i: nat)
    requires i < BINS - 1
    ensures Base(i) == (2 + i % 2) * Pow2(Bits(i))
  {
    assert Pow2(i / 2 + 8) == 2 * Pow2(i / 2 + 7);
  }

  lemma Wrap(s: nat, base: nat, n: nat, p: nat, q: nat)
    requires base == n * p && base <= s < base + p && q >= 1
    ensures s * q % (p * q) == (s - base) * q
  {
    MulLess(s - base, p, q);
    assert s * q == n * (p * q) + (s - base) * q;
    DivUnique(s * q, p * q, n, (s - base) * q);
  }

  // ---- the bins as an object ----------------------------------------------------------------------

  /** A step of the walk in insert_large_chunk. */
  lemma SpotStep(mem: Store, u: Tree, link: Link, i: nat, w: nat, s: nat, lo: nat, k: nat)
    requires u.Fork? && Rep(mem, u, u.x, link, i) && Trie(u, lo, k)
    requires Leading(w, s, lo, k) && u.size != s
    ensures k > 0 && u.x in mem
    ensures var right := TopBit(w);
      var c, lo' := if right then u.right else u.left, if right then lo + Pow2(k - 1) else lo;
      var p := if right then mem[u.x].right else mem[u.x].left;
      && Leading(Shl(w, 1), s, lo', k - 1) && Trie(c, lo', k - 1) && Rep(mem, c, p, Node(u.x), i) && c < u
      && (p == 0 ==> Spot(u, s, lo, k) == u && SpotRight(u, s, lo, k) == right)
      && (p != 0 ==>
           c.Fork? && c.x == p && Spot(u, s, lo, k) == Spot(c, s, lo', k - 1) &&
           SpotRight(u, s, lo, k) == SpotRight(c, s, lo', k - 1))
  {
    PowOne();
    LeadingStep(w, s, lo, k);
    hide Leading, TopBit, Shl, Pow2, Ring, Chained, Sizes;
    RepIn(mem, u, u.x, link, i);
  }

  /** The walk has come from the root of `tree` to its subtree `u`. */
  ghost predicate Walking(mem: Store, tree: Tree, i: nat, s: nat, u: Tree, lo: nat, k: nat, link: Link, t: nat,
                          w: nat) {
    && tree.Fork? && u.Fork? && u.x == t && t in mem && mem[t].size == u.size && Rep(mem, u, t, link, i)
    && Trie(u, lo, k) && Leading(w, s, lo, k)
    && Spot(tree, s, Base(i), Bits(i)) == Spot(u, s, lo, k)
    && SpotRight(tree, s, Base(i), Bits(i)) == SpotRight(u, s, lo, k)
  }

  /** The walk has ended at chunk `t`. */
  ghost predicate Arrived(tree: Tree, i: nat, s: nat, t: nat, right: bool) {
    tree.Fork? && t == Spot(tree, s, Base(i), Bits(i)).x && right == SpotRight(tree, s, Base(i), Bits(i))
  }

  lemma WalkStart(mem: Store, bins: seq<nat>, treemap: BinMap, trees: seq<Tree>, i: nat, s: nat)
    requires Shape(mem, bins, treemap, trees) && MIN_LARGE <= s < LIMIT && i == Index(s) < BINS && treemap[i]
    ensures Walking(mem, trees[i], i, s, trees[i], Base(i), Bits(i), BinSlot(i), bins[i], Shl(s, LeftShift(i)))
  {
    assert Bin(mem, trees[i], bins[i], i);
    LeadingStart(s, i);
    hide Index, Leading, Base, Bits, Spot, SpotRight, Trie, Distinct, LeftShift, Shl;
  }

  lemma WalkStep(mem: Store, tree: Tree, i: nat, s: nat, u: Tree, lo: nat, k: nat, link: Link, t: nat, w: nat)
    requires Walking(mem, tree, i, s, u, lo, k, link, t, w)
    ensures t in mem && u.Fork? && (mem[t].size == s ==> Arrived(tree, i, s, t, false))
    ensures mem[t].size != s ==>
      var right := TopBit(w);
      var c := if right then mem[t].right else mem[t].left;
      && k > 0
      && (c == 0 ==> Arrived(tree, i, s, t, right))
      && (c != 0 ==>
           Walking(mem, tree, i, s, if right then u.right else u.left, if right then lo + Pow2(k - 1)
           else lo, k - 1, Node(t), c, Shl(w, 1)))
  {
    hide Leading, TopBit, Shl, Base, Bits, Trie, Ring, Chained, Pow2;
    if mem[t].size == s {
    } else {
      SpotStep(mem, u, link, i, w, s, lo, k);
      hide Spot, SpotRight;
    }
  }

  /** Chunk `x` as insert_large_chunk prepares it. */
  function Prepared(mem: Store, x: nat, s: nat, i: nat): Store {
    mem[x := TChunk(s, x, x, 0, 0, BinSlot(i), i)]
  }

  lemma Outside(mem: Store, bins: seq<nat>, treemap: BinMap, trees: seq<Tree>, contents: map<nat, nat>, x: nat, s: nat)
    requires Shape(mem, bins, treemap, trees) && Holding(trees, contents) && x != 0
    requires x !in contents && MIN_LARGE <= s < LIMIT
    ensures var i := Index(s);
      && i < BINS && x !in Addrs(trees[i]) && Base(i) <= s < Base(i) + Pow2(Bits(i))
      && Trie(trees[i], Base(i), Bits(i)) && Distinct(trees[i])
      && Rep(Prepared(mem, x, s, i), trees[i], bins[i], BinSlot(i), i)
  {
    var i := Index(s);
    hide Index;
    LeadingStart(s, i);
    AddrIn(trees, contents, i, x);
    assert Bin(mem, trees[i], bins[i], i);
    hide Base, Bits, Pow2, Addrs, Trie, Distinct, Shl, LeftShift;
    RepFrame(mem, Prepared(mem, x, s, i), trees[i], bins[i], BinSlot(i), i);
  }

  /** The first chunk of a bin. */
  lemma InsertFirst(mem: Store, bins: seq<nat>, treemap: BinMap, trees: seq<Tree>, contents: map<nat, nat>, x: nat,
                    s: nat)
    requires Shape(mem, bins, treemap, trees) && Holding(trees, contents) && x != 0
    requires x !in contents && MIN_LARGE <= s < LIMIT
    requires Index(s) < BINS && !treemap[Index(s)]
    ensures var i := Index(s);
      var t := Insert(trees[i], x, s, Base(i), Bits(i));
      && Shape(Prepared(mem, x, s, i), bins[i := x], Or(treemap, IdxToBit(i)), trees[i := t])
      && Holding(trees[i := t], contents[x := s])
  {
    var i := Index(s);
    hide Index;
    Outside(mem, bins, treemap, trees, contents, x, s);
    var t, mem' := Fork(x, s, [], Nil, Nil), Prepared(mem, x, s, i);
    assert t == Insert(trees[i], x, s, Base(i), Bits(i));
    var one := [x] + t.ring;
    assert Ring(mem', one) by { assert one[0] == x && Next(one, 0) == x; }
    assert Rep(mem', t, x, BinSlot(i), i);
    TrieOne(x, s, Base(i), Bits(i));
    assert Distinct(t);
    assert Bin(mem', t, x, i);
    hide Bin, Insert, Base, Bits, Trie, Holding;
    ShapeStep(mem, mem', bins, treemap, Or(treemap, IdxToBit(i)), trees, contents, i, x, t, x);
    InsertHolding(trees, contents, i, x, s);
  }

  lemma TrieOne(x: nat, s: nat, lo: nat, k: nat)
    requires lo <= s < lo + Pow2(k)
    ensures Trie(Fork(x, s, [], Nil, Nil), lo, k)
  {
  }

  /** A further chunk of a bin, linked where the walk ended. */
  lemma InsertFurther(mem: Store, bins: seq<nat>, treemap: BinMap, trees: seq<Tree>, contents: map<nat, nat>, x: nat,
                      s: nat, t: nat, right: bool)
    requires Shape(mem, bins, treemap, trees) && Holding(trees, contents) && x != 0
    requires x !in contents && MIN_LARGE <= s < LIMIT
    requires Index(s) < BINS && treemap[Index(s)] && Arrived(trees[Index(s)], Index(s), s, t, right)
    ensures var i := Index(s);
      var t', mem0 := Insert(trees[i], x, s, Base(i), Bits(i)), Prepared(mem, x, s, i);
      && t in mem0 && mem0[t].fd in mem0 && t != x
      && Shape(if mem0[t].size == s then Chain(mem0, t, x) else Hang(mem0, t, right, x), bins, treemap, trees[i := t'])
      && Holding(trees[i := t'], contents[x := s])
  {
    var i := Index(s);
    hide Index;
    Outside(mem, bins, treemap, trees, contents, x, s);
    var tree, mem0 := trees[i], Prepared(mem, x, s, i);
    var spot := Spot(tree, s, Base(i), Bits(i));
    InsertRep(mem0, tree, bins[i], BinSlot(i), i, x, s, Base(i), Bits(i));
    InsertTrie(tree, x, s, Base(i), Bits(i));
    InsertDistinct(tree, x, s, Base(i), Bits(i));
    SpotSize(mem0, tree, bins[i], BinSlot(i), i, s, Base(i), Bits(i));
    var mem' := Inserted(mem0, spot, s, right, x);
    var t' := Insert(tree, x, s, Base(i), Bits(i));
    assert t'.Fork?;
    hide Spot, Insert, Trie, Base, Bits, Addrs, Holding;
    assert Bin(mem', t', bins[i], i);
    forall y | y in mem && y !in Addrs(tree) && y != x ensures y in mem' && mem'[y] == mem[y] {
      InsertedElsewhere(mem0, spot, s, right, x, y);
    }
    ShapeStep(mem, mem', bins, treemap, treemap, trees, contents, i, x, t', bins[i]);
    assert bins[i := bins[i]] == bins;
    InsertHolding(trees, contents, i, x, s);
  }

  lemma {:induction false} SpotSize(m: Store, t: Tree, p: nat, parent: Link, bin: nat, s: nat, lo: nat, k: nat)
    requires t.Fork? && Rep(m, t, p, parent, bin)
    ensures var u := Spot(t, s, lo, k); u.x in m && m[u.x].size == u.size
  {
    if !(t.size == s || k == 0) {
      if s < lo + Pow2(k - 1) {
        if t.left.Fork? { SpotSize(m, t.left, m[t.x].left, Node(t.x), bin, s, lo, k - 1); }
      } else {
        if t.right.Fork? { SpotSize(m, t.right, m[t.x].right, Node(t.x), bin, s, lo + Pow2(k - 1), k - 1); }
      }
    }
  }

  // ---- unlinking ----------------------------------------------------------------------------------

  /** Chunk `x` of bin `i` belongs to node `c`, which hangs on side `right` of chunk `q` unless it is the root. */
  ghost predicate Located(mem: Store, bins: seq<nat>, tree: Tree, i: nat, x: nat, s: nat, c: Tree, q: nat,
                          right: bool) {
    && |bins| == BINS && i < BINS && tree.Fork? && c.Fork? && (x == c.x || x in c.ring) && Distinct(c)
    && Addrs(c) <= Addrs(tree)
    && c == Found(tree, s, Base(i), Bits(i)) && bins[i] == tree.x
    && Rep(mem, c, c.x, if tree.size == s then BinSlot(i) else Node(q), i)
    && if tree.size == s then c == tree else
      && tree.x !in Addrs(c) && q in Addrs(tree) && q !in Addrs(c) && q in mem
      && q == Above(tree, s, Base(i), Bits(i)) && right == AboveSide(tree, s, Base(i), Bits(i))
      && (if right then mem[q].right == c.x && mem[q].left != c.x else mem[q].left == c.x && mem[q].right != c.x)
  }

  lemma Locate(mem: Store, bins: seq<nat>, treemap: BinMap, trees: seq<Tree>, contents: map<nat, nat>, x: nat)
    returns (c: Tree, q: nat, right: bool)
    requires Shape(mem, bins, treemap, trees) && Holding(trees, contents) && x in contents
    ensures var s := contents[x]; var i := Index(s);
      i < BINS && Located(mem, bins, trees[i], i, x, s, c, q, right) && Holds(trees[i], x, s) && treemap[i]
  {
    var s := contents[x];
    var i := Index(s);
    LeadingStart(s, i);
    hide Index;
    assert Filed(contents, x, s, i);
    assert Bin(mem, trees[i], bins[i], i);
    var t := trees[i];
    hide Base, Bits, Pow2, Shl, Leading, LeftShift;
    assert Holds(t, x, s);
    if t.size == s {
      HereOrBelow(t, x, s, Base(i), Bits(i));
      c, q, right := t, 0, false;
    } else {
      FoundBelow(mem, t, bins[i], BinSlot(i), i, x, s, Base(i), Bits(i));
      c, q, right := Found(t, s, Base(i), Bits(i)), Above(t, s, Base(i), Bits(i)), AboveSide(t, s, Base(i), Bits(i));
    }
  }

  lemma RemovedBin(mem: Store, mem': Store, bins: seq<nat>, treemap: BinMap, treemap': BinMap, trees: seq<Tree>,
                   contents: map<nat, nat>, x: nat, p: nat)
    requires Shape(mem, bins, treemap, trees) && Holding(trees, contents) && x in contents
    requires Index(contents[x]) < BINS
    requires var s := contents[x]; var i := Index(s);
      var t := Remove(trees[i], x, s, Base(i), Bits(i));
      && Rep(mem', t, p, BinSlot(i), i) && Agree(mem, mem', mem.Keys - Addrs(trees[i]))
      && treemap'[i] == t.Fork? && (forall j :: 0 <= j < BINS && j != i ==> treemap'[j] == treemap[j])
    ensures var s := contents[x]; var i := Index(s);
      var t := Remove(trees[i], x, s, Base(i), Bits(i));
      Shape(mem', bins[i := p], treemap', trees[i := t]) && Holding(trees[i := t], contents - {x})
  {
    var s := contents[x];
    var i := Index(s);
    hide Index, Base, Bits;
    var tree, t := trees[i], Remove(trees[i], x, s, Base(i), Bits(i));
    assert Bin(mem, tree, bins[i], i);
    assert Filed(contents, x, s, i);
    assert Holds(tree, x, s);
    RemoveTrie(tree, x, s, Base(i), Bits(i));
    RemoveDistinct(tree, x, s, Base(i), Bits(i));
    assert Bin(mem', t, p, i);
    hide Remove, Trie, Distinct, Holds, Rep, Holding;
    ShapeStep(mem, mem', bins, treemap, treemap', trees, contents, i, x, t, p);
    RemoveHolding(trees, contents, i, x, s);
  }

  /** The state after chunk `x` has left its bin. */
  ghost predicate Gone(mem: Store, bins: seq<nat>, treemap: BinMap, trees: seq<Tree>, contents: map<nat, nat>, x: nat)
    requires x in contents
  {
    && |trees| == BINS && Index(contents[x]) < BINS
    && var s := contents[x]; var i := Index(s);
      var trees' := trees[i := Remove(trees[i], x, s, Base(i), Bits(i))];
      Shape(mem, bins, treemap, trees') && Holding(trees', contents - {x})
  }

  lemma GoneInner(mem: Store, mem': Store, bins: seq<nat>, treemap: BinMap, trees: seq<Tree>, contents: map<nat, nat>,
                  x: nat, c: Tree, q: nat, right: bool)
    requires Shape(mem, bins, treemap, trees) && Holding(trees, contents) && x in contents && Index(contents[x]) < BINS
    requires Located(mem, bins, trees[Index(contents[x])], Index(contents[x]), x, contents[x], c, q, right)
    requires var t := trees[Index(contents[x])];
      && t.size != contents[x] && Holds(t, x, contents[x]) && Agree(mem, mem', mem.Keys - Addrs(t))
      && Swapped(mem, mem', Addrs(t), c, q, right, RemoveHere(c, x), Index(contents[x]))
    ensures Gone(mem', bins, treemap, trees, contents, x)
  {
    var s := contents[x];
    var i := Index(s);
    hide Index, Base, Bits, Holding, Swapped;
    var tree := trees[i];
    assert Bin(mem, tree, bins[i], i) && treemap[i] == tree.Fork?;
    RemoveBelow(mem, mem', tree, bins[i], BinSlot(i), i, x, s, Base(i), Bits(i));
    assert Remove(tree, x, s, Base(i), Bits(i)).Fork?;
    hide Remove, Found, Above, AboveSide, Rep, Trie, Distinct, Holds, Agree, Located;
    RemovedBin(mem, mem', bins, treemap, treemap, trees, contents, x, bins[i]);
    assert bins[i := bins[i]] == bins;
  }

  lemma GoneRoot(mem: Store, mem': Store, bins: seq<nat>, treemap: BinMap, treemap': BinMap, trees: seq<Tree>,
                 contents: map<nat, nat>, x: nat, p: nat)
    requires Shape(mem, bins, treemap, trees) && Holding(trees, contents) && x in contents && Index(contents[x]) < BINS
    requires var i := Index(contents[x]); var t := trees[i];
      && t.Fork? && t.size == contents[x] && Agree(mem, mem', mem.Keys - Addrs(t))
      && Rep(mem', RemoveHere(t, x), p, BinSlot(i), i)
      && treemap'[i] == RemoveHere(t, x).Fork? && (forall j :: 0 <= j < BINS && j != i ==> treemap'[j] == treemap[j])
    ensures Gone(mem', bins[Index(contents[x]) := p], treemap', trees, contents, x)
  {
    var s := contents[x];
    var i := Index(s);
    hide Index, Base, Bits, Holding, RemoveHere, Rep, Agree;
    assert Remove(trees[i], x, s, Base(i), Bits(i)) == RemoveHere(trees[i], x);
    hide Remove;
    RemovedBin(mem, mem', bins, treemap, treemap', trees, contents, x, p);
  }

  lemma RootFacts(mem: Store, u: Tree, p: nat, link: Link, i: nat)
    requires u.Fork? && Rep(mem, u, p, link, i)
    ensures p == u.x && p in mem && mem[p].size == u.size && mem[p].parent == link
  {
  }

  /** A chunk chained to a tree node leaves its ring. */
  lemma UnlinkChained(mem: Store, bins: seq<nat>, treemap: BinMap, trees: seq<Tree>, contents: map<nat, nat>, x: nat,
                      c: Tree, q: nat, right: bool)
    requires Shape(mem, bins, treemap, trees) && Holding(trees, contents) && x in contents && Index(contents[x]) < BINS
    requires Located(mem, bins, trees[Index(contents[x])], Index(contents[x]), x, contents[x], c, q, right)
    requires Holds(trees[Index(contents[x])], x, contents[x]) && x != c.x && treemap[Index(contents[x])]
    ensures x in mem && mem[x].fd in mem && mem[x].bk in mem && Gone(Unchain(mem, x), bins, treemap, trees, contents, x)
  {
    var s := contents[x];
    var i := Index(s);
    hide Index, Base, Bits, Holding, Found, Above, AboveSide, Gone, Shape;
    var tree, parent := trees[i], if trees[i].size == s then BinSlot(i) else Node(q);
    UnchainHere(mem, c, c.x, parent, i, x);
    var mem', d := Unchain(mem, x), c.(ring := Without(c.ring, x));
    assert RemoveHere(c, x) == d;
    assert {c.x} + Members(c.ring) <= Addrs(c);
    hide Unchain, RemoveHere, Without, Addrs, Rep, Holds, Distinct;
    forall y | y in mem && y !in Addrs(c) ensures y in mem' && mem'[y] == mem[y] {
      UnchainWrites(mem, x, y);
    }
    if tree.size == s {
      GoneRoot(mem, mem', bins, treemap, treemap, trees, contents, x, c.x);
      assert bins[i := c.x] == bins;
    } else {
      GoneInner(mem, mem', bins, treemap, trees, contents, x, c, q, right);
    }
  }

  /** Steps 1 and 2 of the unlink of tree chunk `c.x`: a replacement is ready, or none is needed. */
  ghost predicate Detached(mem: Store, mem': Store, c: Tree, i: nat) {
    && c.Fork? && mem'.Keys == mem.Keys && (forall y :: y in mem && y !in Addrs(c) ==> mem'[y] == mem[y])
    && if RemoveHere(c, c.x).Nil? then mem' == mem else Ready(mem', c, i)
  }

  /** Puts `r` in the place of child `x` of `q`. */
  function SetChild(mem: Store, q: nat, x: nat, r: nat): (m': Store)
    requires q in mem
    ensures m'.Keys == mem.Keys
  {
    if mem[q].left == x then mem[q := mem[q].(left := r)] else mem[q := mem[q].(right := r)]
  }

  lemma UnlinkInner(mem: Store, mem2: Store, bins: seq<nat>, treemap: BinMap, trees: seq<Tree>, contents: map<nat,
                    nat>, x: nat, c: Tree, q: nat, right: bool)
    requires Shape(mem, bins, treemap, trees) && Holding(trees, contents) && x in contents && Index(contents[x]) < BINS
    requires Located(mem, bins, trees[Index(contents[x])], Index(contents[x]), x, contents[x], c, q, right)
    requires Holds(trees[Index(contents[x])], x, contents[x]) && x == c.x
    requires trees[Index(contents[x])].size != contents[x]
    requires Detached(mem, mem2, c, Index(contents[x]))
    ensures q in mem2 && x in mem2
    ensures var d := RemoveHere(c, x); var mem3 := SetChild(mem2, q, x, RootOf(d));
      && (d.Nil? ==> Gone(mem3, bins, treemap, trees, contents, x))
      && (d.Fork? ==>
           d.x != 0 && d.x in mem3 && (mem3[x].left != 0 ==> mem3[x].left in mem3) &&
           (mem3[x].right != 0 ==> mem3[x].right in mem3)
                      && Gone(Adopt(mem3, x, d.x, Node(q)), bins, treemap, trees, contents, x))
  {
    var s := contents[x];
    var i := Index(s);
    hide Index, Base, Bits, Holding, Found, Above, AboveSide, Gone, Shape, Holds, Distinct, RemoveHere, Addrs;
    assert q in mem2 && x in mem2 by { RootFacts(mem, c, c.x, Node(q), i); }
    var tree, d := trees[i], RemoveHere(c, x);
    var mem3 := SetChild(mem2, q, x, RootOf(d));
    assert mem3[q] == if right then mem[q].(right := RootOf(d)) else mem[q].(left := RootOf(d));
    assert forall y :: y in mem2 && y != q ==> mem3[y] == mem2[y];
    hide SetChild, Rep;
    if d.Fork? {
      assert Agree(mem2, mem3, Addrs(c));
      ReadyFrame(mem2, mem3, c, i);
      ReadyAdopt(mem3, c, Node(q), i);
      SpareFacts(mem3, c, i);
      var mem4 := Adopt(mem3, x, d.x, Node(q));
      hide Adopt, Ready;
      assert Swapped(mem, mem4, Addrs(tree), c, q, right, d, i);
      GoneInner(mem, mem4, bins, treemap, trees, contents, x, c, q, right);
    } else {
      assert Rep(mem3, d, 0, Node(q), i);
      assert Swapped(mem, mem3, Addrs(tree), c, q, right, d, i);
      GoneInner(mem, mem3, bins, treemap, trees, contents, x, c, q, right);
    }
  }

  lemma SpareFacts(m: Store, c: Tree, i: nat)
    requires c.Fork? && Ready(m, c, i)
    ensures var d := RemoveHere(c, c.x); d.Fork? && d.x != 0 && d.x in m && c.x in m
  {
  }

  lemma UnlinkRoot(mem: Store, mem2: Store, bins: seq<nat>, treemap: BinMap, trees: seq<Tree>, contents: map<nat,
                   nat>, x: nat, c: Tree, q: nat, right: bool)
    requires Shape(mem, bins, treemap, trees) && Holding(trees, contents) && x in contents && Index(contents[x]) < BINS
    requires Located(mem, bins, trees[Index(contents[x])], Index(contents[x]), x, contents[x], c, q, right)
    requires x == c.x && trees[Index(contents[x])].size == contents[x] && treemap[Index(contents[x])]
    requires Detached(mem, mem2, c, Index(contents[x]))
    ensures x in mem2
    ensures var i, d := Index(contents[x]), RemoveHere(c, x);
      && (d.Nil? ==> Gone(mem2, bins[i := 0], And(treemap, Not(IdxToBit(i))), trees, contents, x))
      && (d.Fork? ==>
           d.x != 0 && d.x in mem2 && (mem2[x].left != 0 ==> mem2[x].left in mem2) &&
           (mem2[x].right != 0 ==> mem2[x].right in mem2)
                      && Gone(Adopt(mem2, x, d.x, BinSlot(i)), bins[i := d.x], treemap, trees, contents, x))
  {
    var s := contents[x];
    var i := Index(s);
    hide Index, Base, Bits, Holding, Found, Above, AboveSide, Gone, Shape, Holds, Distinct, RemoveHere, Addrs;
    var d := RemoveHere(c, x);
    RootFacts(mem, c, c.x, BinSlot(i), i);
    hide Rep;
    if d.Fork? {
      ReadyAdopt(mem2, c, BinSlot(i), i);
      SpareFacts(mem2, c, i);
      hide Adopt, Ready;
      GoneRoot(mem, Adopt(mem2, x, d.x, BinSlot(i)), bins, treemap, treemap, trees, contents, x, d.x);
    } else {
      assert Rep(mem2, d, 0, BinSlot(i), i);
      GoneRoot(mem, mem2, bins, treemap, And(treemap, Not(IdxToBit(i))), trees, contents, x, 0);
    }
  }

  /** The search for the replacing leaf below node `c` has come to chunk `r`, subtree `u`, through the child
      pointer of `rp` on side `right`. */
  ghost predicate Sinking(mem: Store, c: Tree, i: nat, u: Tree, r: nat, rp: nat, right: bool) {
    && c.Fork? && !IsLeaf(c) && u.Fork? && Rep(mem, u, r, Node(rp), i) && LastLeaf(c) == LastLeaf(u)
    && LastAt(c) == (if IsLeaf(u) then rp else LastAt(u)) && LastSide(c) == (if IsLeaf(u) then right else LastSide(u))
  }

  lemma NilIffZero(mem: Store, u: Tree, p: nat, link: Link, i: nat)
    requires Rep(mem, u, p, link, i)
    ensures p == 0 <==> u.Nil?
  {
  }

  lemma SinkStart(mem: Store, c: Tree, i: nat, link: Link)
    requires c.Fork? && Rep(mem, c, c.x, link, i)
    ensures c.x in mem && (IsLeaf(c) <==> mem[c.x].right == 0 && mem[c.x].left == 0)
    ensures mem[c.x].right != 0 ==> Sinking(mem, c, i, c.right, mem[c.x].right, c.x, true)
    ensures mem[c.x].right == 0 && mem[c.x].left != 0 ==> Sinking(mem, c, i, c.left, mem[c.x].left, c.x, false)
  {
    RepIn(mem, c, c.x, link, i);
    hide Ring, Chained, Addrs;
  }

  lemma SinkStep(mem: Store, c: Tree, i: nat, u: Tree, r: nat, rp: nat, right: bool)
    requires Sinking(mem, c, i, u, r, rp, right)
    ensures u.Fork? && c.Fork? && !IsLeaf(c) && r in mem
    ensures mem[r].right != 0 ==> Sinking(mem, c, i, u.right, mem[r].right, r, true)
    ensures mem[r].right == 0 && mem[r].left != 0 ==> Sinking(mem, c, i, u.left, mem[r].left, r, false)
    ensures mem[r].right == 0 && mem[r].left == 0 ==> r == LastLeaf(c).x && rp == LastAt(c) && right == LastSide(c)
  {
    NilIffZero(mem, u.left, mem[u.x].left, Node(u.x), i);
    NilIffZero(mem, u.right, mem[u.x].right, Node(u.x), i);
    assert LastLeaf(u) == if u.right.Fork? then LastLeaf(u.right) else if u.left.Fork? then LastLeaf(u.left) else u;
  }

  /** Taking the ring apart leaves the rest of memory as it was. */
  lemma DetachRing(mem: Store, c: Tree, link: Link, i: nat)
    requires c.Fork? && Rep(mem, c, c.x, link, i) && Distinct(c) && c.ring != []
    ensures c.x in mem && mem[c.x].fd in mem && mem[c.x].bk in mem
    ensures RemoveHere(c, c.x).Fork? && mem[c.x].bk == RemoveHere(c, c.x).x
    ensures Detached(mem, Unchain(mem, c.x), c, i)
  {
    ReadyRing(mem, c, c.x, link, i);
    var k := [c.x] + c.ring;
    RingPrev(mem, k, 0);
    assert mem[c.x].fd in k && mem[c.x].bk in k;
    assert {c.x} + Members(c.ring) <= Addrs(c);
    hide Unchain, Ready, Ring, Rep, Distinct;
    forall y | y in mem && y !in Addrs(c) ensures Unchain(mem, c.x)[y] == mem[y] {
      UnchainWrites(mem, c.x, y);
    }
  }

  lemma DetachLeaf(mem: Store, c: Tree, link: Link, i: nat)
    requires c.Fork? && Rep(mem, c, c.x, link, i) && Distinct(c)
    requires c.ring == [] && !IsLeaf(c)
    ensures LastAt(c) in mem && RemoveHere(c, c.x) .Fork? && LastLeaf(c).x == RemoveHere(c, c.x).x
    ensures Detached(mem, Cut(mem, LastAt(c), LastSide(c)), c, i)
  {
    ReadyLeaf(mem, c, c.x, link, i);
    LastIn(c);
    hide Ready, Rep, Distinct, Addrs;
  }

  lemma DetachNone(mem: Store, c: Tree, i: nat)
    requires IsLeaf(c) && c.ring == []
    ensures RemoveHere(c, c.x).Nil? && Detached(mem, mem, c, i)
  {
  }

  /** A chunk is alone in its ring exactly when its bk link is itself. */
  lemma Alone(mem: Store, c: Tree, link: Link, i: nat, x: nat)
    requires c.Fork? && Rep(mem, c, c.x, link, i) && Distinct(c) && (x == c.x || x in c.ring)
    ensures x in mem && mem[x].index == i && mem[x].fd in mem
    ensures mem[x].bk in mem && (mem[x].bk == x <==> c.ring == [])
    ensures mem[x].parent == if x == c.x then link else Null
  {
    var k := [c.x] + c.ring;
    ConsNoDup(c.x, c.ring);
    assert x in k;
    var j :| 0 <= j < |k| && k[j] == x;
    RingPrev(mem, k, j);
    assert x in c.ring ==> Chained(mem, x, c.size, i);
  }

  lemma RootZero(c: Tree, x: nat)
    requires c.Fork?
    ensures RootOf(RemoveHere(c, x)) == if RemoveHere(c, x).Nil? then 0 else RemoveHere(c, x).x
  {
  }

  lemma GoneShape(mem: Store, bins: seq<nat>, treemap: BinMap, trees: seq<Tree>, contents: map<nat, nat>, x: nat)
    requires x in contents && Gone(mem, bins, treemap, trees, contents, x)
    ensures |trees| == BINS && Index(contents[x]) < BINS
    ensures var s := contents[x]; var i := Index(s);
      var trees' := trees[i := Remove(trees[i], x, s, Base(i), Bits(i))];
      Shape(mem, bins, treemap, trees') && Holding(trees', contents - {x})
  {
    hide Shape, Holding, Remove, Base, Bits, Index;
  }

  lemma LocatedFacts(mem: Store, bins: seq<nat>, tree: Tree, i: nat, x: nat, s: nat, c: Tree, q: nat, right: bool)
    requires Located(mem, bins, tree, i, x, s, c, q, right)
    ensures |bins| == BINS && i < BINS && tree.Fork?
    ensures c.Fork? && (x == c.x || x in c.ring) && Distinct(c)
    ensures var link := if tree.size == s then BinSlot(i) else Node(q);
      && Rep(mem, c, c.x, link, i) && x in mem && mem[x].index == i && mem[x].fd in mem && mem[x].bk in mem
      && mem[x].parent == if x == c.x then link else Null
    ensures x == c.x ==> (x == bins[i] <==> tree.size == s)
  {
    hide Found, Above, AboveSide, Distinct, Rep, Base, Bits;
    Alone(mem, c, if tree.size == s then BinSlot(i) else Node(q), i, x);
  }

  class Bins {
    var mem: Store
    var bins: seq<nat>
    var treemap: BinMap
    ghost var trees: seq<Tree>
    ghost var contents: map<nat, nat>   // address to size

    ghost predicate Valid()
      reads this
    {
      Shape(mem, bins, treemap, trees) && Holding(trees, contents)
    }

    constructor ()
      ensures Valid() && contents == map[]
    {
      mem, bins, treemap := map[], seq(BINS, _ => 0), seq(32, _ => false);
      trees, contents := seq(BINS, _ => Nil), map[];
    }

    /** Walks down the bits of `s` to the node of that size or the last one on its path. */
    method FindSpot(s: nat, i: nat) returns (t: nat, right: bool)
      requires Valid() && MIN_LARGE <= s < LIMIT && i == Index(s) < BINS && treemap[i]
      ensures Arrived(trees[i], i, s, t, right)
    {
      hide Arrived, Walking, Holding, Bin, Shl, TopBit, LeftShift, Index, Base, Bits, Pow2;
      WalkStart(mem, bins, treemap, trees, i, s);
      t := bins[i];
      var w := Shl(s, LeftShift(i));
      ghost var tree, u: Tree, lo: nat, k: nat, link: Link := trees[i], trees[i], Base(i), Bits(i), BinSlot(i);
      hide *;
      WalkStep(mem, tree, i, s, u, lo, k, link, t, w);
      while mem[t].size != s
        invariant Walking(mem, tree, i, s, u, lo, k, link, t, w) && t in mem
        invariant (mem[t].size == s ==> Arrived(tree, i, s, t, false))
        decreases u
      {
        WalkStep(mem, tree, i, s, u, lo, k, link, t, w);
        right := TopBit(w);
        var c := if right then mem[t].right else mem[t].left;
        w := Shl(w, 1);
        if c == 0 { return; }
        u, lo, k, link := if right then u.right else u.left, if right then lo + Pow2(k - 1) else lo, k - 1, Node(t);
        t := c;
        WalkStep(mem, tree, i, s, u, lo, k, link, t, w);
      }
      right := false;
    }

    /** insert_large_chunk. */
    method Insert(x: nat, s: nat)
      requires Valid() && x != 0 && x !in contents && MIN_LARGE <= s < LIMIT
      modifies this
      ensures Valid() && contents == old(contents)[x := s]
    {
      var i := Index(s);
      LeadingStart(s, i);
      ghost var tree := Tries.Insert(trees[i], x, s, Base(i), Bits(i));
      if !treemap[i] {
        InsertFirst(mem, bins, treemap, trees, contents, x, s);
        hide *;
        treemap := Or(treemap, IdxToBit(i));
        bins := bins[i := x];
        mem := Prepared(mem, x, s, i);
      } else {
        var t, right := FindSpot(s, i);
        InsertFurther(mem, bins, treemap, trees, contents, x, s, t, right);
        hide *;
        mem := Prepared(mem, x, s, i);
        if mem[t].size != s {
          mem := Hang(mem, t, right, x);
        } else {
          mem := Chain(mem, t, x);
        }
      }
      trees, contents := trees[i := tree], contents[x := s];
      assert Valid();
    }

    /** From the first child down to a leaf, right where possible; `c` is the node the search is below. */
    method LastBelow(ghost c: Tree, ghost i: nat, ghost u0: Tree, r0: nat, rp0: nat, right0: bool)
      returns (r: nat, rp: nat, right: bool)
      requires Sinking(mem, c, i, u0, r0, rp0, right0)
      ensures c.Fork? && !IsLeaf(c) && r == LastLeaf(c).x
      ensures rp == LastAt(c) && right == LastSide(c)
    {
      r, rp, right := r0, rp0, right0;
      ghost var u := u0;
      hide Sinking;
      SinkStep(mem, c, i, u, r, rp, right);
      while mem[r].right != 0 || mem[r].left != 0
        invariant u.Fork? && r in mem && Sinking(mem, c, i, u, r, rp, right)
        decreases u
      {
        SinkStep(mem, c, i, u, r, rp, right);
        rp := r;
        if mem[r].right != 0 {
          right, r, u := true, mem[r].right, u.right;
        } else {
          right, r, u := false, mem[r].left, u.left;
        }
        SinkStep(mem, c, i, u, r, rp, right);
      }
      SinkStep(mem, c, i, u, r, rp, right);
    }

    /** Steps 1 and 2: takes the chunk out of its ring, or takes a leaf from below it. */
    method Detach(x: nat, ghost c: Tree, ghost link: Link, ghost i: nat) returns (r: nat)
      requires c.Fork? && (x == c.x || x in c.ring) && Rep(mem, c, c.x, link, i) && Distinct(c)
      requires x in mem && mem[x].fd in mem && mem[x].bk in mem
      modifies `mem
      ensures x == c.x ==> Detached(old(mem), mem, c, i) && r == RootOf(RemoveHere(c, x))
      ensures x != c.x ==> mem == Unchain(old(mem), x)
      ensures x in mem && mem[x].index == old(mem[x].index)
    {
      hide Detached, Rep, Sinking, Distinct, RemoveHere, LastLeaf, LastAt, LastSide, Unchain;
      Alone(mem, c, link, i, x);
      SinkStart(mem, c, i, link);
      if mem[x].bk != x {
        if x == c.x { DetachRing(mem, c, link, i); }
        UnchainWrites(mem, x, x);
        r := mem[x].bk;
        mem := Unchain(mem, x);
      } else {
        var rp, right := x, true;
        r := mem[x].right;
        if r == 0 { r, right := mem[x].left, false; }
        if r != 0 {
          r, rp, right := LastBelow(c, i, if right then c.right else c.left, r, rp, right);
          DetachLeaf(mem, c, link, i);
          mem := Cut(mem, rp, right);
        } else {
          DetachNone(mem, c, i);
        }
      }
    }

    /** Step 3 for a tree chunk: its replacement takes over parent and children. */
    method Relink(x: nat, r: nat, parent: Link, ghost mem0: Store, ghost c: Tree, ghost q: nat, ghost side: bool)
      requires Shape(mem0, bins, treemap, trees) && Holding(trees, contents) && |trees| == BINS
      requires x in contents && Index(contents[x]) < BINS
      requires Located(mem0, bins, trees[Index(contents[x])], Index(contents[x]), x, contents[x], c, q, side)
      requires Holds(trees[Index(contents[x])], x, contents[x]) && treemap[Index(contents[x])]
      requires x == c.x && Detached(mem0, mem, c, Index(contents[x])) && r == RootOf(RemoveHere(c, x))
      requires x in mem && mem[x].index == Index(contents[x]) && parent == mem0[x].parent
      modifies `mem, `bins, `treemap
      ensures Gone(mem, bins, treemap, trees, contents, x)
    {
      hide *;
      LocatedFacts(mem0, bins, trees[Index(contents[x])], Index(contents[x]), x, contents[x], c, q, side);
      RootZero(c, x);
      var i := mem[x].index;
      if x == bins[i] {
        UnlinkRoot(mem0, mem, bins, treemap, trees, contents, x, c, q, side);
        bins := bins[i := r];
        if r == 0 { treemap := And(treemap, Not(IdxToBit(i))); }
      } else {
        UnlinkInner(mem0, mem, bins, treemap, trees, contents, x, c, q, side);
        mem := SetChild(mem, parent.at, x, r);
      }
      if r != 0 {
        mem := Adopt(mem, x, r, parent);
      }
    }

    /** unlink_large_chunk. */
    method Unlink(x: nat)
      requires Valid() && x in contents
      modifies this
      ensures Valid() && contents == old(contents) - {x}
    {
      assert Shape(mem, bins, treemap, trees) && Holding(trees, contents);
      hide *;
      ghost var c, q, side := Locate(mem, bins, treemap, trees, contents, x);
      ghost var s := contents[x];
      ghost var bin := Index(s);
      LocatedFacts(mem, bins, trees[bin], bin, x, s, c, q, side);
      if x != c.x { UnlinkChained(mem, bins, treemap, trees, contents, x, c, q, side); }
      ghost var mem0 := mem;
      var parent := mem[x].parent;
      var r := Detach(x, c, if trees[bin].size == s then BinSlot(bin) else Node(q), bin);
      if parent != Null {
        Relink(x, r, parent, mem0, c, q, side);
      }
      GoneShape(mem, bins, treemap, trees, contents, x);
      trees, contents := trees[bin := Remove(trees[bin], x, s, Base(bin), Bits(bin))], contents - {x};
      assert Valid();
    }
  }
}
