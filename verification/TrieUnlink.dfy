/** The pointer writes of unlink_large_chunk (userspace/libc/malloc.c:3724-3793). */
module TrieUnlink {
  import opened Sequences
  import opened TreeIndex
  import opened Tries
  import opened TrieStore

  // ---- step 1: out of the ring ------------------------------------------------------------------

  function Unchain(m: Store, x: nat): (m': Store)
    requires x in m && m[x].fd in m && m[x].bk in m
    ensures m'.Keys == m.Keys
  {
    var f, r := m[x].fd, m[x].bk;
    var m1 := m[f := m[f].(bk := r)];
    m1[r := m1[r].(fd := f)]
  }

  /** Only the two neighbours change, and only their links. */
  lemma UnchainWrites(m: Store, x: nat, y: nat)
    requires x in m && m[x].fd in m && m[x].bk in m && y in m
    ensures var m' := Unchain(m, x);
      && m'[y] == m[y].(fd := m'[y].fd, bk := m'[y].bk)
      && (y != m[x].fd && y != m[x].bk ==> m'[y] == m[y])
      && m'[y].fd == (if y == m[x].bk then m[x].fd else m[y].fd)
      && m'[y].bk == (if y == m[x].fd then m[x].bk else m[y].bk)
  {
  }

  function Prev(c: seq<nat>, j: nat): nat
    requires j < |c|
  {
    if j == 0 then c[|c| - 1] else c[j - 1]
  }

  lemma RingPrev(m: Store, c: seq<nat>, j: nat)
    requires Ring(m, c) && j < |c|
    ensures c[j] in m && m[c[j]].fd == Next(c, j) && m[c[j]].bk == Prev(c, j)
    ensures Next(c, j) in m && Prev(c, j) in m
  {
    if j == 0 {
      assert Next(c, |c| - 1) == c[0];
    } else {
      assert Next(c, j - 1) == c[j];
    }
  }

  /** Cutting a later member out of a ring. */
  lemma {:induction false} UnchainLater(m: Store, c: seq<nat>, i: nat)
    requires Ring(m, c) && NoDup(c) && 0 < i < |c|
    ensures m[c[i]].fd in m && m[c[i]].bk in m && Ring(Unchain(m, c[i]), c[..i] + c[i + 1..])
  {
    RingPrev(m, c, i);
    var m', d := Unchain(m, c[i]), c[..i] + c[i + 1..];
    forall j | 0 <= j < |d| ensures d[j] in m' && Next(d, j) in m' && m'[d[j]].fd == Next(d, j) &&
        m'[Next(d, j)].bk == d[j] {
      UnchainOne(m, c, i, j);
    }
  }

  lemma {:induction false} UnchainOne(m: Store, c: seq<nat>, i: nat, j: nat)
    requires Ring(m, c) && NoDup(c) && 0 < i < |c|
    requires j < |c| - 1 && m[c[i]].fd in m && m[c[i]].bk in m
    ensures var m', d := Unchain(m, c[i]), c[..i] + c[i + 1..];
      d[j] in m' && Next(d, j) in m' && m'[d[j]].fd == Next(d, j) && m'[Next(d, j)].bk == d[j]
  {
    hide Unchain;
    var d, o := c[..i] + c[i + 1..], if j < i then j else j + 1;
    RingPrev(m, c, i);
    assert d[j] == c[o];
    RingPrev(m, c, o);
    UnchainWrites(m, c[i], d[j]);
    assert Next(d, j) == if o == i - 1 then Next(c, i) else Next(c, o);
    UnchainWrites(m, c[i], Next(d, j));
    if o == i - 1 { } else { assert Next(c, o) != Next(c, i); }
  }

  /** Cutting the first member out of a ring of several: the last takes its place in front. */
  lemma {:induction false} UnchainFirst(m: Store, c: seq<nat>)
    requires Ring(m, c) && NoDup(c) && |c| >= 2
    ensures m[c[0]].fd in m && m[c[0]].bk == c[|c| - 1] && c[|c| - 1] in m
    ensures Ring(Unchain(m, c[0]), [c[|c| - 1]] + c[1..|c| - 1])
  {
    RingPrev(m, c, 0);
    var n := |c| - 1;
    var m', d := Unchain(m, c[0]), [c[n]] + c[1..n];
    hide Unchain;
    forall j | 0 <= j < |d| ensures d[j] in m' && Next(d, j) in m' && m'[d[j]].fd == Next(d, j) &&
        m'[Next(d, j)].bk == d[j] {
      var o := if j == 0 then n else j;
      assert d[j] == c[o];
      RingPrev(m, c, o);
      UnchainWrites(m, c[0], d[j]);
      assert d[0] == c[n] && (j < n - 1 ==> d[j + 1] == c[j + 1]);
      assert Next(d, j) == if j == n - 1 then c[n] else c[j + 1];
      UnchainWrites(m, c[0], Next(d, j));
    }
  }

  lemma SeqCut(y: nat, s: seq<nat>, k: nat)
    requires k < |s|
    ensures ([y] + s)[..k + 1] + ([y] + s)[k + 2..] == [y] + (s[..k] + s[k + 1..])
  {
  }

  lemma ConsNoDup(y: nat, s: seq<nat>)
    requires y !in s && NoDup(s)
    ensures NoDup([y] + s)
  {
    var c := [y] + s;
    forall i, j | 0 <= i < j < |c| ensures c[i] != c[j] { assert c[j] == s[j - 1]; }
  }

  lemma {:induction false} UnchainRing(m: Store, y: nat, ring: seq<nat>, x: nat)
    requires Ring(m, [y] + ring) && y !in ring && NoDup(ring) && x in ring
    ensures x in m && m[x].fd in m && m[x].bk in m && {m[x].fd, m[x].bk} <= {y} + Members(ring)
    ensures Ring(Unchain(m, x), [y] + Without(ring, x))
  {
    var c, i := [y] + ring, IndexOf(ring, x) + 1;
    ConsNoDup(y, ring);
    SeqCut(y, ring, IndexOf(ring, x));
    hide Ring, Unchain, NoDup, IndexOf;
    assert c[i] == x;
    RingPrev(m, c, i);
    assert m[x].fd in c && m[x].bk in c;
    UnchainLater(m, c, i);
  }

  lemma {:induction false} UnchainHere(m: Store, t: Tree, p: nat, parent: Link, bin: nat, x: nat)
    requires t.Fork? && Rep(m, t, p, parent, bin) && Distinct(t) && x in t.ring
    ensures x in m && m[x].fd in m && m[x].bk in m && {m[x].fd, m[x].bk} <= {t.x} + Members(t.ring)
    ensures Rep(Unchain(m, x), t.(ring := Without(t.ring, x)), p, parent, bin)
  {
    UnchainRing(m, t.x, t.ring, x);
    UnchainKids(m, t, p, parent, bin, x);
    WithoutFacts(t.ring, x);
    var m' := Unchain(m, x);
    hide Unchain, Addrs, Ring, Without;
    UnchainWrites(m, x, t.x);
    forall y | y in Without(t.ring, x) ensures Chained(m', y, t.size, bin) {
      UnchainWrites(m, x, y);
    }
  }

  /** The subtrees of a node do not notice a change in its ring. */
  lemma {:induction false} UnchainKids(m: Store, t: Tree, p: nat, parent: Link, bin: nat, x: nat)
    requires t.Fork? && Rep(m, t, p, parent, bin) && Distinct(t) && x in m
    requires m[x].fd in m && m[x].bk in m && {m[x].fd, m[x].bk} <= {t.x} + Members(t.ring)
    ensures Rep(Unchain(m, x), t.left, m[t.x].left, Node(t.x), bin)
    ensures Rep(Unchain(m, x), t.right, m[t.x].right, Node(t.x), bin)
  {
    var m' := Unchain(m, x);
    hide Unchain, Addrs, Ring;
    forall y | y in Addrs(t.left) + Addrs(t.right) && y in m ensures y in m' && m'[y] == m[y] {
      UnchainWrites(m, x, y);
    }
    RepFrame(m, m', t.left, m[t.x].left, Node(t.x), bin);
    RepFrame(m, m', t.right, m[t.x].right, Node(t.x), bin);
  }

  // ---- step 3: the replacement takes over parent and children -------------------------------------

  /** `r` gets the parent and the children of `x`. */
  function Adopt(m: Store, x: nat, r: nat, parent: Link): (m': Store)
    requires x in m && r in m && (m[x].left != 0 ==> m[x].left in m) && (m[x].right != 0 ==> m[x].right in m)
    ensures m'.Keys == m.Keys
  {
    var m1 := m[r := m[r].(parent := parent)];
    var c0 := m[x].left;
    var m2 := if c0 == 0 then m1 else var n := m1[r := m1[r].(left := c0)]; n[c0 := n[c0].(parent := Node(r))];
    var c1 := m[x].right;
    if c1 == 0 then m2 else var n := m2[r := m2[r].(right := c1)]; n[c1 := n[c1].(parent := Node(r))]
  }

  lemma AdoptWrites(m: Store, x: nat, r: nat, parent: Link, y: nat)
    requires x in m && r in m && y in m
    requires (m[x].left != 0 ==> m[x].left in m) && (m[x].right != 0 ==> m[x].right in m)
    requires r != m[x].left && r != m[x].right && (m[x].left == 0 || m[x].left != m[x].right)
    ensures var m' := Adopt(m, x, r, parent);
      m'[y] == if y == r then m[r].(parent := parent,
                                    left := if m[x].left == 0 then m[r].left else m[x].left,
                                    right := if m[x].right == 0 then m[r].right else m[x].right)
               else if y != 0 && (y == m[x].left || y == m[x].right) then m[y].(parent := Node(r))
               else m[y]
  {
  }

  /** A node in waiting: the chunk `r` with its ring, no children. */
  ghost predicate Spare(m: Store, r: nat, size: nat, ring: seq<nat>, bin: nat) {
    && r != 0 && r in m && m[r].size == size && m[r].index == bin && m[r].left == 0 && m[r].right == 0
    && Ring(m, [r] + ring) && (forall y :: y in ring ==> Chained(m, y, size, bin))
  }

  lemma {:induction false} AdoptRep(m: Store, x: nat, l: Tree, r: Tree, leaf: Tree, parent: Link, bin: nat)
    requires x in m && Rep(m, l, m[x].left, Node(x), bin) && Rep(m, r, m[x].right, Node(x), bin)
    requires leaf.Fork? && Spare(m, leaf.x, leaf.size, leaf.ring, bin) && leaf.x !in leaf.ring
    requires Distinct(l) && Distinct(r) && Addrs(l) !! Addrs(r)
    requires ({leaf.x} + Members(leaf.ring)) !! (Addrs(l) + Addrs(r))
    ensures m[x].left != 0 ==> m[x].left in m
    ensures m[x].right != 0 ==> m[x].right in m
    ensures Rep(Adopt(m, x, leaf.x, parent), Fork(leaf.x, leaf.size, leaf.ring, l, r), leaf.x, parent, bin)
  {
    RepIn(m, l, m[x].left, Node(x), bin);
    RepIn(m, r, m[x].right, Node(x), bin);
    var m', y := Adopt(m, x, leaf.x, parent), leaf.x;
    assert l.Fork? ==> l.x in Addrs(l);
    assert r.Fork? ==> r.x in Addrs(r);
    hide Adopt, Addrs;
    AdoptWrites(m, x, y, parent, y);
    var c := [y] + leaf.ring;
    forall z | z in leaf.ring ensures z in m' && m'[z] == m[z] {
      AdoptWrites(m, x, y, parent, z);
    }
    forall j | 0 <= j < |c| ensures c[j] in m' && m'[c[j]].fd == m[c[j]].fd && m'[c[j]].bk == m[c[j]].bk {
      assert c[j] == y || c[j] in leaf.ring;
    }
    assert Ring(m', c);
    AdoptKid(m, x, l, m[x].left, leaf, parent, bin, m');
    AdoptKid(m, x, r, m[x].right, leaf, parent, bin, m');
  }

  lemma {:induction false} AdoptKid(m: Store, x: nat, t: Tree, p: nat, leaf: Tree, parent: Link, bin: nat, m': Store)
    requires x in m && leaf.Fork? && leaf.x in m
    requires (m[x].left != 0 ==> m[x].left in m) && (m[x].right != 0 ==> m[x].right in m)
    requires leaf.x != m[x].left && leaf.x != m[x].right && (m[x].left == 0 || m[x].left != m[x].right)
    requires m' == Adopt(m, x, leaf.x, parent) && (p == m[x].left || p == m[x].right)
    requires Rep(m, t, p, Node(x), bin) && Distinct(t) && leaf.x !in Addrs(t)
    requires forall y :: y in Addrs(t) && y != p ==> y != m[x].left && y != m[x].right
    ensures Rep(m', t, p, Node(leaf.x), bin)
  {
    RepIn(m, t, p, Node(x), bin);
    if t.Fork? {
      assert t.x in Addrs(t);
      hide Adopt, Addrs, Ring;
      forall y | y in Addrs(t) ensures y in m' && m'[y] == if y == p then m[y].(parent := Node(leaf.x)) else m[y] {
        AdoptWrites(m, x, leaf.x, parent, y);
      }
      RepReparent(m, m', t, p, Node(x), Node(leaf.x), bin);
    }
  }

  // ---- step 2: a leaf to replace an inner node ----------------------------------------------------

  /** The node that holds the pointer to the last leaf, and the side it is on. */
  function LastAt(t: Tree): nat
    requires t.Fork? && !IsLeaf(t)
  {
    var c := if t.right.Fork? then t.right else t.left;
    if IsLeaf(c) then t.x else LastAt(c)
  }

  predicate LastSide(t: Tree)
    requires t.Fork? && !IsLeaf(t)
  {
    var c := if t.right.Fork? then t.right else t.left;
    if IsLeaf(c) then t.right.Fork? else LastSide(c)
  }

  /** `*RP = 0`. */
  function Cut(m: Store, q: nat, right: bool): (m': Store)
    requires q in m
    ensures m'.Keys == m.Keys
  {
    if right then m[q := m[q].(right := 0)] else m[q := m[q].(left := 0)]
  }

  lemma {:induction false} LastIn(t: Tree)
    requires t.Fork? && !IsLeaf(t)
    ensures LastAt(t) in Addrs(t)
  {
    var c := if t.right.Fork? then t.right else t.left;
    if !IsLeaf(c) { LastIn(c); }
  }

  lemma {:induction false} CutRep(m: Store, t: Tree, p: nat, parent: Link, bin: nat)
    requires t.Fork? && !IsLeaf(t) && Rep(m, t, p, parent, bin) && Distinct(t)
    ensures LastAt(t) in m
    ensures Rep(Cut(m, LastAt(t), LastSide(t)), DropLast(t), p, parent, bin)
    ensures var leaf := LastLeaf(t); Spare(Cut(m, LastAt(t), LastSide(t)), leaf.x, leaf.size, leaf.ring, bin)
  {
    RepIn(m, t, p, parent, bin);
    LastIn(t);
    var q, side := LastAt(t), LastSide(t);
    var m' := Cut(m, q, side);
    var right := t.right.Fork?;
    var c, cp := if right then t.right else t.left, if right then m[t.x].right else m[t.x].left;
    if IsLeaf(c) {
      CutHere(m, t, p, parent, bin, right);
    } else {
      CutRep(m, c, cp, Node(t.x), bin);
      LastIn(c);
      CutBelow(m, t, p, parent, bin, right, m', q);
    }
  }

  lemma {:induction false} CutHere(m: Store, t: Tree, p: nat, parent: Link, bin: nat, right: bool)
    requires t.Fork? && Rep(m, t, p, parent, bin) && Distinct(t) && IsLeaf(if right then t.right else t.left)
    ensures var m', c := Cut(m, t.x, right), if right then t.right else t.left;
      && Rep(m', if right then t.(right := Nil) else t.(left := Nil), p, parent, bin)
      && Spare(m', c.x, c.size, c.ring, bin)
  {
    var m' := Cut(m, t.x, right);
    var k := [t.x] + t.ring;
    forall j | 0 <= j < |k| ensures k[j] in m' && m'[k[j]].fd == m[k[j]].fd && m'[k[j]].bk == m[k[j]].bk {
      assert k[j] == t.x || k[j] in t.ring;
    }
    assert Ring(m', k);
    RepFrame(m, m', t.left, m[t.x].left, Node(t.x), bin);
    RepFrame(m, m', t.right, m[t.x].right, Node(t.x), bin);
  }

  lemma {:induction false} CutBelow(m: Store, t: Tree, p: nat, parent: Link, bin: nat, right: bool, m': Store, q: nat)
    requires t.Fork? && Rep(m, t, p, parent, bin) && Distinct(t) && q in m
    requires q in Addrs(if right then t.right else t.left) && (m' == Cut(m, q, true) || m' == Cut(m, q, false))
    ensures t.x in m' && m'[t.x] == m[t.x] && Ring(m', [t.x] + t.ring)
    ensures forall y :: y in t.ring ==> Chained(m', y, t.size, bin)
    ensures if right then Rep(m', t.left, m[t.x].left, Node(t.x), bin)
      else Rep(m', t.right, m[t.x].right, Node(t.x), bin)
  {
    var other := if right then t.left else t.right;
    RingFrame(m, m', [t.x] + t.ring);
    RepFrame(m, m', other, if right then m[t.x].left else m[t.x].right, Node(t.x), bin);
  }

  // ---- the whole unlink at a node -----------------------------------------------------------------

  function RootOf(t: Tree): nat {
    if t.Nil? then 0 else t.x
  }

  /** What is left of node `c` when its chunk `c.x` goes: the replacement and the two subtrees. */
  ghost predicate Ready(m: Store, c: Tree, bin: nat)
    requires c.Fork?
  {
    var d := RemoveHere(c, c.x);
    && d.Fork? && c.x in m && Spare(m, d.x, d.size, d.ring, bin)
    && Rep(m, d.left, m[c.x].left, Node(c.x), bin) && Rep(m, d.right, m[c.x].right, Node(c.x), bin)
  }

  lemma {:induction false} ReadyRing(m: Store, c: Tree, p: nat, parent: Link, bin: nat)
    requires c.Fork? && Rep(m, c, p, parent, bin) && Distinct(c) && c.ring != []
    ensures m[c.x].fd in m && m[c.x].bk == c.ring[|c.ring| - 1] && m[c.x].bk in m
    ensures Ready(Unchain(m, c.x), c, bin)
  {
    var k, n := [c.x] + c.ring, |c.ring| - 1;
    ConsNoDup(c.x, c.ring);
    UnchainFirst(m, k);
    RingPrev(m, k, 0);
    assert k[|k| - 1] == c.ring[n] && k[1..|k| - 1] == c.ring[..n];
    var m' := Unchain(m, c.x);
    UnchainKids(m, c, p, parent, bin, c.x);
    hide Unchain, Ring, Rep, NoDup, Addrs;
    UnchainWrites(m, c.x, c.x);
    assert Chained(m, c.ring[n], c.size, bin);
    UnchainWrites(m, c.x, c.ring[n]);
    forall y | y in c.ring[..n] ensures Chained(m', y, c.size, bin) {
      assert y in c.ring;
      UnchainWrites(m, c.x, y);
    }
    assert RemoveHere(c, c.x) == Fork(c.ring[n], c.size, c.ring[..n], c.left, c.right);
  }

  lemma {:induction false} ReadyLeaf(m: Store, c: Tree, p: nat, parent: Link, bin: nat)
    requires c.Fork? && Rep(m, c, p, parent, bin) && Distinct(c)
    requires c.ring == [] && !IsLeaf(c)
    ensures LastAt(c) in m && Ready(Cut(m, LastAt(c), LastSide(c)), c, bin)
  {
    CutRep(m, c, p, parent, bin);
  }

  /** The addresses of what is left are addresses of the node. */
  lemma {:induction false} RestIn(c: Tree)
    requires c.Fork? && Distinct(c) && RemoveHere(c, c.x).Fork?
    ensures var d := RemoveHere(c, c.x);
      Distinct(d) && Addrs(d) <= Addrs(c) && {d.x} + Members(d.ring) + Addrs(d.left) + Addrs(d.right) == Addrs(d)
  {
    RemoveHereDistinct(c, c.x);
  }

  lemma {:induction false} ReadyFrame(m: Store, m': Store, c: Tree, bin: nat)
    requires c.Fork? && Distinct(c) && Ready(m, c, bin) && Agree(m, m', Addrs(c))
    ensures Ready(m', c, bin)
  {
    var d := RemoveHere(c, c.x);
    RestIn(c);
    assert c.x in Addrs(c);
    hide RemoveHere, Addrs;
    RingFrame(m, m', [d.x] + d.ring);
    RepFrame(m, m', d.left, m[c.x].left, Node(c.x), bin);
    RepFrame(m, m', d.right, m[c.x].right, Node(c.x), bin);
  }

  /** Step 3 completes the node. */
  lemma {:induction false} ReadyAdopt(m: Store, c: Tree, parent: Link, bin: nat)
    requires c.Fork? && Distinct(c) && Ready(m, c, bin)
    ensures m[c.x].left != 0 ==> m[c.x].left in m
    ensures m[c.x].right != 0 ==> m[c.x].right in m
    ensures var d := RemoveHere(c, c.x); Rep(Adopt(m, c.x, d.x, parent), d, d.x, parent, bin)
    ensures var d := RemoveHere(c, c.x); forall y :: y in m && y !in Addrs(c) ==> Adopt(m, c.x, d.x, parent)[y] == m[y]
  {
    var d := RemoveHere(c, c.x);
    RestIn(c);
    hide RemoveHere, Adopt;
    AdoptRep(m, c.x, d.left, d.right, d, parent, bin);
    assert d == Fork(d.x, d.size, d.ring, d.left, d.right);
    RepIn(m, d.left, m[c.x].left, Node(c.x), bin);
    RepIn(m, d.right, m[c.x].right, Node(c.x), bin);
    forall y | y in m && y !in Addrs(c) ensures Adopt(m, c.x, d.x, parent)[y] == m[y] {
      AdoptWrites(m, c.x, d.x, parent, y);
    }
  }

  // ---- the node of a size, and its parent ---------------------------------------------------------

  /** The node of size `s` in a trie that has one. */
  function Found(t: Tree, s: nat, lo: nat, k: nat): Tree {
    if t.Nil? || t.size == s || k == 0 then t
    else if s < lo + Pow2(k - 1) then Found(t.left, s, lo, k - 1)
    else Found(t.right, s, lo + Pow2(k - 1), k - 1)
  }

  /** The chunk above it, and the side it hangs on. */
  function Above(t: Tree, s: nat, lo: nat, k: nat): nat
    requires t.Fork?
  {
    if k == 0 then t.x
    else if s < lo + Pow2(k - 1) then (if t.left.Fork? && t.left.size != s then Above(t.left, s, lo, k - 1) else t.x)
    else (if t.right.Fork? && t.right.size != s then Above(t.right, s, lo + Pow2(k - 1), k - 1) else t.x)
  }

  predicate AboveSide(t: Tree, s: nat, lo: nat, k: nat)
    requires t.Fork?
  {
    if k == 0 then false
    else if s < lo + Pow2(k - 1) then t.left.Fork? && t.left.size != s && AboveSide(t.left, s, lo, k - 1)
    else !(t.right.Fork? && t.right.size != s) || AboveSide(t.right, s, lo + Pow2(k - 1), k - 1)
  }

  /** How memory shows the node below the root that holds a chunk. */
  lemma {:induction false} FoundBelow(m: Store, t: Tree, p: nat, parent: Link, bin: nat, x: nat, s: nat, lo: nat,
                                      k: nat)
    requires Rep(m, t, p, parent, bin) && Trie(t, lo, k) && Distinct(t)
    requires Holds(t, x, s) && t.size != s
    ensures var c, q := Found(t, s, lo, k), Above(t, s, lo, k);
      && c.Fork? && c.size == s && (x == c.x || x in c.ring) && Distinct(c) && Addrs(c) <= Addrs(t) && t.x !in Addrs(c)
      && q in Addrs(t) && q !in Addrs(c) && q in m && Rep(m, c, c.x, Node(q), bin)
      && (if AboveSide(t, s, lo, k) then m[q].right == c.x && m[q].left != c.x
           else m[q].left == c.x && m[q].right != c.x)
  {
    HereOrBelow(t, x, s, lo, k);
    RepIn(m, t, p, parent, bin);
    var right := s >= lo + Pow2(k - 1);
    var u, base := if right then t.right else t.left, if right then lo + Pow2(k - 1) else lo;
    assert t.left.Fork? ==> t.left.x in Addrs(t.left);
    assert t.right.Fork? ==> t.right.x in Addrs(t.right);
    if u.size == s {
      HereOrBelow(u, x, s, base, k - 1);
    } else {
      FoundBelow(m, u, if right then m[t.x].right else m[t.x].left, Node(t.x), bin, x, s, base, k - 1);
    }
  }

  /** Swapping one subtree of a node, with the pointer to it. */
  lemma {:induction false} SwapChild(m: Store, m': Store, t: Tree, p: nat, parent: Link, bin: nat, right: bool, d: Tree)
    requires t.Fork? && Rep(m, t, p, parent, bin) && Distinct(t)
    requires Rep(m', d, RootOf(d), Node(t.x), bin)
    requires Agree(m, m', Addrs(t) - Addrs(if right then t.right else t.left) - {t.x})
    requires t.x in m' && m'[t.x] == if right then m[t.x].(right := RootOf(d)) else m[t.x].(left := RootOf(d))
    ensures Rep(m', if right then t.(right := d) else t.(left := d), p, parent, bin)
  {
    var c := [t.x] + t.ring;
    forall j | 0 <= j < |c| ensures c[j] in m' && m'[c[j]].fd == m[c[j]].fd && m'[c[j]].bk == m[c[j]].bk {
      assert c[j] == t.x || c[j] in t.ring;
    }
    assert Ring(m', c);
    RepFrame(m, m', if right then t.left else t.right, if right then m[t.x].left else m[t.x].right, Node(t.x), bin);
  }

  /** Memory `m'` is `m` with the subtree `c` below chunk `q` swapped for `d`. */
  ghost predicate Swapped(m: Store, m': Store, a: set<nat>, c: Tree, q: nat, right: bool, d: Tree, bin: nat) {
    && Rep(m', d, RootOf(d), Node(q), bin) && Agree(m, m', a - Addrs(c) - {q}) && q in m && q in m'
    && m'[q] == if right then m[q].(right := RootOf(d)) else m[q].(left := RootOf(d))
  }

  /** One step down the path of `s`. */
  lemma StepDown(t: Tree, x: nat, s: nat, lo: nat, k: nat)
    requires Trie(t, lo, k) && Holds(t, x, s) && t.size != s
    ensures k > 0 && t.Fork?
    ensures var right := s >= lo + Pow2(k - 1);
      var u, base := if right then t.right else t.left, if right then lo + Pow2(k - 1) else lo;
      var d := if u.Fork? && u.size == s then RemoveHere(u, x) else Remove(u, x, s, base, k - 1);
      && u.Fork? && Holds(u, x, s) && Trie(u, base, k - 1)
      && Remove(t, x, s, lo, k) == (if right then t.(right := d) else t.(left := d))
      && (u.size != s ==> RootOf(d) == u.x && AboveSide(t, s, lo, k) == AboveSide(u, s, base, k - 1) &&
                          Found(t, s, lo, k) == Found(u, s, base, k - 1) &&
                              Above(t, s, lo, k) == Above(u, s, base, k - 1))
      && (u.size == s ==> Found(t, s, lo, k) == u && Above(t, s, lo, k) == t.x && AboveSide(t, s, lo, k) == right)
  {
    HereOrBelow(t, x, s, lo, k);
    hide Sizes;
  }

  /** Changing only the node below the root that holds a chunk, and the pointer to it. */
  lemma {:induction false} RemoveBelow(m: Store, m': Store, t: Tree, p: nat, parent: Link, bin: nat, x: nat, s: nat,
                                       lo: nat, k: nat)
    requires Rep(m, t, p, parent, bin) && Trie(t, lo, k) && Distinct(t)
    requires Holds(t, x, s) && t.size != s
    requires Found(t, s, lo, k).Fork?
    requires Swapped(m, m', Addrs(t), Found(t, s, lo, k), Above(t, s, lo, k), AboveSide(t, s, lo, k),
      RemoveHere(Found(t, s, lo, k), x), bin)
    ensures Rep(m', Remove(t, x, s, lo, k), p, parent, bin)
  {
    hide *;
    StepDown(t, x, s, lo, k);
    var right := s >= lo + Pow2(k - 1);
    var u, base := if right then t.right else t.left, if right then lo + Pow2(k - 1) else lo;
    Kid(m, t, p, parent, bin, right);
    if u.size != s {
      FoundBelow(m, u, u.x, Node(t.x), bin, x, s, base, k - 1);
      var c, q, side := Found(t, s, lo, k), Above(t, s, lo, k), AboveSide(t, s, lo, k);
      SwappedBelow(m, m', t, p, parent, bin, right, c, q, side, RemoveHere(c, x));
      RemoveBelow(m, m', u, u.x, Node(t.x), bin, x, s, base, k - 1);
      SwapChild(m, m', t, p, parent, bin, right, Remove(u, x, s, base, k - 1));
    } else {
      SwappedHere(m, m', t, right, RemoveHere(u, x), bin);
      SwapChild(m, m', t, p, parent, bin, right, RemoveHere(u, x));
    }
  }

  lemma Kid(m: Store, t: Tree, p: nat, parent: Link, bin: nat, right: bool)
    requires t.Fork? && Rep(m, t, p, parent, bin) && Distinct(t)
    ensures t.x in m
    ensures var u := if right then t.right else t.left; u.Fork? ==> Distinct(u) && Rep(m, u, u.x, Node(t.x), bin)
  {
  }

  lemma SwappedHere(m: Store, m': Store, t: Tree, right: bool, d: Tree, bin: nat)
    requires t.Fork? && Swapped(m, m', Addrs(t), if right then t.right else t.left, t.x, right, d, bin)
    ensures Rep(m', d, RootOf(d), Node(t.x), bin)
    ensures Agree(m, m', Addrs(t) - Addrs(if right then t.right else t.left) - {t.x})
    ensures t.x in m && t.x in m'
    ensures m'[t.x] == if right then m[t.x].(right := RootOf(d)) else m[t.x].(left := RootOf(d))
  {
  }

  lemma {:induction false} SwappedBelow(m: Store, m': Store, t: Tree, p: nat, parent: Link, bin: nat, right: bool,
                                        c: Tree, q: nat, side: bool, d: Tree)
    requires t.Fork? && Rep(m, t, p, parent, bin) && Distinct(t) && Swapped(m, m', Addrs(t), c, q, side, d, bin)
    requires var u := if right then t.right else t.left; u.Fork? && Addrs(c) <= Addrs(u) && q in Addrs(u)
    ensures var u := if right then t.right else t.left;
      && Swapped(m, m', Addrs(u), c, q, side, d, bin) && Agree(m, m', Addrs(t) - Addrs(u) - {t.x})
      && t.x in m' && m'[t.x] == if right then m[t.x].(right := u.x) else m[t.x].(left := u.x)
  {
    var u := if right then t.right else t.left;
    assert Addrs(u) <= Addrs(t) && t.x in Addrs(t);
    assert t.x !in Addrs(c) && t.x != q;
  }
}
