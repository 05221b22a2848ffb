/** Tries in memory: tree chunks linked by child, parent, fd and bk pointers
(userspace/libc/malloc.c:2404-2414), and the relation to their values. */
module TrieStore {
  import opened Sequences
  import opened TreeIndex
  import opened Tries

  /** A parent pointer: null in a chained chunk, the bin slot at a root, else the parent chunk. */
  datatype Link = Null | BinSlot(bin: nat) | Node(at: nat)

  /** malloc_tree_chunk, with chunksize(head) as `size`. */
  datatype TChunk = TChunk(size: nat, fd: nat, bk: nat, left: nat, right: nat, parent: Link, index: nat)

  type Store = map<nat, TChunk>

  function Next(c: seq<nat>, j: nat): nat
    requires j < |c|
  {
    if j + 1 < |c| then c[j + 1] else c[0]
  }

  /** The chunks of `c` form a ring: fd goes to the next, bk comes back. */
  ghost predicate Ring(m: Store, c: seq<nat>) {
    && (forall j :: 0 <= j < |c| ==> c[j] in m && Next(c, j) in m)
    && (forall j :: 0 <= j < |c| ==> m[c[j]].fd == Next(c, j) && m[Next(c, j)].bk == c[j])
  }

  /** A chunk chained to a tree node. */
  predicate Chained(m: Store, y: nat, size: nat, bin: nat) {
    && y != 0 && y in m && m[y].size == size && m[y].parent == Null && m[y].left == 0 && m[y].right == 0
    && m[y].index == bin
  }

  /** Memory `m` holds tree `t` at `p`. */
  ghost predicate Rep(m: Store, t: Tree, p: nat, parent: Link, bin: nat) {
    match t
    case Nil => p == 0
    case Fork(x, size, ring, l, r) =>
      && p == x && x != 0 && x in m
      && m[x].size == size && m[x].parent == parent && m[x].index == bin
      && Ring(m, [x] + ring) && (forall y :: y in ring ==> Chained(m, y, size, bin))
      && Rep(m, l, m[x].left, Node(x), bin) && Rep(m, r, m[x].right, Node(x), bin)
  }

  /** Chunks keep their contents from one memory to another. */
  ghost predicate Agree(m: Store, m': Store, a: set<nat>) {
    forall y :: y in a && y in m ==> y in m' && m'[y] == m[y]
  }

  lemma {:induction false} RepFrame(m: Store, m': Store, t: Tree, p: nat, parent: Link, bin: nat)
    requires Rep(m, t, p, parent, bin) && Agree(m, m', Addrs(t))
    ensures Rep(m', t, p, parent, bin)
  {
    if t.Fork? {
      RingFrame(m, m', [t.x] + t.ring);
      RepFrame(m, m', t.left, m[t.x].left, Node(t.x), bin);
      RepFrame(m, m', t.right, m[t.x].right, Node(t.x), bin);
    }
  }

  lemma RingFrame(m: Store, m': Store, c: seq<nat>)
    requires Ring(m, c) && Agree(m, m', Members(c))
    ensures Ring(m', c)
  {
    forall j | 0 <= j < |c| ensures c[j] in Members(c) && Next(c, j) in Members(c) {
    }
  }

  /** A tree whose root has a new parent. */
  lemma {:induction false} RepReparent(m: Store, m': Store, t: Tree, p: nat, parent: Link, parent': Link, bin: nat)
    requires Rep(m, t, p, parent, bin) && t.Fork? && Distinct(t)
    requires Agree(m, m', Addrs(t) - {t.x}) && t.x in m' && m'[t.x] == m[t.x].(parent := parent')
    ensures Rep(m', t, p, parent', bin)
  {
    var c := [t.x] + t.ring;
    forall j | 0 <= j < |c| ensures c[j] in m' && m'[c[j]].fd == m[c[j]].fd && m'[c[j]].bk == m[c[j]].bk {
      assert c[j] == t.x || c[j] in t.ring;
    }
    assert Ring(m', c);
    RepFrame(m, m', t.left, m[t.x].left, Node(t.x), bin);
    RepFrame(m, m', t.right, m[t.x].right, Node(t.x), bin);
  }

  // ---- inserting --------------------------------------------------------------------------------

  /** Links `x` behind tree node `t` of the same size. */
  function Chain(m: Store, t: nat, x: nat): (m': Store)
    requires t in m && m[t].fd in m && x in m
    ensures m'.Keys == m.Keys
  {
    var f := m[t].fd;
    var m1 := m[x := m[x].(fd := f, bk := t, parent := Null)];
    var m2 := m1[t := m1[t].(fd := x)];
    m2[f := m2[f].(bk := x)]
  }

  /** Hangs `x` as a new leaf under `t`. */
  function Hang(m: Store, t: nat, right: bool, x: nat): (m': Store)
    requires t in m && x in m
    ensures m'.Keys == m.Keys
  {
    var m1 := m[x := m[x].(fd := x, bk := x, parent := Node(t))];
    if right then m1[t := m1[t].(right := x)] else m1[t := m1[t].(left := x)]
  }

  lemma ChainRing(m: Store, c: seq<nat>, x: nat)
    requires c != [] && Ring(m, c) && NoDup(c)
    requires x !in c && x in m
    ensures c[0] in m && m[c[0]].fd in m && Ring(Chain(m, c[0], x), [c[0], x] + c[1..])
  {
    var t, f := c[0], m[c[0]].fd;
    assert f == Next(c, 0);
    var m', d := Chain(m, t, x), [t, x] + c[1..];
    forall j | 0 <= j < |d| ensures d[j] in m' && Next(d, j) in m' && m'[d[j]].fd == Next(d, j) &&
        m'[Next(d, j)].bk == d[j] {
      if j >= 2 {
        assert d[j] == c[j - 1] && Next(d, j) == Next(c, j - 1);
        assert m[c[j - 1]].fd == Next(c, j - 1) && m[Next(c, j - 1)].bk == c[j - 1];
      } else if j == 1 {
        assert Next(d, 1) == if |c| > 1 then c[1] else t;
      }
    }
  }

  /** A chunk ready to be binned: no children, index set. */
  predicate Fresh(m: Store, x: nat, size: nat, bin: nat) {
    x != 0 && x in m && m[x].size == size && m[x].left == 0 && m[x].right == 0 && m[x].index == bin
  }

  /** The node where the insertion of size `s` ends: the one of that size, or the last on its path. */
  function Spot(t: Tree, s: nat, lo: nat, k: nat): (u: Tree)
    requires t.Fork?
    ensures u.Fork?
  {
    if t.size == s || k == 0 then t
    else if s < lo + Pow2(k - 1) then (if t.left.Nil? then t else Spot(t.left, s, lo, k - 1))
    else (if t.right.Nil? then t else Spot(t.right, s, lo + Pow2(k - 1), k - 1))
  }

  /** Memory after the insertion at that node. */
  function Inserted(m: Store, spot: Tree, s: nat, right: bool, x: nat): Store
    requires spot.Fork? && spot.x in m && m[spot.x].fd in m && x in m
  {
    if spot.size == s then Chain(m, spot.x, x) else Hang(m, spot.x, right, x)
  }

  lemma {:induction false} SpotIn(m: Store, t: Tree, p: nat, parent: Link, bin: nat, s: nat, lo: nat, k: nat)
    requires t.Fork? && Rep(m, t, p, parent, bin)
    ensures var u := Spot(t, s, lo, k);
      u.Fork? && u.x in m && m[u.x].fd in m && u.x in Addrs(t) && m[u.x].fd in Addrs(t)
  {
    var c := [t.x] + t.ring;
    assert m[c[0]].fd == Next(c, 0);
    if !(t.size == s || k == 0) {
      if s < lo + Pow2(k - 1) {
        if t.left.Fork? { SpotIn(m, t.left, m[t.x].left, Node(t.x), bin, s, lo, k - 1); }
      } else {
        if t.right.Fork? { SpotIn(m, t.right, m[t.x].right, Node(t.x), bin, s, lo + Pow2(k - 1), k - 1); }
      }
    }
  }

  /** Which side of that node the new leaf goes to. */
  predicate SpotRight(t: Tree, s: nat, lo: nat, k: nat)
    requires t.Fork?
  {
    if t.size == s || k == 0 then false
    else if s < lo + Pow2(k - 1) then (if t.left.Nil? then false else SpotRight(t.left, s, lo, k - 1))
    else (if t.right.Nil? then true else SpotRight(t.right, s, lo + Pow2(k - 1), k - 1))
  }

  /** The insertion writes only the new chunk, the node and the node's ring. */
  lemma InsertedElsewhere(m: Store, spot: Tree, s: nat, right: bool, x: nat, y: nat)
    requires spot.Fork? && spot.x in m && m[spot.x].fd in m && x in m
    requires y in m && y != x && y != spot.x && y != m[spot.x].fd
    ensures y in Inserted(m, spot, s, right, x) && Inserted(m, spot, s, right, x)[y] == m[y]
  {
  }

  /** Chaining writes the new chunk, the node and the node's successor, links only. */
  lemma ChainWrites(m: Store, t: nat, x: nat, y: nat)
    requires t in m && m[t].fd in m && x in m
    requires y in m && x != t && x != m[t].fd
    ensures var m' := Chain(m, t, x);
      && (y != x && y != t && y != m[t].fd ==> m'[y] == m[y])
      && (y != x ==> m'[y] == m[y].(fd := m'[y].fd, bk := m'[y].bk))
      && m'[x] == m[x].(fd := m[t].fd, bk := t, parent := Null)
  {
  }

  lemma {:induction false} ChainHere(m: Store, t: Tree, p: nat, parent: Link, bin: nat, x: nat)
    requires t.Fork? && Rep(m, t, p, parent, bin) && Distinct(t)
    requires Fresh(m, x, t.size, bin) && x !in Addrs(t)
    ensures m[t.x].fd in m
    ensures Rep(Chain(m, t.x, x), t.(ring := [x] + t.ring), p, parent, bin)
  {
    ChainAround(m, t, p, parent, bin, x);
    var m' := Chain(m, t.x, x);
    hide Chain, Addrs, Ring, Distinct;
    ChainWrites(m, t.x, x, t.x);
    forall y | y in [x] + t.ring ensures Chained(m', y, t.size, bin) {
      assert y == x || y in t.ring;
      ChainWrites(m, t.x, x, y);
    }
    forall y | y in Addrs(t.left) + Addrs(t.right) && y in m ensures y in m' && m'[y] == m[y] {
      ChainWrites(m, t.x, x, y);
    }
    RepFrame(m, m', t.left, m[t.x].left, Node(t.x), bin);
    RepFrame(m, m', t.right, m[t.x].right, Node(t.x), bin);
  }

  lemma ChainAround(m: Store, t: Tree, p: nat, parent: Link, bin: nat, x: nat)
    requires t.Fork? && Rep(m, t, p, parent, bin) && Distinct(t)
    requires Fresh(m, x, t.size, bin) && x !in Addrs(t)
    ensures x != t.x && x !in t.ring && m[t.x].fd in m && (m[t.x].fd == t.x || m[t.x].fd in t.ring)
    ensures forall y :: y in Addrs(t.left) + Addrs(t.right) ==> y != t.x && y != m[t.x].fd && y != x
    ensures Ring(Chain(m, t.x, x), [t.x] + ([x] + t.ring))
  {
    var c := [t.x] + t.ring;
    assert m[c[0]].fd == Next(c, 0);
    assert x != t.x && x !in t.ring && x !in Addrs(t.left) && x !in Addrs(t.right);
    assert m[t.x].fd == t.x || m[t.x].fd in t.ring;
    assert Ring(m, c) && NoDup(c) && x !in c by { hide Addrs; }
    ChainedRing(m, t.x, t.ring, x);
  }

  lemma ChainedRing(m: Store, y: nat, ring: seq<nat>, x: nat)
    requires Ring(m, [y] + ring) && NoDup([y] + ring) && x !in [y] + ring && x in m
    ensures y in m && m[y].fd in m && Ring(Chain(m, y, x), [y] + ([x] + ring))
  {
    hide Ring, NoDup, Chain;
    var c := [y] + ring;
    assert c[1..] == ring && [y, x] + ring == [y] + ([x] + ring);
    ChainRing(m, c, x);
  }

  lemma {:induction false} HangHere(m: Store, t: Tree, p: nat, parent: Link, bin: nat, x: nat, s: nat, right: bool)
    requires t.Fork? && Rep(m, t, p, parent, bin) && Distinct(t)
    requires Fresh(m, x, s, bin) && x !in Addrs(t)
    requires if right then t.right.Nil? else t.left.Nil?
    ensures var leaf := Fork(x, s, [], Nil, Nil);
      Rep(Hang(m, t.x, right, x), if right then t.(right := leaf) else t.(left := leaf), p, parent, bin)
  {
    assert x != t.x && x !in t.ring && x !in Addrs(t.left) && x !in Addrs(t.right);
    var m' := Hang(m, t.x, right, x);
    var c := [t.x] + t.ring;
    forall j | 0 <= j < |c| ensures c[j] in m' && m'[c[j]].fd == m[c[j]].fd && m'[c[j]].bk == m[c[j]].bk {
      assert c[j] == t.x || c[j] in t.ring;
    }
    assert Ring(m', c);
    var one := [x] + [];
    assert Ring(m', one) by { assert one[0] == x && Next(one, 0) == x; }
    assert Rep(m', Fork(x, s, [], Nil, Nil), x, Node(t.x), bin);
    RepFrame(m, m', t.left, m[t.x].left, Node(t.x), bin);
    RepFrame(m, m', t.right, m[t.x].right, Node(t.x), bin);
  }

  /** The pointer writes of insert_large_chunk turn the memory of a trie into that of the larger trie. */
  lemma {:induction false} InsertRep(m: Store, t: Tree, p: nat, parent: Link, bin: nat, x: nat, s: nat, lo: nat, k: nat)
    requires t.Fork? && Rep(m, t, p, parent, bin) && Trie(t, lo, k) && Distinct(t)
    requires Fresh(m, x, s, bin) && x !in Addrs(t) && lo <= s < lo + Pow2(k)
    ensures var spot := Spot(t, s, lo, k);
      && spot.Fork? && spot.x in m && m[spot.x].fd in m && spot.x in Addrs(t) && m[spot.x].fd in Addrs(t)
      && Rep(Inserted(m, spot, s, SpotRight(t, s, lo, k), x), Insert(t, x, s, lo, k), p, parent, bin)
  {
    hide Ring, Chained;
    SpotIn(m, t, p, parent, bin, s, lo, k);
    var spot, m' := Spot(t, s, lo, k), Inserted(m, Spot(t, s, lo, k), s, SpotRight(t, s, lo, k), x);
    if t.size == s {
      ChainHere(m, t, p, parent, bin, x);
    } else {
      var right := s >= lo + Pow2(k - 1);
      var c, base := if right then t.right else t.left, if right then lo + Pow2(k - 1) else lo;
      if c.Nil? {
        HangHere(m, t, p, parent, bin, x, s, right);
      } else {
        InsertRep(m, c, if right then m[t.x].right else m[t.x].left, Node(t.x), bin, x, s, base, k - 1);
        InsertBelow(m, t, p, parent, bin, x, s, right, spot, m');
      }
    }
  }

  /** Everything of a node but one subtree survives an insertion in that subtree. */
  lemma {:induction false} InsertBelow(m: Store, t: Tree, p: nat, parent: Link, bin: nat, x: nat, s: nat, right: bool,
                                       spot: Tree, m': Store)
    requires t.Fork? && Rep(m, t, p, parent, bin) && Distinct(t)
    requires x in m && x !in Addrs(t)
    requires spot.Fork? && spot.x in m && m[spot.x].fd in m
    requires {spot.x, m[spot.x].fd} <= Addrs(if right then t.right else t.left)
    requires exists r' :: m' == Inserted(m, spot, s, r', x)
    ensures t.x in m' && m'[t.x] == m[t.x] && Ring(m', [t.x] + t.ring)
    ensures forall y :: y in t.ring ==> Chained(m', y, t.size, bin)
    ensures if right then Rep(m', t.left, m[t.x].left, Node(t.x), bin)
      else Rep(m', t.right, m[t.x].right, Node(t.x), bin)
  {
    var r' :| m' == Inserted(m, spot, s, r', x);
    assert x != t.x && x !in t.ring && x !in Addrs(t.left) && x !in Addrs(t.right);
    var other := if right then t.left else t.right;
    forall y | y in {t.x} + Members(t.ring) + Addrs(other) && y in m ensures y in m' && m'[y] == m[y] {
      InsertedElsewhere(m, spot, s, r', x, y);
    }
    RepIn(m, other, if right then m[t.x].left else m[t.x].right, Node(t.x), bin);
    RingFrame(m, m', [t.x] + t.ring);
    RepFrame(m, m', other, if right then m[t.x].left else m[t.x].right, Node(t.x), bin);
  }

  lemma {:induction false} RepIn(m: Store, t: Tree, p: nat, parent: Link, bin: nat)
    requires Rep(m, t, p, parent, bin)
    ensures Addrs(t) <= m.Keys && 0 !in Addrs(t)
  {
    if t.Fork? {
      RepIn(m, t.left, m[t.x].left, Node(t.x), bin);
      RepIn(m, t.right, m[t.x].right, Node(t.x), bin);
    }
  }
}
