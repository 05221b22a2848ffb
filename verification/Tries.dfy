/** The bitwise tries that hold large free chunks, as values (userspace/libc/malloc.c:2366-2402).

A node stands for all chunks of one size: the one in the tree and the ring of others linked to it.
A trie over 2^k sizes starting at `lo` sends the lower half of them left and the upper half right;
the node itself may have any of the sizes. */
module Tries {
  import opened Sequences
  import opened TreeIndex

  datatype Tree = Nil | Fork(x: nat, size: nat, ring: seq<nat>, left: Tree, right: Tree)

  function Sizes(t: Tree): set<nat> {
    if t.Nil? then {} else {t.size} + Sizes(t.left) + Sizes(t.right)
  }

  function Members(s: seq<nat>): (m: set<nat>)
    ensures forall a :: a in m <==> a in s
  {
    set a | a in s
  }

  function Addrs(t: Tree): set<nat> {
    if t.Nil? then {} else {t.x} + Members(t.ring) + Addrs(t.left) + Addrs(t.right)
  }

  /** Chunk `a` of size `s` is binned in `t`. */
  predicate Holds(t: Tree, a: nat, s: nat) {
    t.Fork? && ((s == t.size && (a == t.x || a in t.ring)) || Holds(t.left, a, s) || Holds(t.right, a, s))
  }

  /** Sizes agree with the bits that lead to them, and no size has two nodes. */
  predicate Trie(t: Tree, lo: nat, k: nat) {
    t.Nil? || (
      && lo <= t.size < lo + Pow2(k)
      && t.size !in Sizes(t.left) && t.size !in Sizes(t.right)
      && (if k == 0 then t.left.Nil? && t.right.Nil?
          else Trie(t.left, lo, k - 1) && Trie(t.right, lo + Pow2(k - 1), k - 1)))
  }

  /** No chunk occurs twice. */
  predicate Distinct(t: Tree) {
    t.Nil? || (
      && t.x !in t.ring && NoDup(t.ring)
      && t.x !in Addrs(t.left) && t.x !in Addrs(t.right)
      && Members(t.ring) !! Addrs(t.left) && Members(t.ring) !! Addrs(t.right)
      && Addrs(t.left) !! Addrs(t.right) && Distinct(t.left) && Distinct(t.right))
  }

  lemma {:induction false} SizeRange(t: Tree, lo: nat, k: nat, s: nat)
    requires Trie(t, lo, k) && s in Sizes(t)
    ensures lo <= s < lo + Pow2(k)
  {
    if s != t.size {
      if s in Sizes(t.left) { SizeRange(t.left, lo, k - 1, s); }
          else { SizeRange(t.right, lo + Pow2(k - 1), k - 1, s); }
    }
  }

  lemma {:induction false} HoldsIn(t: Tree, a: nat, s: nat)
    requires Holds(t, a, s)
    ensures a in Addrs(t) && s in Sizes(t)
  {
    if !(s == t.size && (a == t.x || a in t.ring)) {
      if Holds(t.left, a, s) { HoldsIn(t.left, a, s); } else { HoldsIn(t.right, a, s); }
    }
  }

  // ---- insert_large_chunk -----------------------------------------------------------------------

  /** Adds chunk `x` of size `s`: next to the node of that size, or as a new leaf on its path. */
  function Insert(t: Tree, x: nat, s: nat, lo: nat, k: nat): Tree {
    if t.Nil? then Fork(x, s, [], Nil, Nil)
    else if t.size == s then t.(ring := [x] + t.ring)
    else if k == 0 then t
    else if s < lo + Pow2(k - 1) then t.(left := Insert(t.left, x, s, lo, k - 1))
    else t.(right := Insert(t.right, x, s, lo + Pow2(k - 1), k - 1))
  }

  lemma {:induction false} InsertAddrs(t: Tree, x: nat, s: nat, lo: nat, k: nat)
    requires Trie(t, lo, k) && lo <= s < lo + Pow2(k)
    ensures Addrs(Insert(t, x, s, lo, k)) == Addrs(t) + {x}
  {
    if t.Nil? {
    } else if t.size == s {
      assert Members([x] + t.ring) == Members(t.ring) + {x};
    } else if s < lo + Pow2(k - 1) {
      InsertAddrs(t.left, x, s, lo, k - 1);
    } else {
      InsertAddrs(t.right, x, s, lo + Pow2(k - 1), k - 1);
    }
  }

  lemma {:induction false} InsertSizes(t: Tree, x: nat, s: nat, lo: nat, k: nat)
    requires Trie(t, lo, k) && lo <= s < lo + Pow2(k)
    ensures Sizes(Insert(t, x, s, lo, k)) == Sizes(t) + {s}
  {
    if t.Nil? || t.size == s {
    } else if s < lo + Pow2(k - 1) {
      InsertSizes(t.left, x, s, lo, k - 1);
    } else {
      InsertSizes(t.right, x, s, lo + Pow2(k - 1), k - 1);
    }
  }

  /** Inserting adds exactly the one chunk. */
  lemma {:induction false} InsertHolds(t: Tree, x: nat, s: nat, lo: nat, k: nat, a: nat, b: nat)
    requires Trie(t, lo, k) && lo <= s < lo + Pow2(k)
    ensures Holds(Insert(t, x, s, lo, k), a, b) <==> Holds(t, a, b) || (a == x && b == s)
  {
    if t.Nil? || t.size == s {
    } else if s < lo + Pow2(k - 1) {
      InsertHolds(t.left, x, s, lo, k - 1, a, b);
    } else {
      InsertHolds(t.right, x, s, lo + Pow2(k - 1), k - 1, a, b);
    }
  }

  /** Inserting keeps sizes and bits in agreement. */
  lemma {:induction false} InsertTrie(t: Tree, x: nat, s: nat, lo: nat, k: nat)
    requires Trie(t, lo, k) && lo <= s < lo + Pow2(k)
    ensures Trie(Insert(t, x, s, lo, k), lo, k)
  {
    if t.Nil? || t.size == s {
    } else if s < lo + Pow2(k - 1) {
      InsertSizes(t.left, x, s, lo, k - 1);
      InsertTrie(t.left, x, s, lo, k - 1);
    } else {
      InsertSizes(t.right, x, s, lo + Pow2(k - 1), k - 1);
      InsertTrie(t.right, x, s, lo + Pow2(k - 1), k - 1);
    }
  }

  lemma {:induction false} InsertDistinct(t: Tree, x: nat, s: nat, lo: nat, k: nat)
    requires Trie(t, lo, k) && lo <= s < lo + Pow2(k) && Distinct(t) && x !in Addrs(t)
    ensures Distinct(Insert(t, x, s, lo, k))
  {
    hide *;
    if t.Nil? || t.size == s {
      InsertHereDistinct(t, x, s, lo, k);
    } else {
      InsertStep(t, x, s, lo, k);
      DistinctKids(t);
      if s < lo + Pow2(k - 1) {
        InsertAddrs(t.left, x, s, lo, k - 1);
        InsertDistinct(t.left, x, s, lo, k - 1);
        DistinctGrow(t, Insert(t.left, x, s, lo, k - 1), t.right, x);
      } else {
        InsertAddrs(t.right, x, s, lo + Pow2(k - 1), k - 1);
        InsertDistinct(t.right, x, s, lo + Pow2(k - 1), k - 1);
        DistinctGrow(t, t.left, Insert(t.right, x, s, lo + Pow2(k - 1), k - 1), x);
      }
    }
  }

  lemma InsertHereDistinct(t: Tree, x: nat, s: nat, lo: nat, k: nat)
    requires Distinct(t) && x !in Addrs(t) && (t.Nil? || t.size == s)
    ensures Distinct(Insert(t, x, s, lo, k))
  {
    if t.Fork? { RingDistinct(t, x); }
  }

  /** One step of an insertion below the root. */
  lemma InsertStep(t: Tree, x: nat, s: nat, lo: nat, k: nat)
    requires t.Fork? && Trie(t, lo, k) && lo <= s < lo + Pow2(k)
    requires t.size != s && x !in Addrs(t)
    ensures k > 0 && Trie(t.left, lo, k - 1) && Trie(t.right, lo + Pow2(k - 1), k - 1) && Pow2(k) == 2 * Pow2(k - 1)
    ensures x !in Addrs(t.left) && x !in Addrs(t.right)
    ensures Insert(t, x, s, lo, k) == if s < lo + Pow2(k - 1) then t.(left := Insert(t.left, x, s, lo, k - 1))
                                      else t.(right := Insert(t.right, x, s, lo + Pow2(k - 1), k - 1))
  {
  }

  lemma DistinctKids(t: Tree)
    requires t.Fork? && Distinct(t)
    ensures Distinct(t.left) && Distinct(t.right)
  {
  }

  /** Adding an address to one subtree of a node. */
  lemma DistinctGrow(t: Tree, l: Tree, r: Tree, x: nat)
    requires t.Fork? && Distinct(t) && x !in Addrs(t)
    requires Distinct(l) && Distinct(r)
    requires (l == t.left && Addrs(r) == Addrs(t.right) + {x}) || (r == t.right && Addrs(l) == Addrs(t.left) + {x})
    ensures Distinct(t.(left := l, right := r))
  {
    assert x != t.x && x !in t.ring && x !in Addrs(t.left) && x !in Addrs(t.right);
    hide Addrs;
  }

  lemma RingDistinct(t: Tree, x: nat)
    requires t.Fork? && Distinct(t) && x !in Addrs(t)
    ensures Distinct(t.(ring := [x] + t.ring))
  {
    assert x != t.x && x !in t.ring && x !in Addrs(t.left) && x !in Addrs(t.right);
    hide Addrs;
    var r := [x] + t.ring;
    assert Members(r) == Members(t.ring) + {x};
    forall i, j | 0 <= i < j < |r| ensures r[i] != r[j] {
      assert r[j] == t.ring[j - 1];
    }
  }

  // ---- unlink_large_chunk -----------------------------------------------------------------------

  predicate IsLeaf(t: Tree) {
    t.Fork? && t.left.Nil? && t.right.Nil?
  }

  /** The leaf reached by going right where possible and left otherwise. */
  function LastLeaf(t: Tree): (r: Tree)
    requires t.Fork?
    ensures IsLeaf(r)
  {
    if t.right.Fork? then LastLeaf(t.right) else if t.left.Fork? then LastLeaf(t.left) else t
  }

  /** The tree without that leaf. */
  function DropLast(t: Tree): (r: Tree)
    requires t.Fork? && !IsLeaf(t)
    ensures r.Fork? && r.x == t.x && r.size == t.size && r.ring == t.ring
  {
    if t.right.Fork? then t.(right := if IsLeaf(t.right) then Nil else DropLast(t.right))
    else t.(left := if IsLeaf(t.left) then Nil else DropLast(t.left))
  }

  function IndexOf(s: seq<nat>, x: nat): (i: nat)
    requires x in s
    ensures i < |s| && s[i] == x
  {
    if s[0] == x then 0 else 1 + IndexOf(s[1..], x)
  }

  function Without(s: seq<nat>, x: nat): seq<nat> {
    if x in s then s[..IndexOf(s, x)] + s[IndexOf(s, x) + 1..] else s
  }

  /** Takes chunk `x` out of the node at the root: from its ring, replaced by the last of its ring, or,
      when it is the only chunk of its size, replaced by a leaf from below. */
  function RemoveHere(t: Tree, x: nat): Tree
    requires t.Fork?
  {
    if t.x != x then t.(ring := Without(t.ring, x))
    else if t.ring != [] then Fork(t.ring[|t.ring| - 1], t.size, t.ring[..|t.ring| - 1], t.left, t.right)
    else if IsLeaf(t) then Nil
    else Fork(LastLeaf(t).x, LastLeaf(t).size, LastLeaf(t).ring, DropLast(t).left, DropLast(t).right)
  }

  function Remove(t: Tree, x: nat, s: nat, lo: nat, k: nat): Tree {
    if t.Nil? then Nil
    else if t.size == s then RemoveHere(t, x)
    else if k == 0 then t
    else if s < lo + Pow2(k - 1) then t.(left := Remove(t.left, x, s, lo, k - 1))
    else t.(right := Remove(t.right, x, s, lo + Pow2(k - 1), k - 1))
  }

  lemma {:induction false} DropAddrs(t: Tree)
    requires t.Fork? && !IsLeaf(t)
    ensures Addrs(t) == Addrs(DropLast(t)) + Addrs(LastLeaf(t))
  {
    var c := if t.right.Fork? then t.right else t.left;
    if !IsLeaf(c) { DropAddrs(c); }
  }

  lemma {:induction false} DropSizes(t: Tree)
    requires t.Fork? && !IsLeaf(t)
    ensures Sizes(t) == Sizes(DropLast(t)) + {LastLeaf(t).size}
  {
    var c := if t.right.Fork? then t.right else t.left;
    if !IsLeaf(c) { DropSizes(c); }
  }

  lemma {:induction false} DropHolds(t: Tree, a: nat, b: nat)
    requires t.Fork? && !IsLeaf(t)
    ensures Holds(t, a, b) <==> Holds(DropLast(t), a, b) || Holds(LastLeaf(t), a, b)
  {
    var c := if t.right.Fork? then t.right else t.left;
    if !IsLeaf(c) { DropHolds(c, a, b); }
  }

  /** Dropping the leaf leaves a trie, and the leaf had a size of its own. */
  lemma {:induction false} DropTrie(t: Tree, lo: nat, k: nat)
    requires t.Fork? && !IsLeaf(t) && Trie(t, lo, k)
    ensures Trie(DropLast(t), lo, k) && LastLeaf(t).size in Sizes(t) && LastLeaf(t).size !in Sizes(DropLast(t))
  {
    var right := t.right.Fork?;
    var c, base := if right then t.right else t.left, if right then lo + Pow2(k - 1) else lo;
    LeafSize(c, base, k - 1);
    if !IsLeaf(c) {
      DropTrie(c, base, k - 1);
      DropSizes(c);
    }
    if right {
      forall s | s in Sizes(t.left) ensures s != LastLeaf(c).size { SizeRange(t.left, lo, k - 1, s); }
    }
  }

  lemma {:induction false} LeafSize(t: Tree, lo: nat, k: nat)
    requires t.Fork? && Trie(t, lo, k)
    ensures LastLeaf(t).size in Sizes(t) && lo <= LastLeaf(t).size < lo + Pow2(k)
  {
    if t.right.Fork? { LeafSize(t.right, lo + Pow2(k - 1), k - 1); }
    else if t.left.Fork? { LeafSize(t.left, lo, k - 1); }
  }

  lemma {:induction false} DropDistinct(t: Tree)
    requires t.Fork? && !IsLeaf(t) && Distinct(t)
    ensures Distinct(DropLast(t)) && Distinct(LastLeaf(t)) && Addrs(DropLast(t)) !! Addrs(LastLeaf(t))
  {
    var right := t.right.Fork?;
    var c := if right then t.right else t.left;
    if IsLeaf(c) {
      LeafApart(t, c);
    } else {
      DropDistinct(c);
      DropAddrs(c);
      DistinctShrink(t, DropLast(c), LastLeaf(c));
    }
  }

  lemma LeafApart(t: Tree, c: Tree)
    requires t.Fork? && Distinct(t) && IsLeaf(c)
    requires c == if t.right.Fork? then t.right else t.left
    ensures Distinct(DropLast(t)) && LastLeaf(t) == c && Addrs(DropLast(t)) !! Addrs(c)
  {
    assert LastLeaf(c) == c;
  }

  /** Replacing the subtree that holds the leaf by what remains of it. */
  lemma DistinctShrink(t: Tree, d: Tree, leaf: Tree)
    requires t.Fork? && Distinct(t) && !IsLeaf(t)
    requires var c := if t.right.Fork? then t.right else t.left;
      !IsLeaf(c) && d == DropLast(c) && leaf == LastLeaf(c) && Distinct(d) && Distinct(leaf) &&
      Addrs(c) == Addrs(d) + Addrs(leaf) && Addrs(d) !! Addrs(leaf)
    ensures Distinct(DropLast(t)) && LastLeaf(t) == leaf && Addrs(DropLast(t)) !! Addrs(leaf)
  {
    if t.right.Fork? {
      assert DropLast(t) == t.(right := d);
      assert Addrs(t.(right := d)) == {t.x} + Members(t.ring) + Addrs(t.left) + Addrs(d);
    } else {
      assert DropLast(t) == t.(left := d);
      assert Addrs(t.(left := d)) == {t.x} + Members(t.ring) + Addrs(d) + Addrs(t.right);
    }
    hide Addrs;
  }

  lemma CutMembers(s: seq<nat>, i: nat, a: nat)
    requires NoDup(s) && i < |s|
    ensures a in s[..i] + s[i + 1..] <==> a in s && a != s[i]
  {
    var w := s[..i] + s[i + 1..];
    if a in s && a != s[i] {
      var j :| 0 <= j < |s| && s[j] == a;
      assert w[if j < i then j else j - 1] == a;
    }
    if a in w {
      var j :| 0 <= j < |w| && w[j] == a;
      assert s[if j < i then j else j + 1] == a;
    }
  }

  lemma CutNoDup(s: seq<nat>, i: nat)
    requires NoDup(s) && i < |s|
    ensures NoDup(s[..i] + s[i + 1..])
  {
    var w := s[..i] + s[i + 1..];
    assert forall j :: 0 <= j < |w| ==> w[j] == s[if j < i then j else j + 1];
  }

  lemma WithoutFacts(s: seq<nat>, x: nat)
    requires NoDup(s)
    ensures forall a :: a in Without(s, x) <==> a in s && a != x
    ensures NoDup(Without(s, x))
  {
    if x in s {
      CutNoDup(s, IndexOf(s, x));
      forall a: nat ensures a in Without(s, x) <==> a in s && a != x { CutMembers(s, IndexOf(s, x), a); }
    }
  }

  lemma LastFacts(s: seq<nat>)
    requires NoDup(s) && s != []
    ensures var n := |s| - 1; s[n] !in s[..n] && NoDup(s[..n]) && forall a :: a in s <==> a == s[n] || a in s[..n]
  {
    var n := |s| - 1;
    assert s == s[..n] + [s[n]];
  }

  // ---- what removal does ------------------------------------------------------------------------

  lemma {:induction false} RemoveHereHolds(t: Tree, x: nat, a: nat, b: nat, lo: nat, k: nat)
    requires t.Fork? && Distinct(t) && Trie(t, lo, k) && (x == t.x || x in t.ring)
    ensures Holds(RemoveHere(t, x), a, b) <==> Holds(t, a, b) && a != x
  {
    if Holds(t.left, a, b) { HoldsIn(t.left, a, b); }
    if Holds(t.right, a, b) { HoldsIn(t.right, a, b); }
    if t.x != x {
      WithoutFacts(t.ring, x);
    } else if t.ring != [] {
      LastFacts(t.ring);
    } else if !IsLeaf(t) {
      DropHolds(t, a, b);
      var d, leaf := DropLast(t), LastLeaf(t);
      assert Holds(d, a, b) <==> (a == x && b == t.size) || Holds(d.left, a, b) || Holds(d.right, a, b);
      assert Holds(leaf, a, b) <==> b == leaf.size && (a == leaf.x || a in leaf.ring);
      if Holds(d.left, a, b) { HoldsIn(d.left, a, b); }
      if Holds(d.right, a, b) { HoldsIn(d.right, a, b); }
      DropDistinct(t);
    }
  }

  /** Removing takes out exactly the one chunk. */
  lemma {:induction false} RemoveHolds(t: Tree, x: nat, s: nat, lo: nat, k: nat, a: nat, b: nat)
    requires Trie(t, lo, k) && Distinct(t) && Holds(t, x, s)
    ensures Holds(Remove(t, x, s, lo, k), a, b) <==> Holds(t, a, b) && a != x
  {
    HereOrBelow(t, x, s, lo, k);
    if t.size == s {
      RemoveHereHolds(t, x, a, b, lo, k);
    } else {
      if Holds(t.left, a, b) { HoldsIn(t.left, a, b); }
      if Holds(t.right, a, b) { HoldsIn(t.right, a, b); }
      if s < lo + Pow2(k - 1) {
        HoldsIn(t.left, x, s);
        RemoveHolds(t.left, x, s, lo, k - 1, a, b);
      } else {
        HoldsIn(t.right, x, s);
        RemoveHolds(t.right, x, s, lo + Pow2(k - 1), k - 1, a, b);
      }
    }
  }

  /** A chunk is at the root node or on the side its size selects. */
  lemma {:induction false} HereOrBelow(t: Tree, x: nat, s: nat, lo: nat, k: nat)
    requires Trie(t, lo, k) && Holds(t, x, s)
    ensures t.size == s ==> x == t.x || x in t.ring
    ensures t.size != s ==> k > 0 && if s < lo + Pow2(k - 1) then Holds(t.left, x, s) else Holds(t.right, x, s)
    ensures lo <= s < lo + Pow2(k)
  {
    HoldsIn(t, x, s);
    SizeRange(t, lo, k, s);
    if Holds(t.left, x, s) { HoldsIn(t.left, x, s); SizeRange(t.left, lo, k - 1, s); }
    if Holds(t.right, x, s) { HoldsIn(t.right, x, s); SizeRange(t.right, lo + Pow2(k - 1), k - 1, s); }
  }

  lemma {:induction false} RemoveSizes(t: Tree, x: nat, s: nat, lo: nat, k: nat)
    requires Trie(t, lo, k) && Holds(t, x, s)
    ensures Sizes(Remove(t, x, s, lo, k)) <= Sizes(t)
  {
    HereOrBelow(t, x, s, lo, k);
    if t.size == s {
      if t.x == x && t.ring == [] && !IsLeaf(t) { DropSizes(t); }
    } else if s < lo + Pow2(k - 1) {
      RemoveSizes(t.left, x, s, lo, k - 1);
    } else {
      RemoveSizes(t.right, x, s, lo + Pow2(k - 1), k - 1);
    }
  }

  /** Removing keeps sizes and bits in agreement, also when a leaf takes the place of an inner node. */
  lemma {:induction false} RemoveTrie(t: Tree, x: nat, s: nat, lo: nat, k: nat)
    requires Trie(t, lo, k) && Holds(t, x, s)
    ensures Trie(Remove(t, x, s, lo, k), lo, k)
  {
    HereOrBelow(t, x, s, lo, k);
    if t.size == s {
      if t.x == x && t.ring == [] && !IsLeaf(t) {
        DropTrie(t, lo, k);
        LeafSize(t, lo, k);
      }
    } else if s < lo + Pow2(k - 1) {
      RemoveTrie(t.left, x, s, lo, k - 1);
      RemoveSizes(t.left, x, s, lo, k - 1);
    } else {
      RemoveTrie(t.right, x, s, lo + Pow2(k - 1), k - 1);
      RemoveSizes(t.right, x, s, lo + Pow2(k - 1), k - 1);
    }
  }

  lemma {:induction false} RemoveHereDistinct(t: Tree, x: nat)
    requires t.Fork? && Distinct(t) && (x == t.x || x in t.ring)
    ensures Distinct(RemoveHere(t, x)) && Addrs(RemoveHere(t, x)) == Addrs(t) - {x}
  {
    if t.x != x {
      WithoutFacts(t.ring, x);
      assert Members(Without(t.ring, x)) == Members(t.ring) - {x};
    } else if t.ring != [] {
      LastFacts(t.ring);
      var n := |t.ring| - 1;
      assert Members(t.ring) == Members(t.ring[..n]) + {t.ring[n]};
    } else if !IsLeaf(t) {
      DropDistinct(t);
      DropAddrs(t);
      var d, leaf := DropLast(t), LastLeaf(t);
      assert Addrs(d) == {x} + Addrs(d.left) + Addrs(d.right);
      assert Addrs(leaf) == {leaf.x} + Members(leaf.ring);
      hide Addrs;
      assert Addrs(t) == {x} + Addrs(d.left) + Addrs(d.right) + {leaf.x} + Members(leaf.ring);
    }
  }

  lemma {:induction false} RemoveDistinct(t: Tree, x: nat, s: nat, lo: nat, k: nat)
    requires Trie(t, lo, k) && Distinct(t) && Holds(t, x, s)
    ensures Distinct(Remove(t, x, s, lo, k)) && Addrs(Remove(t, x, s, lo, k)) == Addrs(t) - {x}
  {
    hide *;
    RemoveStep(t, x, s, lo, k);
    if t.size == s {
      RemoveHereDistinct(t, x);
    } else {
      DistinctKids(t);
      if s < lo + Pow2(k - 1) {
        RemoveDistinct(t.left, x, s, lo, k - 1);
        HoldsIn(t.left, x, s);
        DistinctLess(t, Remove(t.left, x, s, lo, k - 1), t.right, x);
      } else {
        RemoveDistinct(t.right, x, s, lo + Pow2(k - 1), k - 1);
        HoldsIn(t.right, x, s);
        DistinctLess(t, t.left, Remove(t.right, x, s, lo + Pow2(k - 1), k - 1), x);
      }
    }
  }

  /** One step of a removal. */
  lemma RemoveStep(t: Tree, x: nat, s: nat, lo: nat, k: nat)
    requires Trie(t, lo, k) && Holds(t, x, s)
    ensures t.Fork? && (t.size == s ==> (x == t.x || x in t.ring) && Remove(t, x, s, lo, k) == RemoveHere(t, x))
    ensures t.size != s ==>
      && k > 0 && Trie(t.left, lo, k - 1) && Trie(t.right, lo + Pow2(k - 1), k - 1)
      && Remove(t, x, s, lo, k) == (if s < lo + Pow2(k - 1) then t.(left := Remove(t.left, x, s, lo, k - 1))
                                    else t.(right := Remove(t.right, x, s, lo + Pow2(k - 1), k - 1)))
      && if s < lo + Pow2(k - 1) then Holds(t.left, x, s) else Holds(t.right, x, s)
  {
    HereOrBelow(t, x, s, lo, k);
  }

  /** Taking an address from one subtree of a node. */
  lemma DistinctLess(t: Tree, l: Tree, r: Tree, x: nat)
    requires t.Fork? && Distinct(t) && Distinct(l) && Distinct(r)
    requires (l == t.left && x in Addrs(t.right) && Addrs(r) == Addrs(t.right) - {x})
          || (r == t.right && x in Addrs(t.left) && Addrs(l) == Addrs(t.left) - {x})
    ensures Distinct(t.(left := l, right := r)) && Addrs(t.(left := l, right := r)) == Addrs(t) - {x}
  {
    assert x != t.x && x !in t.ring;
  }
}
