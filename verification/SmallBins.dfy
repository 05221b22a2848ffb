/** The small bins: rings of free chunks of one size behind a bin header (userspace/libc/malloc.c:2470-2500,
3570-3640). */
module SmallBins {
  import opened Sequences
  import opened BinMaps

  const BINS: nat := 32
  const LIMIT: nat := 256   // MIN_LARGE_SIZE

  /** What a link can lead to: a bin header or a chunk. */
  datatype Ref = Header(bin: nat) | Chunk(at: nat)

  /** small_index. */
  function SmallIndex(s: nat): nat {
    s / 8
  }

  /** small_index2size. */
  function SizeOf(i: nat): nat {
    i * 8
  }

  // ---- rings --------------------------------------------------------------------------------------

  function Next(c: seq<Ref>, j: nat): Ref
    requires j < |c|
  {
    if j + 1 < |c| then c[j + 1] else c[0]
  }

  ghost predicate Ring(fd: map<Ref, Ref>, bk: map<Ref, Ref>, c: seq<Ref>) {
    forall j :: 0 <= j < |c| ==> Joined(fd, bk, c[j], Next(c, j))
  }

  predicate Joined(fd: map<Ref, Ref>, bk: map<Ref, Ref>, a: Ref, b: Ref) {
    a in fd && b in bk && fd[a] == b && bk[b] == a
  }

  /** The ring of a bin: its header and its chunks. */
  function RingOf(i: nat, l: seq<nat>): (c: seq<Ref>)
    ensures |c| == |l| + 1 && c[0] == Header(i) && forall j :: 0 < j <= |l| ==> c[j] == Chunk(l[j - 1])
  {
    seq(|l| + 1, j requires 0 <= j <= |l| => if j == 0 then Header(i) else Chunk(l[j - 1]))
  }

  lemma RingDistinct(i: nat, l: seq<nat>)
    requires NoDup(l)
    ensures NoDup(RingOf(i, l))
  {
  }

  /** A ring none of whose members is written stays a ring. */
  lemma RingFrame(fd: map<Ref, Ref>, bk: map<Ref, Ref>, fd': map<Ref, Ref>, bk': map<Ref, Ref>, c: seq<Ref>)
    requires Ring(fd, bk, c)
    requires forall j :: 0 <= j < |c| ==> (c[j] in fd ==> c[j] in fd' && fd'[c[j]] == fd[c[j]])
    requires forall j :: 0 <= j < |c| ==> (c[j] in bk ==> c[j] in bk' && bk'[c[j]] == bk[c[j]])
    ensures Ring(fd', bk', c)
  {
    forall j | 0 <= j < |c| ensures Joined(fd', bk', c[j], Next(c, j)) {
      var k := if j + 1 < |c| then j + 1 else 0;
      assert c[k] == Next(c, j);
      assert Joined(fd, bk, c[j], Next(c, j));
    }
  }

  /** Linking `p` between the header and what follows it. */
  lemma RingInsert(fd: map<Ref, Ref>, bk: map<Ref, Ref>, i: nat, l: seq<nat>, p: nat)
    requires NoDup(l) && p !in l && (l != [] ==> Ring(fd, bk, RingOf(i, l)))
    ensures var f := if l == [] then Header(i) else Chunk(l[0]);
      Ring(fd[Header(i) := Chunk(p)][Chunk(p) := f], bk[f := Chunk(p)][Chunk(p) := Header(i)], RingOf(i, [p] + l))
  {
    var f := if l == [] then Header(i) else Chunk(l[0]);
    var fd', bk' := fd[Header(i) := Chunk(p)][Chunk(p) := f], bk[f := Chunk(p)][Chunk(p) := Header(i)];
    var c, d := RingOf(i, l), RingOf(i, [p] + l);
    forall j | 0 <= j < |d| ensures Joined(fd', bk', d[j], Next(d, j)) {
      if j >= 2 {
        assert d[j] == c[j - 1] && Next(d, j) == Next(c, j - 1);
        assert Joined(fd, bk, c[j - 1], Next(c, j - 1));
      } else if j == 1 {
        assert Next(d, 1) == f;
      }
    }
  }

  /** Linking the neighbours of the chunk at place `k` to each other. */
  lemma RingCut(fd: map<Ref, Ref>, bk: map<Ref, Ref>, i: nat, l: seq<nat>, k: nat)
    requires NoDup(l) && Ring(fd, bk, RingOf(i, l)) && k < |l|
    ensures var p := Chunk(l[k]);
      && p in fd && p in bk
      && fd[p] == (if k + 1 < |l| then Chunk(l[k + 1]) else Header(i))
      && bk[p] == (if k == 0 then Header(i) else Chunk(l[k - 1]))
      && (|l| >= 2 ==> Ring(fd[bk[p] := fd[p]], bk[fd[p] := bk[p]], RingOf(i, l[..k] + l[k + 1..])))
  {
    var c := RingOf(i, l);
    assert Joined(fd, bk, c[k + 1], Next(c, k + 1));
    assert Joined(fd, bk, c[k], Next(c, k));
    var p := Chunk(l[k]);
    if |l| >= 2 {
      var d := RingOf(i, l[..k] + l[k + 1..]);
      RingDistinct(i, l);
      forall j | 0 <= j < |d| ensures Joined(fd[bk[p] := fd[p]], bk[fd[p] := bk[p]], d[j], Next(d, j)) {
        var o := if j <= k then j else j + 1;
        assert d[j] == c[o];
        assert Joined(fd, bk, c[o], Next(c, o));
        if j != k {
          assert Next(d, j) == Next(c, o) && c[o] != c[k];
          assert Next(c, o) != Next(c, k + 1);
        }
      }
    }
  }

  // ---- all bins -----------------------------------------------------------------------------------

  /** A marked bin holds a ring; the links of an unmarked one mean nothing. */
  ghost predicate Shape(fd: map<Ref, Ref>, bk: map<Ref, Ref>, smallmap: BinMap, lists: seq<seq<nat>>) {
    |lists| == BINS && forall i :: 0 <= i < BINS ==> smallmap[i] == (lists[i] != []) && Linked(fd, bk, i, lists[i])
  }

  ghost predicate Linked(fd: map<Ref, Ref>, bk: map<Ref, Ref>, i: nat, l: seq<nat>) {
    NoDup(l) && (l != [] ==> Ring(fd, bk, RingOf(i, l)))
  }

  predicate InBin(contents: map<nat, nat>, a: nat, i: nat) {
    a in contents && contents[a] == SizeOf(i)
  }

  /** The bins hold exactly the chunks of `contents`, each in the bin of its size. */
  ghost predicate Holding(lists: seq<seq<nat>>, contents: map<nat, nat>) {
    && |lists| == BINS
    && (forall i, a: nat :: 0 <= i < BINS ==> (a in lists[i]) == InBin(contents, a, i))
    && (forall a :: a in contents ==> a != 0 && contents[a] < LIMIT && contents[a] % 8 == 0)
  }

  /** Writing links of bin `i`, of its chunks and of `p` leaves the other bins alone. */
  lemma Others(fd: map<Ref, Ref>, bk: map<Ref, Ref>, fd': map<Ref, Ref>, bk': map<Ref, Ref>, smallmap: BinMap,
               lists: seq<seq<nat>>, contents: map<nat, nat>, i: nat, p: nat, j: nat)
    requires Shape(fd, bk, smallmap, lists) && Holding(lists, contents) && i < BINS
    requires j < BINS && i != j
    requires p in contents ==> contents[p] == SizeOf(i)
    requires forall r :: r != Header(i) && r != Chunk(p) && !(r.Chunk? && r.at in lists[i]) ==>
      (r in fd ==> r in fd' && fd'[r] == fd[r]) && (r in bk ==> r in bk' && bk'[r] == bk[r])
    ensures Linked(fd', bk', j, lists[j])
  {
    assert Linked(fd, bk, j, lists[j]);
    if lists[j] != [] {
      var c := RingOf(j, lists[j]);
      forall k | 0 <= k < |c| ensures c[k] != Header(i) && c[k] != Chunk(p) && !(c[k].Chunk? && c[k].at in lists[i]) {
        if k > 0 {
          assert InBin(contents, lists[j][k - 1], j);
          assert !InBin(contents, lists[j][k - 1], i);
        }
      }
      RingFrame(fd, bk, fd', bk', c);
    }
  }

  lemma ShapeStep(fd: map<Ref, Ref>, bk: map<Ref, Ref>, fd': map<Ref, Ref>, bk': map<Ref, Ref>, smallmap: BinMap,
                  smallmap': BinMap,
                  lists: seq<seq<nat>>, contents: map<nat, nat>, i: nat, p: nat, l: seq<nat>)
    requires Shape(fd, bk, smallmap, lists) && Holding(lists, contents) && i < BINS
    requires p in contents ==> contents[p] == SizeOf(i)
    requires forall r :: r != Header(i) && r != Chunk(p) && !(r.Chunk? && r.at in lists[i]) ==>
      (r in fd ==> r in fd' && fd'[r] == fd[r]) && (r in bk ==> r in bk' && bk'[r] == bk[r])
    requires Linked(fd', bk', i, l) && smallmap'[i] == (l != [])
    requires forall j :: 0 <= j < BINS && j != i ==> smallmap'[j] == smallmap[j]
    ensures Shape(fd', bk', smallmap', lists[i := l])
  {
    hide Linked, Holding;
    forall j | 0 <= j < BINS && j != i ensures Linked(fd', bk', j, lists[j]) {
      Others(fd, bk, fd', bk', smallmap, lists, contents, i, p, j);
    }
  }

  lemma HoldingInsert(lists: seq<seq<nat>>, contents: map<nat, nat>, i: nat, p: nat)
    requires Holding(lists, contents) && p != 0 && p !in contents && i < BINS
    ensures Holding(lists[i := [p] + lists[i]], contents[p := SizeOf(i)])
  {
    var lists', contents' := lists[i := [p] + lists[i]], contents[p := SizeOf(i)];
    forall j, a: nat | 0 <= j < BINS ensures (a in lists'[j]) == InBin(contents', a, j) {
      assert (a in lists[j]) == InBin(contents, a, j);
    }
  }

  lemma HoldingCut(lists: seq<seq<nat>>, contents: map<nat, nat>, i: nat, k: nat)
    requires Holding(lists, contents) && i < BINS && k < |lists[i]| && NoDup(lists[i])
    ensures Holding(lists[i := lists[i][..k] + lists[i][k + 1..]], contents - {lists[i][k]})
  {
    var l := lists[i];
    var p := l[k];
    var lists', contents' := lists[i := l[..k] + l[k + 1..]], contents - {p};
    assert InBin(contents, p, i);
    forall j, a: nat | 0 <= j < BINS ensures (a in lists'[j]) == InBin(contents', a, j) {
      assert (a in lists[j]) == InBin(contents, a, j);
      if j == i { CutMembers(l, k, a); }
    }
  }

  lemma CutMembers(l: seq<nat>, k: nat, a: nat)
    requires NoDup(l) && k < |l|
    ensures a in l[..k] + l[k + 1..] <==> a in l && a != l[k]
  {
    var w := l[..k] + l[k + 1..];
    if a in l && a != l[k] {
      var j :| 0 <= j < |l| && l[j] == a;
      assert w[if j < k then j else j - 1] == a;
    }
    if a in w {
      var j :| 0 <= j < |w| && w[j] == a;
      assert l[if j < k then j else j + 1] == a;
    }
  }

  lemma InsertedShape(fd: map<Ref, Ref>, bk: map<Ref, Ref>, fd': map<Ref, Ref>, bk': map<Ref, Ref>, smallmap: BinMap,
                      smallmap': BinMap,
                      lists: seq<seq<nat>>, contents: map<nat, nat>, i: nat, p: nat)
    requires Shape(fd, bk, smallmap, lists) && Holding(lists, contents) && i < BINS && p !in contents
    requires var f := if lists[i] == [] then Header(i) else Chunk(lists[i][0]);
      fd' == fd[Header(i) := Chunk(p)][Chunk(p) := f] && bk' == bk[f := Chunk(p)][Chunk(p) := Header(i)]
    requires smallmap'[i] && forall j :: 0 <= j < BINS && j != i ==> smallmap'[j] == smallmap[j]
    ensures Shape(fd', bk', smallmap', lists[i := [p] + lists[i]])
  {
    var l := lists[i];
    assert Linked(fd, bk, i, l);
    assert !InBin(contents, p, i);
    RingInsert(fd, bk, i, l, p);
    assert Linked(fd', bk', i, [p] + l);
    hide Linked, Ring, RingOf;
    ShapeStep(fd, bk, fd', bk', smallmap, smallmap', lists, contents, i, p, [p] + l);
  }

  /** Taking the chunk at place `k` out of bin `i`. */
  lemma CutShape(fd: map<Ref, Ref>, bk: map<Ref, Ref>, smallmap: BinMap, lists: seq<seq<nat>>, contents: map<nat,
                 nat>, i: nat, k: nat)
    requires Shape(fd, bk, smallmap, lists) && Holding(lists, contents) && i < BINS && k < |lists[i]|
    ensures var l := lists[i]; var p := Chunk(l[k]);
      var lists' := lists[i := l[..k] + l[k + 1..]];
      && NoDup(l) && p in fd && p in bk && (k == 0 ==> bk[p] == Header(i))
      && if bk[p] == fd[p] then Shape(fd, bk, And(smallmap, Not(IdxToBit(i))), lists')
         else Shape(fd[bk[p] := fd[p]], bk[fd[p] := bk[p]], smallmap, lists')
  {
    var l := lists[i];
    assert Linked(fd, bk, i, l);
    RingCut(fd, bk, i, l, k);
    var p, l' := Chunk(l[k]), l[..k] + l[k + 1..];
    assert InBin(contents, l[k], i);
    CutNoDup(l, k);
    if bk[p] == fd[p] {
      Only(i, l, k);
      assert Linked(fd, bk, i, l');
      hide Linked, Ring, RingOf;
      ShapeStep(fd, bk, fd, bk, smallmap, And(smallmap, Not(IdxToBit(i))), lists, contents, i, l[k], l');
    } else {
      var fd', bk' := fd[bk[p] := fd[p]], bk[fd[p] := bk[p]];
      assert |l| >= 2;
      assert Linked(fd', bk', i, l');
      hide Linked, Ring, RingOf;
      ShapeStep(fd, bk, fd', bk', smallmap, smallmap, lists, contents, i, l[k], l');
    }
  }

  /** A chunk whose two neighbours are the same is alone with the header. */
  lemma Only(i: nat, l: seq<nat>, k: nat)
    requires NoDup(l) && k < |l|
    requires (if k + 1 < |l| then Chunk(l[k + 1]) else Header(i)) == (if k == 0 then Header(i) else Chunk(l[k - 1]))
    ensures |l| == 1
  {
  }

  lemma CutNoDup(l: seq<nat>, k: nat)
    requires NoDup(l) && k < |l|
    ensures NoDup(l[..k] + l[k + 1..])
  {
    var w := l[..k] + l[k + 1..];
    assert forall j :: 0 <= j < |w| ==> w[j] == l[if j < k then j else j + 1];
  }

  class Bins {
    var fd: map<Ref, Ref>
    var bk: map<Ref, Ref>
    var smallmap: BinMap
    ghost var lists: seq<seq<nat>>
    ghost var contents: map<nat, nat>   // address to size

    ghost predicate Valid()
      reads this
    {
      Shape(fd, bk, smallmap, lists) && Holding(lists, contents)
    }

    constructor ()
      ensures Valid() && contents == map[]
    {
      fd, bk, smallmap := map[], map[], seq(32, _ => false);
      lists, contents := seq(BINS, _ => []), map[];
    }

    /** insert_small_chunk. */
    method Insert(p: nat, s: nat)
      requires Valid() && p != 0 && p !in contents
      requires s < LIMIT && s % 8 == 0
      modifies this
      ensures Valid() && contents == old(contents)[p := s] && |old(lists)| == |lists| == BINS
      ensures lists == old(lists)[SmallIndex(s) := [p] + old(lists)[SmallIndex(s)]]
    {
      var i := SmallIndex(s);
      assert SizeOf(i) == s && i < BINS;
      ghost var l := lists[i];
      assert Linked(fd, bk, i, l);
      var f := Header(i);
      ghost var smallmap0 := smallmap;
      if !smallmap[i] {
        smallmap := Or(smallmap, IdxToBit(i));
      } else {
        assert Joined(fd, bk, RingOf(i, l)[0], Next(RingOf(i, l), 0));
        f := fd[Header(i)];
      }
      ghost var fd0, bk0 := fd, bk;
      fd := fd[Header(i) := Chunk(p)];
      bk := bk[f := Chunk(p)];
      fd := fd[Chunk(p) := f];
      bk := bk[Chunk(p) := Header(i)];
      InsertedShape(fd0, bk0, fd, bk, smallmap0, smallmap, lists, contents, i, p);
      HoldingInsert(lists, contents, i, p);
      lists, contents := lists[i := [p] + l], contents[p := s];
    }

    /** unlink_small_chunk. */
    method Unlink(p: nat, s: nat)
      requires Valid() && p in contents && contents[p] == s
      modifies this
      ensures Valid() && contents == old(contents) - {p}
    {
      var i := SmallIndex(s);
      assert SizeOf(i) == s && i < BINS;
      assert InBin(contents, p, i);
      ghost var l := lists[i];
      ghost var k :| 0 <= k < |l| && l[k] == p;
      CutShape(fd, bk, smallmap, lists, contents, i, k);
      HoldingCut(lists, contents, i, k);
      hide *;
      var f := fd[Chunk(p)];
      var b := bk[Chunk(p)];
      if b == f {
        smallmap := And(smallmap, Not(IdxToBit(i)));
      } else {
        bk := bk[f := b];
        fd := fd[b := f];
      }
      lists, contents := lists[i := l[..k] + l[k + 1..]], contents - {p};
      assert Valid();
    }

    /** unlink_first_small_chunk, with the fetch of the first chunk of bin `i`. */
    method UnlinkFirst(i: nat) returns (p: nat)
      requires Valid() && i < BINS && smallmap[i]
      modifies this
      ensures Valid() && p in old(contents) && old(contents)[p] == SizeOf(i) && contents == old(contents) - {p}
      ensures |old(lists)| == |lists| == BINS && old(lists)[i] == [p] + lists[i]
    {
      assert Linked(fd, bk, i, lists[i]);
      ghost var l := lists[i];
      CutShape(fd, bk, smallmap, lists, contents, i, 0);
      HoldingCut(lists, contents, i, 0);
      assert InBin(contents, l[0], i);
      assert Joined(fd, bk, RingOf(i, l)[0], Next(RingOf(i, l), 0));
      assert fd[Header(i)] == Chunk(l[0]);
      hide *;
      p := fd[Header(i)].at;
      var f := fd[Chunk(p)];
      if Header(i) == f {
        smallmap := And(smallmap, Not(IdxToBit(i)));
      } else {
        bk := bk[f := Header(i)];
        fd := fd[Header(i) := f];
      }
      assert l == [l[0]] + l[1..] && l[..0] + l[1..] == l[1..];
      lists, contents := lists[i := l[..0] + l[1..]], contents - {p};
      assert Valid();
    }
  }
}
