/** Slab pages: the grid of objects and the free list in it (kernel/kernel/slab.c:17-42, 60-113). */
module SlabPages {
  import opened Sequences
  import opened Machine
  import opened Division

  const HEADER: nat := 48     // sizeof(SlabHeader)
  const BINS: nat := 24       // SLAB_TOTAL_BINS

  /** The object size of a bin. */
  function Size(b: nat): (r: nat)
    requires b < BINS
    ensures 8 <= r <= 1024 && r % 8 == 0
  {
    [8, 16, 24, 32, 40, 48, 56, 64, 80, 96, 112, 128, 160, 192, 224, 256, 320, 384, 448, 512, 640, 768, 896, 1024][b]
  }

  /** How many objects a page of the bin holds. */
  function Max(b: nat): (r: nat)
    requires b < BINS
    ensures 3 <= r <= 506
  {
    (PAGE - HEADER) / Size(b)
  }

  // ---- the grid -----------------------------------------------------------------------------------

  /** Object `j` of the page at `p`. */
  function Slot(p: nat, size: nat, j: nat): (a: nat)
    ensures a >= p + HEADER
  {
    p + HEADER + j * size
  }

  predicate OnGrid(p: nat, b: nat, a: nat)
    requires b < BINS
  {
    exists j: nat :: j < Max(b) && a == Slot(p, Size(b), j)
  }

  /** Objects lie within the page, behind the header. */
  lemma SlotInPage(p: nat, b: nat, j: nat)
    requires b < BINS && j < Max(b)
    ensures p + HEADER <= Slot(p, Size(b), j) && Slot(p, Size(b), j) + Size(b) <= p + PAGE
  {
    var m, n := Size(b), Max(b);
    assert n * m <= PAGE - HEADER by { assert n == (PAGE - HEADER) / m; }
    if j + 1 < n { MulStep(n, j + 1, m); }
    assert (j + 1) * m == j * m + m;
  }

  /** Different objects of a page do not overlap. */
  lemma SlotsApart(p: nat, size: nat, i: nat, j: nat)
    requires i < j
    ensures Slot(p, size, i) + size <= Slot(p, size, j)
  {
    MulStep(j, i, size);
  }

  lemma SlotNext(p: nat, size: nat, j: nat)
    ensures Slot(p, size, j + 1) == Slot(p, size, j) + size && Slot(p, size, 0) == p + HEADER
  {
  }

  /** The page an address is in. */
  function PageOf(a: nat): nat {
    a - a % PAGE
  }

  lemma PageOfObject(p: nat, b: nat, a: nat)
    requires b < BINS && p % PAGE == 0 && OnGrid(p, b, a)
    ensures PageOf(a) == p && p < a < p + PAGE
  {
    var j: nat :| j < Max(b) && a == Slot(p, Size(b), j);
    SlotInPage(p, b, j);
  }

  // ---- the free list ------------------------------------------------------------------------------

  function Get(word: map<nat, nat>, a: nat): nat {
    if a in word then word[a] else 0
  }

  /** The first `n` entries of the free list that begins at `start`. */
  function Chain(word: map<nat, nat>, start: nat, n: nat): (r: seq<nat>)
    ensures |r| == n
    decreases n
  {
    if n == 0 then [] else [start] + Chain(word, Get(word, start), n - 1)
  }

  /** Words outside the list make no difference. */
  lemma {:induction false} ChainFrame(word: map<nat, nat>, word': map<nat, nat>, start: nat, n: nat)
    requires forall a :: a in Chain(word, start, n) ==> Get(word', a) == Get(word, a)
    ensures Chain(word', start, n) == Chain(word, start, n)
    decreases n
  {
    if n > 0 {
      var c := Chain(word, start, n);
      assert c[0] == start && c[1..] == Chain(word, Get(word, start), n - 1);
      forall a | a in Chain(word, Get(word, start), n - 1) ensures Get(word', a) == Get(word, a) { assert a in c; }
      ChainFrame(word, word', Get(word, start), n - 1);
    }
  }

  /** The links the initialisation writes lead from object to object. */
  predicate Linked(word: map<nat, nat>, p: nat, size: nat, n: nat) {
    forall j: nat {:trigger Slot(p, size, j)} :: j < n ==> Get(word, Slot(p, size, j)) == Slot(p, size, j) + size
  }

  /** A list that follows them is the grid, in order. */
  lemma {:induction false} ChainOfGrid(word: map<nat, nat>, p: nat, size: nat, k: nat, n: nat)
    requires k + n > 0 ==> Linked(word, p, size, k + n - 1)
    ensures forall j :: 0 <= j < n ==> Chain(word, Slot(p, size, k), n)[j] == Slot(p, size, k + j)
    decreases n
  {
    hide Slot;
    if n > 1 {
      SlotNext(p, size, k);
      assert Get(word, Slot(p, size, k)) == Slot(p, size, k + 1);
      ChainOfGrid(word, p, size, k + 1, n - 1);
      var rest := Chain(word, Slot(p, size, k + 1), n - 1);
      assert Chain(word, Slot(p, size, k), n) == [Slot(p, size, k)] + rest;
      forall j | 0 <= j < n ensures ([Slot(p, size, k)] + rest)[j] == Slot(p, size, k + j) {
        if j > 0 { assert rest[j - 1] == Slot(p, size, (k + 1) + (j - 1)); }
      }
    }
  }

  lemma GridChain(word: map<nat, nat>, p: nat, b: nat)
    requires b < BINS && Linked(word, p, Size(b), Max(b) - 1)
    ensures var c := Chain(word, p + HEADER, Max(b));
      NoDup(c) && (forall a :: a in c ==> OnGrid(p, b, a)) && forall a :: OnGrid(p, b, a) ==> a in c
  {
    hide Chain, Slot, Max, Size;
    var size, n := Size(b), Max(b);
    SlotNext(p, size, 0);
    ChainOfGrid(word, p, size, 0, n);
    var c := Chain(word, p + HEADER, n);
    forall i, j | 0 <= i < j < n ensures c[i] != c[j] { SlotsApart(p, size, i, j);
        assert c[i] == Slot(p, size, 0 + i) && c[j] == Slot(p, size, 0 + j); }
    forall a | a in c ensures OnGrid(p, b, a) { var j :| 0 <= j < n && c[j] == a; assert a == Slot(p, size, 0 + j); }
    forall a | OnGrid(p, b, a) ensures a in c { var j: nat :| j < n && a == Slot(p, size, j);
        assert c[j] == Slot(p, size, 0 + j); }
  }

  /** The zero written at the end of the page hits none of the links before the last: it is on the grid only when the
      object size divides the room, and then it is the last object. */
  lemma TerminatorHarmless(p: nat, b: nat, j: nat)
    requires b < BINS && j < Max(b) - 1
    ensures Slot(p, Size(b), j) != p + PAGE - Size(b)
  {
    SlotInPage(p, b, j + 1);
    SlotNext(p, Size(b), j);
  }

  /** The last link is null exactly for the object sizes that divide the room; for the others it leads past the last
      object. */
  lemma LastLink(p: nat, b: nat)
    requires b < BINS
    ensures Slot(p, Size(b), Max(b) - 1) == p + PAGE - Size(b) <==> (PAGE - HEADER) % Size(b) == 0
  {
    var m, n := Size(b), Max(b);
    assert (PAGE - HEADER) == n * m + (PAGE - HEADER) % m;
    assert (n - 1) * m == n * m - m;
  }

  // ---- counting -----------------------------------------------------------------------------------

  /** The first `n` objects of a page. */
  ghost function Grid(p: nat, size: nat, n: nat): set<nat> {
    if n == 0 then {} else Grid(p, size, n - 1) + {Slot(p, size, n - 1)}
  }

  lemma {:induction false} GridMembers(p: nat, size: nat, n: nat, a: nat)
    ensures a in Grid(p, size, n) <==> exists j: nat :: j < n && a == Slot(p, size, j)
  {
    hide Slot;
    if n > 0 { GridMembers(p, size, n - 1, a); }
  }

  lemma {:induction false} GridSize(p: nat, size: nat, n: nat)
    requires size > 0
    ensures |Grid(p, size, n)| == n
  {
    if n > 0 {
      GridSize(p, size, n - 1);
      GridMembers(p, size, n - 1, Slot(p, size, n - 1));
      forall j: nat | j < n - 1 ensures Slot(p, size, j) != Slot(p, size, n - 1) { SlotsApart(p, size, j, n - 1); }
    }
  }

  ghost function Elements(s: seq<nat>): (r: set<nat>)
    ensures forall a :: a in s <==> a in r
  {
    set a | a in s
  }

  lemma {:induction false} ElementsSize(s: seq<nat>)
    requires NoDup(s)
    ensures |Elements(s)| == |s|
  {
    if s != [] {
      var n := |s| - 1;
      ElementsSize(s[..n]);
      assert s == s[..n] + [s[n]];
      assert Elements(s) == Elements(s[..n]) + {s[n]};
    }
  }

  /** A list of distinct objects of a page covers the page exactly when it is as long as the grid. */
  lemma Covers(p: nat, b: nat, c: seq<nat>)
    requires b < BINS && NoDup(c) && |c| <= Max(b) && forall a :: a in c ==> OnGrid(p, b, a)
    ensures |c| == Max(b) <==> forall a :: OnGrid(p, b, a) ==> a in c
  {
    var grid, all := Grid(p, Size(b), Max(b)), Elements(c);
    hide Slot, Max, Size;
    GridSize(p, Size(b), Max(b));
    ElementsSize(c);
    forall a ensures a in grid <==> OnGrid(p, b, a) { GridMembers(p, Size(b), Max(b), a); }
    hide Grid;
    assert all <= grid;
    if |c| == Max(b) { SubsetFull(all, grid); }
    if forall a :: OnGrid(p, b, a) ==> a in c { assert grid <= all; assert all == grid; }
  }

  lemma SubsetFull(s: set<nat>, t: set<nat>)
    requires s <= t && |s| == |t|
    ensures s == t
  {
    assert t == s + (t - s);
    assert |t - s| == 0;
  }
}
