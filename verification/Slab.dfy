/** The slab allocator (kernel/kernel/slab.c:46-164). */
module Slab {
  import opened Sequences
  import opened Machine
  import opened SlabPages
  import opened SlabLists

  const START: nat := 0xFFFF_9000_0000_0000   // SLAB_VIRT_START

  datatype Bin = Bin(free: nat, full: nat)

  /** The bins, the slab headers by page address, the words objects begin with, slab_top, and the frame of each page. */
  datatype Pool = Pool(bins: seq<Bin>, slabs: Slabs, word: map<nat, nat>, top: nat, mapped: map<nat, nat>)

  /** The free and the full slabs of each bin, in list order. */
  datatype Lists = Lists(free: seq<seq<nat>>, full: seq<seq<nat>>)

  // ---- the invariant ------------------------------------------------------------------------------

  /** Slabs of bin `b` with room. */
  predicate WithRoom(slabs: Slabs, b: nat, s: seq<nat>)
    requires b < BINS
  {
    forall p :: p in s ==> p in slabs && slabs[p].bin == b && slabs[p].count < Max(b)
  }

  /** Full slabs of bin `b`. */
  predicate Filled(slabs: Slabs, b: nat, s: seq<nat>)
    requires b < BINS
  {
    forall p :: p in s ==> p in slabs && slabs[p].bin == b && slabs[p].count == Max(b)
  }

  ghost predicate BinOk(slabs: Slabs, bin: Bin, b: nat, f: seq<nat>, g: seq<nat>)
    requires b < BINS
  {
    List(slabs, bin.free, f) && List(slabs, bin.full, g) && WithRoom(slabs, b, f) && Filled(slabs, b, g)
  }

  /** Every slab is in the list of its bin and its state. */
  ghost predicate ListsOk(bins: seq<Bin>, slabs: Slabs, l: Lists) {
    && |bins| == |l.free| == |l.full| == BINS
    && (forall b :: 0 <= b < BINS ==> BinOk(slabs, bins[b], b, l.free[b], l.full[b]))
    && forall p :: p in slabs ==> slabs[p].bin < BINS && (p in l.free[slabs[p].bin] || p in l.full[slabs[p].bin])
  }

  /** The free objects of a slab. */
  function FreeObjects(word: map<nat, nat>, slab: Slab): seq<nat>
    requires slab.bin < BINS && slab.count <= Max(slab.bin)
  {
    Chain(word, slab.nextFree, Max(slab.bin) - slab.count)
  }

  ghost predicate PageOk(word: map<nat, nat>, p: nat, slab: Slab) {
    && p % PAGE == 0 && slab.bin < BINS && slab.count <= Max(slab.bin) && NoDup(FreeObjects(word, slab))
    && forall a :: a in FreeObjects(word, slab) ==> OnGrid(p, slab.bin, a)
  }

  ghost predicate PagesOk(h: Pool) {
    && h.top % PAGE == 0 && h.mapped.Keys == h.slabs.Keys
    && (forall p ::
         p in h.slabs ==>
         START <= p < START + h.top && PageOk(h.word, p, h.slabs[p]) && h.mapped[p] == h.slabs[p].phys)
    && forall p, q :: p in h.mapped && q in h.mapped && p != q ==> h.mapped[p] != h.mapped[q]
  }

  ghost predicate Inv(h: Pool, l: Lists) {
    ListsOk(h.bins, h.slabs, l) && PagesOk(h)
  }

  /** No page is kept without an object in use. */
  predicate Busy(slabs: Slabs) {
    forall p :: p in slabs ==> slabs[p].count > 0
  }

  /** `a` is an object in use. */
  predicate IsLive(h: Pool, a: nat) {
    var p := PageOf(a);
    p in h.slabs && Held(h.word, p, h.slabs[p], a)
  }

  predicate Held(word: map<nat, nat>, p: nat, slab: Slab, a: nat) {
    slab.bin < BINS && slab.count <= Max(slab.bin) && OnGrid(p, slab.bin, a) && a !in FreeObjects(word, slab)
  }

  // ---- moving a slab between lists ----------------------------------------------------------------

  ghost predicate Disjoint(s: seq<nat>, t: seq<nat>) {
    forall p :: p in s ==> p !in t
  }

  /** Slab `s[i]` leaves list `s` and goes to the front of list `t`. */
  lemma Move(slabs: Slabs, hs: nat, s: seq<nat>, i: nat, ht: nat, t: seq<nat>)
    requires List(slabs, hs, s) && List(slabs, ht, t) && Disjoint(s, t) && i < |s|
    ensures s[i] in slabs && s[i] in Unlink(slabs, s[i])
    ensures var slabs' := Push(Unlink(slabs, s[i]), ht, s[i]);
      && List(slabs', HeadWithout(slabs, hs, s[i]), RemoveAt(s, i)) && List(slabs', s[i], [s[i]] + t)
      && OnlyLinks(slabs, slabs') && forall q :: q in slabs && q !in s && q !in t ==> slabs'[q] == slabs[q]
  {
    hide List, Unlink, Push, HeadWithout;
    var p := s[i];
    assert p in s;
    UnlinkShape(slabs, hs, s, i);
    UnlinkList(slabs, hs, s, i);
    var mid := Unlink(slabs, p);
    ListFrame(slabs, mid, ht, t) by { Members(slabs, ht, t); }
    NotNull(slabs, hs, s, i);
    PushList(mid, ht, t, p);
    var slabs' := Push(mid, ht, p);
    assert forall q :: q in RemoveAt(s, i) ==> q in s;
    ListFrame(mid, slabs', HeadWithout(slabs, hs, p), RemoveAt(s, i)) by { Members(mid, HeadWithout(slabs, hs, p),
        RemoveAt(s, i)); }
  }

  lemma Members(slabs: Slabs, head: nat, s: seq<nat>)
    requires List(slabs, head, s)
    ensures forall p :: p in s ==> p in slabs
  {
    forall p | p in s ensures p in slabs { var i :| 0 <= i < |s| && s[i] == p; assert SlabLists.Placed(slabs, s, i); }
  }

  lemma NotNull(slabs: Slabs, head: nat, s: seq<nat>, i: nat)
    requires List(slabs, head, s) && i < |s|
    ensures s[i] != 0 && s[i] in slabs && (i == 0 ==> head == s[0] && slabs[s[0]].prev == 0)
  {
    assert SlabLists.Placed(slabs, s, i);
  }

  /** Bins none of whose slabs change stay as they are. */
  lemma BinFrame(slabs: Slabs, slabs': Slabs, bin: Bin, b: nat, f: seq<nat>, g: seq<nat>)
    requires b < BINS && BinOk(slabs, bin, b, f, g)
    requires forall p :: p in slabs && slabs[p].bin == b ==> p in slabs' && slabs'[p] == slabs[p]
    ensures BinOk(slabs', bin, b, f, g)
  {
    hide List;
    ListFrame(slabs, slabs', bin.free, f);
    ListFrame(slabs, slabs', bin.full, g);
  }

  /** Slabs of other bins are as they were. */
  ghost predicate OthersSame(slabs: Slabs, slabs': Slabs, b: nat) {
    forall q :: q in slabs && slabs[q].bin != b ==> q in slabs' && slabs'[q] == slabs[q]
  }

  /** The slab's count and free list change, not its links. */
  function Recount(slabs: Slabs, p: nat, nextFree: nat, count: nat): Slabs
    requires p in slabs
  {
    slabs[p := slabs[p].(nextFree := nextFree, count := count)]
  }

  lemma SidesApart(slabs: Slabs, bin: Bin, b: nat, f: seq<nat>, g: seq<nat>)
    requires b < BINS && BinOk(slabs, bin, b, f, g)
    ensures Disjoint(f, g) && Disjoint(g, f)
  {
  }

  lemma RecountLists(slabs: Slabs, bin: Bin, b: nat, f: seq<nat>, g: seq<nat>, p: nat, nextFree: nat, count: nat)
    requires b < BINS && BinOk(slabs, bin, b, f, g) && p in slabs && slabs[p].bin == b
    ensures var slabs1 := Recount(slabs, p, nextFree, count);
      List(slabs1, bin.free, f) && List(slabs1, bin.full, g) && OthersSame(slabs, slabs1, b)
  {
    hide List;
    ListFrame(slabs, Recount(slabs, p, nextFree, count), bin.free, f);
    ListFrame(slabs, Recount(slabs, p, nextFree, count), bin.full, g);
  }

  /** The slab keeps room. */
  lemma BinStays(slabs: Slabs, bin: Bin, b: nat, f: seq<nat>, g: seq<nat>, p: nat, nextFree: nat, count: nat)
    requires b < BINS && BinOk(slabs, bin, b, f, g) && p in f && count < Max(b)
    ensures p in slabs && BinOk(Recount(slabs, p, nextFree, count), bin, b, f, g)
  {
    hide List;
    RecountLists(slabs, bin, b, f, g, p, nextFree, count);
  }

  lemma Removed(s: seq<nat>, i: nat)
    requires NoDup(s) && i < |s|
    ensures s[i] !in RemoveAt(s, i) && forall q :: q in s && q != s[i] <==> q in RemoveAt(s, i)
  {
    forall q | q in s && q != s[i] ensures q in RemoveAt(s, i) {
      var k :| 0 <= k < |s| && s[k] == q;
      assert RemoveAt(s, i)[if k < i then k else k - 1] == q;
    }
  }

  /** The first slab with room becomes full. */
  lemma BinToFull(slabs: Slabs, bin: Bin, b: nat, f: seq<nat>, g: seq<nat>, nextFree: nat)
    requires b < BINS && BinOk(slabs, bin, b, f, g) && f != []
    ensures f[0] in slabs && f[0] in Unlink(Recount(slabs, f[0], nextFree, Max(b)), f[0])
    ensures var p, slabs1 := f[0], Recount(slabs, f[0], nextFree, Max(b));
      var slabs' := Push(Unlink(slabs1, p), bin.full, p);
      && BinOk(slabs', Bin(HeadWithout(slabs1, bin.free, p), p), b, RemoveAt(f, 0), [p] + g)
      && OnlyLinks(slabs1, slabs') && OthersSame(slabs, slabs', b)
  {
    hide List, Push, Unlink, HeadWithout;
    var p := f[0];
    var slabs1 := Recount(slabs, p, nextFree, Max(b));
    RecountLists(slabs, bin, b, f, g, p, nextFree, Max(b));
    SidesApart(slabs, bin, b, f, g);
    Move(slabs1, bin.free, f, 0, bin.full, g);
    assert NoDup(f) by { ListDistinct(slabs, bin.free, f); }
    Removed(f, 0);
  }

  lemma ListDistinct(slabs: Slabs, head: nat, s: seq<nat>)
    requires List(slabs, head, s)
    ensures NoDup(s)
  {
  }

  /** A full slab gets room. */
  lemma BinToFree(slabs: Slabs, bin: Bin, b: nat, f: seq<nat>, g: seq<nat>, i: nat, nextFree: nat)
    requires b < BINS && BinOk(slabs, bin, b, f, g) && i < |g|
    ensures g[i] in slabs && g[i] in Unlink(Recount(slabs, g[i], nextFree, Max(b) - 1), g[i])
    ensures var p, slabs1 := g[i], Recount(slabs, g[i], nextFree, Max(b) - 1);
      var slabs' := Push(Unlink(slabs1, p), bin.free, p);
      && BinOk(slabs', Bin(p, HeadWithout(slabs1, bin.full, p)), b, [p] + f, RemoveAt(g, i))
      && OnlyLinks(slabs1, slabs') && OthersSame(slabs, slabs', b)
  {
    hide List, Push, Unlink, HeadWithout;
    var p := g[i];
    var slabs1 := Recount(slabs, p, nextFree, Max(b) - 1);
    RecountLists(slabs, bin, b, f, g, p, nextFree, Max(b) - 1);
    SidesApart(slabs, bin, b, f, g);
    Move(slabs1, bin.full, g, i, bin.free, f);
    assert NoDup(g) by { ListDistinct(slabs, bin.full, g); }
    Removed(g, i);
  }

  /** A slab leaves the lists. */
  lemma BinDrop(slabs: Slabs, bin: Bin, b: nat, f: seq<nat>, g: seq<nat>, i: nat)
    requires b < BINS && BinOk(slabs, bin, b, f, g) && i < |f|
    ensures f[i] in slabs
    ensures var p := f[i]; var slabs' := Unlink(slabs, p) - {p};
      BinOk(slabs', bin.(free := HeadWithout(slabs, bin.free, p)), b, RemoveAt(f, i), g) && OthersSame(slabs, slabs', b)
      && slabs'.Keys == slabs.Keys - {p}
      && forall q :: q in slabs' ==> slabs'[q] == slabs[q].(next := slabs'[q].next, prev := slabs'[q].prev)
  {
    hide List, Unlink, HeadWithout;
    var p := f[i];
    assert p in f;
    UnlinkShape(slabs, bin.free, f, i);
    UnlinkList(slabs, bin.free, f, i);
    SidesApart(slabs, bin, b, f, g);
    assert NoDup(f) by { ListDistinct(slabs, bin.free, f); }
    Removed(f, i);
    var mid := Unlink(slabs, p);
    var slabs' := mid - {p};
    ListFrame(mid, slabs', HeadWithout(slabs, bin.free, p), RemoveAt(f, i));
    ListFrame(slabs, slabs', bin.full, g);
  }

  /** One bin and its lists change. */
  lemma ListsUpdate(bins: seq<Bin>, slabs: Slabs, l: Lists, b: nat, slabs': Slabs, bin: Bin, f: seq<nat>, g: seq<nat>)
    requires ListsOk(bins, slabs, l) && b < BINS && BinOk(slabs', bin, b, f, g) && OthersSame(slabs, slabs', b)
    requires forall p :: p in slabs' ==> (slabs'[p].bin == b && (p in f || p in g)) || (p in slabs && slabs[p].bin != b)
    ensures ListsOk(bins[b := bin], slabs', Lists(l.free[b := f], l.full[b := g]))
  {
    hide List, WithRoom, Filled;
    forall c | 0 <= c < BINS && c != b ensures BinOk(slabs', bins[c], c, l.free[c], l.full[c]) {
      hide BinOk;
      BinFrame(slabs, slabs', bins[c], c, l.free[c], l.full[c]);
    }
  }

  // ---- one page -----------------------------------------------------------------------------------

  /** The first free object is taken. */
  lemma TakePage(word: map<nat, nat>, p: nat, slab: Slab)
    requires PageOk(word, p, slab) && slab.count < Max(slab.bin)
    ensures var a, slab' := slab.nextFree, slab.(nextFree := Get(word, slab.nextFree), count := slab.count + 1);
      && PageOk(word, p, slab') && OnGrid(p, slab.bin, a) && !Held(word, p, slab, a)
      && forall x :: Held(word, p, slab', x) <==> Held(word, p, slab, x) || x == a
  {
    hide OnGrid, Max;
    var slab' := slab.(nextFree := Get(word, slab.nextFree), count := slab.count + 1);
    var c, c' := FreeObjects(word, slab), FreeObjects(word, slab');
    assert c == [slab.nextFree] + c';
    assert c[0] in c && forall x :: x in c' ==> x in c;
    assert slab.nextFree !in c' by { forall k | 0 <= k < |c'| ensures c'[k] != c[0] { assert c'[k] == c[k + 1]; } }
    assert NoDup(c') by { forall i, j | 0 <= i < j < |c'| ensures c'[i] != c'[j] { assert c'[i] == c[i + 1] &&
        c'[j] == c[j + 1]; } }
  }

  /** An object in use is put in front of the free list. */
  lemma GivePage(word: map<nat, nat>, p: nat, slab: Slab, a: nat)
    requires PageOk(word, p, slab) && slab.count > 0 && Held(word, p, slab, a)
    ensures var word', slab' := word[a := slab.nextFree], slab.(nextFree := a, count := slab.count - 1);
      PageOk(word', p, slab') && forall x :: Held(word', p, slab', x) <==> Held(word, p, slab, x) && x != a
  {
    hide OnGrid, Max;
    var word', slab' := word[a := slab.nextFree], slab.(nextFree := a, count := slab.count - 1);
    var c, c' := FreeObjects(word, slab), FreeObjects(word', slab');
    ChainFrame(word, word', slab.nextFree, |c|);
    assert Get(word', a) == slab.nextFree;
    assert c' == [a] + c;
  }

  /** Words of other pages make no difference. */
  lemma PageFrame(word: map<nat, nat>, word': map<nat, nat>, p: nat, slab: Slab)
    requires PageOk(word, p, slab) && forall a :: PageOf(a) == p ==> Get(word', a) == Get(word, a)
    ensures PageOk(word', p, slab) && forall x :: Held(word', p, slab, x) <==> Held(word, p, slab, x)
  {
    hide OnGrid, Max, PageOf;
    forall a | a in FreeObjects(word, slab) ensures Get(word', a) == Get(word, a) { PageOfObject(p, slab.bin, a); }
    ChainFrame(word, word', slab.nextFree, Max(slab.bin) - slab.count);
  }

  /** A new page has no object in use. */
  lemma NewPage(word: map<nat, nat>, p: nat, b: nat, phys: nat)
    requires b < BINS && p % PAGE == 0 && Linked(word, p, Size(b), Max(b) - 1)
    ensures var slab := Slab(0, p + HEADER, 0, 0, phys, b); PageOk(word, p, slab) && forall x :: !Held(word, p, slab, x)
  {
    hide OnGrid, Max, Size;
    GridChain(word, p, b);
  }

  /** A page has an object in use exactly when its count is not 0. */
  lemma CountHeld(word: map<nat, nat>, p: nat, slab: Slab)
    requires PageOk(word, p, slab)
    ensures slab.count == 0 <==> forall x :: !Held(word, p, slab, x)
  {
    hide OnGrid, Max;
    var c := FreeObjects(word, slab);
    Covers(p, slab.bin, c);
    if forall x :: !Held(word, p, slab, x) {
      forall a | OnGrid(p, slab.bin, a) ensures a in c { assert !Held(word, p, slab, a); }
    }
  }

  // ---- the whole pool -----------------------------------------------------------------------------

  function Unlinked(slab: Slab): Slab {
    slab.(next := 0, prev := 0)
  }

  /** Links aside, only the slab at `p` changes, and it keeps its frame and bin. */
  ghost predicate Touched(slabs: Slabs, slabs': Slabs, p: nat) {
    && slabs'.Keys == slabs.Keys && p in slabs && slabs'[p].phys == slabs[p].phys && slabs'[p].bin == slabs[p].bin
    && forall q :: q in slabs && q != p ==> Unlinked(slabs'[q]) == Unlinked(slabs[q])
  }

  lemma LinksPage(word: map<nat, nat>, p: nat, slab: Slab, slab': Slab)
    requires PageOk(word, p, slab) && Unlinked(slab') == Unlinked(slab)
    ensures PageOk(word, p, slab') && forall x :: Held(word, p, slab', x) <==> Held(word, p, slab, x)
  {
    hide OnGrid, Max, Chain;
    assert slab'.count == Unlinked(slab).count && slab'.bin == Unlinked(slab).bin &&
        slab'.nextFree == Unlinked(slab).nextFree;
    assert FreeObjects(word, slab') == FreeObjects(word, slab);
  }

  /** Objects of other pages stay what they are. */
  ghost predicate ElsewhereSame(h: Pool, h': Pool, p: nat) {
    forall x :: PageOf(x) != p ==> IsLive(h', x) == IsLive(h, x)
  }

  ghost predicate WordsSame(word: map<nat, nat>, word': map<nat, nat>, p: nat) {
    forall a :: PageOf(a) != p ==> Get(word', a) == Get(word, a)
  }

  lemma OtherPage(h: Pool, h': Pool, p: nat, q: nat)
    requires PagesOk(h) && q in h.slabs && q != p
    requires q in h'.slabs && Unlinked(h'.slabs[q]) == Unlinked(h.slabs[q]) && WordsSame(h.word, h'.word, p)
    ensures PageOk(h'.word, q, h'.slabs[q])
    ensures forall x :: Held(h'.word, q, h'.slabs[q], x) <==> Held(h.word, q, h.slabs[q], x)
  {
    hide PageOk, Held, PageOf;
    PageFrame(h.word, h'.word, q, h.slabs[q]);
    LinksPage(h'.word, q, h.slabs[q], h'.slabs[q]);
  }

  lemma StepPages(h: Pool, h': Pool, p: nat)
    requires PagesOk(h) && h'.top == h.top && h'.mapped == h.mapped
    requires Touched(h.slabs, h'.slabs, p) && WordsSame(h.word, h'.word, p)
    requires PageOk(h'.word, p, h'.slabs[p])
    ensures PagesOk(h') && ElsewhereSame(h, h', p)
  {
    hide PageOk, Held, PageOf, WordsSame;
    forall q | q in h.slabs && q != p
      ensures q in h'.slabs && PageOk(h'.word, q, h'.slabs[q]) && h'.slabs[q].phys == h.slabs[q].phys
      ensures forall x :: Held(h'.word, q, h'.slabs[q], x) <==> Held(h.word, q, h.slabs[q], x)
    {
      OtherPage(h, h', p, q);
      assert Unlinked(h'.slabs[q]).phys == Unlinked(h.slabs[q]).phys;
    }
  }

  // ---- taking an object ---------------------------------------------------------------------------

  /** bin_alloc, when the bin has a slab with room. */
  function Taken(h: Pool, b: nat): Pool
    requires b < BINS && b < |h.bins| && h.bins[b].free in h.slabs
  {
    var p, bin := h.bins[b].free, h.bins[b];
    var slab := h.slabs[p];
    var slabs1 := Recount(h.slabs, p, Get(h.word, slab.nextFree), slab.count + 1);
    if slab.count + 1 == Max(b) && p in Unlink(slabs1, p) then
      h.(slabs := Push(Unlink(slabs1, p), bin.full, p), bins := h.bins[b := Bin(HeadWithout(slabs1, bin.free, p), p)])
    else h.(slabs := slabs1)
  }

  ghost function TakenLists(h: Pool, l: Lists, b: nat): Lists
    requires b < BINS && b < |l.free| && b < |l.full|
    requires l.free[b] != [] && l.free[b][0] in h.slabs
  {
    if h.slabs[l.free[b][0]].count + 1 == Max(b) then
        Lists(l.free[b := RemoveAt(l.free[b], 0)], l.full[b := [l.free[b][0]] + l.full[b]]) else l
  }

  /** The first slab of the free list. */
  lemma FirstSlab(h: Pool, l: Lists, b: nat)
    requires Inv(h, l) && b < BINS && l.free[b] != []
    ensures var p := l.free[b][0];
      p == h.bins[b].free && p in h.slabs && p != 0 && h.slabs[p].bin == b && h.slabs[p].count < Max(b) &&
      h.slabs[p].prev == 0
    ensures BinOk(h.slabs, h.bins[b], b, l.free[b], l.full[b]) && |h.bins| == |l.free| == |l.full| == BINS
  {
    assert BinOk(h.slabs, h.bins[b], b, l.free[b], l.full[b]);
    assert l.free[b][0] in l.free[b];
    NotNull(h.slabs, h.bins[b].free, l.free[b], 0);
  }

  lemma TakeLists(h: Pool, l: Lists, b: nat)
    requires Inv(h, l) && b < BINS && l.free[b] != []
    ensures h.bins[b].free in h.slabs && l.free[b][0] in h.slabs
    ensures var h' := Taken(h, b);
      ListsOk(h'.bins, h'.slabs, TakenLists(h, l, b)) && Touched(h.slabs, h'.slabs, h.bins[b].free)
    ensures var p := h.bins[b].free;
      Unlinked(Taken(h, b).slabs[p]) == Unlinked(h.slabs[p].(nextFree := Get(h.word, h.slabs[p].nextFree),
      count := h.slabs[p].count + 1))
  {
    hide Unlink, Push, HeadWithout, BinOk, Max, Chain, PagesOk, RemoveAt;
    FirstSlab(h, l, b);
    var p, bin, f, g := h.bins[b].free, h.bins[b], l.free[b], l.full[b];
    var next, n := Get(h.word, h.slabs[p].nextFree), h.slabs[p].count + 1;
    var slabs1 := Recount(h.slabs, p, next, n);
    if n == Max(b) {
      BinToFull(h.slabs, bin, b, f, g, next);
      var h' := Taken(h, b);
      RemovedFirst(h, bin, b, f, g);
      ListsUpdate(h.bins, h.slabs, l, b, h'.slabs, h'.bins[b], RemoveAt(f, 0), [p] + g);
    } else {
      BinStays(h.slabs, bin, b, f, g, p, next, n);
      ListsUpdate(h.bins, h.slabs, l, b, slabs1, bin, f, g);
      assert h.bins[b := bin] == h.bins && l.free[b := f] == l.free && l.full[b := g] == l.full;
    }
  }

  lemma RemovedFirst(h: Pool, bin: Bin, b: nat, f: seq<nat>, g: seq<nat>)
    requires b < BINS && BinOk(h.slabs, bin, b, f, g) && f != []
    ensures forall q :: q in f || q in g ==> q in RemoveAt(f, 0) || q in [f[0]] + g
  {
    ListDistinct(h.slabs, bin.free, f);
    Removed(f, 0);
  }

  lemma TakeInv(h: Pool, l: Lists, b: nat)
    requires Inv(h, l) && b < BINS && l.free[b] != []
    ensures h.bins[b].free in h.slabs && l.free[b][0] in h.slabs
    ensures var h', p := Taken(h, b), h.bins[b].free; var a := h.slabs[p].nextFree;
      && Inv(h', TakenLists(h, l, b)) && OnGrid(p, b, a) && PageOf(a) == p && !IsLive(h, a)
      && (forall x :: IsLive(h', x) <==> IsLive(h, x) || x == a) && Touched(h.slabs, h'.slabs, p)
      && h'.slabs[p].count == h.slabs[p].count + 1
  {
    hide ListsOk, TakenLists, Taken, PageOk, Held, OnGrid, Max, PageOf, Touched;
    FirstSlab(h, l, b);
    TakeLists(h, l, b);
    var h', p := Taken(h, b), h.bins[b].free;
    var slab, a := h.slabs[p], h.slabs[p].nextFree;
    var slab' := slab.(nextFree := Get(h.word, a), count := slab.count + 1);
    TakePage(h.word, p, slab);
    TakenRest(h, b);
    TouchedKey(h.slabs, h'.slabs, p);
    LinksPage(h.word, p, slab', h'.slabs[p]);
    StepPages(h, h', p);
    PageAligned(h, p);
    PageOfObject(p, b, a);
    assert h'.slabs[p].count == Unlinked(h'.slabs[p]).count;
  }

  lemma PageAligned(h: Pool, p: nat)
    requires PagesOk(h) && p in h.slabs
    ensures p % PAGE == 0
  {
    assert PageOk(h.word, p, h.slabs[p]);
  }

  lemma TouchedKey(slabs: Slabs, slabs': Slabs, p: nat)
    requires Touched(slabs, slabs', p)
    ensures p in slabs' && slabs'.Keys == slabs.Keys
  {
  }

  lemma TakenRest(h: Pool, b: nat)
    requires b < BINS && b < |h.bins| && h.bins[b].free in h.slabs
    ensures var h' := Taken(h, b);
      h'.word == h.word && h'.top == h.top && h'.mapped == h.mapped && WordsSame(h.word, h'.word, h.bins[b].free)
  {
  }

  // ---- a new slab ---------------------------------------------------------------------------------

  /** A page is mapped at slab_top and made the first slab of bin `b`, which has none with room; `word` are the words
      after the initialisation of the page. */
  function Grown(h: Pool, b: nat, phys: nat, word: map<nat, nat>): Pool
    requires b < |h.bins|
  {
    var p := START + h.top;
    Pool(h.bins[b := h.bins[b].(free := p)], h.slabs[p := Slab(0, p + HEADER, 0, 0, phys, b)], word, h.top + PAGE,
        h.mapped[p := phys])
  }

  lemma GrowLists(h: Pool, l: Lists, b: nat, phys: nat, word: map<nat, nat>)
    requires Inv(h, l) && b < BINS && l.free[b] == [] && START + h.top !in h.slabs
    ensures b < |h.bins| && b < |l.free|
    ensures var h' := Grown(h, b, phys, word); ListsOk(h'.bins, h'.slabs, l.(free := l.free[b := [START + h.top]]))
  {
    hide PagesOk, Max;
    var p, h', g := START + h.top, Grown(h, b, phys, word), l.full[b];
    assert BinOk(h.slabs, h.bins[b], b, [], g);
    ListFrame(h.slabs, h'.slabs, h.bins[b].full, g);
    assert List(h'.slabs, p, [p]) by { assert SlabLists.Placed(h'.slabs, [p], 0); }
    hide List;
    assert BinOk(h'.slabs, h'.bins[b], b, [p], g);
    hide BinOk;
    ListsUpdate(h.bins, h.slabs, l, b, h'.slabs, h'.bins[b], [p], g);
    assert l.full[b := g] == l.full;
  }

  lemma NewAddress(h: Pool, l: Lists)
    requires Inv(h, l)
    ensures START + h.top !in h.slabs && (START + h.top) % PAGE == 0 && |h.bins| == |l.free| == |l.full| == BINS
  {
  }

  lemma GrowInv(h: Pool, l: Lists, b: nat, phys: nat, word: map<nat, nat>)
    requires Inv(h, l) && b < BINS && l.free[b] == [] && phys !in h.mapped.Values
    requires WordsSame(h.word, word, START + h.top) && Linked(word, START + h.top, Size(b), Max(b) - 1)
    ensures b < |h.bins| && b < |l.free| && var h' := Grown(h, b, phys, word);
      Inv(h', l.(free := l.free[b := [START + h.top]])) && forall x :: IsLive(h', x) <==> IsLive(h, x)
  {
    hide *;
    NewAddress(h, l);
    InvParts(h, l);
    GrowLists(h, l, b, phys, word);
    GrowPages(h, b, phys, word);
    InvWhole(Grown(h, b, phys, word), l.(free := l.free[b := [START + h.top]]));
  }

  lemma InvParts(h: Pool, l: Lists)
    requires Inv(h, l)
    ensures ListsOk(h.bins, h.slabs, l) && PagesOk(h)
  {
  }

  lemma InvWhole(h: Pool, l: Lists)
    requires ListsOk(h.bins, h.slabs, l) && PagesOk(h)
    ensures Inv(h, l)
  {
  }

  lemma GrowPages(h: Pool, b: nat, phys: nat, word: map<nat, nat>)
    requires PagesOk(h) && b < BINS && b < |h.bins|
    requires phys !in h.mapped.Values && START + h.top !in h.slabs && (START + h.top) % PAGE == 0
    requires WordsSame(h.word, word, START + h.top) && Linked(word, START + h.top, Size(b), Max(b) - 1)
    ensures var h' := Grown(h, b, phys, word); PagesOk(h') && forall x :: IsLive(h', x) <==> IsLive(h, x)
  {
    hide PageOk, Held, PageOf, WordsSame, Linked, Max, Size;
    var p, h' := START + h.top, Grown(h, b, phys, word);
    NewPage(word, p, b, phys);
    forall q | q in h.slabs ensures q != p && PageOk(word, q, h'.slabs[q]) &&
        forall x :: Held(word, q, h'.slabs[q], x) <==> Held(h.word, q, h.slabs[q], x) {
      OtherPage(h, h', p, q);
    }
  }

  // ---- giving an object back ----------------------------------------------------------------------

  /** bin_free up to the lists: the object joins the free list of its slab, and a slab that was full gets room. */
  function Given(h: Pool, a: nat): Pool
    requires PageOf(a) in h.slabs && h.slabs[PageOf(a)].count > 0 && h.slabs[PageOf(a)].bin < BINS
    requires h.slabs[PageOf(a)].bin < |h.bins|
  {
    var p := PageOf(a);
    var slab := h.slabs[p];
    var bin, b := h.bins[slab.bin], slab.bin;
    var h1 := h.(word := h.word[a := slab.nextFree], slabs := Recount(h.slabs, p, a, slab.count - 1));
    if slab.count == Max(b) && p in Unlink(h1.slabs, p) then
      h1.(slabs := Push(Unlink(h1.slabs, p), bin.free, p),
          bins := h.bins[b := Bin(p, HeadWithout(h1.slabs, bin.full, p))])
    else h1
  }

  /** The page goes back when its last object has. */
  function Dropped(h: Pool, p: nat): Pool
    requires p in h.slabs && h.slabs[p].bin < |h.bins|
  {
    var b := h.slabs[p].bin;
    h.(slabs := Unlink(h.slabs, p) - {p},
        bins := h.bins[b := h.bins[b].(free := HeadWithout(h.slabs, h.bins[b].free, p))], mapped := h.mapped - {p})
  }

  lemma GiveLists(h: Pool, l: Lists, a: nat) returns (l': Lists)
    requires Inv(h, l) && IsLive(h, a) && h.slabs[PageOf(a)].count > 0
    ensures h.slabs[PageOf(a)].bin < |h.bins|
    ensures var h', p := Given(h, a), PageOf(a);
      && ListsOk(h'.bins, h'.slabs, l') && Touched(h.slabs, h'.slabs, p)
      && Unlinked(h'.slabs[p]) == Unlinked(h.slabs[p].(nextFree := a, count := h.slabs[p].count - 1))
  {
    hide Unlink, Push, HeadWithout, BinOk, Max, Chain, PagesOk, PageOf, OnGrid, ListsOk, RemoveAt;
    var p, b := PageOf(a), h.slabs[PageOf(a)].bin;
    var slab := h.slabs[p];
    SideOf(h, l, p);
    var bin, f, g, n := h.bins[b], l.free[b], l.full[b], slab.count - 1;
    if n + 1 == Max(b) {
      var i :| 0 <= i < |g| && g[i] == p;
      BinToFree(h.slabs, bin, b, f, g, i, a);
      var h' := Given(h, a);
      GotRoom(h, bin, b, f, g, i);
      ListsUpdate(h.bins, h.slabs, l, b, h'.slabs, h'.bins[b], [p] + f, RemoveAt(g, i));
      l' := Lists(l.free[b := [p] + f], l.full[b := RemoveAt(g, i)]);
    } else {
      BinStays(h.slabs, bin, b, f, g, p, a, n);
      ListsUpdate(h.bins, h.slabs, l, b, Recount(h.slabs, p, a, n), bin, f, g);
      assert h.bins[b := bin] == h.bins;
      l' := Lists(l.free[b := f], l.full[b := g]);
    }
  }

  lemma SideOf(h: Pool, l: Lists, p: nat)
    requires ListsOk(h.bins, h.slabs, l) && p in h.slabs
    ensures |h.bins| == |l.free| == |l.full| == BINS
    ensures var b := h.slabs[p].bin;
      b < BINS && BinOk(h.slabs, h.bins[b], b, l.free[b], l.full[b]) && if h.slabs[p].count == Max(b) then
      p in l.full[b] else p in l.free[b]
    ensures forall q ::
      q in h.slabs && h.slabs[q].bin == h.slabs[p].bin ==> q in l.free[h.slabs[p].bin] || q in l.full[h.slabs[p].bin]
  {
    var b := h.slabs[p].bin;
    assert BinOk(h.slabs, h.bins[b], b, l.free[b], l.full[b]);
  }

  lemma GotRoom(h: Pool, bin: Bin, b: nat, f: seq<nat>, g: seq<nat>, i: nat)
    requires b < BINS && BinOk(h.slabs, bin, b, f, g) && i < |g|
    ensures forall q :: q in f || q in g ==> q in [g[i]] + f || q in RemoveAt(g, i)
  {
    ListDistinct(h.slabs, bin.full, g);
    Removed(g, i);
  }

  lemma GiveInv(h: Pool, l: Lists, a: nat) returns (l': Lists)
    requires Inv(h, l) && IsLive(h, a) && h.slabs[PageOf(a)].count > 0
    ensures h.slabs[PageOf(a)].bin < |h.bins|
    ensures var h', p := Given(h, a), PageOf(a);
      && Inv(h', l') && (forall x :: IsLive(h', x) <==> IsLive(h, x) && x != a)
      && Touched(h.slabs, h'.slabs, p) && h'.slabs[p].count == h.slabs[p].count - 1 && h'.mapped == h.mapped
      && h'.top == h.top
  {
    l' := GiveLists(h, l, a);
    hide ListsOk, Given, PageOk, Held, OnGrid, Max, PageOf, Touched;
    var h', p := Given(h, a), PageOf(a);
    var slab := h.slabs[p];
    var slab' := slab.(nextFree := a, count := slab.count - 1);
    GivePage(h.word, p, slab, a);
    GivenRest(h, a);
    TouchedKey(h.slabs, h'.slabs, p);
    LinksPage(h'.word, p, slab', h'.slabs[p]);
    StepPages(h, h', p);
    assert h'.slabs[p].count == Unlinked(h'.slabs[p]).count;
  }

  lemma GivenRest(h: Pool, a: nat)
    requires PageOf(a) in h.slabs && h.slabs[PageOf(a)].count > 0 && h.slabs[PageOf(a)].bin < BINS
    requires h.slabs[PageOf(a)].bin < |h.bins|
    ensures var h' := Given(h, a);
      h'.word == h.word[a := h.slabs[PageOf(a)].nextFree] && h'.top == h.top && h'.mapped == h.mapped &&
      WordsSame(h.word, h'.word, PageOf(a))
  {
    hide PageOf;
  }

  lemma DropInv(h: Pool, l: Lists, p: nat) returns (l': Lists)
    requires Inv(h, l) && p in h.slabs && h.slabs[p].count == 0
    ensures h.slabs[p].bin < |h.bins|
    ensures var h' := Dropped(h, p);
      && Inv(h', l') && (forall x :: IsLive(h', x) <==> IsLive(h, x))
      && h'.slabs.Keys == h.slabs.Keys - {p}
      && forall q :: q in h'.slabs ==> Unlinked(h'.slabs[q]) == Unlinked(h.slabs[q])
  {
    hide *;
    InvParts(h, l);
    SideOf(h, l, p);
    l' := DropLists(h, l, p);
    DropPages(h, p);
    InvWhole(Dropped(h, p), l');
  }

  lemma DropLists(h: Pool, l: Lists, p: nat) returns (l': Lists)
    requires ListsOk(h.bins, h.slabs, l) && p in h.slabs && h.slabs[p].count == 0
    ensures h.slabs[p].bin < |h.bins|
    ensures var h' := Dropped(h, p);
      && ListsOk(h'.bins, h'.slabs, l') && h'.slabs.Keys == h.slabs.Keys - {p}
      && forall q :: q in h'.slabs ==> Unlinked(h'.slabs[q]) == Unlinked(h.slabs[q])
  {
    hide Unlink, HeadWithout, BinOk, Max, ListsOk, RemoveAt;
    var b := h.slabs[p].bin;
    SideOf(h, l, p);
    var f, g, bin := l.free[b], l.full[b], h.bins[b];
    var i :| 0 <= i < |f| && f[i] == p;
    var h' := Dropped(h, p);
    BinDrop(h.slabs, bin, b, f, g, i);
    LostOne(h, bin, b, f, g, i);
    ListsUpdate(h.bins, h.slabs, l, b, h'.slabs, h'.bins[b], RemoveAt(f, i), g);
    l' := Lists(l.free[b := RemoveAt(f, i)], l.full[b := g]);
  }

  lemma DropPages(h: Pool, p: nat)
    requires PagesOk(h) && p in h.slabs && h.slabs[p].count == 0 && h.slabs[p].bin < |h.bins|
    requires var h' := Dropped(h, p);
      h'.slabs.Keys == h.slabs.Keys - {p} && forall q ::
      q in h'.slabs ==> Unlinked(h'.slabs[q]) == Unlinked(h.slabs[q])
    ensures var h' := Dropped(h, p); PagesOk(h') && forall x :: IsLive(h', x) <==> IsLive(h, x)
  {
    hide Unlink, HeadWithout, PageOk, Held, PageOf;
    var h' := Dropped(h, p);
    CountHeld(h.word, p, h.slabs[p]);
    forall q | q in h'.slabs
      ensures PageOk(h'.word, q, h'.slabs[q]) && h'.slabs[q].phys == h.slabs[q].phys
      ensures forall x :: Held(h'.word, q, h'.slabs[q], x) <==> Held(h.word, q, h.slabs[q], x)
    {
      LinksPage(h.word, q, h.slabs[q], h'.slabs[q]);
      assert Unlinked(h'.slabs[q]).phys == Unlinked(h.slabs[q]).phys;
    }
  }

  lemma LostOne(h: Pool, bin: Bin, b: nat, f: seq<nat>, g: seq<nat>, i: nat)
    requires b < BINS && BinOk(h.slabs, bin, b, f, g) && i < |f|
    ensures forall q :: (q in f || q in g) && q != f[i] ==> q in RemoveAt(f, i) || q in g
  {
    ListDistinct(h.slabs, bin.free, f);
    Removed(f, i);
  }

  // ---- the code -----------------------------------------------------------------------------------

  lemma PageNear(p: nat, a: nat)
    requires p % PAGE == 0 && p <= a < p + PAGE
    ensures PageOf(a) == p
  {
  }

  /** Pages other than `p` have an object in use. */
  predicate BusyBut(slabs: Slabs, p: nat) {
    forall q :: q in slabs && q != p ==> slabs[q].count > 0
  }

  lemma BusyAfter(slabs: Slabs, slabs': Slabs, p: nat)
    requires Touched(slabs, slabs', p) && BusyBut(slabs, p)
    ensures BusyBut(slabs', p) && (slabs'[p].count > 0 ==> Busy(slabs'))
  {
    forall q | q in slabs && q != p ensures slabs'[q].count == slabs[q].count {
      assert Unlinked(slabs'[q]).count == Unlinked(slabs[q]).count;
    }
  }

  lemma EmptyHead(h: Pool, l: Lists, b: nat)
    requires Inv(h, l) && b < BINS
    ensures |h.bins| == |l.free| == |l.full| == BINS && (h.bins[b].free == 0 <==> l.free[b] == [])
  {
    assert BinOk(h.slabs, h.bins[b], b, l.free[b], l.full[b]);
    if l.free[b] != [] { NotNull(h.slabs, h.bins[b].free, l.free[b], 0); }
  }

  /** Objects of other sizes or elsewhere aside, `a` and nothing else is now in use. */
  ghost predicate Allocated(h: Pool, h': Pool, b: nat, a: nat) {
    && b < BINS && !IsLive(h, a) && (forall x :: IsLive(h', x) <==> IsLive(h, x) || x == a)
    && PageOf(a) in h'.slabs && h'.slabs[PageOf(a)].bin == b && OnGrid(PageOf(a), b, a)
  }

  lemma SameObjects(h: Pool, h1: Pool, h2: Pool, b: nat, a: nat)
    requires Allocated(h1, h2, b, a) && forall x :: IsLive(h1, x) <==> IsLive(h, x)
    ensures Allocated(h, h2, b, a)
  {
  }

  lemma BusyDropped(slabs: Slabs, slabs': Slabs, p: nat)
    requires BusyBut(slabs, p) && slabs'.Keys == slabs.Keys - {p}
    requires forall q :: q in slabs' ==> Unlinked(slabs'[q]) == Unlinked(slabs[q])
    ensures Busy(slabs')
  {
    forall q | q in slabs' ensures slabs'[q].count > 0 { assert Unlinked(slabs'[q]).count == Unlinked(slabs[q]).count; }
  }

  lemma BusyAll(slabs: Slabs, p: nat)
    requires Busy(slabs)
    ensures BusyBut(slabs, p)
  {
  }

  lemma TouchedBin(slabs: Slabs, slabs': Slabs, p: nat)
    requires Touched(slabs, slabs', p)
    ensures p in slabs && p in slabs' && slabs'[p].bin == slabs[p].bin
  {
  }

  /** The page of `a` is given back exactly when no other object in it is in use. */
  ghost predicate Freed(h: Pool, h': Pool, a: nat) {
    && (forall x :: IsLive(h', x) <==> IsLive(h, x) && x != a) && h'.top == h.top
    && h'.mapped == if LastOnPage(h, a) then h.mapped - {PageOf(a)} else h.mapped
  }

  ghost predicate LastOnPage(h: Pool, a: nat) {
    forall x :: IsLive(h, x) && PageOf(x) == PageOf(a) ==> x == a
  }

  lemma LastIff(h: Pool, h1: Pool, l1: Lists, a: nat)
    requires Inv(h1, l1) && PageOf(a) in h1.slabs && forall x :: IsLive(h1, x) <==> IsLive(h, x) && x != a
    ensures h1.slabs[PageOf(a)].count == 0 <==> LastOnPage(h, a)
  {
    hide ListsOk, OnGrid, Max, PageOf, FreeObjects;
    var p := PageOf(a);
    var slab := h1.slabs[p];
    assert PageOk(h1.word, p, slab);
    CountHeld(h1.word, p, slab);
    forall x | Held(h1.word, p, slab, x) ensures PageOf(x) == p && IsLive(h1, x) { PageOfObject(p, slab.bin, x); }
    forall x | PageOf(x) == p && IsLive(h1, x) ensures Held(h1.word, p, slab, x) { }
  }

  /** Objects in use lie behind the header of their page and within it, and no two of them overlap. */
  lemma NoOverlap(h: Pool, l: Lists, x: nat, y: nat)
    requires Inv(h, l) && IsLive(h, x) && IsLive(h, y) && x < y
    ensures var b := h.slabs[PageOf(x)].bin;
      b < BINS && PageOf(x) + HEADER <= x && x + Size(b) <= PageOf(x) + PAGE && x + Size(b) <= y
  {
    hide ListsOk, Max, FreeObjects, Slot, Size;
    var p, q := PageOf(x), PageOf(y);
    var b := h.slabs[p].bin;
    var i: nat :| i < Max(b) && x == Slot(p, Size(b), i);
    SlotInPage(p, b, i);
    if p == q {
      var j: nat :| j < Max(b) && y == Slot(p, Size(b), j);
      if i < j { SlotsApart(p, Size(b), i, j); }
      if j < i { SlotsApart(p, Size(b), j, i); }
    } else {
      assert p % PAGE == 0 && q % PAGE == 0;
    }
  }

  /** A word of an object in use is no link of a free list. */
  lemma ForeignWord(h: Pool, l: Lists, a: nat, w: nat, c: nat)
    requires Inv(h, l) && IsLive(h, a) && a <= w < a + Size(h.slabs[PageOf(a)].bin)
    requires c in FreeObjects(h.word, h.slabs[PageOf(a)])
    ensures c != w && PageOf(w) == PageOf(a)
  {
    hide ListsOk, Max, FreeObjects, Slot, Size;
    var p := PageOf(a);
    var b := h.slabs[p].bin;
    assert PageOk(h.word, p, h.slabs[p]);
    var i: nat :| i < Max(b) && a == Slot(p, Size(b), i);
    SlotInPage(p, b, i);
    var j: nat :| j < Max(b) && c == Slot(p, Size(b), j);
    if i < j { SlotsApart(p, Size(b), i, j); }
    if j < i { SlotsApart(p, Size(b), j, i); }
  }

  lemma WordPage(h: Pool, l: Lists, a: nat, w: nat)
    requires Inv(h, l) && IsLive(h, a) && a <= w < a + Size(h.slabs[PageOf(a)].bin)
    ensures PageOf(w) == PageOf(a)
  {
    hide ListsOk, Max, FreeObjects, Slot, Size;
    var p := PageOf(a);
    var b := h.slabs[p].bin;
    var i: nat :| i < Max(b) && a == Slot(p, Size(b), i);
    SlotInPage(p, b, i);
    PageNear(p, w);
  }

  lemma ScribbleInv(h: Pool, l: Lists, a: nat, w: nat, v: nat)
    requires Inv(h, l) && IsLive(h, a) && a <= w < a + Size(h.slabs[PageOf(a)].bin)
    ensures var h' := h.(word := h.word[w := v]); Inv(h', l) && forall x :: IsLive(h', x) <==> IsLive(h, x)
  {
    hide ListsOk, Max, PageOf, OnGrid, Size, Chain;
    var h', p := h.(word := h.word[w := v]), PageOf(a);
    var slab := h.slabs[p];
    WordPage(h, l, a, w);
    forall c | c in FreeObjects(h.word, slab) ensures Get(h'.word, c) == Get(h.word, c) { ForeignWord(h, l, a, w, c); }
    ChainFrame(h.word, h'.word, slab.nextFree, Max(slab.bin) - slab.count);
    assert PageOk(h.word, p, slab) && FreeObjects(h'.word, slab) == FreeObjects(h.word, slab);
    StepPages(h, h', p);
  }

  /** The bin kmalloc chooses. */
  function BinFor(n: nat): (b: nat)
    requires 0 < n <= 1024
    ensures b < BINS && n <= Size(b) && (b > 0 ==> Size(b - 1) < n)
  {
    if n <= 8 then 0 else if n <= 16 then 1 else if n <= 24 then 2 else if n <= 32 then 3 else if n <= 40 then 4
        else if n <= 48 then 5
    else if n <= 56 then 6 else if n <= 64 then 7 else if n <= 80 then 8 else if n <= 96 then 9
        else if n <= 112 then 10 else if n <= 128 then 11
    else if n <= 160 then 12 else if n <= 192 then 13 else if n <= 224 then 14 else if n <= 256 then 15
        else if n <= 320 then 16
    else if n <= 384 then 17 else if n <= 448 then 18 else if n <= 512 then 19 else if n <= 640 then 20
        else if n <= 768 then 21
    else if n <= 896 then 22 else 23
  }

  class Allocator {
    var bins: seq<Bin>
    var slabs: Slabs
    var word: map<nat, nat>
    var top: nat
    ghost var mapped: map<nat, nat>
    ghost var lists: Lists

    ghost function Value(): Pool
      reads this
    {
      Pool(bins, slabs, word, top, mapped)
    }

    ghost predicate Valid()
      reads this
    {
      Inv(Value(), lists) && Busy(slabs)
    }

    constructor ()
      ensures Valid() && forall x :: !IsLive(Value(), x)
    {
      bins, slabs, word, top, mapped := seq(BINS, _ => Bin(0, 0)), map[], map[], 0, map[];
      lists := Lists(seq(BINS, _ => []), seq(BINS, _ => []));
      new;
      forall b | 0 <= b < BINS ensures BinOk(slabs, bins[b], b, lists.free[b],
          lists.full[b]) { assert List(slabs, 0, []); }
    }

    /** The links of a new page, and the zero at its end. */
    method LinkObjects(p: nat, b: nat)
      requires b < BINS && p % PAGE == 0
      modifies `word
      ensures Linked(word, p, Size(b), Max(b) - 1) && WordsSame(old(word), word, p)
      ensures p + PAGE - Size(b) in word && word[p + PAGE - Size(b)] == 0
    {
      hide Size, Max, PageOf, Slot;
      var size := Size(b);
      var i := p + HEADER;
      ghost var j: nat := 0;
      SlotNext(p, size, 0);
      while i < p + PAGE
        invariant i == Slot(p, size, j) && Linked(word, p, size, j) && WordsSame(old(word), word, p)
        decreases p + PAGE - i
      {
        PageNear(p, i);
        SlotNext(p, size, j);
        LinkStep(word, p, size, j);
        word := word[i := i + size];
        i, j := i + size, j + 1;
      }
      LinksEnough(p, b, j);
      PageNear(p, p + PAGE - size);
      TerminatorStep(word, p, b, j);
      word := word[p + PAGE - size := 0];
    }

    /** What bin_alloc does to bins, headers and objects; if a page is needed, frame `phys` has been mapped at
        slab_top. */
    method Allocate(b: nat, phys: nat) returns (addr: nat)
      requires Valid() && b < BINS && (bins[b].free == 0 ==> phys !in mapped.Values)
      modifies this
      ensures Valid() && Allocated(old(Value()), Value(), b, addr) && |old(bins)| == BINS
      ensures mapped == (if old(bins)[b].free == 0 then old(mapped)[START + old(top) := phys] else old(mapped))
      ensures top == (if old(bins)[b].free == 0 then old(top) + PAGE else old(top))
    {
      hide Inv, Allocated, IsLive, Busy, BusyBut, PageOf;
      EmptyHead(Value(), lists, b);
      ghost var h := Value();
      if bins[b].free == 0 {
        AddSlab(b, phys);
      } else {
        BusyAll(slabs, bins[b].free);
      }
      ghost var h1 := Value();
      addr := TakeObject(b);
      SameObjects(h, h1, Value(), b, addr);
    }

    /** A bin without room gets a new slab, in the page just mapped. */
    method AddSlab(b: nat, phys: nat)
      requires Valid() && b < BINS && phys !in mapped.Values
      requires |bins| == |lists.free| == BINS && lists.free[b] == []
      modifies this
      ensures Inv(Value(), lists) && |bins| == |lists.free| == BINS && lists.free[b] == [bins[b].free]
      ensures BusyBut(slabs, bins[b].free)
      ensures mapped == old(mapped)[START + old(top) := phys] && top == old(top) + PAGE
      ensures forall x :: IsLive(Value(), x) <==> IsLive(old(Value()), x)
    {
      hide Inv, IsLive, Linked, WordsSame, Size, Max;
      ghost var h := Value();
      NewAddress(h, lists);
      var p := START + top;
      mapped := mapped[p := phys];
      top := top + PAGE;
      LinkObjects(p, b);
      GrowInv(h, lists, b, phys, word);
      slabs := slabs[p := Slab(0, p + HEADER, bins[b].free, 0, phys, b)];
      assert bins[b].free == 0 by { EmptyHead(h, lists, b); }
      bins := bins[b := bins[b].(free := p)];
      lists := lists.(free := lists.free[b := [p]]);
      assert Value() == Grown(h, b, phys, word);
    }

    /** The first free object of the first slab with room. */
    method TakeObject(b: nat) returns (addr: nat)
      requires Inv(Value(), lists) && b < BINS && |bins| == |lists.free| == BINS
      requires lists.free[b] != [] && BusyBut(slabs, bins[b].free)
      modifies `slabs, `bins, `lists
      ensures Inv(Value(), lists) && Busy(slabs) && Allocated(old(Value()), Value(), b, addr)
    {
      hide Inv, IsLive, Max, PageOf, OnGrid, Unlink, Push, HeadWithout, Touched, Busy, BusyBut, TakenLists;
      ghost var h, l := Value(), lists;
      FirstSlab(h, l, b);
      TakeInv(h, l, b);
      var p := bins[b].free;
      addr := slabs[p].nextFree;
      var next := Get(word, addr);
      slabs := slabs[p := slabs[p].(nextFree := next)];
      slabs := slabs[PageOf(addr) := slabs[PageOf(addr)].(count := slabs[PageOf(addr)].count + 1)];
      assert slabs == Recount(h.slabs, p, next, h.slabs[p].count + 1);
      if slabs[p].count == Max(b) {
        FillSlab(b, p, l);
      }
      lists := TakenLists(h, l, b);
      assert Value() == Taken(h, b);
      BusyAfter(h.slabs, slabs, p);
      TouchedBin(h.slabs, slabs, p);
    }

    /** What bin_free does to bins, headers and objects, for an object in use. */
    method Release(addr: nat)
      requires Valid() && IsLive(Value(), addr)
      modifies this
      ensures Valid() && Freed(old(Value()), Value(), addr)
    {
      hide Inv, IsLive, Max, PageOf, Unlink, Push, HeadWithout, Touched, BusyBut, LastOnPage, Unlinked;
      ghost var h := Value();
      var p := PageOf(addr);
      FreeFacts(h, lists, addr);
      var b := slabs[p].bin;
      BusyAll(slabs, p);
      ghost var l1 := GiveInv(h, lists, addr);
      var wasFull := slabs[p].count == Max(b);
      word := word[addr := slabs[p].nextFree];
      slabs := slabs[p := slabs[p].(nextFree := addr)];
      slabs := slabs[p := slabs[p].(count := slabs[p].count - 1)];
      assert slabs == Recount(h.slabs, p, addr, h.slabs[p].count - 1);
      if wasFull {
        ReturnSlab(b, p);
      }
      ghost var h1 := Value();
      assert h1 == Given(h, addr);
      lists := l1;
      BusyAfter(h.slabs, slabs, p);
      TouchedBin(h.slabs, slabs, p);
      LastIff(h, h1, l1, addr);
      if slabs[p].count == 0 {
        ghost var l2 := DropInv(h1, l1, p);
        ReleaseSlab(b, p);
        lists := l2;
        BusyDropped(h1.slabs, slabs, p);
      }
    }

    /** A slab that was full goes to the front of the free list. */
    method ReturnSlab(b: nat, p: nat)
      requires b < |bins| && p in slabs
      modifies `slabs, `bins
      ensures p in old(slabs) && p in Unlink(old(slabs), p)
      ensures slabs == Push(Unlink(old(slabs), p), old(bins)[b].free, p)
      ensures bins == old(bins)[b := Bin(p, HeadWithout(old(slabs), old(bins)[b].full, p))]
    {
      if bins[b].full == p {
        bins := bins[b := bins[b].(full := slabs[p].next)];
      }
      var next, prev := slabs[p].next, slabs[p].prev;
      if next != 0 {
        slabs := SetPrev(slabs, next, prev);
      }
      if prev != 0 {
        slabs := SetNext(slabs, prev, next);
      }
      if bins[b].free != 0 {
        slabs := SetPrev(slabs, bins[b].free, p);
      }
      slabs := slabs[p := slabs[p].(next := bins[b].free, prev := 0)];
      bins := bins[b := bins[b].(free := p)];
    }

    /** An empty slab leaves the free list. */
    method ReleaseSlab(b: nat, p: nat)
      requires b < |bins| && p in slabs && slabs[p].bin == b
      modifies `slabs, `bins, `mapped
      ensures p in old(slabs) && Value() == Dropped(old(Value()), p)
    {
      if bins[b].free == p {
        bins := bins[b := bins[b].(free := slabs[p].next)];
      }
      var next, prev := slabs[p].next, slabs[p].prev;
      if next != 0 {
        slabs := SetPrev(slabs, next, prev);
      }
      if prev != 0 {
        slabs := SetNext(slabs, prev, next);
      }
      slabs := slabs - {p};
      mapped := mapped - {p};
    }

    /** The owner of an object writes a word of it. */
    method Scribble(addr: nat, k: nat, v: nat)
      requires Valid() && IsLive(Value(), addr) && 8 * k < Size(slabs[PageOf(addr)].bin)
      modifies `word
      ensures Valid() && word == old(word)[addr + 8 * k := v]
      ensures forall x :: IsLive(Value(), x) <==> IsLive(old(Value()), x)
    {
      hide Inv, IsLive, Size;
      ScribbleInv(Value(), lists, addr, addr + 8 * k, v);
      word := word[addr + 8 * k := v];
    }

    /** A slab just filled goes from the front of the free list to the front of the full one. */
    method FillSlab(b: nat, p: nat, ghost l: Lists)
      requires b < |bins| && p in slabs && bins[b].free == p && slabs[p].prev == 0
      modifies `slabs, `bins
      ensures p in old(slabs) && p in Unlink(old(slabs), p)
      ensures slabs == Push(Unlink(old(slabs), p), old(bins)[b].full, p)
      ensures bins == old(bins)[b := Bin(HeadWithout(old(slabs), p, p), p)]
    {
      bins := bins[b := bins[b].(free := slabs[p].next)];
      if bins[b].free != 0 {
        slabs := SetPrev(slabs, bins[b].free, 0);
      }
      if bins[b].full != 0 {
        slabs := SetPrev(slabs, bins[b].full, p);
      }
      slabs := slabs[p := slabs[p].(next := bins[b].full, prev := 0)];
      bins := bins[b := bins[b].(full := p)];
    }
  }

  lemma FreeFacts(h: Pool, l: Lists, a: nat)
    requires Inv(h, l) && IsLive(h, a)
    ensures PageOf(a) in h.slabs && h.slabs[PageOf(a)].bin < BINS && |h.bins| == BINS
  {
  }

  lemma LinkStep(word: map<nat, nat>, p: nat, size: nat, j: nat)
    requires Linked(word, p, size, j) && size > 0
    ensures Linked(word[Slot(p, size, j) := Slot(p, size, j) + size], p, size, j + 1)
  {
    hide Slot;
    forall k: nat | k < j ensures Slot(p, size, k) != Slot(p, size, j) { SlotsApart(p, size, k, j); }
  }

  lemma LinksEnough(p: nat, b: nat, j: nat)
    requires b < BINS && Slot(p, Size(b), j) >= p + PAGE
    ensures j >= Max(b)
  {
    hide Slot, Max, Size;
    if j < Max(b) { SlotInPage(p, b, j); }
  }

  lemma TerminatorStep(word: map<nat, nat>, p: nat, b: nat, j: nat)
    requires b < BINS && Linked(word, p, Size(b), j) && j >= Max(b)
    ensures Linked(word[p + PAGE - Size(b) := 0], p, Size(b), Max(b) - 1)
  {
    hide Slot, Max, Size;
    forall k: nat | k < Max(b) - 1 ensures Slot(p, Size(b), k) != p + PAGE - Size(b) { TerminatorHarmless(p, b, k); }
  }
}
