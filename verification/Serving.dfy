/** Which free chunk serves a request, and what the heap keeps of it, stated over the free chunks alone
(userspace/libc/malloc.c:4552-4660). */
module Serving {
  import opened Tags
  import opened Sorting

  /** The free chunks: those in the small bins and in the tree bins, by address, the designated victim and the top. */
  datatype Pool = Pool(smalls: map<nat, nat>, larges: map<nat, nat>, dv: nat, dvsize: nat, top: nat, topsize: nat)

  datatype Source = Small | Tree | Victim | Top | System

  /** Chunk `v` is a smallest of `contents` with room for `nb` bytes. */
  ghost predicate Fitting(contents: map<nat, nat>, nb: nat, v: nat) {
    v in contents && contents[v] >= nb && forall a :: a in contents && contents[a] >= nb ==> contents[v] <= contents[a]
  }

  ghost predicate Room(contents: map<nat, nat>, nb: nat) {
    exists a :: a in contents && contents[a] >= nb
  }

  ghost predicate Exact(contents: map<nat, nat>, nb: nat) {
    exists a :: a in contents && contents[a] == nb
  }

  /** A best-fitting tree chunk fits better than the dv. */
  ghost predicate Nearer(f: Pool, nb: nat) {
    exists a :: Fitting(f.larges, nb, a) && !(nb <= f.dvsize <= f.larges[a])
  }

  /** Where `nb` bytes come from. */
  ghost function Server(f: Pool, nb: nat): Source {
    if nb < LARGE && Exact(f.smalls, nb) then Small
    else if nb < LARGE && f.dvsize < nb && Room(f.smalls, nb) then Small
    else if nb < LARGE && f.dvsize < nb && f.larges != map[] then Tree
    else if nb >= LARGE && Nearer(f, nb) then Tree
    else if nb <= f.dvsize then Victim
    else if nb < f.topsize then Top
    else System
  }

  /** How much of a chunk of `size` bytes is handed out: all of it when the rest could not be a chunk. */
  function Portion(size: nat, nb: nat): nat {
    if size < nb + MIN_CHUNK then size else nb
  }

  /** Binned chunk `p` is used; its rest becomes the dv, and the dv there was goes to its small bin. */
  function Carved(f: Pool, p: nat, size: nat, nb: nat): Pool {
    var g := f.(smalls := f.smalls - {p}, larges := f.larges - {p});
    if size < nb + MIN_CHUNK then g
    else g.(smalls := Put(g.smalls, f.dvsize != 0, f.dv, f.dvsize), dv := p + nb, dvsize := size - nb)
  }

  /** Binned chunk `p` is used; its rest goes to a bin. */
  function Rebinned(f: Pool, p: nat, size: nat, nb: nat): Pool {
    var g := f.(smalls := f.smalls - {p}, larges := f.larges - {p});
    if size < nb + MIN_CHUNK then g
    else g.(smalls := Put(g.smalls, size - nb < LARGE, p + nb, size - nb),
            larges := Put(g.larges, size - nb >= LARGE, p + nb, size - nb))
  }

  /** The dv is used; its rest stays the dv. */
  function Shortened(f: Pool, nb: nat): Pool {
    if f.dvsize < nb + MIN_CHUNK then f.(dv := 0, dvsize := 0)
    else f.(dv := f.dv + nb, dvsize := f.dvsize - nb)
  }

  /** Chunk `p` of the pool serves `nb` bytes, `size` bytes of it are handed out and the pool becomes `g`. */
  ghost predicate Dealt(f: Pool, nb: nat, p: nat, size: nat, g: Pool) {
    match Server(f, nb)
    case Small => Fitting(f.smalls, nb, p) && size == Portion(f.smalls[p], nb) && g == Carved(f, p, f.smalls[p], nb)
    case Tree =>
      && Fitting(f.larges, nb, p) && size == Portion(f.larges[p], nb)
      && g == if nb < LARGE then Carved(f, p, f.larges[p], nb) else Rebinned(f, p, f.larges[p], nb)
    case Victim => p == f.dv && size == Portion(f.dvsize, nb) && g == Shortened(f, nb)
    case Top => p == f.top && size == nb && g == f.(top := f.top + nb, topsize := f.topsize - nb)
    case System => false
  }

  /** Free space of `m` bytes has been joined at `a`, up to or over the chunk `n` behind the one freed: the free chunks
      it swallowed leave their bins, and it becomes the top, the dv or a binned chunk. */
  function Rejoined(f: Pool, a: nat, n: nat, m: nat): Pool {
    var g := f.(smalls := f.smalls - {a} - {n}, larges := f.larges - {a} - {n});
    if n == f.top then (if a == f.dv then g.(dv := 0, dvsize := 0) else g).(top := a, topsize := m)
    else if n == f.dv || a == f.dv then g.(dv := a, dvsize := m)
    else g.(smalls := Put(g.smalls, m < LARGE, a, m), larges := Put(g.larges, m >= LARGE, a, m))
  }

  /** Each branch of malloc deals what it should. */
  lemma DealtExact(f: Pool, nb: nat, p: nat)
    requires nb < LARGE && p in f.smalls && f.smalls[p] == nb
    ensures Server(f, nb) == Small
    ensures Dealt(f, nb, p, nb, f.(smalls := f.smalls - {p}, larges := f.larges - {p}))
  {
  }

  lemma DealtSmall(f: Pool, nb: nat, p: nat)
    requires nb < LARGE && f.dvsize < nb && Fitting(f.smalls, nb, p)
    ensures Server(f, nb) == Small
    ensures Dealt(f, nb, p, Portion(f.smalls[p], nb), Carved(f, p, f.smalls[p], nb))
  {
  }

  lemma DealtTree(f: Pool, nb: nat, p: nat)
    requires Fitting(f.larges, nb, p)
    requires if nb < LARGE then f.dvsize < nb && !Room(f.smalls, nb) else !(nb <= f.dvsize <= f.larges[p])
    ensures Server(f, nb) == Tree
    ensures Dealt(f, nb, p, Portion(f.larges[p], nb),
                  if nb < LARGE then Carved(f, p, f.larges[p], nb) else Rebinned(f, p, f.larges[p], nb))
  {
  }

  /** Every small chunk is below the tree sizes and every tree chunk is not. */
  ghost predicate Filed(f: Pool) {
    && (forall a :: a in f.smalls ==> f.smalls[a] < LARGE)
    && (forall a :: a in f.larges ==> f.larges[a] >= LARGE)
  }

  lemma {:induction false} LeastExists(contents: map<nat, nat>, nb: nat) returns (v: nat)
    requires Room(contents, nb)
    ensures Fitting(contents, nb, v)
    decreases |contents.Keys|
  {
    var a :| a in contents && contents[a] >= nb;
    var rest := contents - {a};
    v := a;
    if Room(rest, nb) {
      assert rest.Keys == contents.Keys - {a};
      var b := LeastExists(rest, nb);
      if contents[b] < contents[a] { v := b; }
      forall c | c in contents && contents[c] >= nb ensures contents[v] <= contents[c] {
        if c != a { assert c in rest; }
      }
    } else {
      forall c | c in contents && c != a ensures contents[c] < nb {
        assert c in rest;
      }
    }
  }

  /** The system is asked exactly when no free chunk, binned, dv or top, has room. */
  lemma SystemLast(f: Pool, nb: nat)
    requires Filed(f)
    ensures Server(f, nb) == System <==>
      !Room(f.smalls, nb) && !Room(f.larges, nb) && f.dvsize < nb && f.topsize <= nb
  {
    if Room(f.larges, nb) {
      var v := LeastExists(f.larges, nb);
      assert f.larges != map[];
    }
  }

  /** A large request is served by a tree exactly when some tree chunk has room and the dv does not fit as well. */
  lemma TreeServes(f: Pool, nb: nat)
    requires nb >= LARGE
    ensures Server(f, nb) == Tree <==>
      exists a :: a in f.larges && f.larges[a] >= nb && !(nb <= f.dvsize <= f.larges[a])
  {
    if Room(f.larges, nb) {
      var v := LeastExists(f.larges, nb);
    }
  }

  /** A large request served by a tree chunk or the dv gets a smallest of all the free chunks with room. */
  lemma LargeBestFit(f: Pool, nb: nat, p: nat, size: nat, g: Pool)
    requires Filed(f) && nb >= LARGE && Dealt(f, nb, p, size, g) && Server(f, nb) != Top
    ensures var chunk := if Server(f, nb) == Tree then f.larges[p] else f.dvsize;
      && chunk >= nb && !Room(f.smalls, nb) && (f.dvsize >= nb ==> chunk <= f.dvsize)
      && forall a :: a in f.larges && f.larges[a] >= nb ==> chunk <= f.larges[a]
  {
    if Server(f, nb) == Victim && Room(f.larges, nb) {
      var v := LeastExists(f.larges, nb);
    }
  }

  /** A small request served from a bin gets a smallest of all the binned chunks with room; one served by the dv finds
      no chunk of its very size. */
  lemma SmallBestFit(f: Pool, nb: nat, p: nat, size: nat, g: Pool)
    requires Filed(f) && nb < LARGE && Dealt(f, nb, p, size, g)
    ensures Server(f, nb) == Victim ==> !Exact(f.smalls, nb)
    ensures Server(f, nb) == Small || Server(f, nb) == Tree ==>
      var chunk := if Server(f, nb) == Small then f.smalls[p] else f.larges[p];
      && chunk >= nb && (forall a :: a in f.smalls && f.smalls[a] >= nb ==> chunk <= f.smalls[a])
      && forall a :: a in f.larges && f.larges[a] >= nb ==> chunk <= f.larges[a]
  {
  }

  /** A chunk that was freed without being joined to another serves a request of its size: what is handed out is of
      that size, and is the chunk itself unless another free chunk is of the size too. */
  lemma FreedServesAgain(f: Pool, q: nat, n: nat, s: nat, p: nat, size: nat, g: Pool)
    requires n != f.top && n != f.dv && q != f.dv && Filed(f)
    requires Dealt(Rejoined(f, q, n, s), s, p, size, g)
    ensures size == s && Server(Rejoined(f, q, n, s), s) != Top
    ensures !Exact(f.smalls, s) && !Exact(f.larges, s) && (s >= LARGE ==> f.dvsize != s) ==> p == q
  {
    var h := Rejoined(f, q, n, s);
    if s < LARGE {
      assert q in h.smalls && h.smalls[q] == s;
      assert Fitting(h.smalls, s, q);
    } else {
      assert q in h.larges && h.larges[q] == s;
      assert Fitting(h.larges, s, q);
    }
  }

  /** What is handed out exceeds the request by less than a chunk. */
  lemma LittleWaste(f: Pool, nb: nat, p: nat, size: nat, g: Pool)
    requires Dealt(f, nb, p, size, g)
    ensures nb <= size < nb + MIN_CHUNK
  {
  }

  /** Small requests in a row get chunks in a row: when a binned chunk or the dv was split for one, the next is served
      from what lies behind it, unless a chunk has its very size or the rest is too small. */
  lemma NeighbourNext(f: Pool, nb: nat, p: nat, size: nat, g: Pool, nb': nat, p': nat, size': nat, g': Pool)
    requires nb < LARGE && nb' < LARGE && Dealt(f, nb, p, size, g) && Dealt(g, nb', p', size', g')
    requires Server(f, nb) != Top
    requires nb + MIN_CHUNK <= match Server(f, nb) case Small => f.smalls[p] case Tree => f.larges[p] case _ => f.dvsize
    requires !Exact(g.smalls, nb') && nb' <= g.dvsize
    ensures size == nb && p' == p + nb
  {
  }

  /** A large request leaves the dv alone unless it is served by it. */
  lemma LargeKeepsDv(f: Pool, nb: nat, p: nat, size: nat, g: Pool)
    requires nb >= LARGE && Dealt(f, nb, p, size, g) && Server(f, nb) != Victim
    ensures g.dv == f.dv && g.dvsize == f.dvsize
  {
  }

  /** A small bin holds a chunk whose rest could not be a chunk of its own. */
  ghost predicate Remainderless(f: Pool, nb: nat) {
    exists a :: a in f.smalls && nb <= f.smalls[a] < nb + MIN_CHUNK
  }

  /** A small chunk without a usable rest is taken before the dv exactly when it is of the very size or the dv is too
      small: the bin the code looks at beside the exact one is never occupied. */
  lemma RemainderlessFirst(f: Pool, nb: nat)
    requires Filed(f) && nb < LARGE && Remainderless(f, nb)
    ensures Server(f, nb) == Small <==> Exact(f.smalls, nb) || f.dvsize < nb
  {
    var a :| a in f.smalls && nb <= f.smalls[a] < nb + MIN_CHUNK;
    assert Room(f.smalls, nb);
  }

  /** A chunk of 80 bytes is passed over for a request of 64 when the dv has room. */
  lemma RemainderlessPassedOver()
    ensures var f := Pool(map[4096 := 80], map[], 8192, 112, 16384, 1024);
      Filed(f) && Remainderless(f, 64) && Server(f, 64) == Victim
  {
    var f := Pool(map[4096 := 80], map[], 8192, 112, 16384, 1024);
    assert 4096 in f.smalls && f.smalls[4096] == 80;
  }
}
