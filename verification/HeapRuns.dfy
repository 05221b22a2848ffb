/** Whole runs of malloc and free, and what a valid heap looks like after each of them
(userspace/libc/malloc.c:4552-4797). */
module HeapRuns {
  import opened Sequences
  import opened Machine
  import opened Tags
  import opened Sorting
  import opened Heap
  import opened Serving
  import SmallBins
  import TreeBins
  import TreeIndex
  import Tries

  // ---- what a valid heap looks like ---------------------------------------------------------------

  /** Neighbours, head and foot of chunk `x`: a free neighbour before it has its P bit clear and its size in the foot,
      and is not followed by another free chunk. */
  lemma ChunkTags(h: Allocator, x: nat)
    requires h.Valid() && h.top != 0 && x in h.blocks
    ensures x in h.heads && h.heads[x].size == h.blocks[x].size && h.heads[x].cinuse == h.blocks[x].used
    ensures x != h.base ==> h.blocks[x].prev in h.blocks && h.blocks[x].prev + h.blocks[h.blocks[x].prev].size == x
    ensures h.heads[x].pinuse == (x == h.base || h.blocks[h.blocks[x].prev].used)
    ensures !h.heads[x].pinuse ==> h.heads[x].cinuse && x in h.feet && h.feet[x] == h.blocks[h.blocks[x].prev].size
  {
    Step(h.blocks, h.heads, h.feet, h.base, h.top, h.brk - TOP_FOOT, x);
  }

  /** Every address between the base and the top's end lies in exactly one chunk. */
  lemma Tiled(h: Allocator, y: nat)
    requires h.Valid() && h.top != 0 && h.base <= y < h.brk - TOP_FOOT
    ensures exists x ::
      x in h.blocks && x <= y < x + h.blocks[x].size && forall z ::
      z in h.blocks && z <= y < z + h.blocks[z].size ==> z == x
  {
    Tiling(h.blocks, h.heads, h.feet, h.base, h.top, h.brk - TOP_FOOT, y);
  }

  /** A free chunk other than the dv and the top is in the bin of its size, and in no other; nothing else is in a bin.
      */
  lemma OneBin(h: Allocator, x: nat, i: nat)
    requires h.Valid() && h.top != 0 && i < TreeIndex.BINS
    ensures |h.smalls.lists| == SmallBins.BINS && |h.trees.trees| == TreeIndex.BINS
    ensures x in h.smalls.lists[i] <==>
      Free(h.blocks, h.dv, h.top, x) && h.blocks[x].size < LARGE && h.blocks[x].size == SmallBins.SizeOf(i)
    ensures (exists s :: Tries.Holds(h.trees.trees[i], x, s)) <==>
      Free(h.blocks, h.dv, h.top, x) && h.blocks[x].size >= LARGE && TreeIndex.Index(h.blocks[x].size) == i
  {
    SortedAt(h.blocks, h.smalls.contents, h.trees.contents, h.dv, h.dvsize, h.top, x);
    assert (x in h.smalls.lists[i]) == SmallBins.InBin(h.smalls.contents, x, i);
    if Free(h.blocks, h.dv, h.top, x) && h.blocks[x].size >= LARGE {
      assert Tries.Holds(h.trees.trees[i], x, h.blocks[x].size) == TreeBins.Filed(h.trees.contents, x,
          h.blocks[x].size, i);
    }
  }

  // ---- what the program may write -----------------------------------------------------------------

  /** Byte `w` belongs to what the allocator keeps at chunk `x`: its head; the foot of a free chunk before it; and, if
      it is free and in a bin, the links of its ring, and of its trie if it is large. */
  predicate KeptAt(bl: Blocks, base: nat, dv: nat, top: nat, x: nat, w: nat)
    requires x in bl
  {
    || x + 8 <= w < x + 16
    || (x != base && bl[x].prev in bl && !bl[bl[x].prev].used && x <= w < x + 8)
    || (Free(bl, dv, top, x) && x + 16 <= w < x + 16 + if bl[x].size < LARGE then 16 else 48)
  }

  /** Byte `w` belongs to the allocator: to a chunk, or to the space behind the top. */
  ghost predicate Kept(h: Allocator, w: nat)
    reads h
  {
    (exists x :: x in h.blocks && KeptAt(h.blocks, h.base, h.dv, h.top, x, w)) || h.brk - TOP_FOOT <= w
  }

  /** No byte behind the head of a chunk in use, up to the head of the next one, belongs to the allocator. */
  lemma PayloadApart(h: Allocator, c: nat, w: nat)
    requires h.Valid() && c in h.InUse() && c + HEADER <= w < c + h.InUse()[c] + 8
    ensures !Kept(h, w)
  {
    var bl, heads, feet, base, top, end := h.blocks, h.heads, h.feet, h.base, h.top, h.brk - TOP_FOOT;
    InUseFacts(h, c);
    hide Allocator.Valid, Allocator.InUse, Tags.Inv, KeptAt, Ok;
    forall x | x in bl ensures !KeptAt(bl, base, h.dv, top, x, w) {
      if x == c {
        KeptHere(bl, base, h.dv, top, c, w);
      } else if x < c {
        KeptBefore(bl, heads, feet, base, top, end, h.dv, c, x, w);
      } else {
        KeptBehind(bl, heads, feet, base, top, end, h.dv, c, x, w);
      }
    }
  }

  lemma InUseFacts(h: Allocator, c: nat)
    requires h.Valid() && c in h.InUse()
    ensures Tags.Inv(h.blocks, h.heads, h.feet, h.base, h.top, h.brk - TOP_FOOT) && c in h.blocks && h.blocks[c].used
    ensures h.InUse()[c] == h.blocks[c].size
    ensures c + h.blocks[c].size + 16 <= h.brk - TOP_FOOT
  {
    var n := c + h.blocks[c].size;
    Step(h.blocks, h.heads, h.feet, h.base, h.top, h.brk - TOP_FOOT, c);
    Step(h.blocks, h.heads, h.feet, h.base, h.top, h.brk - TOP_FOOT, n);
  }

  lemma KeptHere(bl: Blocks, base: nat, dv: nat, top: nat, c: nat, w: nat)
    requires c in bl && bl[c].used && c + 16 <= w
    ensures !KeptAt(bl, base, dv, top, c, w)
  {
  }

  lemma KeptBefore(bl: Blocks, heads: map<nat, Head>, feet: map<nat, nat>, base: nat, top: nat, end: nat, dv: nat,
                   c: nat, x: nat, w: nat)
    requires Tags.Inv(bl, heads, feet, base, top, end) && c in bl && x in bl
    requires x < c && c + 16 <= w
    ensures !KeptAt(bl, base, dv, top, x, w)
  {
    Step(bl, heads, feet, base, top, end, x);
    Apart(bl, heads, feet, base, top, end, x, c);
  }

  lemma KeptBehind(bl: Blocks, heads: map<nat, Head>, feet: map<nat, nat>, base: nat, top: nat, end: nat, dv: nat,
                   c: nat, x: nat, w: nat)
    requires Tags.Inv(bl, heads, feet, base, top, end) && c in bl && bl[c].used
    requires x in bl && c < x && w < c + bl[c].size + 8
    ensures !KeptAt(bl, base, dv, top, x, w)
  {
    Step(bl, heads, feet, base, top, end, c);
    Step(bl, heads, feet, base, top, end, x);
    Apart(bl, heads, feet, base, top, end, c, x);
  }

  // ---- runs ---------------------------------------------------------------------------------------

  /** A call by the program: a request, or the release of the `k`-th object it holds. */
  datatype Call = Request(bytes: nat) | Release(k: nat)

  /** What the program holds: the chunk before its pointer, and how much it asked for. */
  datatype Object = Object(chunk: nat, bytes: nat)

  predicate Backed(inUse: map<nat, nat>, o: Object) {
    o.chunk in inUse && inUse[o.chunk] >= Padded(o.bytes)
  }

  predicate Held(live: seq<Object>, c: nat) {
    exists i :: 0 <= i < |live| && live[i].chunk == c
  }

  /** Each object has a chunk of its own, at least as large as its request padded, and no other chunk is in use. */
  ghost predicate Served(inUse: map<nat, nat>, live: seq<Object>) {
    && (forall i :: 0 <= i < |live| ==> Backed(inUse, live[i])) && (forall c :: c in inUse ==> Held(live, c))
    && forall i, j :: 0 <= i < j < |live| ==> live[i].chunk != live[j].chunk
  }

  lemma ServedMore(inUse: map<nat, nat>, inUse': map<nat, nat>, live: seq<Object>, o: Object)
    requires Served(inUse, live) && Granted(inUse, inUse', o.chunk, Padded(o.bytes))
    ensures Served(inUse', live + [o])
  {
    hide Padded;
    var live' := live + [o];
    forall c | c in inUse' ensures Held(live', c) {
      if c == o.chunk {
        assert live'[|live|].chunk == c;
      } else {
        var i :| 0 <= i < |live| && live[i].chunk == c;
        assert live'[i].chunk == c;
      }
    }
    forall i | 0 <= i < |live| ensures live[i].chunk != o.chunk { assert Backed(inUse, live[i]); }
    forall i | 0 <= i < |live'| ensures Backed(inUse', live'[i]) {
      if i < |live| { assert Backed(inUse, live[i]); }
    }
  }

  lemma ServedLess(inUse: map<nat, nat>, live: seq<Object>, k: nat)
    requires Served(inUse, live) && k < |live|
    ensures Served(inUse - {live[k].chunk}, RemoveAt(live, k))
  {
    hide Padded;
    var live', gone := RemoveAt(live, k), live[k].chunk;
    forall i | 0 <= i < |live'| ensures Backed(inUse - {gone}, live'[i]) {
      var was := if i < k then i else i + 1;
      assert live'[i] == live[was] && Backed(inUse, live[was]);
    }
    forall i, j | 0 <= i < j < |live'| ensures live'[i].chunk != live'[j].chunk {
      assert live'[i] == live[if i < k then i else i + 1] && live'[j] == live[if j < k then j else j + 1];
    }
    forall c | c in inUse - {gone} ensures Held(live', c) {
      var i :| 0 <= i < |live| && live[i].chunk == c;
      assert live'[if i < k then i else i - 1].chunk == c;
    }
  }

  /** What the program holds after these calls, `answers[i]` being the chunk that request `i` was given, 0 if none. */
  function Replay(calls: seq<Call>, answers: seq<nat>): seq<Object>
    requires |answers| == |calls|
  {
    if calls == [] then []
    else
      var n := |calls| - 1;
      var live := Replay(calls[..n], answers[..n]);
      match calls[n]
      case Request(bytes) => if answers[n] == 0 then live else live + [Object(answers[n], bytes)]
      case Release(k) => if k < |live| then RemoveAt(live, k) else live
  }

  lemma ReplayNext(calls: seq<Call>, i: nat, answers: seq<nat>, a: nat)
    requires i < |calls| && |answers| == i
    ensures Replay(calls[..i + 1], answers + [a]) ==
      var live := Replay(calls[..i], answers);
      match calls[i]
      case Request(bytes) => if a == 0 then live else live + [Object(a, bytes)]
      case Release(k) => if k < |live| then RemoveAt(live, k) else live
  {
    assert calls[..i + 1][..i] == calls[..i] && (answers + [a])[..i] == answers;
  }

  /** Over any run of requests and releases the heap stays valid, every object the program holds keeps a chunk large
      enough, and exactly those chunks are in use. */
  method Run(h: Allocator, calls: seq<Call>) returns (live: seq<Object>, answers: seq<nat>)
    requires h.Valid() && h.InUse() == map[]
    requires forall i :: 0 <= i < |calls| ==> calls[i].Request? ==> calls[i].bytes < WORD
    modifies h, h.smalls, h.trees
    ensures h.Valid() && Served(h.InUse(), live) && |answers| == |calls| && live == Replay(calls, answers)
  {
    hide Allocator.Valid, Allocator.InUse, Served, Granted, Padded, Outcome, AllRefused;
    live, answers := [], [];
    ServedNone();
    for i := 0 to |calls|
      invariant h.Valid() && Served(h.InUse(), live) && |answers| == i && live == Replay(calls[..i], answers)
    {
      match calls[i] {
        case Request(bytes) =>
          ghost var before := h.InUse();
          var mem := h.Malloc(bytes);
          var chunk := if mem == 0 then 0 else mem - HEADER;
          ReplayNext(calls, i, answers, chunk);
          if mem != 0 {
            ChunkAddress(before, h.InUse(), chunk, Padded(bytes));
            ServedMore(before, h.InUse(), live, Object(chunk, bytes));
            live := live + [Object(chunk, bytes)];
          }
          answers := answers + [chunk];
        case Release(k) =>
          ReplayNext(calls, i, answers, 0);
          answers := answers + [0];
          if k < |live| {
            ServedLess(h.InUse(), live, k);
            ServedAt(h.InUse(), live, k);
            h.Free(live[k].chunk + HEADER);
            live := RemoveAt(live, k);
          }
      }
    }
    assert calls[..|calls|] == calls;
  }

  /** Chunk `q` of `s` bytes is in use between chunks in use. */
  ghost predicate Between(h: Allocator, q: nat, s: nat)
    reads h
  {
    && q in h.InUse() && h.InUse()[q] == s && Placed(h.blocks, h.base, q) && h.blocks[q].size == s
    && h.blocks[q + s].used
    && (q != h.base ==> h.blocks[h.blocks[q].prev].used)
  }

  /** Between chunks in use a freed chunk stays alone. */
  lemma AloneFreed(h: Allocator, q: nat, s: nat)
    requires h.Valid() && Between(h, q, s)
    ensures Placed(h.blocks, h.base, q) && q + h.blocks[q].size == q + s
    ensures FreeFrom(h.blocks, h.base, q) == q && MergedSize(h.blocks, h.base, q) == s
    ensures q + s != h.top && q + s != h.dv && q != h.dv && s > 0
    ensures Rejoined(h.Spare(), q, q + s, s).topsize == h.topsize
  {
    Neighbours(h.blocks, h.heads, h.feet, h.base, h.top, h.brk - TOP_FOOT, h.smalls.contents, h.trees.contents, h.dv,
        h.dvsize, q);
  }

  method FreeAlone(h: Allocator, q: nat, ghost s: nat)
    requires h.Valid() && Between(h, q, s)
    modifies h, h.smalls, h.trees
    ensures h.Valid() && h.InUse() == old(h.InUse()) - {q} && h.brk == old(h.brk) && Filed(old(h.Spare()))
    ensures h.calls == old(h.calls)
    ensures h.Spare() == Rejoined(old(h.Spare()), q, q + s, s) && (s < LARGE ==> h.Newest(s) == q)
    ensures q + s != old(h.top) && q + s != old(h.dv) && q != old(h.dv)
  {
    h.SpareFiled();
    AloneFreed(h, q, s);
    hide Allocator.Valid, Rejoined, FreeFrom, MergedSize, Filed, Allocator.Newest, Live;
    h.Free(q + HEADER);
  }

  /** A chunk freed between chunks in use is found again: the next request of its size is served without asking for
      memory and gets a chunk of exactly that size; the very same one if it is small, or if no other free chunk is of
      the size. */
  method FreeThenMalloc(h: Allocator, mem: nat, bytes: nat) returns (again: nat)
    requires h.Valid() && mem >= HEADER && bytes < WORD && Between(h, mem - HEADER, Padded(bytes))
    modifies h, h.smalls, h.trees
    ensures h.Valid() && again >= HEADER && again - HEADER in h.InUse()
    ensures h.InUse()[again - HEADER] == Padded(bytes) && h.brk == old(h.brk) && h.calls == old(h.calls)
    ensures Padded(bytes) < LARGE ==> again == mem && h.InUse() == old(h.InUse())
    ensures !Exact(old(h.trees.contents), Padded(bytes)) && old(h.dvsize) != Padded(bytes) ==>
      again == mem && h.InUse() == old(h.InUse())
  {
    hide Padded, Allocator.Valid, Outcome, Rejoined, Exact, Granted, Filed, Allocator.Newest, Live, Room;
    ghost var f, q, s, before := h.Spare(), mem - HEADER, Padded(bytes), h.InUse();
    assert q in before && before[q] == s;
    FreeAlone(h, mem - HEADER, s);
    ghost var newest := h.Newest(s);
    ghost var calls := h.calls;
    again := h.Malloc(bytes);
    ghost var p := if again == 0 then 0 else again - HEADER;
    Again(f, q, q + s, s, p, h.InUse(), h.Spare(), old(h.brk), h.brk, h.calls != calls, newest);
    if p == q { BackInUse(before, h.InUse(), q, s); }
  }

  lemma BackInUse(before: map<nat, nat>, after: map<nat, nat>, q: nat, s: nat)
    requires q in before && before[q] == s && q in after
    requires after[q] == s && Granted(before - {q}, after, q, s)
    ensures after == before
  {
  }

  lemma Again(f: Pool, q: nat, n: nat, s: nat, p: nat, live: map<nat, nat>, g: Pool, brk0: nat, brk: nat, asked: bool,
              newest: nat)
    requires n != f.top && n != f.dv && q != f.dv
    requires Filed(f) && (s < LARGE ==> newest == q)
    requires Outcome(Rejoined(f, q, n, s), g, s, p, live, brk0, brk, asked)
    requires Exact(Rejoined(f, q, n, s).smalls, s) ==> p == newest
    ensures p != 0 && p in live && live[p] == s
    ensures brk == brk0 && !asked
    ensures s < LARGE ==> p == q
    ensures !Exact(f.larges, s) && f.dvsize != s ==> p == q
  {
    var h := Rejoined(f, q, n, s);
    assert q in (if s < LARGE then h.smalls else h.larges);
    assert Server(h, s) != System by {
      if s >= LARGE { TreeServes(h, s); }
    }
    FreedServesAgain(f, q, n, s, p, live[p], g);
    if s < LARGE {
      assert h.smalls[q] == s;
    } else {
      assert !Exact(f.smalls, s);
    }
  }

  lemma ChunkAddress(before: map<nat, nat>, after: map<nat, nat>, p: nat, nb: nat)
    requires Granted(before, after, p, nb)
    ensures p != 0
  {
  }

  lemma ServedNone()
    ensures Served(map[], [])
  {
  }

  lemma ServedAt(inUse: map<nat, nat>, live: seq<Object>, k: nat)
    requires Served(inUse, live) && k < |live|
    ensures live[k].chunk in inUse
  {
    assert Backed(inUse, live[k]);
  }

  /** The program may write every byte it asked for: none belongs to the allocator or to another object. */
  lemma OwnBytes(h: Allocator, live: seq<Object>, i: nat, k: nat)
    requires h.Valid() && Served(h.InUse(), live) && i < |live| && k < live[i].bytes
    ensures var w := live[i].chunk + HEADER + k;
      && !Kept(h, w)
      && forall j ::
           0 <= j < |live| && j != i ==> !(live[j].chunk + HEADER <= w < live[j].chunk + HEADER + live[j].bytes)
  {
    hide Padded, Allocator.Valid, Allocator.InUse, Kept;
    assert Backed(h.InUse(), live[i]);
    var a := live[i].chunk;
    PayloadApart(h, a, a + HEADER + k);
    forall j | 0 <= j < |live| &&
        j != i ensures !(live[j].chunk + HEADER <= a + HEADER + k < live[j].chunk + HEADER + live[j].bytes) {
      assert Backed(h.InUse(), live[j]);
      var b := live[j].chunk;
      if a < b { h.Separate(a, b); } else { h.Separate(b, a); }
    }
  }
}
