/** malloc and free over boundary tags, small bins, tree bins, the designated victim and the top chunk
(userspace/libc/malloc.c:4552-4797), with memory from a contiguous sbrk (userspace/libc/malloc.c:4045-4250). */
module Heap {
  import opened Machine
  import opened Tags
  import opened Sorting
  import opened BinMaps
  import opened Serving
  import SmallBins
  import TreeBins
  import TreeIndex
  import BestFit

  const HALF_MAX: nat := 0x7FFF_FFFF_FFFF_FFFF      // HALF_MAX_SIZE_T
  const MAX_SIZE_T: nat := 0xFFFF_FFFF_FFFF_FFFF
  const MAX_REQUEST: nat := 0xFFFF_FFFF_FFFF_FF80   // (-MIN_CHUNK_SIZE) << 2
  const MAX_SMALL_REQUEST: nat := 232
  const MIN_REQUEST: nat := 23
  const TOP_FOOT: nat := 80                         // TOP_FOOT_SIZE
  const SYS_PADDING: nat := 96                      // SYS_ALLOC_PADDING
  const TRIM_THRESHOLD: nat := 0x20_0000
  const HEADER: nat := 16                           // chunk2mem

  /** pad_request. */
  function PadRequest(bytes: nat): nat {
    (bytes + 8 + 15) / 16 * 16
  }

  /** The chunk size a request needs. */
  function Padded(bytes: nat): (nb: nat)
    ensures nb % ALIGN == 0 && nb >= MIN_CHUNK && nb >= bytes + 8 && (nb == MIN_CHUNK || nb < bytes + 8 + ALIGN)
  {
    if bytes < MIN_REQUEST then MIN_CHUNK else PadRequest(bytes)
  }

  /** granularity_align in a 64-bit word, the granularity being a page. */
  function PageAlign(x: nat): nat {
    (x + PAGE - 1) % WORD / PAGE * PAGE
  }

  /** A word difference. */
  function Minus(a: nat, b: nat): nat
    requires a < WORD && b < WORD
  {
    if a >= b then a - b else WORD + a - b
  }

  // ---- the whole heap ---------------------------------------------------------------------------------

  ghost predicate Whole(bl: Blocks, heads: map<nat, Head>, feet: map<nat, nat>, base: nat, top: nat, end: nat,
                        smalls: map<nat, nat>, larges: map<nat, nat>, dv: nat, dvsize: nat) {
    Inv(bl, heads, feet, base, top, end) && Sorted(bl, smalls, larges, dv, dvsize, top)
  }

  /** A free chunk, binned or dv, is used whole. */
  lemma WholeTake(bl: Blocks, heads: map<nat, Head>, feet: map<nat, nat>, base: nat, top: nat, end: nat,
                  smalls: map<nat, nat>, larges: map<nat, nat>, dv: nat, dvsize: nat, p: nat)
    requires Whole(bl, heads, feet, base, top, end, smalls, larges, dv, dvsize) && p in bl && !bl[p].used && p != top
    ensures var n, bl' := p + bl[p].size, bl[p := bl[p].(used := true)];
      && n in heads && top in bl' && bl'[top] == bl[top] && p !in Live(bl) && Live(bl') == Live(bl)[p := bl[p].size]
      && var heads' := heads[p := Head(bl[p].size, true, true)][n := heads[n].(pinuse := true)];
         if p == dv then Whole(bl', heads', feet, base, top, end, smalls, larges, 0, 0)
         else Whole(bl', heads', feet, base, top, end, smalls - {p}, larges - {p}, dv, dvsize)
  {
    Take(bl, heads, feet, base, top, end, p);
    SortedTake(bl, heads, feet, base, top, end, smalls, larges, dv, dvsize, p);
    LiveTake(bl, p);
    hide Inv, Sorted, Live;
  }

  /** What a split leaves of the tiling for its users. */
  lemma SplitFacts(bl: Blocks, heads: map<nat, Head>, feet: map<nat, nat>, base: nat, top: nat, end: nat, p: nat,
                   nb: nat)
    requires Inv(bl, heads, feet, base, top, end) && p in bl && !bl[p].used && 0 < nb < bl[p].size
    ensures p !in Live(bl) && Live(Split(bl, p, nb)) == Live(bl)[p := nb] && p + nb != 0
    ensures p != top ==> top in Split(bl, p, nb) && Split(bl, p, nb)[top].size == bl[top].size
    ensures p == top ==> p + nb in Split(bl, p, nb) && Split(bl, p, nb)[p + nb].size == bl[p].size - nb
  {
    LiveSplit(bl, heads, feet, base, top, end, p, nb);
    SplitAt(bl, heads, feet, base, top, end, p, nb, top);
    SplitAt(bl, heads, feet, base, top, end, p, nb, p + nb);
  }

  /** A binned chunk is split; the rest becomes the dv and the old dv goes to its small bin. */
  lemma WholeNewDv(bl: Blocks, heads: map<nat, Head>, feet: map<nat, nat>, base: nat, top: nat, end: nat,
                  smalls: map<nat, nat>, larges: map<nat, nat>, dv: nat, dvsize: nat, p: nat, nb: nat)
    requires Whole(bl, heads, feet, base, top, end, smalls, larges, dv, dvsize) && dvsize < LARGE
    requires p in bl && !bl[p].used && p != top
    requires p != dv && nb >= MIN_CHUNK && nb % ALIGN == 0
    requires nb + MIN_CHUNK <= bl[p].size
    ensures var rsize, smalls1 := bl[p].size - nb, smalls - {p};
      Whole(Split(bl, p, nb), SplitHeads(heads, p, nb, rsize), feet[p + bl[p].size := rsize], base, top, end,
            if dv == 0 then smalls1 else smalls1[dv := dvsize], larges - {p}, p + nb, rsize)
  {
    Carve(bl, heads, feet, base, top, end, p, nb);
    SortedNewDv(bl, heads, feet, base, top, end, smalls, larges, dv, dvsize, p, nb);
    hide Inv, Sorted, Split, SplitHeads;
  }

  /** The dv is split. */
  lemma WholeSplitDv(bl: Blocks, heads: map<nat, Head>, feet: map<nat, nat>, base: nat, top: nat, end: nat,
                  smalls: map<nat, nat>, larges: map<nat, nat>, dv: nat, dvsize: nat, nb: nat)
    requires Whole(bl, heads, feet, base, top, end, smalls, larges, dv, dvsize)
    requires dv != 0 && nb >= MIN_CHUNK && nb % ALIGN == 0 && nb + MIN_CHUNK <= dvsize
    ensures dv in bl && bl[dv].size == dvsize && !bl[dv].used && dv != top
    ensures Whole(Split(bl, dv, nb), SplitHeads(heads, dv, nb, dvsize - nb), feet[dv + dvsize := dvsize - nb], base,
      top, end,
                  smalls, larges, dv + nb, dvsize - nb)
  {
    Carve(bl, heads, feet, base, top, end, dv, nb);
    SortedSplitDv(bl, heads, feet, base, top, end, smalls, larges, dv, dvsize, nb);
    hide Inv, Split, SplitHeads;
  }

  /** A binned chunk is split and the rest is binned. */
  lemma WholeSplitBin(bl: Blocks, heads: map<nat, Head>, feet: map<nat, nat>, base: nat, top: nat, end: nat,
                  smalls: map<nat, nat>, larges: map<nat, nat>, dv: nat, dvsize: nat, p: nat, nb: nat)
    requires Whole(bl, heads, feet, base, top, end, smalls, larges, dv, dvsize)
    requires p in bl && !bl[p].used && p != top
    requires p != dv && nb >= MIN_CHUNK && nb % ALIGN == 0
    requires nb + MIN_CHUNK <= bl[p].size
    ensures var r, rsize := p + nb, bl[p].size - nb;
      && r !in smalls && r !in larges
      && Whole(Split(bl, p, nb), SplitHeads(heads, p, nb, rsize), feet[p + bl[p].size := rsize], base, top, end,
               Put(smalls - {p}, rsize < LARGE, r, rsize), Put(larges - {p}, rsize >= LARGE, r, rsize), dv, dvsize)
  {
    Carve(bl, heads, feet, base, top, end, p, nb);
    SortedSplitBin(bl, heads, feet, base, top, end, smalls, larges, dv, dvsize, p, nb);
    SplitNew(bl, heads, feet, base, top, end, p, nb);
    SortedAt(bl, smalls, larges, dv, dvsize, top, p + nb);
    hide Inv, Sorted, Split, SplitHeads;
  }

  /** The top is split. */
  lemma WholeSplitTop(bl: Blocks, heads: map<nat, Head>, feet: map<nat, nat>, base: nat, top: nat, end: nat,
                  smalls: map<nat, nat>, larges: map<nat, nat>, dv: nat, dvsize: nat, nb: nat)
    requires Whole(bl, heads, feet, base, top, end, smalls, larges, dv, dvsize) && nb >= MIN_CHUNK && nb % ALIGN == 0
    requires top in bl && nb < bl[top].size
    ensures Whole(Split(bl, top, nb), SplitHeads(heads, top, nb, bl[top].size - nb), feet, base, top + nb, end,
      smalls, larges, dv, dvsize)
  {
    CarveTop(bl, heads, feet, base, top, end, nb);
    SortedSplitTop(bl, heads, feet, base, top, end, smalls, larges, dv, dvsize, nb);
    hide Inv, Sorted, Split, SplitHeads;
  }

  /** What the bins say about the tiling. */
  lemma BinnedFacts(bl: Blocks, heads: map<nat, Head>, feet: map<nat, nat>, base: nat, top: nat, end: nat,
                  smalls: map<nat, nat>, larges: map<nat, nat>, dv: nat, dvsize: nat, p: nat)
    requires Whole(bl, heads, feet, base, top, end, smalls, larges, dv, dvsize)
    ensures p in smalls ==> p in bl && !bl[p].used && p != top && p != dv && bl[p].size == smalls[p] && p !in larges
    ensures p in larges ==> p in bl && !bl[p].used && p != top && p != dv && bl[p].size == larges[p] && p !in smalls
    ensures p in bl ==>
      p != 0 && p < end && bl[p].size < end && bl[p].size % ALIGN == 0 && (p != top ==> bl[p].size >= MIN_CHUNK)
    ensures p in bl && p == dv ==> !bl[p].used && p != top && bl[p].size == dvsize && p !in smalls && p !in larges
    ensures dv != 0 ==> dv in bl
    ensures top in bl && 0 !in bl
  {
    SortedAt(bl, smalls, larges, dv, dvsize, top, p);
    if p in bl { Step(bl, heads, feet, base, top, end, p); }
    if 0 in bl { Step(bl, heads, feet, base, top, end, 0); }
  }

  // ---- the heap as an object ----------------------------------------------------------------------------

  /** The state of a heap: not yet set up, or a segment that ends TOP_FOOT before the break. */
  ghost predicate Consistent(bl: Blocks, heads: map<nat, Head>, feet: map<nat, nat>, base: nat, top: nat, topsize: nat,
                             dv: nat, dvsize: nat, brk: nat, smalls: map<nat, nat>, larges: map<nat, nat>) {
    if top == 0 then bl == map[] && smalls == map[] && larges == map[] && dv == 0 && dvsize == 0 && topsize == 0
    else && brk >= TOP_FOOT && top in bl && topsize == bl[top].size
         && Whole(bl, heads, feet, base, top, brk - TOP_FOOT, smalls, larges, dv, dvsize)
  }

  /** Chunk `p` of at least `nb` bytes has come into use, and nothing else has changed for the users. */
  ghost predicate Granted(before: map<nat, nat>, after: map<nat, nat>, p: nat, nb: nat) {
    p != 0 && p % ALIGN == 0 && p !in before && p in after && after[p] >= nb && after == before[p := after[p]]
  }

  lemma GrantedLess(before: map<nat, nat>, after: map<nat, nat>, p: nat, size: nat, nb: nat)
    requires Granted(before, after, p, size) && nb <= size
    ensures Granted(before, after, p, nb)
  {
  }

  /** Using the whole of binned chunk `p`. */
  lemma TakeFacts(bl: Blocks, heads: map<nat, Head>, feet: map<nat, nat>, base: nat, top: nat, end: nat,
                  smalls: map<nat, nat>, larges: map<nat, nat>, dv: nat, dvsize: nat, p: nat)
    requires Whole(bl, heads, feet, base, top, end, smalls, larges, dv, dvsize) && (p in smalls || p in larges)
    ensures p in bl && p + bl[p].size in heads && bl[p].size > 0
    ensures bl[p].size == if p in smalls then smalls[p] else larges[p]
    ensures var n, bl' := p + bl[p].size, bl[p := bl[p].(used := true)];
      && Whole(bl', heads[p := Head(bl[p].size, true, true)][n := heads[n].(pinuse := true)], feet, base, top, end,
           smalls - {p}, larges - {p}, dv, dvsize)
      && top in bl && bl'[top] == bl[top] && Granted(Live(bl), Live(bl'), p, bl[p].size) &&
         Live(bl')[p] == bl[p].size
      && (p in smalls ==> larges - {p} == larges) && (p in larges ==> smalls - {p} == smalls)
  {
    BinnedFacts(bl, heads, feet, base, top, end, smalls, larges, dv, dvsize, p);
    WholeTake(bl, heads, feet, base, top, end, smalls, larges, dv, dvsize, p);
    Step(bl, heads, feet, base, top, end, p);
  }

  lemma NewDvFacts(bl: Blocks, heads: map<nat, Head>, feet: map<nat, nat>, base: nat, top: nat, end: nat,
                  smalls: map<nat, nat>, larges: map<nat, nat>, dv: nat, dvsize: nat, p: nat, nb: nat)
    requires Whole(bl, heads, feet, base, top, end, smalls, larges, dv, dvsize) && (p in smalls || p in larges)
    requires dvsize < LARGE
    requires var size := if p in smalls then smalls[p] else larges[p];
      nb >= MIN_CHUNK && nb % ALIGN == 0 && nb + MIN_CHUNK <= size
    ensures p in bl && bl[p].size == if p in smalls then smalls[p] else larges[p]
    ensures p in larges ==> p !in smalls
    ensures var bl', rsize, smalls1 := Split(bl, p, nb), bl[p].size - nb, smalls - {p};
      && Whole(bl', heads[p := Head(nb, true, true)][p + nb := Head(rsize, false, true)],
           feet[p + nb + rsize := rsize], base, top, end,
               if dvsize == 0 then smalls1 else smalls1[dv := dvsize], larges - {p}, p + nb, rsize)
      && top in bl && top in bl' && bl'[top].size == bl[top].size && Granted(Live(bl), Live(bl'), p, nb)
      && Live(bl')[p] == nb
      && (dvsize != 0 ==> dv != 0 && dv !in smalls && dvsize % ALIGN == 0)
  {
    BinnedFacts(bl, heads, feet, base, top, end, smalls, larges, dv, dvsize, p);
    BinnedFacts(bl, heads, feet, base, top, end, smalls, larges, dv, dvsize, dv);
    WholeNewDv(bl, heads, feet, base, top, end, smalls, larges, dv, dvsize, p, nb);
    SplitFacts(bl, heads, feet, base, top, end, p, nb);
    Step(bl, heads, feet, base, top, end, p);
    hide Split, Live, Inv;
  }

  lemma SplitBinFacts(bl: Blocks, heads: map<nat, Head>, feet: map<nat, nat>, base: nat, top: nat, end: nat,
                  smalls: map<nat, nat>, larges: map<nat, nat>, dv: nat, dvsize: nat, p: nat, nb: nat)
    requires Whole(bl, heads, feet, base, top, end, smalls, larges, dv, dvsize) && (p in smalls || p in larges)
    requires var size := if p in smalls then smalls[p] else larges[p];
      nb >= MIN_CHUNK && nb % ALIGN == 0 && nb + MIN_CHUNK <= size
    ensures p in bl && bl[p].size == (if p in smalls then smalls[p] else larges[p]) && bl[p].size < end
    ensures bl[p].size % ALIGN == 0
    ensures p in larges ==> p !in smalls
    ensures var bl', r, rsize := Split(bl, p, nb), p + nb, bl[p].size - nb;
      && r != 0 && r !in smalls && r !in larges
      && Whole(bl', heads[p := Head(nb, true, true)][r := Head(rsize, false, true)], feet[r + rsize := rsize], base,
           top, end,
               Put(smalls - {p}, rsize < LARGE, r, rsize), Put(larges - {p}, rsize >= LARGE, r, rsize), dv, dvsize)
      && top in bl && top in bl' && bl'[top].size == bl[top].size && Granted(Live(bl), Live(bl'), p, nb)
      && Live(bl')[p] == nb
  {
    BinnedFacts(bl, heads, feet, base, top, end, smalls, larges, dv, dvsize, p);
    WholeSplitBin(bl, heads, feet, base, top, end, smalls, larges, dv, dvsize, p, nb);
    SplitFacts(bl, heads, feet, base, top, end, p, nb);
    Step(bl, heads, feet, base, top, end, p);
    hide Split, Live, Inv;
  }

  lemma DvBound(bl: Blocks, heads: map<nat, Head>, feet: map<nat, nat>, base: nat, top: nat, topsize: nat,
                dv: nat, dvsize: nat, brk: nat, smalls: map<nat, nat>, larges: map<nat, nat>)
    requires Consistent(bl, heads, feet, base, top, topsize, dv, dvsize, brk, smalls, larges) && brk <= TreeIndex.LIMIT
    ensures dvsize < TreeIndex.LIMIT < WORD && dvsize % ALIGN == 0 && (dvsize != 0 ==> dv != 0)
    ensures (dv != 0 ==> top != 0) && (larges != map[] ==> top != 0)
    ensures topsize < TreeIndex.LIMIT && topsize % ALIGN == 0 && (top != 0 ==> topsize < brk)
  {
    if top != 0 {
      BinnedFacts(bl, heads, feet, base, top, brk - TOP_FOOT, smalls, larges, dv, dvsize, dv);
      BinnedFacts(bl, heads, feet, base, top, brk - TOP_FOOT, smalls, larges, dv, dvsize, top);
    }
  }

  /** The two heads of a split can be written in either order. */
  lemma SplitOrder(heads: map<nat, Head>, p: nat, nb: nat, rsize: nat)
    requires nb > 0
    ensures heads[p + nb := Head(rsize, false, true)][p := Head(nb, true, true)] == SplitHeads(heads, p, nb, rsize)
  {
  }

  lemma DvFacts(bl: Blocks, heads: map<nat, Head>, feet: map<nat, nat>, base: nat, top: nat, end: nat,
                  smalls: map<nat, nat>, larges: map<nat, nat>, dv: nat, dvsize: nat, nb: nat)
    requires Whole(bl, heads, feet, base, top, end, smalls, larges, dv, dvsize) && dv != 0
    requires MIN_CHUNK <= nb <= dvsize && nb % ALIGN == 0
    ensures dv in bl && bl[dv].size == dvsize && top in bl
    ensures dvsize - nb >= MIN_CHUNK ==>
      var bl' := Split(bl, dv, nb);
      && Whole(bl', SplitHeads(heads, dv, nb, dvsize - nb), feet[dv + dvsize := dvsize - nb], base, top, end, smalls,
           larges, dv + nb, dvsize - nb)
      && top in bl' && bl'[top].size == bl[top].size && Granted(Live(bl), Live(bl'), dv, nb) && Live(bl')[dv] == nb
    ensures dvsize - nb < MIN_CHUNK ==>
      var n, bl' := dv + dvsize, bl[dv := bl[dv].(used := true)];
      && n in heads && top in bl' && bl'[top] == bl[top] && Granted(Live(bl), Live(bl'), dv, nb)
      && Live(bl')[dv] == dvsize
      && Whole(bl', heads[dv := Head(dvsize, true, true)][n := heads[n].(pinuse := true)], feet, base, top, end,
           smalls, larges, 0, 0)
  {
    BinnedFacts(bl, heads, feet, base, top, end, smalls, larges, dv, dvsize, dv);
    Step(bl, heads, feet, base, top, end, dv);
    if dvsize - nb >= MIN_CHUNK {
      WholeSplitDv(bl, heads, feet, base, top, end, smalls, larges, dv, dvsize, nb);
      SplitFacts(bl, heads, feet, base, top, end, dv, nb);
    } else {
      WholeTake(bl, heads, feet, base, top, end, smalls, larges, dv, dvsize, dv);
    }
    hide Split, Live, Inv, Sorted, SplitHeads;
  }

  lemma TopFacts(bl: Blocks, heads: map<nat, Head>, feet: map<nat, nat>, base: nat, top: nat, end: nat,
                  smalls: map<nat, nat>, larges: map<nat, nat>, dv: nat, dvsize: nat, nb: nat)
    requires Whole(bl, heads, feet, base, top, end, smalls, larges, dv, dvsize) && top in bl
    requires MIN_CHUNK <= nb < bl[top].size && nb % ALIGN == 0
    ensures var bl', rsize := Split(bl, top, nb), bl[top].size - nb;
      && Whole(bl', SplitHeads(heads, top, nb, rsize), feet, base, top + nb, end, smalls, larges, dv, dvsize)
      && top + nb in bl' && bl'[top + nb].size == rsize && Granted(Live(bl), Live(bl'), top, nb)
      && Live(bl')[top] == nb
  {
    BinnedFacts(bl, heads, feet, base, top, end, smalls, larges, dv, dvsize, top);
    Step(bl, heads, feet, base, top, end, top);
    WholeSplitTop(bl, heads, feet, base, top, end, smalls, larges, dv, dvsize, nb);
    SplitFacts(bl, heads, feet, base, top, end, top, nb);
    hide Split, Live, Inv, Sorted, SplitHeads;
  }

  /** A head written where no chunk begins says nothing. */
  lemma StrayHead(bl: Blocks, heads: map<nat, Head>, feet: map<nat, nat>, base: nat, top: nat, end: nat, y: nat,
                  h: Head)
    requires Inv(bl, heads, feet, base, top, end) && y >= end
    ensures y !in bl && Inv(bl, heads[y := h], feet, base, top, end)
  {
    forall a | a in bl ensures a < y && Ok(bl, heads[y := h], feet, base, top, end, a) {
      Step(bl, heads, feet, base, top, end, a);
    }
  }

  lemma PageSizes(tbase: nat, tsize: nat)
    requires tbase % PAGE == 0 && (tbase + tsize) % PAGE == 0 && tsize > TOP_FOOT
    ensures tbase % ALIGN == 0 && tsize % ALIGN == 0 && (tsize - TOP_FOOT) % ALIGN == 0
  {
    var k, m := tbase / PAGE, (tbase + tsize) / PAGE;
    assert tbase == PAGE * k && tbase + tsize == PAGE * m;
    Sixteenths(tbase, 256 * k);
    Sixteenths(tsize, 256 * m - 256 * k);
    Sixteenths(tsize - TOP_FOOT, 256 * m - 256 * k - 5);
  }

  lemma Sixteenths(x: nat, k: nat)
    requires x == 16 * k
    ensures x % ALIGN == 0
  {
  }

  lemma PadFacts(bytes: nat)
    ensures Padded(bytes) == if bytes < MIN_REQUEST then MIN_CHUNK else PadRequest(bytes)
    ensures bytes <= MAX_SMALL_REQUEST ==> Padded(bytes) < LARGE
    ensures bytes > MAX_SMALL_REQUEST ==> Padded(bytes) >= LARGE
    ensures bytes < MAX_REQUEST ==> Padded(bytes) < WORD
    ensures MIN_CHUNK < MAX_SIZE_T < WORD && TreeIndex.LIMIT < MAX_SIZE_T
    ensures Padded(bytes) >= HALF_MAX - 2 * PAGE ==> bytes >= HALF_MAX - 3 * PAGE
  {
  }

  lemma SumAligned(a: nat, b: nat)
    requires a % ALIGN == 0 && b % ALIGN == 0
    ensures (a + b) % ALIGN == 0
  {
  }

  lemma FirstFacts(heads: map<nat, Head>, feet: map<nat, nat>, base: nat, size: nat)
    requires base > 0 && base % ALIGN == 0 && size > 0 && size % ALIGN == 0
    ensures var bl := map[base := Block(size, false, 0)];
      && Live(bl) == map[]
      && Whole(bl, heads[base := Head(size, false, true)][base + size := Head(TOP_FOOT, false, false)], feet, base,
           base, base + size, map[], map[], 0, 0)
  {
    FirstTop(heads, feet, base, size);
    SortedFirst(base, size);
    var bl: Blocks := map[base := Block(size, false, 0)];
    StrayHead(bl, heads[base := Head(size, false, true)], feet, base, base, base + size, base + size,
        Head(TOP_FOOT, false, false));
  }

  lemma ResizeFacts(bl: Blocks, heads: map<nat, Head>, feet: map<nat, nat>, base: nat, top: nat, end: nat,
                  smalls: map<nat, nat>, larges: map<nat, nat>, dv: nat, dvsize: nat, size: nat)
    requires Whole(bl, heads, feet, base, top, end, smalls, larges, dv, dvsize) && size > 0 && size % ALIGN == 0
    ensures top in bl && top + bl[top].size == end
    ensures var bl' := bl[top := bl[top].(size := size)];
      && Live(bl') == Live(bl)
      && Whole(bl', heads[top := Head(size, false, true)][top + size := Head(TOP_FOOT, false, false)], feet, base,
           top, top + size, smalls, larges, dv, dvsize)
  {
    Step(bl, heads, feet, base, top, end, top);
    ResizeTop(bl, heads, feet, base, top, end, size);
    SortedResize(bl, smalls, larges, dv, dvsize, top, size);
    var bl' := bl[top := bl[top].(size := size)];
    StrayHead(bl', heads[top := Head(size, false, true)], feet, base, top, top + size, top + size,
        Head(TOP_FOOT, false, false));
    assert Live(bl') == Live(bl);
    hide Inv, Sorted, Live;
  }

  /** Rounding up to a page, when it does not leave the word. */
  lemma AlignExact(x: nat)
    requires x + PAGE - 1 < WORD
    ensures x <= PageAlign(x) < x + PAGE && PageAlign(x) % PAGE == 0
  {
    assert (x + PAGE - 1) % WORD == x + PAGE - 1;
  }

  /** A padded and rounded request that leaves the word comes out no larger than the request. */
  lemma Wrapped(nb: nat)
    requires nb < WORD && nb + SYS_PADDING + PAGE - 1 >= WORD
    ensures PageAlign((nb + SYS_PADDING) % WORD) <= nb
  {
    var x := (nb + SYS_PADDING) % WORD;
    if nb + SYS_PADDING >= WORD {
      assert x == nb + SYS_PADDING - WORD;
      AlignExact(x);
    } else {
      assert (x + PAGE - 1) % WORD == x + PAGE - 1 - WORD;
    }
  }

  /** Below half the address space nothing wraps. */
  lemma Modest(nb: nat)
    requires nb < HALF_MAX - 2 * PAGE
    ensures nb < PageAlign((nb + SYS_PADDING) % WORD) < HALF_MAX
  {
    assert (nb + SYS_PADDING) % WORD == nb + SYS_PADDING;
    AlignExact(nb + SYS_PADDING);
  }

  lemma PageSum(a: nat, b: nat)
    requires a % PAGE == 0 && b % PAGE == 0
    ensures (a + b) % PAGE == 0
  {
  }

  lemma AlignedIs(x: nat)
    requires x % PAGE == 0 && x + PAGE - 1 < WORD
    ensures PageAlign(x) == x
  {
    AlignExact(x);
  }

  lemma AlignMonotone(x: nat, y: nat, a: nat)
    requires x <= y <= a && a % PAGE == 0 && x + PAGE - 1 < WORD
    ensures PageAlign(x) <= a
  {
    AlignExact(x);
  }

  /** A marked small bin shows that the heap has been set up. */
  lemma SmallMarked(fd: map<SmallBins.Ref, SmallBins.Ref>, bk: map<SmallBins.Ref, SmallBins.Ref>, smallmap: BinMap,
                    lists: seq<seq<nat>>, contents: map<nat, nat>, i: nat)
    requires SmallBins.Shape(fd, bk, smallmap, lists) && SmallBins.Holding(lists, contents) && i < SmallBins.BINS
    requires smallmap[i]
    ensures contents != map[]
  {
    assert SmallBins.InBin(contents, lists[i][0], i);
  }

  /** What the shifted map says about the bins for a small request. */
  lemma SmallBits(smallmap: BinMap, nb: nat)
    requires nb % ALIGN == 0 && nb < LARGE
    ensures var idx := SmallBins.SmallIndex(nb);
      var bits := ShiftDownBy(smallmap, idx);
      && idx + 1 < SmallBins.BINS && SmallBins.SizeOf(idx) == nb && bits[0] == smallmap[idx]
      && bits[1] == smallmap[idx + 1]
      && (bits != BestFit.None() && !bits[0] && !bits[1] ==>
          var i := BitToIdx(LeastBit(And(ShiftUpBy(bits, idx), LeftBits(IdxToBit(idx)))));
          idx < i < SmallBins.BINS && smallmap[i] && forall j :: idx <= j < i ==> !smallmap[j])
      && (bits == BestFit.None() ==> forall j :: idx <= j < SmallBins.BINS ==> !smallmap[j])
  {
    var idx := SmallBins.SmallIndex(nb);
    SmallPlace(nb);
    var bits := ShiftDownBy(smallmap, idx);
    assert bits[0] == smallmap[idx] && bits[1] == smallmap[idx + 1];
    if bits != BestFit.None() && !bits[0] && !bits[1] {
      LaterBin(smallmap, idx);
      hide *;
    } else if bits == BestFit.None() {
      forall j | idx <= j < SmallBins.BINS ensures !smallmap[j] {
        assert bits[j - idx] == smallmap[j];
      }
    }
  }

  lemma SmallPlace(nb: nat)
    requires nb % ALIGN == 0 && nb < LARGE
    ensures var idx := SmallBins.SmallIndex(nb); idx + 1 < SmallBins.BINS && SmallBins.SizeOf(idx) == nb
  {
    var k := nb / 16;
    assert nb == 16 * k && nb / 8 == 2 * k;
  }

  lemma DownBit(x: BinMap, n: nat, k: nat)
    requires k < 32 && ShiftDownBy(x, n)[k]
    ensures n + k < 32 && x[n + k]
  {
  }

  lemma LaterBin(smallmap: BinMap, idx: nat)
    requires idx + 1 < SmallBins.BINS && !smallmap[idx] && ShiftDownBy(smallmap, idx) != BestFit.None()
    ensures var i := BitToIdx(LeastBit(And(ShiftUpBy(ShiftDownBy(smallmap, idx), idx), LeftBits(IdxToBit(idx)))));
      idx < i < SmallBins.BINS && smallmap[i] && forall j :: idx <= j < i ==> !smallmap[j]
  {
    hide And, ShiftUpBy, ShiftDownBy, LeftBits, IdxToBit, LeastBit;
    var bits := ShiftDownBy(smallmap, idx);
    BestFit.SomeMark(bits);
    var k :| 0 <= k < 32 && bits[k];
    DownBit(smallmap, idx, k);
    MarkedBeyond(smallmap, idx);
    var beyond := And(ShiftUpBy(bits, idx), LeftBits(IdxToBit(idx)));
    assert beyond[idx + k];
    FirstMarked(beyond);
  }

  /** A small chunk marks the bin of its size. */
  lemma SmallMark(fd: map<SmallBins.Ref, SmallBins.Ref>, bk: map<SmallBins.Ref, SmallBins.Ref>, smallmap: BinMap,
                  lists: seq<seq<nat>>, contents: map<nat, nat>, a: nat)
    requires SmallBins.Shape(fd, bk, smallmap, lists) && SmallBins.Holding(lists, contents) && a in contents
    ensures var i := SmallBins.SmallIndex(contents[a]);
      i < SmallBins.BINS && smallmap[i] && contents[a] == SmallBins.SizeOf(i)
  {
    var i := SmallBins.SmallIndex(contents[a]);
    assert SmallBins.InBin(contents, a, i);
    assert a in lists[i];
  }

  /** With no mark from `idx` up to `i` no small chunk has a size between theirs. */
  lemma NoneBetween(fd: map<SmallBins.Ref, SmallBins.Ref>, bk: map<SmallBins.Ref, SmallBins.Ref>, smallmap: BinMap,
                    lists: seq<seq<nat>>, contents: map<nat, nat>, idx: nat, i: nat)
    requires SmallBins.Shape(fd, bk, smallmap, lists) && SmallBins.Holding(lists, contents)
    requires idx <= i <= SmallBins.BINS && forall j :: idx <= j < i ==> !smallmap[j]
    ensures forall a :: a in contents ==> contents[a] < SmallBins.SizeOf(idx) || contents[a] >= SmallBins.SizeOf(i)
  {
    forall a | a in contents ensures contents[a] < SmallBins.SizeOf(idx) || contents[a] >= SmallBins.SizeOf(i) {
      SmallMark(fd, bk, smallmap, lists, contents, a);
    }
  }

  /** Chunk sizes are multiples of 16 and bin sizes of 8: the bin behind that of a chunk size is empty. */
  lemma OddBin(fd: map<SmallBins.Ref, SmallBins.Ref>, bk: map<SmallBins.Ref, SmallBins.Ref>, smallmap: BinMap,
               lists: seq<seq<nat>>, contents: map<nat, nat>, idx: nat)
    requires SmallBins.Shape(fd, bk, smallmap, lists) && SmallBins.Holding(lists, contents)
    requires idx + 1 < SmallBins.BINS && SmallBins.SizeOf(idx) % ALIGN == 0
    requires forall a :: a in contents ==> contents[a] % ALIGN == 0
    ensures !smallmap[idx + 1]
  {
    assert SmallBins.SizeOf(idx + 1) == SmallBins.SizeOf(idx) + 8;
    assert smallmap[idx + 1] ==> SmallBins.InBin(contents, lists[idx + 1][0], idx + 1);
  }

  /** An empty map means empty trees. */
  lemma NoTrees(b: TreeBins.Bins)
    requires b.Valid() && b.treemap == BestFit.None()
    ensures b.contents == map[]
  {
    if b.contents != map[] {
      var a :| a in b.contents;
      BestFit.Marked(b.mem, b.bins, b.treemap, b.trees, b.contents, a);
      assert false;
    }
  }

  /** Calls `i` to `j` of sbrk, one at least, were refused, or asked for more than there is; none asked for `need`
      bytes. */
  ghost predicate AllRefused(grants: nat -> bool, i: nat, j: nat, brk: nat, need: nat, limit: nat) {
    i < j && forall c :: i <= c < j ==> !grants(c) || brk + need > limit
  }

  /** What a request for `nb` bytes comes to: a free chunk serves if one has room, and the break stays; if none has,
      what is handed out is the front of new space, and nothing changes if there is none. */
  ghost predicate Outcome(f: Pool, g: Pool, nb: nat, p: nat, live: map<nat, nat>, brk0: nat, brk: nat, asked: bool) {
    && (p != 0 ==> p in live)
    && (Server(f, nb) != System ==> p != 0 && Dealt(f, nb, p, live[p], g) && brk == brk0 && !asked)
    && (Server(f, nb) == System ==>
        if p == 0 then g == f && brk == brk0
        else && p == (if f.top == 0 then brk0 else f.top) && live[p] == nb
             && g == f.(top := p + nb, topsize := g.topsize) && brk0 < brk < brk0 + nb + SYS_PADDING + PAGE)
  }

  lemma DealtOutcome(f: Pool, g: Pool, nb: nat, p: nat, live: map<nat, nat>, brk: nat)
    requires p != 0 && p in live && Dealt(f, nb, p, live[p], g)
    ensures Outcome(f, g, nb, p, live, brk, brk, false)
  {
  }

  lemma OutcomeFacts(f: Pool, g: Pool, nb: nat, p: nat, live: map<nat, nat>, brk0: nat, brk: nat, asked: bool)
    requires Outcome(f, g, nb, p, live, brk0, brk, asked)
    ensures p == 0 || asked ==> Server(f, nb) == System
    ensures p != 0 ==> p in live && live[p] < nb + MIN_CHUNK
  {
    if p != 0 && Server(f, nb) != System { LittleWaste(f, nb, p, live[p], g); }
  }

  /** What the order of choices leaves when the bins do not serve. */
  lemma LastChoices(f: Pool, nb: nat)
    requires Server(f, nb) != Small && Server(f, nb) != Tree
    ensures Server(f, nb) == if nb <= f.dvsize then Victim else if nb < f.topsize then Serving.Top else System
  {
  }

  lemma ExactSmall(f: Pool, nb: nat)
    requires Filed(f)
    ensures Exact(f.smalls, nb) ==> nb < LARGE && Server(f, nb) == Small
  {
  }

  // ---- giving back --------------------------------------------------------------------------------------

  /** Chunk `x` of size `s` is in the bin of that size and in no other. */
  predicate InBin(smalls: map<nat, nat>, larges: map<nat, nat>, x: nat, s: nat) {
    if s < LARGE then x in smalls && smalls[x] == s && x !in larges else x in larges && larges[x] == s && x !in smalls
  }

  /** What the tags around used chunk `p` show. */
  lemma Neighbours(bl: Blocks, heads: map<nat, Head>, feet: map<nat, nat>, base: nat, top: nat, end: nat,
                  smalls: map<nat, nat>, larges: map<nat, nat>, dv: nat, dvsize: nat, p: nat)
    requires Whole(bl, heads, feet, base, top, end, smalls, larges, dv, dvsize) && p in bl && bl[p].used
    ensures p + bl[p].size in bl && (p != base ==> bl[p].prev in bl) && top in bl && bl[p].size > 0
    ensures var a, n := FreeFrom(bl, base, p), p + bl[p].size;
      && p in heads && heads[p] == Head(bl[p].size, true, a == p) && p !in smalls && p !in larges && p != dv
      && p != top && p != 0
      && n in heads && heads[n] == Head(bl[n].size, bl[n].used, true) && a in bl && a != n && a != 0 && a != top
      && (a != p ==>
           p in feet && feet[p] <= p && a == p - feet[p] && feet[p] == bl[a].size &&
           (a != dv ==> InBin(smalls, larges, a, feet[p])))
      && (bl[n].used ==> n !in smalls && n !in larges && n != dv && n != top)
      && (!bl[n].used && n != top && n != dv ==> InBin(smalls, larges, n, bl[n].size))
      && (n == top ==> !bl[n].used && n !in smalls && n !in larges)
      && (n == dv ==> !bl[n].used && n !in smalls && n !in larges && bl[n].size == dvsize && n != top)
      && (a == dv ==> a !in smalls && a !in larges)
      && MergedSize(bl, base, p) == (if a == p then 0 else feet[p]) + bl[p].size + (if bl[n].used then 0
           else bl[n].size)
  {
    Around(bl, heads, feet, base, top, end, p);
    var a, n := FreeFrom(bl, base, p), p + bl[p].size;
    SortedAt(bl, smalls, larges, dv, dvsize, top, a);
    SortedAt(bl, smalls, larges, dv, dvsize, top, n);
    SortedAt(bl, smalls, larges, dv, dvsize, top, p);
    Step(bl, heads, feet, base, top, end, a);
  }

  /** The writes of free, seen as the tags of the merged tiling. */
  lemma Writes(bl: Blocks, heads: map<nat, Head>, feet: map<nat, nat>, base: nat, top: nat, end: nat,
                  smalls: map<nat, nat>, larges: map<nat, nat>, dv: nat, dvsize: nat, p: nat)
    requires Whole(bl, heads, feet, base, top, end, smalls, larges, dv, dvsize) && p in bl && bl[p].used
    ensures p + bl[p].size in bl && (p != base ==> bl[p].prev in bl)
    ensures var a, n, m := FreeFrom(bl, base, p), p + bl[p].size, MergedSize(bl, base, p);
      && n in heads
      && (n == top ==>
           MergeHeads(bl, heads, base, top, p) == heads[a := Head(m, false, true)] &&
           MergeFeet(bl, feet, base, top, p) == feet)
      && (bl[n].used ==>
           MergeHeads(bl, heads, base, top, p) == heads[n := heads[n].(pinuse := false)][a := Head(m, false, true)] &&
           a + m == n)
      && (!bl[n].used ==> MergeHeads(bl, heads, base, top, p) == heads[a := Head(m, false, true)])
      && (n != top ==> MergeFeet(bl, feet, base, top, p) == feet[a + m := m])
  {
    Around(bl, heads, feet, base, top, end, p);
  }

  /** Freeing a chunk that borders the top. */
  lemma WholeToTop(bl: Blocks, heads: map<nat, Head>, feet: map<nat, nat>, base: nat, top: nat, end: nat,
                  smalls: map<nat, nat>, larges: map<nat, nat>, dv: nat, dvsize: nat, p: nat)
    requires Whole(bl, heads, feet, base, top, end, smalls, larges, dv, dvsize) && p in bl && bl[p].used
    requires p + bl[p].size == top
    ensures top in bl && (p != base ==> bl[p].prev in bl)
    ensures var bl', a, m := Merge(bl, base, p), FreeFrom(bl, base, p), MergedSize(bl, base, p);
      && a in bl' && bl'[a].size == m && Live(bl') == Live(bl) - {p}
      && Whole(bl', heads[a := Head(m, false, true)], feet, base, a, end, smalls - {a}, larges - {a}, if a == dv then
           0 else dv, if a == dv then 0 else dvsize)
  {
    MergeInv(bl, heads, feet, base, top, end, p);
    SortedMergeTop(bl, heads, feet, base, top, end, smalls, larges, dv, dvsize, p);
    LiveMerge(bl, heads, feet, base, top, end, p);
    Writes(bl, heads, feet, base, top, end, smalls, larges, dv, dvsize, p);
    MergedAt(bl, heads, feet, base, top, end, p, FreeFrom(bl, base, p));
    hide Merge, FreeFrom, MergedSize, MergeHeads, MergeFeet, Inv, Sorted, Live;
  }

  lemma LiveIs(bl: Blocks, p: nat)
    ensures p in Live(bl) <==> p in bl && bl[p].used
    ensures p in Live(bl) ==> Live(bl)[p] == bl[p].size
  {
  }

  /** Chunk `q` and its neighbours are chunks. */
  ghost predicate Placed(bl: Blocks, base: nat, q: nat) {
    q in bl && q + bl[q].size in bl && (q != base ==> bl[q].prev in bl)
  }

  /** The heads free writes for a chunk that does not border the top. */
  function FreedHeads(bl: Blocks, heads: map<nat, Head>, n: nat, a: nat, m: nat): map<nat, Head>
    requires n in bl && n in heads
  {
    if bl[n].used then heads[n := heads[n].(pinuse := false)][a := Head(m, false, true)]
        else heads[a := Head(m, false, true)]
  }

  /** Freeing a chunk next to the dv. */
  lemma WholeToDv(bl: Blocks, heads: map<nat, Head>, feet: map<nat, nat>, base: nat, top: nat, end: nat,
                  smalls: map<nat, nat>, larges: map<nat, nat>, dv: nat, dvsize: nat, p: nat)
    requires Whole(bl, heads, feet, base, top, end, smalls, larges, dv, dvsize) && p in bl && bl[p].used
    requires p + bl[p].size != top && dv != 0
    requires (p != base ==> bl[p].prev in bl) && (p + bl[p].size == dv || FreeFrom(bl, base, p) == dv)
    ensures p + bl[p].size in bl && p + bl[p].size in heads && top in bl
    ensures var bl', a, n, m := Merge(bl, base, p), FreeFrom(bl, base, p), p + bl[p].size, MergedSize(bl, base, p);
      && top in bl' && bl'[top].size == bl[top].size && Live(bl') == Live(bl) - {p}
      && Whole(bl', FreedHeads(bl, heads, n, a, m), feet[a + m := m], base, top, end, smalls - {a} - {n},
           larges - {a} - {n}, a, m)
  {
    MergeInv(bl, heads, feet, base, top, end, p);
    SortedMergeDv(bl, heads, feet, base, top, end, smalls, larges, dv, dvsize, p);
    LiveMerge(bl, heads, feet, base, top, end, p);
    Writes(bl, heads, feet, base, top, end, smalls, larges, dv, dvsize, p);
    MergedAt(bl, heads, feet, base, top, end, p, top);
    assert MergeTop(bl, base, top, p) == top;
    Neighbours(bl, heads, feet, base, top, end, smalls, larges, dv, dvsize, p);
    hide Merge, FreeFrom, MergedSize, MergeHeads, MergeFeet, Inv, Sorted, Live;
  }

  /** Freeing any other chunk: it goes to a bin. */
  lemma WholeToBin(bl: Blocks, heads: map<nat, Head>, feet: map<nat, nat>, base: nat, top: nat, end: nat,
                  smalls: map<nat, nat>, larges: map<nat, nat>, dv: nat, dvsize: nat, p: nat)
    requires Whole(bl, heads, feet, base, top, end, smalls, larges, dv, dvsize) && p in bl && bl[p].used
    requires p + bl[p].size != top
    requires (p != base ==> bl[p].prev in bl) && p + bl[p].size != dv && FreeFrom(bl, base, p) != dv
    ensures p + bl[p].size in bl && p + bl[p].size in heads && top in bl
    ensures var bl', a, n, m := Merge(bl, base, p), FreeFrom(bl, base, p), p + bl[p].size, MergedSize(bl, base, p);
      && top in bl' && bl'[top].size == bl[top].size && Live(bl') == Live(bl) - {p} && m < end && m % ALIGN == 0
      && Whole(bl', FreedHeads(bl, heads, n, a, m), feet[a + m := m], base, top, end,
               Put(smalls - {a} - {n}, m < LARGE, a, m), Put(larges - {a} - {n}, m >= LARGE, a, m), dv, dvsize)
  {
    MergeInv(bl, heads, feet, base, top, end, p);
    SortedMergeBin(bl, heads, feet, base, top, end, smalls, larges, dv, dvsize, p);
    LiveMerge(bl, heads, feet, base, top, end, p);
    Writes(bl, heads, feet, base, top, end, smalls, larges, dv, dvsize, p);
    MergedAt(bl, heads, feet, base, top, end, p, top);
    MergedAt(bl, heads, feet, base, top, end, p, FreeFrom(bl, base, p));
    Step(Merge(bl, base, p), MergeHeads(bl, heads, base, top, p), MergeFeet(bl, feet, base, top, p), base,
        MergeTop(bl, base, top, p), end, FreeFrom(bl, base, p));
    assert MergeTop(bl, base, top, p) == top;
    Neighbours(bl, heads, feet, base, top, end, smalls, larges, dv, dvsize, p);
    hide Merge, FreeFrom, MergedSize, MergeHeads, MergeFeet, Inv, Sorted, Live;
  }

  /** Trimming leaves part of the top, and the break on a page boundary. */
  lemma ExtraFacts(topsize: nat, brk: nat, extra: nat)
    requires topsize > TOP_FOOT && topsize % ALIGN == 0 && brk % PAGE == 0 && brk > topsize
    requires extra == ((topsize - TOP_FOOT + (PAGE - 1)) / PAGE - 1) * PAGE
    ensures extra < topsize && (topsize - extra) % ALIGN == 0 && (brk - extra) % PAGE == 0
    ensures TOP_FOOT < topsize - extra <= TOP_FOOT + PAGE
  {
    var k := (topsize - TOP_FOOT + (PAGE - 1)) / PAGE - 1;
    var m := brk / PAGE;
    assert brk == PAGE * m && extra == PAGE * k;
    Pages(brk - extra, m - k);
    Sixteenths(topsize - extra, topsize / 16 - 256 * k);
  }

  lemma Pages(x: nat, k: nat)
    requires x == PAGE * k
    ensures x % PAGE == 0
  {
  }

  class Allocator {
    var heads: map<nat, Head>
    var feet: map<nat, nat>
    var base: nat
    var top: nat
    var topsize: nat
    var dv: nat
    var dvsize: nat
    var trimCheck: nat
    var contiguous: bool
    var brk: nat
    const limit: nat
    const grants: nat -> bool   // whether the system grants a call of sbrk that moves the break, call by call
    var calls: nat              // such calls so far
    const smalls: SmallBins.Bins
    const trees: TreeBins.Bins
    ghost var blocks: Blocks

    ghost predicate Valid()
      reads this, smalls, trees
    {
      && smalls.Valid() && trees.Valid() && 0 < brk <= limit <= TreeIndex.LIMIT && brk % PAGE == 0
      && Consistent(blocks, heads, feet, base, top, topsize, dv, dvsize, brk, smalls.contents, trees.contents)
    }

    /** An empty heap over a break that may grow up to `end`. */
    constructor (start: nat, end: nat, grants: nat -> bool)
      requires 0 < start <= end <= TreeIndex.LIMIT && start % PAGE == 0
      ensures Valid() && InUse() == map[] && fresh(smalls)
      ensures fresh(trees) && brk == start && limit == end
      ensures contiguous && trimCheck == 0
      ensures this.grants == grants && calls == 0
      ensures Spare() == Pool(map[], map[], 0, 0, 0, 0)
    {
      heads, feet, base, top, topsize, dv, dvsize := map[], map[], 0, 0, 0, 0, 0;
      trimCheck, contiguous, brk, limit := 0, true, start, end;
      this.grants, calls := grants, 0;
      smalls := new SmallBins.Bins();
      trees := new TreeBins.Bins();
      blocks := map[];
    }

    /** The chunks in use, address to size. */
    ghost function InUse(): map<nat, nat>
      reads this
    {
      Live(blocks)
    }

    /** The free chunks. */
    ghost function Spare(): Pool
      reads this, smalls, trees
    {
      Pool(smalls.contents, trees.contents, dv, dvsize, top, topsize)
    }

    /** The small chunk of size `s` that was binned last. */
    ghost function Newest(s: nat): nat
      reads smalls
    {
      var i := SmallBins.SmallIndex(s);
      if i < |smalls.lists| && smalls.lists[i] != [] then smalls.lists[i][0] else 0
    }

    /** Chunks in use do not overlap. */
    lemma Separate(a: nat, b: nat)
      requires Valid() && a in InUse() && b in InUse() && a < b
      ensures a + InUse()[a] <= b
    {
      Apart(blocks, heads, feet, base, top, brk - TOP_FOOT, a, b);
    }

    /** insert_chunk. */
    method InsertChunk(p: nat, s: nat)
      requires smalls.Valid() && trees.Valid() && p != 0
      requires p !in smalls.contents && p !in trees.contents && s < TreeIndex.LIMIT
      requires s % ALIGN == 0
      modifies smalls, trees
      ensures smalls.Valid() && trees.Valid()
      ensures smalls.contents == Put(old(smalls.contents), s < LARGE, p, s) && (s < LARGE ==> Newest(s) == p)
      ensures trees.contents == Put(old(trees.contents), s >= LARGE, p, s)
    {
      if s < LARGE {
        smalls.Insert(p, s);
      } else {
        trees.Insert(p, s);
      }
    }

    /** unlink_chunk. */
    method UnlinkChunk(p: nat, s: nat)
      requires smalls.Valid() && trees.Valid()
      requires if s < LARGE then p in smalls.contents && smalls.contents[p] == s && p !in trees.contents
               else p in trees.contents && p !in smalls.contents
      modifies smalls, trees
      ensures smalls.Valid() && trees.Valid()
      ensures smalls.contents == old(smalls.contents) - {p} && trees.contents == old(trees.contents) - {p}
    {
      if s < LARGE {
        smalls.Unlink(p, s);
      } else {
        trees.Unlink(p);
      }
    }

    /** set_inuse_and_pinuse. */
    method SetInuse(p: nat, s: nat)
      requires p + s in heads
      modifies `heads
      ensures s > 0 ==> heads == old(heads)[p := Head(s, true, true)][p + s := old(heads)[p + s].(pinuse := true)]
    {
      heads := heads[p := Head(s, true, true)];
      heads := heads[p + s := heads[p + s].(pinuse := true)];
    }

    static lemma SizeBack(i: nat)
      ensures SmallBins.SmallIndex(SmallBins.SizeOf(i)) == i
    {
    }

    /** A small chunk of bin `i` is used whole. */
    method UseSmall(i: nat, nb: nat) returns (p: nat)
      requires Valid() && top != 0 && i < SmallBins.BINS
      requires smalls.smallmap[i] && nb <= SmallBins.SizeOf(i)
      modifies this, smalls, trees
      ensures Valid() && Granted(old(InUse()), InUse(), p, nb) && brk == old(brk) && calls == old(calls)
      ensures p in old(smalls.contents) && old(smalls.contents)[p] == InUse()[p] == SmallBins.SizeOf(i)
      ensures p == old(Newest(SmallBins.SizeOf(i)))
      ensures Spare() == old(Spare()).(smalls := old(smalls.contents) - {p}, larges := old(trees.contents) - {p})
    {
      hide TreeBins.Bins.Valid, SmallBins.Bins.Valid, Granted, Live, Whole;
      p := smalls.UnlinkFirst(i);
      var s := SmallBins.SizeOf(i);
      TakeFacts(blocks, heads, feet, base, top, brk - TOP_FOOT, old(smalls.contents), trees.contents, dv, dvsize, p);
      SizeBack(i);
      GrantedLess(InUse(), Live(blocks[p := blocks[p].(used := true)]), p, s, nb);
      assert trees.contents - {p} == trees.contents;
      hide *;
      SetInuse(p, s);
      blocks := blocks[p := blocks[p].(used := true)];
      assert Valid();
    }

    /** The front of chunk `p`, already out of its bin, is used; the rest becomes the dv (replace_dv). */
    method CarveToDv(p: nat, size: nat, nb: nat, ghost smalls0: map<nat, nat>, ghost larges0: map<nat, nat>)
      requires smalls.Valid() && trees.Valid() && 0 < brk <= limit <= TreeIndex.LIMIT
      requires brk % PAGE == 0 && top != 0 && dvsize < LARGE
      requires Consistent(blocks, heads, feet, base, top, topsize, dv, dvsize, brk, smalls0, larges0)
      requires (p in smalls0 || p in larges0) && size == if p in smalls0 then smalls0[p] else larges0[p]
      requires smalls.contents == smalls0 - {p} && trees.contents == larges0 - {p}
      requires nb >= MIN_CHUNK && nb % ALIGN == 0 && nb + MIN_CHUNK <= size
      modifies this, smalls
      ensures Valid() && Granted(old(InUse()), InUse(), p, nb) && brk == old(brk)
      ensures calls == old(calls) && InUse()[p] == nb
      ensures Spare() == Carved(old(Spare()).(smalls := smalls0, larges := larges0), p, size, nb)
    {
      hide TreeBins.Bins.Valid, SmallBins.Bins.Valid, Granted, Live, Whole, Split;
      NewDvFacts(blocks, heads, feet, base, top, brk - TOP_FOOT, smalls0, larges0, dv, dvsize, p, nb);
      var r, rsize := p + nb, size - nb;
      heads := heads[p := Head(nb, true, true)];
      heads := heads[r := Head(rsize, false, true)];
      feet := feet[r + rsize := rsize];
      if dvsize != 0 {
        smalls.Insert(dv, dvsize);
      }
      dvsize, dv := rsize, r;
      blocks := Split(blocks, p, nb);
    }

    /** The front of chunk `p`, already out of its bin, is used; the rest is binned. */
    method CarveToBin(p: nat, size: nat, nb: nat, ghost smalls0: map<nat, nat>, ghost larges0: map<nat, nat>)
      requires smalls.Valid() && trees.Valid() && 0 < brk <= limit <= TreeIndex.LIMIT
      requires brk % PAGE == 0 && top != 0
      requires Consistent(blocks, heads, feet, base, top, topsize, dv, dvsize, brk, smalls0, larges0)
      requires (p in smalls0 || p in larges0) && size == if p in smalls0 then smalls0[p] else larges0[p]
      requires smalls.contents == smalls0 - {p} && trees.contents == larges0 - {p}
      requires nb >= MIN_CHUNK && nb % ALIGN == 0 && nb + MIN_CHUNK <= size
      modifies this, smalls, trees
      ensures Valid() && Granted(old(InUse()), InUse(), p, nb) && brk == old(brk)
      ensures calls == old(calls) && InUse()[p] == nb
      ensures Spare() == Rebinned(old(Spare()).(smalls := smalls0, larges := larges0), p, size, nb)
    {
      hide TreeBins.Bins.Valid, SmallBins.Bins.Valid, Granted, Live, Whole, Split, Put;
      var r, rsize := p + nb, size - nb;
      SplitBinFacts(blocks, heads, feet, base, top, brk - TOP_FOOT, smalls0, larges0, dv, dvsize, p, nb);
      assert r != 0 && r !in smalls.contents && r !in trees.contents && rsize < TreeIndex.LIMIT && rsize % ALIGN == 0;
      ghost var f := Spare().(smalls := smalls0, larges := larges0);
      RebinnedIs(f, p, size, nb);
      hide *;
      heads := heads[p := Head(nb, true, true)];
      heads := heads[r := Head(rsize, false, true)];
      feet := feet[r + rsize := rsize];
      InsertChunk(r, rsize);
      blocks := Split(blocks, p, nb);
      assert Valid();
    }

    static lemma RebinnedIs(f: Pool, p: nat, size: nat, nb: nat)
      requires nb + MIN_CHUNK <= size
      ensures Rebinned(f, p, size, nb) ==
        f.(smalls := Put(f.smalls - {p}, size - nb < LARGE, p + nb, size - nb),
           larges := Put(f.larges - {p}, size - nb >= LARGE, p + nb, size - nb))
    {
    }

    /** A small chunk of a larger bin is used, split when the rest can be a chunk. */
    method SplitSmall(i: nat, nb: nat) returns (p: nat)
      requires Valid() && top != 0 && i < SmallBins.BINS
      requires smalls.smallmap[i] && nb >= MIN_CHUNK && nb % ALIGN == 0
      requires nb <= SmallBins.SizeOf(i)
      requires dvsize < LARGE
      modifies this, smalls, trees
      ensures Valid() && Granted(old(InUse()), InUse(), p, nb) && brk == old(brk) && calls == old(calls)
      ensures p in old(smalls.contents) && old(smalls.contents)[p] == SmallBins.SizeOf(i)
      ensures InUse()[p] == Portion(SmallBins.SizeOf(i), nb)
      ensures Spare() == Carved(old(Spare()), p, SmallBins.SizeOf(i), nb)
    {
      if SmallBins.SizeOf(i) - nb < MIN_CHUNK {
        p := UseSmall(i, nb);
      } else {
        p := smalls.UnlinkFirst(i);
        assert trees.contents == trees.contents - {p} by {
          BinnedFacts(blocks, heads, feet, base, top, brk - TOP_FOOT, old(smalls.contents), trees.contents, dv,
              dvsize, p);
        }
        CarveToDv(p, SmallBins.SizeOf(i), nb, old(smalls.contents), trees.contents);
      }
    }

    /** A tree chunk, already unlinked, is used whole. */
    method UseTree(v: nat, size: nat, ghost larges0: map<nat, nat>)
      requires smalls.Valid() && trees.Valid() && 0 < brk <= limit <= TreeIndex.LIMIT
      requires brk % PAGE == 0 && top != 0
      requires Consistent(blocks, heads, feet, base, top, topsize, dv, dvsize, brk, smalls.contents, larges0)
      requires v in larges0 && larges0[v] == size && trees.contents == larges0 - {v}
      modifies this
      ensures Valid() && Granted(old(InUse()), InUse(), v, size) && brk == old(brk)
      ensures calls == old(calls) && InUse()[v] == size
      ensures Spare() == old(Spare()) && v !in smalls.contents
    {
      BinnedFacts(blocks, heads, feet, base, top, brk - TOP_FOOT, smalls.contents, larges0, dv, dvsize, v);
      TakeFacts(blocks, heads, feet, base, top, brk - TOP_FOOT, smalls.contents, larges0, dv, dvsize, v);
      hide Whole;
      SetInuse(v, size);
      blocks := blocks[v := blocks[v].(used := true)];
    }

    /** tmalloc_small: the smallest tree chunk serves a small request. */
    method TmallocSmall(nb: nat) returns (p: nat)
      requires Valid() && MIN_CHUNK <= nb < LARGE && nb % ALIGN == 0
      requires dvsize < LARGE && trees.treemap != BestFit.None()
      modifies this, smalls, trees
      ensures Valid() && Granted(old(InUse()), InUse(), p, nb) && brk == old(brk) && calls == old(calls)
      ensures Fitting(old(trees.contents), nb, p) && InUse()[p] == Portion(old(trees.contents)[p], nb)
      ensures Spare() == Carved(old(Spare()), p, old(trees.contents)[p], nb)
    {
      var v, rsize := BestFit.FindSmall(trees, nb);
      p := v;
      ghost var larges0 := trees.contents;
      assert top != 0;
      BinnedFacts(blocks, heads, feet, base, top, brk - TOP_FOOT, smalls.contents, larges0, dv, dvsize, v);
      trees.Unlink(v);
      if rsize < MIN_CHUNK {
        UseTree(v, rsize + nb, larges0);
      } else {
        assert smalls.contents - {v} == smalls.contents;
        CarveToDv(v, rsize + nb, nb, smalls.contents, larges0);
      }
    }

    /** tmalloc_large: a best-fitting tree chunk, unless the dv fits at least as well. */
    method TmallocLarge(nb: nat) returns (p: nat)
      requires Valid() && LARGE <= nb < WORD && nb % ALIGN == 0
      modifies this, smalls, trees
      ensures Valid() && brk == old(brk) && calls == old(calls)
      ensures p != 0 ==>
        Granted(old(InUse()), InUse(), p, nb) && Fitting(old(trees.contents), nb, p) &&
        !(nb <= old(dvsize) <= old(trees.contents)[p])
      ensures p != 0 ==>
        InUse()[p] == Portion(old(trees.contents)[p], nb) &&
        Spare() == Rebinned(old(Spare()), p, old(trees.contents)[p], nb)
      ensures p == 0 ==> unchanged(this) && unchanged(smalls) && unchanged(trees)
      ensures p == 0 ==>
        forall a :: a in trees.contents && trees.contents[a] >= nb ==> nb <= dvsize <= trees.contents[a]
    {
      var v, rsize := BestFit.FindLarge(trees, nb);
      p := 0;
      ghost var larges0 := trees.contents;
      DvBound(blocks, heads, feet, base, top, topsize, dv, dvsize, brk, smalls.contents, larges0);
      if v != 0 && rsize < Minus(dvsize, nb) {
        BinnedFacts(blocks, heads, feet, base, top, brk - TOP_FOOT, smalls.contents, larges0, dv, dvsize, v);
        trees.Unlink(v);
        if rsize < MIN_CHUNK {
          UseTree(v, rsize + nb, larges0);
        } else {
          assert smalls.contents - {v} == smalls.contents;
          CarveToBin(v, rsize + nb, nb, smalls.contents, larges0);
        }
        p := v;
      }
    }

    /** The front of the dv is used and the rest stays the dv. */
    method SplitDv(nb: nat) returns (p: nat)
      requires Valid() && MIN_CHUNK <= nb && nb % ALIGN == 0 && nb + MIN_CHUNK <= dvsize
      modifies this
      ensures Valid() && Granted(old(InUse()), InUse(), p, nb) && brk == old(brk) && calls == old(calls)
      ensures p == old(dv) && InUse()[p] == nb && Spare() == Shortened(old(Spare()), nb)
    {
      DvBound(blocks, heads, feet, base, top, topsize, dv, dvsize, brk, smalls.contents, trees.contents);
      DvFacts(blocks, heads, feet, base, top, brk - TOP_FOOT, smalls.contents, trees.contents, dv, dvsize, nb);
      hide Whole, Split, SplitHeads, Live, Granted;
      var rsize := dvsize - nb;
      p := dv;
      var r := p + nb;
      ghost var heads0, dvs := heads, dvsize;
      dv, dvsize := r, rsize;
      heads := heads[r := Head(rsize, false, true)];
      feet := feet[r + rsize := rsize];
      heads := heads[p := Head(nb, true, true)];
      assert heads == SplitHeads(heads0, p, nb, rsize) by { SplitOrder(heads0, p, nb, rsize); }
      assert r + rsize == p + dvs;
      blocks := Split(blocks, p, nb);
    }

    /** The dv is used whole. */
    method ExhaustDv(nb: nat) returns (p: nat)
      requires Valid() && MIN_CHUNK <= nb && nb % ALIGN == 0 && nb <= dvsize < nb + MIN_CHUNK
      modifies this
      ensures Valid() && Granted(old(InUse()), InUse(), p, nb) && brk == old(brk) && calls == old(calls)
      ensures p == old(dv) && InUse()[p] == old(dvsize) && Spare() == Shortened(old(Spare()), nb)
    {
      DvBound(blocks, heads, feet, base, top, topsize, dv, dvsize, brk, smalls.contents, trees.contents);
      DvFacts(blocks, heads, feet, base, top, brk - TOP_FOOT, smalls.contents, trees.contents, dv, dvsize, nb);
      hide Whole, Split, SplitHeads, Live, Granted;
      p := dv;
      var dvs := dvsize;
      dvsize, dv := 0, 0;
      SetInuse(p, dvs);
      blocks := blocks[p := blocks[p].(used := true)];
    }

    /** The dv serves the request, split when the rest can be a chunk. */
    method FromDv(nb: nat) returns (p: nat)
      requires Valid() && MIN_CHUNK <= nb <= dvsize && nb % ALIGN == 0
      modifies this
      ensures Valid() && Granted(old(InUse()), InUse(), p, nb) && brk == old(brk) && calls == old(calls)
      ensures p == old(dv) && InUse()[p] == Portion(old(dvsize), nb) && Spare() == Shortened(old(Spare()), nb)
    {
      var rsize := dvsize - nb;
      if rsize >= MIN_CHUNK {
        p := SplitDv(nb);
      } else {
        p := ExhaustDv(nb);
      }
    }

    /** The front of the top serves the request. */
    method FromTop(nb: nat) returns (p: nat)
      requires Valid() && MIN_CHUNK <= nb < topsize && nb % ALIGN == 0
      modifies this
      ensures Valid() && Granted(old(InUse()), InUse(), p, nb) && brk == old(brk) && calls == old(calls)
      ensures p == old(top) && InUse()[p] == nb
      ensures Spare() == old(Spare()).(top := old(top) + nb, topsize := old(topsize) - nb)
    {
      TopFacts(blocks, heads, feet, base, top, brk - TOP_FOOT, smalls.contents, trees.contents, dv, dvsize, nb);
      hide Whole, Split, SplitHeads, Live;
      topsize := topsize - nb;
      var rsize := topsize;
      p := top;
      ghost var heads0 := heads;
      var r := p + nb;
      top := r;
      heads := heads[r := Head(rsize, false, true)];
      heads := heads[p := Head(nb, true, true)];
      assert heads == SplitHeads(heads0, p, nb, rsize) by { SplitOrder(heads0, p, nb, rsize); }
      blocks := Split(blocks, p, nb);
    }

    /** sbrk: moves the break up by `n` and returns where it was, or fails. */
    method Morecore(n: nat) returns (ok: bool, br: nat)
      modifies `brk, `calls
      ensures br == old(brk) && calls == old(calls) + 1 && ok == (grants(old(calls)) && old(brk) + n <= limit)
      ensures brk == if ok then old(brk) + n else old(brk)
    {
      br := brk;
      ok := grants(calls) && brk + n <= limit;
      calls := calls + 1;
      if ok { brk := brk + n; }
    }

    /** init_top: the top gets `size` bytes, and a head for what lies behind it. */
    method InitTop(p: nat, size: nat)
      modifies `top, `topsize, `heads, `trimCheck
      ensures top == p && topsize == size && trimCheck == TRIM_THRESHOLD
      ensures heads == old(heads)[p := Head(size, false, true)][p + size := Head(TOP_FOOT, false, false)]
    {
      top, topsize := p, size;
      heads := heads[p := Head(size, false, true)];
      heads := heads[p + size := Head(TOP_FOOT, false, false)];
      trimCheck := TRIM_THRESHOLD;
    }

    /** The new space [tbase, tbase + tsize) becomes the first segment or extends the one there is. */
    method AddSpace(tbase: nat, tsize: nat)
      requires smalls.Valid() && trees.Valid() && 0 < tbase
      requires tbase + tsize == brk <= limit <= TreeIndex.LIMIT && tbase % PAGE == 0 && brk % PAGE == 0
      requires Consistent(blocks, heads, feet, base, top, topsize, dv, dvsize, tbase, smalls.contents, trees.contents)
      requires tsize > TOP_FOOT
      modifies this
      ensures Valid() && InUse() == old(InUse()) && brk == old(brk) && calls == old(calls)
      ensures top == (if old(top) == 0 then tbase else old(top))
      ensures Spare() == old(Spare()).(top := top, topsize := topsize)
      ensures topsize == if old(top) == 0 then tsize - TOP_FOOT else old(topsize) + tsize
    {
      PageSizes(tbase, tsize);
      if top == 0 {
        FirstFacts(heads, feet, tbase, tsize - TOP_FOOT);
        hide *;
        base := tbase;
        InitTop(tbase, tsize - TOP_FOOT);
        blocks := map[tbase := Block(tsize - TOP_FOOT, false, 0)];
      } else {
        DvBound(blocks, heads, feet, base, top, topsize, dv, dvsize, tbase, smalls.contents, trees.contents);
        SumAligned(topsize, tsize);
        ResizeFacts(blocks, heads, feet, base, top, tbase - TOP_FOOT, smalls.contents, trees.contents, dv, dvsize,
            topsize + tsize);
        hide *;
        InitTop(top, topsize + tsize);
        blocks := blocks[top := blocks[top].(size := topsize)];
      }
      assert Valid();
    }

    /** Asks for a contiguous extension of the segment, or for a first segment. */
    method GetContiguous(nb: nat, asize: nat) returns (got: bool, tbase: nat, tsize: nat)
      requires 0 < brk <= limit <= TreeIndex.LIMIT && brk % PAGE == 0 && topsize <= nb
      requires nb + SYS_PADDING + PAGE - 1 < WORD && nb + SYS_PADDING <= asize < nb + SYS_PADDING + PAGE
      requires asize % PAGE == 0
      modifies `brk, `calls, `contiguous
      ensures tbase == old(brk) && contiguous == got && old(calls) <= calls
      ensures got ==> calls == old(calls) + 1 && grants(old(calls))
      ensures (got ==>
        brk == tbase + tsize <= limit && brk % PAGE == 0 && tsize >= nb - (if top == 0 then 0
        else topsize) + SYS_PADDING && tsize < nb - (if top == 0 then 0 else topsize) + SYS_PADDING + PAGE)
      ensures !got ==>
        brk == old(brk) &&
        (asize >= HALF_MAX || AllRefused(grants, old(calls), calls, brk, nb + SYS_PADDING + PAGE, limit))
    {
      got, tbase, tsize := false, brk, 0;
      if top == 0 {
        AlignedIs(brk);
        var ssize := asize + (PageAlign(brk) - brk);
        if ssize > nb && ssize < HALF_MAX {
          got, tbase := Morecore(ssize);
          tsize := ssize;
        }
      } else {
        AlignExact(nb - topsize + SYS_PADDING);
        AlignMonotone(nb - topsize + SYS_PADDING, nb + SYS_PADDING, asize);
        var ssize := PageAlign(nb - topsize + SYS_PADDING);
        if ssize < HALF_MAX {
          got, tbase := Morecore(ssize);
          tsize := ssize;
        }
      }
      if got { PageSum(tbase, tsize); }
      contiguous := got;
    }

    /** Asks for space for `nb` bytes, contiguously first; what is granted lies at the old break. */
    method AskSystem(nb: nat, asize: nat) returns (got: bool, tbase: nat, tsize: nat)
      requires 0 < brk <= limit <= TreeIndex.LIMIT && brk % PAGE == 0 && topsize <= nb
      requires nb + SYS_PADDING + PAGE - 1 < WORD && nb + SYS_PADDING <= asize < nb + SYS_PADDING + PAGE
      requires asize % PAGE == 0
      modifies `brk, `calls, `contiguous
      ensures tbase == old(brk) && (contiguous ==> old(contiguous) && got) && old(calls) <= calls
      ensures got ==> old(calls) < calls && grants(calls - 1)
      ensures got ==>
        brk == tbase + tsize <= limit && brk % PAGE == 0 &&
        nb + SYS_PADDING <= tsize + (if top == 0 then 0 else topsize) && tsize < nb + SYS_PADDING + PAGE
      ensures !got ==>
        brk == old(brk) &&
        (asize >= HALF_MAX || AllRefused(grants, old(calls), calls, brk, nb + SYS_PADDING + PAGE, limit))
    {
      got, tbase, tsize := false, brk, 0;
      if contiguous {
        got, tbase, tsize := GetContiguous(nb, asize);
      }
      if !got {
        if asize < HALF_MAX {
          got, tbase := Morecore(asize);
          tsize := asize;
          if got { PageSum(tbase, tsize); }
        }
      }
    }

    /** sys_alloc. */
    method SysAlloc(nb: nat) returns (p: nat)
      requires Valid() && MIN_CHUNK <= nb < WORD && topsize <= nb && (nb % ALIGN == 0 || nb == MAX_SIZE_T)
      modifies this
      ensures Valid()
      ensures p != 0 ==> Granted(old(InUse()), InUse(), p, nb) && InUse()[p] == nb && top == p + nb
      ensures p != 0 ==>
        p == (if old(top) == 0 then old(brk) else old(top)) && old(brk) < brk < old(brk) + nb + SYS_PADDING + PAGE &&
        old(calls) < calls && grants(calls - 1)
      ensures Spare() == old(Spare()).(top := top, topsize := topsize)
      ensures p == 0 ==>
        InUse() == old(InUse()) && Spare() == old(Spare()) && brk == old(brk) &&
        (nb >= HALF_MAX - 2 * PAGE || AllRefused(grants, old(calls), calls, brk, nb + SYS_PADDING + PAGE, limit))
      ensures nb == MAX_SIZE_T ==> p == 0
    {
      hide Consistent, TreeBins.Bins.Valid, SmallBins.Bins.Valid, Granted, Live, AllRefused;
      p := 0;
      var asize := PageAlign((nb + SYS_PADDING) % WORD);
      if nb < HALF_MAX - 2 * PAGE { Modest(nb); }
      if nb + SYS_PADDING + PAGE - 1 >= WORD { Wrapped(nb); }
      if asize <= nb { return; }
      AlignExact(nb + SYS_PADDING);
      hide PageAlign;
      var got, tbase, tsize := AskSystem(nb, asize);
      if got {
        AddSpace(tbase, tsize);
        if nb < topsize {
          p := FromTop(nb);
        }
      }
    }

    /** What the small bins and their map say about a small request. */
    lemma SmallRooms(nb: nat)
      requires Valid() && MIN_CHUNK <= nb < LARGE && nb % ALIGN == 0
      ensures var idx := SmallBins.SmallIndex(nb);
        var bits := ShiftDownBy(smalls.smallmap, idx);
        && idx + 1 < SmallBins.BINS && SmallBins.SizeOf(idx) == nb && bits[0] == smalls.smallmap[idx] && !bits[1]
        && (bits[0] ==> smalls.contents != map[]) && bits[0] == Exact(smalls.contents, nb)
        && (bits == BestFit.None() ==> !Room(smalls.contents, nb))
        && (bits != BestFit.None() && !bits[0] ==>
            var i := BitToIdx(LeastBit(And(ShiftUpBy(bits, idx), LeftBits(IdxToBit(idx)))));
            && idx < i < SmallBins.BINS && smalls.smallmap[i] && smalls.contents != map[]
            && SmallBins.SizeOf(i) > nb
            && forall a :: a in smalls.contents && smalls.contents[a] >= nb ==>
                 smalls.contents[a] >= SmallBins.SizeOf(i))
    {
      var idx := SmallBins.SmallIndex(nb);
      SmallBits(smalls.smallmap, nb);
      var fd, bk, smallmap, lists, contents := smalls.fd, smalls.bk, smalls.smallmap, smalls.lists, smalls.contents;
      forall a | a in contents ensures contents[a] % ALIGN == 0 {
        BinnedFacts(blocks, heads, feet, base, top, brk - TOP_FOOT, contents, trees.contents, dv, dvsize, a);
      }
      OddBin(fd, bk, smallmap, lists, contents, idx);
      var bits := ShiftDownBy(smallmap, idx);
      hide ShiftDownBy, ShiftUpBy, And, LeftBits, IdxToBit, LeastBit, BitToIdx, Consistent;
      if bits[0] {
        SmallMarked(fd, bk, smallmap, lists, contents, idx);
        assert SmallBins.InBin(contents, lists[idx][0], idx);
      } else {
        NoneBetween(fd, bk, smallmap, lists, contents, idx, idx + 1);
        if bits == BestFit.None() {
          NoneBetween(fd, bk, smallmap, lists, contents, idx, SmallBins.BINS);
        } else {
          var i := BitToIdx(LeastBit(And(ShiftUpBy(bits, idx), LeftBits(IdxToBit(idx)))));
          SmallMarked(fd, bk, smallmap, lists, contents, i);
          NoneBetween(fd, bk, smallmap, lists, contents, idx, i);
        }
      }
    }

    /** The first part of malloc for a small request: small bins, then the smallest tree chunk. */
    method MallocSmall(nb: nat) returns (p: nat)
      requires Valid() && MIN_CHUNK <= nb < LARGE && nb % ALIGN == 0
      modifies this, smalls, trees
      ensures Valid() && brk == old(brk) && calls == old(calls) && (p != 0 ==> Granted(old(InUse()), InUse(), p, nb))
      ensures p == 0 ==> unchanged(this) && unchanged(smalls) && unchanged(trees)
      ensures p != 0 <==> Server(old(Spare()), nb) == Small || Server(old(Spare()), nb) == Tree
      ensures p != 0 ==> p in InUse() && Dealt(old(Spare()), nb, p, InUse()[p], Spare())
      ensures Exact(old(smalls.contents), nb) ==> p == old(Newest(nb))
    {
      p := 0;
      var idx := SmallBins.SmallIndex(nb);
      var smallbits := ShiftDownBy(smalls.smallmap, idx);
      SmallRooms(nb);
      if trees.treemap == BestFit.None() { NoTrees(trees); }
      hide ShiftDownBy, ShiftUpBy, And, LeftBits, IdxToBit, LeastBit, BitToIdx, Granted, Consistent, Dealt, Carved,
           Portion;
      if smallbits[0] || smallbits[1] {
        idx := idx + if smallbits[0] then 0 else 1;
        p := UseSmall(idx, nb);
        DealtExact(old(Spare()), nb, p);
      } else if nb > dvsize {
        if smallbits != BestFit.None() {
          var leftbits := And(ShiftUpBy(smallbits, idx), LeftBits(IdxToBit(idx)));
          var i := BitToIdx(LeastBit(leftbits));
          p := SplitSmall(i, nb);
          DealtSmall(old(Spare()), nb, p);
        } else if trees.treemap != BestFit.None() {
          p := TmallocSmall(nb);
          DealtTree(old(Spare()), nb, p);
        }
      }
    }

    /** The first part of malloc for a large request: a best-fitting tree chunk. */
    method MallocLarge(nb: nat) returns (p: nat)
      requires Valid() && LARGE <= nb < WORD && nb % ALIGN == 0
      modifies this, smalls, trees
      ensures Valid() && brk == old(brk) && calls == old(calls) && (p != 0 ==> Granted(old(InUse()), InUse(), p, nb))
      ensures p == 0 ==> unchanged(this) && unchanged(smalls) && unchanged(trees)
      ensures Server(old(Spare()), nb) != Small && (p != 0 <==> Server(old(Spare()), nb) == Tree)
      ensures p != 0 ==> p in InUse() && Dealt(old(Spare()), nb, p, InUse()[p], Spare())
    {
      hide Consistent, Granted, Live, Dealt;
      p := 0;
      if trees.treemap != BestFit.None() {
        p := TmallocLarge(nb);
        if p != 0 { DealtTree(old(Spare()), nb, p); }
      } else {
        NoTrees(trees);
      }
      if p == 0 { TreeServes(old(Spare()), nb); }
    }

    /** No chunk has room for a request that is refused for its size. */
    lemma NoneSoLarge(nb: nat)
      requires Valid() && nb >= TreeIndex.LIMIT
      ensures Server(Spare(), nb) == System
    {
      SpareFiled();
    }

    /** The chunks are where their sizes say, and smaller than any request that is refused for its size. */
    lemma SpareFiled()
      requires Valid()
      ensures Filed(Spare()) && dvsize < TreeIndex.LIMIT && topsize < TreeIndex.LIMIT
      ensures forall a :: a in trees.contents ==> trees.contents[a] < TreeIndex.LIMIT
    {
      DvBound(blocks, heads, feet, base, top, topsize, dv, dvsize, brk, smalls.contents, trees.contents);
      hide Consistent;
    }

    /** The last choices of malloc: the dv, the top, the system. */
    method MallocRest(nb: nat, ghost need: nat) returns (p: nat)
      requires Valid() && MIN_CHUNK <= need && need % ALIGN == 0
      requires nb == need < WORD || (nb == MAX_SIZE_T && need >= MAX_REQUEST)
      requires Server(Spare(), need) == if need <= dvsize then Victim else if need < topsize then Serving.Top
        else System
      modifies this
      ensures Valid() && (p != 0 ==> Granted(old(InUse()), InUse(), p, need))
      ensures p == 0 ==>
        InUse() == old(InUse()) &&
        (need >= HALF_MAX - 2 * PAGE || AllRefused(grants, old(calls), calls, brk, need + SYS_PADDING + PAGE, limit))
      ensures brk != old(brk) ==> old(calls) < calls && grants(calls - 1)
      ensures Outcome(old(Spare()), Spare(), need, p, InUse(), old(brk), brk, calls != old(calls))
    {
      SpareFiled();
      hide Consistent, Granted, Live, Server, AllRefused;
      if nb <= dvsize {
        p := FromDv(nb);
      } else if nb < topsize {
        p := FromTop(nb);
      } else {
        p := SysAlloc(nb);
      }
    }

    /** dlmalloc: the chunk is the one `Server` names, and the system is asked only when none has room. */
    method Malloc(bytes: nat) returns (mem: nat)
      requires Valid() && bytes < WORD
      modifies this, smalls, trees
      ensures Valid()
      ensures mem != 0 ==> mem >= HEADER && Granted(old(InUse()), InUse(), mem - HEADER, Padded(bytes))
      ensures mem == 0 ==>
        InUse() == old(InUse()) &&
        (bytes >= HALF_MAX - 3 * PAGE ||
          AllRefused(grants, old(calls), calls, brk, Padded(bytes) + SYS_PADDING + PAGE, limit))
      ensures brk != old(brk) ==> old(calls) < calls && grants(calls - 1)
      ensures Filed(old(Spare()))
      ensures Outcome(old(Spare()), Spare(), Padded(bytes), if mem == 0 then 0
        else mem - HEADER, InUse(), old(brk), brk,
                      calls != old(calls))
      ensures mem == 0 || calls != old(calls) ==>
        !Room(old(smalls.contents), Padded(bytes)) && !Room(old(trees.contents), Padded(bytes)) &&
        old(dvsize) < Padded(bytes) && old(topsize) <= Padded(bytes)
      ensures Exact(old(smalls.contents), Padded(bytes)) ==> mem == old(Newest(Padded(bytes))) + HEADER
      ensures mem != 0 ==> InUse()[mem - HEADER] < Padded(bytes) + MIN_CHUNK
    {
      hide Outcome, Consistent, Filed, Dealt, Granted, Live, Server, Room, AllRefused, Exact;
      PadFacts(bytes);
      hide PadRequest, Padded;
      SpareFiled();
      SystemLast(Spare(), Padded(bytes));
      var p, nb := 0, MAX_SIZE_T;
      if bytes <= MAX_SMALL_REQUEST {
        nb := if bytes < MIN_REQUEST then MIN_CHUNK else PadRequest(bytes);
        p := MallocSmall(nb);
      } else if bytes >= MAX_REQUEST {
        nb := MAX_SIZE_T;
        NoneSoLarge(Padded(bytes));
      } else {
        nb := PadRequest(bytes);
        p := MallocLarge(nb);
      }
      if p == 0 {
        LastChoices(Spare(), Padded(bytes));
        p := MallocRest(nb, Padded(bytes));
      } else {
        DealtOutcome(old(Spare()), Spare(), nb, p, InUse(), brk);
      }
      OutcomeFacts(old(Spare()), Spare(), Padded(bytes), p, InUse(), old(brk), brk, calls != old(calls));
      ExactSmall(old(Spare()), Padded(bytes));
      mem := if p == 0 then 0 else p + HEADER;
    }

    /** The state between the two halves of free: chunk `q` is being freed, and the free chunk before it, if any, is
        out of its bin. */
    ghost predicate Freeing(q: nat, p: nat, psize: nat, next: nat, smalls0: map<nat, nat>, larges0: map<nat, nat>)
      reads this, smalls, trees
    {
      && smalls.Valid() && trees.Valid() && 0 < brk <= limit <= TreeIndex.LIMIT && brk % PAGE == 0 && top != 0
      && Consistent(blocks, heads, feet, base, top, topsize, dv, dvsize, brk, smalls0, larges0)
      && q in blocks && blocks[q].used && (q != base ==> blocks[q].prev in blocks) && next == q + blocks[q].size
      && p == FreeFrom(blocks, base, q)
      && psize == blocks[q].size + (if p == q then 0 else (if q in feet then feet[q] else 0))
      && smalls.contents == smalls0 - {p} && trees.contents == larges0 - {p}
    }

    /** sys_trim with no padding: gives whole pages of the top back. */
    method Trim()
      requires Valid() && top != 0
      modifies this
      ensures Valid() && InUse() == old(InUse()) && Spare() == old(Spare()).(topsize := topsize)
      ensures brk <= old(brk) && topsize + old(brk) == old(topsize) + brk
      ensures calls == old(calls) + if old(topsize) > TOP_FOOT then 1 else 0
      ensures if calls > old(calls) && grants(old(calls)) then TOP_FOOT < topsize <= TOP_FOOT + PAGE
        else brk == old(brk)
      ensures trimCheck == if brk < old(brk) then TRIM_THRESHOLD else if topsize > old(trimCheck) then MAX_SIZE_T
                           else old(trimCheck)
    {
      var pad := TOP_FOOT;
      var released := 0;
      if topsize > pad {
        var extra := ((topsize - pad + (PAGE - 1)) / PAGE - 1) * PAGE;
        DvBound(blocks, heads, feet, base, top, topsize, dv, dvsize, brk, smalls.contents, trees.contents);
        ExtraFacts(topsize, brk, extra);
        ResizeFacts(blocks, heads, feet, base, top, brk - TOP_FOOT, smalls.contents, trees.contents, dv, dvsize,
            topsize - extra);
        hide *;
        var granted := grants(calls);
        calls := calls + 1;
        if granted {
          brk := brk - extra;
          released := extra;
        }
        if released != 0 {
          InitTop(top, topsize - released);
          blocks := blocks[top := blocks[top].(size := topsize)];
        }
      }
      if released == 0 && topsize > trimCheck {
        trimCheck := MAX_SIZE_T;
      }
      assert Valid();
    }

    lemma TopJoined(q: nat, p: nat, psize: nat, smalls0: map<nat, nat>, larges0: map<nat, nat>)
      requires Freeing(q, p, psize, top, smalls0, larges0)
      ensures q in blocks && (q != base ==> blocks[q].prev in blocks) && q + blocks[q].size in blocks && p != 0
      ensures Live(Merge(blocks, base, q)) == Live(blocks) - {q}
      ensures topsize + psize == MergedSize(blocks, base, q)
      ensures smalls0 - {p} - {top} == smalls0 - {p} && larges0 - {p} - {top} == larges0 - {p}
      ensures var t, d, ds := topsize + psize, if p == dv then 0 else dv, if p == dv then 0 else dvsize;
        Consistent(Merge(blocks, base, q), heads[p := Head(t, false, true)], feet, base, p, t, d, ds, brk,
            smalls.contents, trees.contents)
    {
      Neighbours(blocks, heads, feet, base, top, brk - TOP_FOOT, smalls0, larges0, dv, dvsize, q);
      WholeToTop(blocks, heads, feet, base, top, brk - TOP_FOOT, smalls0, larges0, dv, dvsize, q);
      hide Whole, Merge, FreeFrom, Live, InBin;
      assert topsize + psize == MergedSize(blocks, base, q);
    }

    /** The freed chunk becomes the front of the top. */
    method JoinTop(ghost q: nat, p: nat, psize: nat, ghost smalls0: map<nat, nat>, ghost larges0: map<nat, nat>)
      returns (tsize: nat)
      requires Freeing(q, p, psize, top, smalls0, larges0)
      modifies this
      ensures Valid() && InUse() == old(InUse()) - {q} && top != 0
      ensures brk == old(brk) && calls == old(calls) && trimCheck == old(trimCheck)
      ensures q + old(blocks)[q].size in old(blocks) && tsize == MergedSize(old(blocks), old(base), q)
      ensures Spare() == Rejoined(old(Spare()).(smalls := smalls0, larges := larges0), p, old(top), tsize)
    {
      hide Consistent, Merge, Live, FreeFrom, MergedSize;
      TopJoined(q, p, psize, smalls0, larges0);
      topsize := topsize + psize;
      tsize := topsize;
      blocks := Merge(blocks, base, q);
      top := p;
      heads := heads[p := Head(tsize, false, true)];
      if p == dv {
        dv, dvsize := 0, 0;
      }
    }

    method FreeToTop(ghost q: nat, p: nat, psize: nat, ghost smalls0: map<nat, nat>, ghost larges0: map<nat, nat>)
      requires Freeing(q, p, psize, top, smalls0, larges0)
      modifies this
      ensures Valid() && InUse() == old(InUse()) - {q} && brk <= old(brk)
      ensures q + old(blocks)[q].size in old(blocks)
      ensures var m := MergedSize(old(blocks), old(base), q);
        && Spare() == Rejoined(old(Spare()).(smalls := smalls0, larges := larges0), p, old(top), m).(topsize := topsize)
        && topsize + old(brk) == m + brk
        && calls == old(calls) + (if m > old(trimCheck) && m > TOP_FOOT then 1 else 0)
        && (if calls > old(calls) && grants(old(calls)) then TOP_FOOT < topsize <= TOP_FOOT + PAGE else brk == old(brk))
        && trimCheck == if brk < old(brk) then TRIM_THRESHOLD else if m > old(trimCheck) then MAX_SIZE_T
             else old(trimCheck)
    {
      var tsize := JoinTop(q, p, psize, smalls0, larges0);
      if tsize > trimCheck {
        Trim();
      }
    }

    lemma DvJoined(q: nat, p: nat, psize: nat, smalls0: map<nat, nat>, larges0: map<nat, nat>)
      requires Freeing(q, p, psize, dv, smalls0, larges0) && dv != top && dv != 0
      ensures q in blocks && (q != base ==> blocks[q].prev in blocks) && q + blocks[q].size in blocks
      ensures Live(Merge(blocks, base, q)) == Live(blocks) - {q}
      ensures dvsize + psize == MergedSize(blocks, base, q)
      ensures smalls0 - {p} - {dv} == smalls0 - {p} && larges0 - {p} - {dv} == larges0 - {p}
      ensures var d := dvsize + psize;
        Consistent(Merge(blocks, base, q), heads[p := Head(d, false, true)], feet[p + d := d], base, top, topsize, p,
            d, brk, smalls.contents, trees.contents)
    {
      Neighbours(blocks, heads, feet, base, top, brk - TOP_FOOT, smalls0, larges0, dv, dvsize, q);
      WholeToDv(blocks, heads, feet, base, top, brk - TOP_FOOT, smalls0, larges0, dv, dvsize, q);
      hide Whole, Merge, FreeFrom, Live, InBin;
      assert smalls0 - {p} - {dv} == smalls0 - {p} && larges0 - {p} - {dv} == larges0 - {p};
      assert dvsize + psize == MergedSize(blocks, base, q) &&
          FreedHeads(blocks, heads, dv, p, dvsize + psize) == heads[p := Head(dvsize + psize, false, true)];
    }

    /** The freed chunk joins the dv behind it. */
    method FreeToDv(ghost q: nat, p: nat, psize: nat, ghost smalls0: map<nat, nat>, ghost larges0: map<nat, nat>)
      requires Freeing(q, p, psize, dv, smalls0, larges0) && dv != top && dv != 0
      modifies this
      ensures Valid() && InUse() == old(InUse()) - {q} && brk == old(brk) && q + old(blocks)[q].size in old(blocks)
      ensures trimCheck == old(trimCheck) && calls == old(calls)
      ensures Spare() == Rejoined(old(Spare()).(smalls := smalls0, larges := larges0), p, old(dv),
                                  MergedSize(old(blocks), old(base), q))
    {
      hide Consistent, Merge, Live, FreeFrom, MergedSize;
      DvJoined(q, p, psize, smalls0, larges0);
      blocks := Merge(blocks, base, q);
      dvsize := dvsize + psize;
      var dsize := dvsize;
      dv := p;
      heads := heads[p := Head(dsize, false, true)];
      feet := feet[p + dsize := dsize];
    }

    /** Writes the tags of the freed chunk, after taking a free chunk behind it out of its bin. */
    method TagFreed(ghost q: nat, p: nat, psize0: nat, next: nat, ghost smalls0: map<nat, nat>,
                    ghost larges0: map<nat, nat>)
      returns (psize: nat)
      requires Freeing(q, p, psize0, next, smalls0, larges0) && next != top && (next != dv || dv == 0)
      modifies `heads, `feet, smalls, trees
      ensures smalls.Valid() && trees.Valid() && smalls.contents == smalls0 - {p} - {next}
      ensures trees.contents == larges0 - {p} - {next}
      ensures next in blocks && next in old(heads) && psize == MergedSize(blocks, base, q)
      ensures heads == FreedHeads(blocks, old(heads), next, p, psize) && feet == old(feet)[p + psize := psize]
    {
      psize := psize0;
      Neighbours(blocks, heads, feet, base, top, brk - TOP_FOOT, smalls0, larges0, dv, dvsize, q);
      assert heads[next].cinuse ==> smalls0 - {p} - {next} == smalls0 - {p} && larges0 - {p} - {next} == larges0 - {p};
      hide Consistent, FreeFrom, MergedSize;
      if !heads[next].cinuse {
        var nsize := heads[next].size;
        psize := psize + nsize;
        UnlinkChunk(next, nsize);
        heads := heads[p := Head(psize, false, true)];
        feet := feet[p + psize := psize];
      } else {
        heads := heads[next := heads[next].(pinuse := false)];
        heads := heads[p := Head(psize, false, true)];
        feet := feet[p + psize := psize];
      }
    }

    /** The tags of freed chunk `q` are written; what is left is where to keep the merged chunk at `p`. */
    ghost predicate Loose(q: nat, p: nat, psize: nat, next: nat, smalls0: map<nat, nat>, larges0: map<nat, nat>,
                          heads0: map<nat, Head>, feet0: map<nat, nat>)
      reads this, smalls, trees
    {
      && smalls.Valid() && trees.Valid() && 0 < brk <= limit <= TreeIndex.LIMIT && brk % PAGE == 0
      && Consistent(blocks, heads0, feet0, base, top, topsize, dv, dvsize, brk, smalls0, larges0) && top != 0
      && q in blocks && blocks[q].used && (q != base ==> blocks[q].prev in blocks) && next == q + blocks[q].size
      && p == FreeFrom(blocks, base, q)
      && next != top && (next != dv || dv == 0) && next in blocks && next in heads0
      && psize == MergedSize(blocks, base, q)
      && heads == FreedHeads(blocks, heads0, next, p, psize) && feet == feet0[p + psize := psize]
      && smalls.contents == smalls0 - {p} - {next} && trees.contents == larges0 - {p} - {next}
    }

    method SettleDv(ghost q: nat, p: nat, psize: nat, ghost next: nat, ghost smalls0: map<nat, nat>,
                    ghost larges0: map<nat, nat>,
                    ghost heads0: map<nat, Head>, ghost feet0: map<nat, nat>)
      requires Loose(q, p, psize, next, smalls0, larges0, heads0, feet0) && p == dv
      modifies this
      ensures Valid() && InUse() == old(InUse()) - {q} && brk == old(brk)
      ensures trimCheck == old(trimCheck) && calls == old(calls)
      ensures Spare() == Rejoined(old(Spare()).(smalls := smalls0, larges := larges0), p, next, psize)
    {
      Neighbours(blocks, heads0, feet0, base, top, brk - TOP_FOOT, smalls0, larges0, dv, dvsize, q);
      WholeToDv(blocks, heads0, feet0, base, top, brk - TOP_FOOT, smalls0, larges0, dv, dvsize, q);
      hide Whole, Merge, FreeFrom, MergedSize, Live, FreedHeads;
      dvsize := psize;
      blocks := Merge(blocks, base, q);
    }

    method SettleBin(ghost q: nat, p: nat, psize: nat, ghost next: nat, ghost smalls0: map<nat, nat>,
                     ghost larges0: map<nat, nat>,
                     ghost heads0: map<nat, Head>, ghost feet0: map<nat, nat>)
      requires Loose(q, p, psize, next, smalls0, larges0, heads0, feet0) && p != dv
      modifies this, smalls, trees
      ensures Valid() && InUse() == old(InUse()) - {q} && brk == old(brk)
      ensures trimCheck == old(trimCheck) && calls == old(calls)
      ensures Spare() == Rejoined(old(Spare()).(smalls := smalls0, larges := larges0), p, next, psize)
      ensures psize < LARGE ==> Newest(psize) == p
    {
      hide Consistent, Merge, FreeFrom, MergedSize, Live, Put, FreedHeads;
      Binning(q, p, psize, next, smalls0, larges0, heads0, feet0);
      InsertChunk(p, psize);
      blocks := Merge(blocks, base, q);
    }

    lemma Binning(q: nat, p: nat, psize: nat, next: nat, smalls0: map<nat, nat>, larges0: map<nat, nat>,
                  heads0: map<nat, Head>, feet0: map<nat, nat>)
      requires Loose(q, p, psize, next, smalls0, larges0, heads0, feet0) && p != dv
      ensures q in blocks && (q != base ==> blocks[q].prev in blocks) && q + blocks[q].size in blocks
      ensures p != 0 && p !in smalls.contents && p !in trees.contents && next != dv
      ensures psize < TreeIndex.LIMIT && psize % ALIGN == 0
      ensures Live(Merge(blocks, base, q)) == Live(blocks) - {q}
      ensures Consistent(Merge(blocks, base, q), heads, feet, base, top, topsize, dv, dvsize, brk,
                         Put(smalls.contents, psize < LARGE, p, psize), Put(trees.contents, psize >= LARGE, p, psize))
    {
      Neighbours(blocks, heads0, feet0, base, top, brk - TOP_FOOT, smalls0, larges0, dv, dvsize, q);
      WholeToBin(blocks, heads0, feet0, base, top, brk - TOP_FOOT, smalls0, larges0, dv, dvsize, q);
      BinnedFacts(blocks, heads0, feet0, base, top, brk - TOP_FOOT, smalls0, larges0, dv, dvsize, next);
      hide Whole, Merge, FreeFrom, MergedSize, Live, Put, FreedHeads, InBin;
    }

    /** The freed chunk, merged with a binned chunk behind it if there is one, becomes a free chunk of its own: the dv
        if it begins with the dv, else a binned one. */
    method FreeToBin(ghost q: nat, p: nat, psize0: nat, next: nat, ghost smalls0: map<nat, nat>,
                     ghost larges0: map<nat, nat>)
      requires Freeing(q, p, psize0, next, smalls0, larges0) && next != top && (next != dv || dv == 0)
      modifies this, smalls, trees
      ensures Valid() && InUse() == old(InUse()) - {q} && brk == old(brk) && next in old(blocks)
      ensures trimCheck == old(trimCheck) && calls == old(calls)
      ensures Spare() == Rejoined(old(Spare()).(smalls := smalls0, larges := larges0), p, next,
                                  MergedSize(old(blocks), old(base), q))
      ensures p != old(dv) && MergedSize(old(blocks), old(base), q) < LARGE ==>
        Newest(MergedSize(old(blocks), old(base), q)) == p
    {
      ghost var heads0, feet0 := heads, feet;
      var psize := TagFreed(q, p, psize0, next, smalls0, larges0);
      assert Loose(q, p, psize, next, smalls0, larges0, heads0, feet0);
      if p == dv {
        SettleDv(q, p, psize, next, smalls0, larges0, heads0, feet0);
      } else {
        SettleBin(q, p, psize, next, smalls0, larges0, heads0, feet0);
      }
    }

    /** What the tags around chunk `q`, which is in use, show. */
    lemma Surroundings(q: nat)
      requires Valid() && q in InUse()
      ensures top != 0 && q in blocks && blocks[q].used
      ensures Placed(blocks, base, q) && q in heads
      ensures heads[q].size == blocks[q].size
      ensures var a, n := FreeFrom(blocks, base, q), q + blocks[q].size;
        && heads[q].pinuse == (a == q) && n in heads && heads[n].cinuse == blocks[n].used && n != 0
        && (a != q ==> q in feet && feet[q] <= q && a == q - feet[q])
        && (if a != q && a != dv then InBin(smalls.contents, trees.contents, a, feet[q])
            else a !in smalls.contents && a !in trees.contents)
        && (n == top || n == dv ==> !blocks[n].used) && dv != top
    {
      LiveIs(blocks, q);
      var smalls0, larges0 := smalls.contents, trees.contents;
      Neighbours(blocks, heads, feet, base, top, brk - TOP_FOOT, smalls0, larges0, dv, dvsize, q);
      var n := q + blocks[q].size;
      BinnedFacts(blocks, heads, feet, base, top, brk - TOP_FOOT, smalls0, larges0, dv, dvsize, n);
      BinnedFacts(blocks, heads, feet, base, top, brk - TOP_FOOT, smalls0, larges0, dv, dvsize, dv);
      hide Whole, Live, MergedSize;
    }

    /** dlfree. */
    method Free(mem: nat)
      requires Valid() && (mem != 0 ==> mem >= HEADER && mem - HEADER in InUse())
      modifies this, smalls, trees
      ensures Valid() && InUse() == if mem == 0 then old(InUse()) else old(InUse()) - {mem - HEADER}
      ensures mem == 0 ==> unchanged(this) && unchanged(smalls) && unchanged(trees)
      ensures mem != 0 ==> Placed(old(blocks), old(base), mem - HEADER)
      ensures mem != 0 ==>
        var q := mem - HEADER;
        var a, n := FreeFrom(old(blocks), old(base), q), q + old(blocks)[q].size;
        var m := MergedSize(old(blocks), old(base), q);
        && Spare() == Rejoined(old(Spare()), a, n, m).(topsize := topsize)
        && brk <= old(brk) && topsize + old(brk) == (if n == old(top) then m else old(topsize)) + brk
        && calls == old(calls) + (if n == old(top) && m > old(trimCheck) && m > TOP_FOOT then 1 else 0)
        && (if calls > old(calls) && grants(old(calls)) then TOP_FOOT < topsize <= TOP_FOOT + PAGE else brk == old(brk))
        && (n != old(top) && n != old(dv) && a != old(dv) && m < LARGE ==> Newest(m) == a)
        && trimCheck == if brk < old(brk) then TRIM_THRESHOLD else if n == old(top)
        && m > old(trimCheck) then MAX_SIZE_T
             else old(trimCheck)
    {
      hide Consistent, TreeBins.Bins.Valid, SmallBins.Bins.Valid, Live, Merge, Put, MergedSize;
      if mem == 0 { return; }
      var p := mem - HEADER;
      ghost var q, smalls0, larges0 := p, smalls.contents, trees.contents;
      Surroundings(q);
      hide FreeFrom;
      var psize := heads[p].size;
      var next := p + psize;
      if !heads[p].pinuse {
        var prevsize := feet[p];
        p := p - prevsize;
        psize := psize + prevsize;
        if p != dv {
          UnlinkChunk(p, prevsize);
        }
      }
      assert smalls.contents == smalls0 - {p} && trees.contents == larges0 - {p};
      assert Freeing(q, p, psize, next, smalls0, larges0);
      if !heads[next].cinuse && next == top {
        FreeToTop(q, p, psize, smalls0, larges0);
      } else if !heads[next].cinuse && next == dv {
        FreeToDv(q, p, psize, smalls0, larges0);
      } else {
        FreeToBin(q, p, psize, next, smalls0, larges0);
      }
    }
  }
}
