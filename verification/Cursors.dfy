/** Reads and seeks of an open file (kernel/common/bsfs/bsfs.c:122-251) as functions of the calls made: the position,
    the block read last, the block at the front of the buffer, and the bytes each read returns. */
module Cursors {
  import opened Division
  import opened Layout
  import opened DiskFormat
  import opened DiskTree
  import opened Populate

  /** A file and the sizes its reads depend on: of a block, of the buffer, and of the longest read. */
  datatype Opened = Opened(data: seq<Byte>, bs: nat, bufsize: nat, maxRead: nat)

  /** The position, the block read last and the block at the front of the buffer. */
  datatype Cursor = Cursor(pos: nat, cached: nat, lead: nat)

  /** `Overrun`: the blocks of the read do not fit the buffer. `PastEnd`: the unsigned end of the read wraps around and
      the read goes past the end of the file. */
  datatype ReadResult = Bytes(out: seq<Byte>) | SizeTooBig | Overrun | PastEnd
  datatype Whence = Cur | Set | FromEnd
  datatype Op = Seek(offset: nat, whence: Whence) | Read(n: nat)

  predicate Usable(o: Opened) {
    0 < o.bs <= o.bufsize && o.bufsize % o.bs == 0 && |o.data| + o.bufsize < U32
  }

  predicate InFile(o: Opened, c: Cursor) {
    Usable(o) && c.pos <= |o.data| && (c.cached != NOWHERE ==> c.lead <= c.cached)
  }

  // ---- where a read begins and ends ---------------------------------------------------------------

  /** How far a read of `n` bytes at `pos` goes when the sum does not wrap around. */
  function End(size: nat, bufsize: nat, pos: nat, n: nat): (end: nat)
    requires pos <= size
    ensures pos <= end <= size
  {
    var end := if pos + n > size then size else pos + n;
    if end - pos > bufsize then pos + bufsize else end
  }

  /** How far a read of `n` bytes at `pos` goes. */
  function Stop(size: nat, bufsize: nat, pos: nat, n: nat): (end: nat)
    requires pos <= size
    ensures pos <= end <= pos + bufsize
  {
    if pos + n < U32 then End(size, bufsize, pos, n) else pos + bufsize
  }

  /** The end as bsfs_fread computes it, in unsigned 32-bit arithmetic. */
  function Stop32(size: nat, bufsize: nat, pos: nat, n: nat): nat {
    var end := if (pos + n) % U32 > size then size else (pos + n) % U32;
    if (end - pos) % U32 > bufsize then (pos + bufsize) % U32 else end
  }

  lemma StopExact(size: nat, bufsize: nat, pos: nat, n: nat)
    requires pos <= size && size + bufsize < U32 && n < U32
    ensures Stop32(size, bufsize, pos, n) == Stop(size, bufsize, pos, n)
  {
    if pos + n >= U32 {
      var end := pos + n - U32;
      assert (pos + n) % U32 == end;
      assert (end - pos) % U32 == n;
    }
  }

  // ---- the bytes of a read ------------------------------------------------------------------------

  /** The block a read finds at the front of the buffer. */
  function First(c: Cursor, bs: nat): nat
    requires bs > 0
  {
    if c.cached == BlockIndex(c.pos, bs) then c.lead else BlockIndex(c.pos, bs)
  }

  /** Where byte `x` of a read at `pos` comes from, when block `first` is at the front of the buffer. */
  function Source(bs: nat, first: nat, pos: nat, x: nat): (y: nat)
    requires bs > 0 && first <= BlockIndex(pos, bs) && pos <= x
    ensures y <= x
  {
    if BlockIndex(x, bs) == BlockIndex(pos, bs) then
      ShiftDown(bs, first, pos);
      x - Cap(bs, BlockIndex(pos, bs) - first)
    else x
  }

  lemma ShiftDown(bs: nat, first: nat, pos: nat)
    requires bs > 0 && first <= BlockIndex(pos, bs)
    ensures 0 <= Cap(bs, BlockIndex(pos, bs) - first) <= pos
    ensures Cap(bs, BlockIndex(pos, bs) - first) == 0 <==> first == BlockIndex(pos, bs)
  {
    var s := BlockIndex(pos, bs);
    assert bs * (s - first) == bs * s - bs * first && bs * first >= 0;
    assert bs * s <= pos;
    if first < s { MulStep(s, first, bs); }
  }

  function Picked(data: seq<Byte>, bs: nat, first: nat, pos: nat, end: nat): (r: seq<Byte>)
    requires bs > 0 && pos <= end <= |data| && first <= BlockIndex(pos, bs)
    ensures |r| == end - pos
  {
    seq(end - pos, i requires 0 <= i < end - pos => data[Source(bs, first, pos, pos + i)])
  }

  lemma PickedFresh(data: seq<Byte>, bs: nat, pos: nat, end: nat)
    requires bs > 0 && pos <= end <= |data|
    ensures Picked(data, bs, BlockIndex(pos, bs), pos, end) == data[pos..end]
  {
    hide BlockIndex, Cap;
    ShiftDown(bs, BlockIndex(pos, bs), pos);
    forall i | 0 <= i < end - pos ensures Picked(data, bs, BlockIndex(pos, bs), pos, end)[i] == data[pos..end][i] {
      assert Source(bs, BlockIndex(pos, bs), pos, pos + i) == pos + i;
    }
  }

  /** All bytes 0 but the one at `x`. */
  function Single(size: nat, x: nat): (d: seq<Byte>)
    requires x < size
    ensures |d| == size && forall i :: 0 <= i < size ==> d[i] == if i == x then 1 else 0
  {
    seq(size, i => if i == x then 1 else 0)
  }

  /** Whatever the file holds, a read returns the bytes at its position exactly when it is empty or the block at the
      front of the buffer is the one it begins in. */
  lemma ReadExact(size: nat, bs: nat, first: nat, pos: nat, end: nat)
    requires bs > 0 && pos <= end <= size && first <= BlockIndex(pos, bs)
    ensures (forall data: seq<Byte> | |data| == size :: Picked(data, bs, first, pos, end) == data[pos..end])
       <==> (pos == end || first == BlockIndex(pos, bs))
  {
    hide BlockIndex, Cap;
    if first == BlockIndex(pos, bs) {
      forall data: seq<Byte> | |data| == size ensures Picked(data, bs, first, pos, end) == data[pos..end] {
        PickedFresh(data, bs, pos, end);
      }
    } else if pos < end {
      var data := Single(size, pos);
      ShiftDown(bs, first, pos);
      assert Source(bs, first, pos, pos) < pos;
      assert Picked(data, bs, first, pos, end)[0] == data[Source(bs, first, pos, pos + 0)] == 0 &&
          data[pos..end][0] == 1;
    }
  }

  /** The blocks of a read exceed the buffer exactly when its bytes, counted from the start of the first block, do. */
  lemma OverrunExact(bs: nat, bufsize: nat, pos: nat, end: nat)
    requires 0 < bs <= bufsize && bufsize % bs == 0 && pos <= end
    ensures BlockIndex(pos, bs) <= DivCeil(end, bs)
    ensures Cap(bs, DivCeil(end, bs) - BlockIndex(pos, bs)) > bufsize <==> BlockOffset(pos, bs) + (end - pos) > bufsize
  {
    var s, e, m := BlockIndex(pos, bs), DivCeil(end, bs), bufsize / bs;
    Parts(pos, bs);
    CeilBounds(end, bs);
    assert bufsize == m * bs;
    hide BlockIndex, BlockOffset, DivCeil;
    if e < s { MulStep(s, e, bs); }
    assert bs * (e - s) == bs * e - bs * s;
    if e - s > m { MulStep(e - s, m, bs); } else if e - s < m { MulStep(m, e - s, bs); }
  }

  lemma Parts(pos: nat, bs: nat)
    requires bs > 0
    ensures pos == BlockIndex(pos, bs) * bs + BlockOffset(pos, bs) && BlockOffset(pos, bs) < bs
  {
  }

  // ---- one call -----------------------------------------------------------------------------------

  /** What bsfs_fread returns. */
  function Reads(o: Opened, c: Cursor, n: nat): (r: ReadResult)
    requires InFile(o, c)
    ensures r.Bytes? ==> Stop(|o.data|, o.bufsize, c.pos, n) <= |o.data|
  {
    var end := Stop(|o.data|, o.bufsize, c.pos, n);
    if end - c.pos > o.maxRead then SizeTooBig
    else if end > |o.data| then PastEnd
    else if BlockOffset(c.pos, o.bs) + (end - c.pos) > o.bufsize then Overrun
    else
      FirstBelow(o, c);
      Bytes(Picked(o.data, o.bs, First(c, o.bs), c.pos, end))
  }

  lemma FirstBelow(o: Opened, c: Cursor)
    requires InFile(o, c)
    ensures First(c, o.bs) <= BlockIndex(c.pos, o.bs) < NOWHERE
  {
    hide BlockIndex;
    IndexBelow(c.pos, o.bs);
  }

  lemma IndexBelow(pos: nat, bs: nat)
    requires bs > 0
    ensures BlockIndex(pos, bs) <= pos
  {
    var q, r := pos / bs, pos % bs;
    assert pos == q * bs + r;
    if bs > 1 { MulStep(bs, 1, q); }
  }

  /** The cursor after bsfs_fread. */
  function After(o: Opened, c: Cursor, n: nat): (c': Cursor)
    requires InFile(o, c)
    ensures InFile(o, c')
  {
    if !Reads(o, c, n).Bytes? then c
    else
      var end := Stop(|o.data|, o.bufsize, c.pos, n);
      Touch(o, c, end)
  }

  function Touch(o: Opened, c: Cursor, end: nat): (c': Cursor)
    requires InFile(o, c) && c.pos <= end <= |o.data|
    ensures InFile(o, c')
  {
    FirstBelow(o, c);
    if BlockIndex(c.pos, o.bs) < DivCeil(end, o.bs) then Cursor(end, DivCeil(end, o.bs) - 1, First(c, o.bs))
    else c.(pos := end)
  }

  /** Where a seek leads. */
  function Sought(size: nat, pos: nat, offset: nat, whence: Whence): (r: nat)
    ensures r <= size
  {
    var p := match whence case Cur => (pos + offset) % U64 case Set => offset case FromEnd => (size - offset) % U64;
    if p >= size then size else p
  }

  // ---- every sequence of calls --------------------------------------------------------------------

  /** A read that returns bytes returns as many as were asked for, or are left, or fit the buffer, whichever is least,
      and the position moves behind them; when position and count reach 4 GiB, a bufferful. */
  lemma ReadLength(o: Opened, c: Cursor, n: nat)
    requires InFile(o, c) && Reads(o, c, n).Bytes?
    ensures var k, left := |Reads(o, c, n).out|, |o.data| - c.pos;
      && After(o, c, n).pos == c.pos + k && k <= left && k <= o.bufsize
      && (c.pos + n < U32 ==> k <= n && (k == n || k == left || k == o.bufsize))
      && (c.pos + n >= U32 ==> k == o.bufsize)
  {
    hide Picked, BlockOffset;
    FirstBelow(o, c);
  }

  /** Where the three kinds of seek lead: to the offset from the start, the position or, backwards, the end; to the end
      when that is not in the file. */
  lemma SeekPlaces(size: nat, pos: nat, offset: nat)
    requires pos <= size < U64 && offset < U64
    ensures offset <= size ==>
      Sought(size, pos, offset, Set) == offset && Sought(size, pos, offset, FromEnd) == size - offset
    ensures offset > size ==> Sought(size, pos, offset, Set) == size
    ensures offset > size && U64 - (offset - size) >= size ==> Sought(size, pos, offset, FromEnd) == size
    ensures pos + offset <= size ==> Sought(size, pos, offset, Cur) == pos + offset
    ensures size < pos + offset < U64 ==> Sought(size, pos, offset, Cur) == size
  {
    if offset > size { assert (size - offset) % U64 == U64 + size - offset; }
  }

  predicate Broken(r: ReadResult) {
    r.Overrun? || r.PastEnd?
  }

  /** What the reads of a sequence of calls return, up to the first that writes past the buffer or reads past the end.
      */
  function Results(o: Opened, c: Cursor, ops: seq<Op>): (rs: seq<ReadResult>)
    requires InFile(o, c)
    decreases |ops|
  {
    if ops == [] then []
    else if ops[0].Seek? then Results(o, c.(pos := Sought(|o.data|, c.pos, ops[0].offset, ops[0].whence)), ops[1..])
    else
      var r := Reads(o, c, ops[0].n);
      [r] + if Broken(r) then [] else Results(o, After(o, c, ops[0].n), ops[1..])
  }

  predicate InRange(ops: seq<Op>) {
    forall i :: 0 <= i < |ops| ==> if ops[i].Seek? then ops[i].offset < U64 else ops[i].n < U32
  }

  // ---- reads that stay within a block -------------------------------------------------------------

  function Moved(size: nat, pos: nat, op: Op): (r: nat)
    requires pos <= size
    ensures r <= size
  {
    match op
    case Seek(offset, whence) => Sought(size, pos, offset, whence)
    case Read(n) => if pos + n > size then size else pos + n
  }

  /** The read does not cross a block boundary. */
  predicate Stays(size: nat, bs: nat, pos: nat, op: Op)
    requires pos <= size && bs > 0
  {
    op.Seek? || (pos + op.n < U32 && BlockOffset(pos, bs) + (Moved(size, pos, op) - pos) <= bs)
  }

  predicate AllStay(size: nat, bs: nat, pos: nat, ops: seq<Op>)
    requires pos <= size && bs > 0
    decreases |ops|
  {
    ops == [] || (Stays(size, bs, pos, ops[0]) && AllStay(size, bs, Moved(size, pos, ops[0]), ops[1..]))
  }

  /** The bytes of the file at the positions of the reads. */
  function Outputs(data: seq<Byte>, pos: nat, ops: seq<Op>): (rs: seq<ReadResult>)
    requires pos <= |data|
    decreases |ops|
  {
    if ops == [] then []
    else
      var next := Moved(|data|, pos, ops[0]);
      (if ops[0].Read? then [Bytes(data[pos..next])] else []) + Outputs(data, next, ops[1..])
  }

  predicate Alone(c: Cursor) {
    c.cached != NOWHERE ==> c.lead == c.cached
  }

  lemma OneBlock(bs: nat, pos: nat, end: nat)
    requires bs > 0 && pos <= end && BlockOffset(pos, bs) + (end - pos) <= bs
    ensures DivCeil(end, bs) <= BlockIndex(pos, bs) + 1
  {
    hide BlockIndex, BlockOffset, DivCeil;
    var s, e := BlockIndex(pos, bs), DivCeil(end, bs);
    Parts(pos, bs);
    CeilBounds(end, bs);
    if e > s + 1 { MulStep(e - 1, s, bs); }
  }

  lemma StayingRead(o: Opened, c: Cursor, n: nat)
    requires InFile(o, c) && Alone(c) && o.bs <= o.maxRead && Stays(|o.data|, o.bs, c.pos, Read(n))
    ensures var next := Moved(|o.data|, c.pos, Read(n));
      Reads(o, c, n) == Bytes(o.data[c.pos..next]) && Alone(After(o, c, n)) && After(o, c, n).pos == next
  {
    hide BlockIndex, BlockOffset, DivCeil, Picked;
    var end := Stop(|o.data|, o.bufsize, c.pos, n);
    FirstBelow(o, c);
    PickedFresh(o.data, o.bs, c.pos, end);
    OneBlock(o.bs, c.pos, end);
  }

  /** Every run of seeks and of reads that stay within a block returns the bytes of the file at the position. */
  lemma {:induction false} StayingRun(o: Opened, c: Cursor, ops: seq<Op>)
    requires InFile(o, c) && Alone(c) && o.bs <= o.maxRead && AllStay(|o.data|, o.bs, c.pos, ops)
    ensures Results(o, c, ops) == Outputs(o.data, c.pos, ops)
    decreases |ops|
  {
    hide BlockIndex, BlockOffset, DivCeil, Picked, Stays, Reads, After, Moved, Sought;
    if ops != [] {
      match ops[0] {
        case Seek(offset, whence) =>
          SeekMoves(|o.data|, c.pos, offset, whence);
          StayingRun(o, c.(pos := Sought(|o.data|, c.pos, offset, whence)), ops[1..]);
        case Read(n) =>
          StayingRead(o, c, n);
          StayingRun(o, After(o, c, n), ops[1..]);
      }
    }
  }

  lemma SeekMoves(size: nat, pos: nat, offset: nat, whence: Whence)
    requires pos <= size
    ensures Moved(size, pos, Seek(offset, whence)) == Sought(size, pos, offset, whence)
  {
  }

  // ---- reading to the end -------------------------------------------------------------------------

  /** The bytes that reads of `n` bytes return up to the end of the file, or the result that ends them before. */
  datatype Drain = All(bytes: seq<Byte>) | Stuck(r: ReadResult)

  function Drained(o: Opened, c: Cursor, n: nat): (d: Drain)
    requires InFile(o, c) && (n > 0 || c.pos == |o.data|)
    decreases |o.data| - c.pos
  {
    if c.pos == |o.data| then All([])
    else
      var r := Reads(o, c, n);
      if !r.Bytes? then Stuck(r)
      else
        var rest := Drained(o, After(o, c, n), n);
        if rest.All? then All(r.out + rest.bytes) else rest
  }

  /** The cursor after `k` reads of `n` bytes. */
  function Repeated(o: Opened, c: Cursor, n: nat, k: nat): (c': Cursor)
    requires InFile(o, c)
    ensures InFile(o, c')
  {
    if k == 0 then c else After(o, Repeated(o, c, n, k - 1), n)
  }

  /** Such reads come to the end of the file, or to one that is refused, exactly when they are not empty or are at the
      end. */
  lemma EndsExact(o: Opened, c: Cursor, n: nat)
    requires InFile(o, c)
    ensures (exists k :: Over(o, c, n, k)) <==> (n > 0 || c.pos == |o.data|)
  {
    if n > 0 {
      var k := Ends(o, c, n);
    } else if c.pos == |o.data| {
      assert Over(o, c, n, 0);
    } else {
      forall k: nat ensures !Over(o, c, n, k) { EmptyReads(o, c, k); }
    }
  }

  ghost predicate Over(o: Opened, c: Cursor, n: nat, k: nat)
    requires InFile(o, c)
  {
    Repeated(o, c, n, k).pos == |o.data| || !Reads(o, Repeated(o, c, n, k), n).Bytes?
  }

  lemma {:induction false} Ends(o: Opened, c: Cursor, n: nat) returns (k: nat)
    requires InFile(o, c) && n > 0
    ensures Over(o, c, n, k)
    decreases |o.data| - c.pos
  {
    hide Reads, After;
    if c.pos == |o.data| || !Reads(o, c, n).Bytes? {
      k := 0;
      assert Repeated(o, c, n, 0) == c;
    } else {
      Progress(o, c, n);
      var j := Ends(o, After(o, c, n), n);
      k := j + 1;
      RepeatedNext(o, c, n, j);
    }
  }

  lemma {:induction false} RepeatedNext(o: Opened, c: Cursor, n: nat, k: nat)
    requires InFile(o, c)
    ensures Repeated(o, After(o, c, n), n, k) == Repeated(o, c, n, k + 1)
  {
    hide After;
    if k == 0 {
      assert Repeated(o, c, n, 0) == c;
    } else {
      RepeatedNext(o, c, n, k - 1);
    }
  }

  /** Empty reads bring nothing and never move. */
  lemma {:induction false} EmptyReads(o: Opened, c: Cursor, k: nat)
    requires InFile(o, c)
    ensures Repeated(o, c, 0, k).pos == c.pos && Reads(o, Repeated(o, c, 0, k), 0) == Bytes([])
  {
    if k > 0 { EmptyReads(o, c, k - 1); }
    EmptyRead(o, Repeated(o, c, 0, k));
  }

  lemma EmptyRead(o: Opened, c: Cursor)
    requires InFile(o, c)
    ensures Reads(o, c, 0) == Bytes([]) && After(o, c, 0).pos == c.pos
  {
    hide BlockIndex;
  }

  lemma Progress(o: Opened, c: Cursor, n: nat)
    requires InFile(o, c) && n > 0 && c.pos < |o.data| && Reads(o, c, n).Bytes?
    ensures After(o, c, n).pos > c.pos
  {
  }

  lemma AlignedSum(a: nat, b: nat, bs: nat)
    requires bs > 0 && BlockOffset(a, bs) == 0 && BlockOffset(b, bs) == 0
    ensures BlockOffset(a + b, bs) == 0
  {
    var q, r := a / bs, b / bs;
    assert a + b == (q + r) * bs + 0;
    DivUnique(a + b, bs, q + r, 0);
  }

  lemma AlignedSize(x: nat, bs: nat)
    requires bs > 0 && x % bs == 0
    ensures BlockOffset(x, bs) == 0
  {
  }

  lemma IndexCeil(bs: nat, pos: nat, end: nat)
    requires bs > 0 && pos <= end
    ensures BlockIndex(pos, bs) <= DivCeil(end, bs)
    ensures BlockOffset(end, bs) == 0 ==> BlockIndex(end, bs) == DivCeil(end, bs)
    ensures BlockOffset(end, bs) != 0 ==> BlockIndex(end, bs) + 1 == DivCeil(end, bs)
  {
    hide BlockIndex, BlockOffset, DivCeil;
    Parts(pos, bs);
    Parts(end, bs);
    CeilBounds(end, bs);
    var s, e, k := BlockIndex(pos, bs), DivCeil(end, bs), BlockIndex(end, bs);
    if s > e { MulStep(s, e, bs); }
    if k > e { MulStep(k, e, bs); }
    if k + 1 < e { MulStep(e - 1, k, bs); }
    if k == e { assert k * bs == e * bs; }
    if k + 1 == e { assert e * bs == k * bs + bs; }
  }

  /** A read from a block boundary of whole blocks leaves the cursor at another one, or at the end. */
  lemma AlignedRead(o: Opened, c: Cursor, n: nat)
    requires InFile(o, c) && BlockOffset(c.pos, o.bs) == 0 && BlockOffset(n, o.bs) == 0
    requires First(c, o.bs) == BlockIndex(c.pos, o.bs)
    requires c.pos + n < U32
    ensures var end := End(|o.data|, o.bufsize, c.pos, n);
      if end - c.pos > o.maxRead then Reads(o, c, n) == SizeTooBig
      else Reads(o, c, n) == Bytes(o.data[c.pos..end]) && After(o, c, n).pos == end
    ensures var c' := After(o, c, n);
      c'.pos < |o.data| ==> BlockOffset(c'.pos, o.bs) == 0 && First(c', o.bs) == BlockIndex(c'.pos, o.bs)
  {
    hide BlockIndex, BlockOffset, DivCeil, Picked;
    var end := End(|o.data|, o.bufsize, c.pos, n);
    AlignedSize(o.bufsize, o.bs);
    AlignedSum(c.pos, n, o.bs);
    AlignedSum(c.pos, o.bufsize, o.bs);
    PickedFresh(o.data, o.bs, c.pos, end);
    IndexCeil(o.bs, c.pos, end);
  }

  /** Reads of whole blocks from a block boundary return the rest of the file. */
  lemma {:induction false} DrainedAligned(o: Opened, c: Cursor, n: nat)
    requires InFile(o, c) && First(c, o.bs) == BlockIndex(c.pos, o.bs)
    requires BlockOffset(c.pos, o.bs) == 0 && BlockOffset(n, o.bs) == 0 && n > 0 && |o.data| + n < U32
    ensures Drained(o, c, n) == if End(|o.data|, o.bufsize, c.pos, n) - c.pos > o.maxRead then Stuck(SizeTooBig)
      else All(o.data[c.pos..])
    decreases |o.data| - c.pos
  {
    hide BlockIndex, BlockOffset, DivCeil, Picked, Reads, After, First;
    if c.pos < |o.data| {
      AlignedRead(o, c, n);
      var c' := After(o, c, n);
      if Reads(o, c, n).Bytes? {
        if c'.pos < |o.data| {
          DrainedAligned(o, c', n);
        }
        assert o.data[c.pos..] == o.data[c.pos..c'.pos] + o.data[c'.pos..];
      }
    }
  }

  // ---- a read across a boundary -------------------------------------------------------------------

  lemma SecondBlock(bs: nat)
    requires bs > 0
    ensures BlockIndex(0, bs) == 0 && BlockOffset(0, bs) == 0 && BlockIndex(bs, bs) == 1
    ensures BlockOffset(bs, bs) == 0 && DivCeil(2 * bs, bs) == 2
  {
    DivUnique(bs, bs, 1, 0);
    DivUnique(2 * bs + bs - 1, bs, 2, bs - 1);
    DivUnique(0, bs, 0, 0);
  }

  /** After one read over two blocks, a read of the second block returns the first. */
  lemma CrossingReadGoesStale(o: Opened)
    requires Usable(o) && 2 * o.bs <= |o.data| && 2 * o.bs <= o.bufsize && 2 * o.bs <= o.maxRead
    ensures Results(o, Cursor(0, NOWHERE, 0), [Read(2 * o.bs), Seek(o.bs, Set), Read(o.bs)])
         == [Bytes(o.data[..2 * o.bs]), Bytes(o.data[..o.bs])]
  {
    hide BlockIndex, BlockOffset, DivCeil, Picked;
    var bs, c0 := o.bs, Cursor(0, NOWHERE, 0);
    SecondBlock(bs);
    PickedFresh(o.data, bs, 0, 2 * bs);
    var c1 := After(o, c0, 2 * bs);
    assert c1 == Cursor(2 * bs, 1, 0);
    var c2 := c1.(pos := bs);
    PickedSecond(o.data, bs);
    assert Reads(o, c2, bs) == Bytes(o.data[..bs]);
    var ops := [Read(2 * bs), Seek(bs, Set), Read(bs)];
    assert ops[1..] == [Seek(bs, Set), Read(bs)] && ops[1..][1..] == [Read(bs)] && [Read(bs)][1..] == [];
    assert Results(o, c2, [Read(bs)]) == [Bytes(o.data[..bs])];
    assert Results(o, c1, ops[1..]) == Results(o, c2, [Read(bs)]);
  }

  lemma PickedSecond(data: seq<Byte>, bs: nat)
    requires 0 < bs && 2 * bs <= |data| && BlockIndex(bs, bs) == 1
    ensures Picked(data, bs, 0, bs, 2 * bs) == data[..bs]
  {
    var got := Picked(data, bs, 0, bs, 2 * bs);
    forall i | 0 <= i < bs ensures got[i] == data[i] {
      DivUnique(bs + i, bs, 1, i);
      assert Source(bs, 0, bs, bs + i) == i;
      assert got[i] == data[Source(bs, 0, bs, bs + i)];
    }
  }
}
