/** The file part of bsfs_populate_dir (tools/bsfs/bsfs-populate.c:361-466). */
module PopulateFile {
  import opened Division
  import opened Layout
  import opened BlockAllocator
  import opened DiskFormat
  import opened Checksum
  import opened DiskTree
  import opened DiskWrites
  import opened Populate

  ghost function Repr(v: Volume): set<object> {
    {v, v.blocks, v.blocks.blocks, v.blocks.megas, v.inodes, v.inodes.bitmap}
  }

  lemma Good(v: Volume)
    requires v.Valid()
    ensures Sound(v.State(), v.per) && v.per > 0
  {
  }

  /** At most ten direct blocks and one table of indirect ones. */
  predicate FileFits(size: nat, bs: nat) {
    bs > 0 && DivCeil(size, bs) <= DIRECT + bs / 4
  }

  function FileCost(size: nat, bs: nat): nat
    requires bs > 0
  {
    DivCeil(size, bs) + if DivCeil(size, bs) > DIRECT then 1 else 0
  }

  /** What the loop has got through. */
  datatype Progress = Progress(pos: nat, cur: nat, crc: bv32, tmp: seq<nat>, own: set<nat>, ptrs: seq<nat>)

  /** The part of the file written so far. */
  ghost predicate Written(d: Disk, bs: nat, idx: nat, data: seq<Byte>, g: Progress) {
    && idx < |d.table| && d.table[idx].kind == File && g.pos <= |data| && g.cur == |g.ptrs|
    && Writing(d.img, bs, d.table[idx], data[..g.pos], g.own, g.ptrs, g.tmp)
    && (g.pos == |data| || g.pos == Cap(bs, g.cur))
    && g.crc == Fed(START, data[..g.pos])
    && (g.cur <= DIRECT ==> g.tmp == NoPtrs(bs / 4)) && (forall i :: 0 <= i < |g.tmp| ==> g.tmp[i] < U32)
  }

  /** What has changed since state `d0`. */
  ghost predicate Since(d0: Disk, d: Disk, idx: nat, g: Progress) {
    && idx in d.iused && g.own == d.used - d0.used && Kept(d0, d, idx) && d.iused == d0.iused && d.ifree == d0.ifree
    && d.free + g.cur + (if g.cur > DIRECT then 1 else 0) == d0.free
  }

  /** The invariant of the file loop, begun in state `d0`. */
  ghost predicate InFile(d0: Disk, d: Disk, bs: nat, idx: nat, data: seq<Byte>, g: Progress) {
    Written(d, bs, idx, data, g) && Since(d0, d, idx, g)
  }

  function Next(g: Progress, read: nat, data: seq<Byte>, tmp: seq<nat>, own: set<nat>, b: nat): Progress
    requires g.pos + read <= |data|
  {
    Progress(g.pos + read, g.cur + 1, Fed(g.crc, data[g.pos..g.pos + read]), tmp, own, g.ptrs + [b])
  }

  lemma WritingFacts(img: Image, bs: nat, ino: Inode, done: seq<Byte>, own: set<nat>, ptrs: seq<nat>, tmp: seq<nat>)
    requires Writing(img, bs, ino, done, own, ptrs, tmp)
    ensures ino.size == |done| && |ino.direct| == DIRECT && |tmp| == bs / 4 && bs % 4 == 0
    ensures (|ptrs| > DIRECT ==> ino.l1 in own && ino.l1 != 0) && (|ptrs| <= DIRECT ==> ino.l1 == 0)
  {
  }

  lemma ChunkStep(data: seq<Byte>, pos: nat, read: nat)
    requires pos + read <= |data|
    ensures data[..pos] + data[pos..pos + read] == data[..pos + read]
    ensures Fed(START, data[..pos + read]) == Fed(Fed(START, data[..pos]), data[pos..pos + read])
  {
    hide Fed;
    FedSplit(START, data[..pos], data[pos..pos + read]);
    assert data[..pos] + data[pos..pos + read] == data[..pos + read];
  }

  /** How much the next fread returns. */
  function Chunk(size: nat, pos: nat, bs: nat): nat
    requires pos <= size
  {
    if size - pos < bs then size - pos else bs
  }

  /** Taking blocks and writing the one at `b` changes nothing that was in use in state `d0`. */
  lemma SinceStep(d0: Disk, d: Disk, d': Disk, idx: nat, g: Progress, g': Progress, img: Image, ino: Inode,
                  taken: set<nat>)
    requires Since(d0, d, idx, g) && idx < |d.table| && taken !! d.used
    requires g'.own == g.own + taken && g'.cur == g.cur + 1
    requires d' == d.(img := img, table := d.table[idx := ino], used := d.used + taken, free := d'.free)
    requires d'.free + (if g.cur == DIRECT then 2 else 1) == d.free
    requires |img| == |d.img| && forall x :: 0 <= x < |img| && x !in taken ==> img[x] == d.img[x]
    ensures Since(d0, d', idx, g')
  {
  }

  /** The values after a chunk. */
  lemma NextChunk(data: seq<Byte>, g: Progress, bs: nat, read: nat, chunk: seq<Byte>)
    requires g.pos < |data| && g.pos == Cap(bs, g.cur) && bs > 0
    requires read == Chunk(|data|, g.pos, bs) && chunk == data[g.pos..g.pos + read]
    requires g.crc == Fed(START, data[..g.pos])
    ensures 0 < |chunk| <= bs && |data[..g.pos]| == Cap(bs, g.cur) && data[..g.pos] + chunk == data[..g.pos + read]
    ensures Fed(START, data[..g.pos + read]) == Fed(g.crc, chunk)
    ensures (g.pos + read == |data| || g.pos + read == Cap(bs, g.cur + 1))
  {
    hide Fed, Cap;
    ChunkStep(data, g.pos, read);
    CapNext(bs, g.cur);
  }

  lemma DirectWritten(img: Image, bs: nat, ino: Inode, done: seq<Byte>, chunk: seq<Byte>, whole: seq<Byte>,
                      g: Progress, b: nat)
    requires Writing(img, bs, ino, done, g.own, g.ptrs, g.tmp) && |g.ptrs| == g.cur < DIRECT
    requires |done| == Cap(bs, g.cur) && 0 < |chunk| <= bs && whole == done + chunk
    requires b !in g.own && 0 < b < |img| && |img[b]| == bs
    ensures |ino.direct| == DIRECT
    ensures Writing(WriteAt(img, b, 0, chunk), bs, ino.(direct := ino.direct[g.cur := b], blocks := ino.blocks + 1,
      size := ino.size + |chunk|),
                    whole, g.own + {b}, g.ptrs + [b], g.tmp)
  {
    hide Writing, Cap, WriteAt;
    WritingFacts(img, bs, ino, done, g.own, g.ptrs, g.tmp);
    WriteDirect(img, bs, ino, done, g.own, g.ptrs, g.tmp, chunk, b);
  }

  /** The state after a chunk in block `b`, with inode `ino`. */
  function Put(d: Disk, idx: nat, b: nat, chunk: seq<Byte>, ino: Inode): Disk
    requires idx < |d.table| && b < |d.img| && |chunk| <= |d.img[b]|
  {
    d.(img := WriteAt(d.img, b, 0, chunk), table := d.table[idx := ino])
  }

  lemma PutSince(d0: Disk, d: Disk, d1: Disk, idx: nat, g: Progress, g': Progress, b: nat, chunk: seq<Byte>,
                 ino: Inode, taken: set<nat>)
    requires Since(d0, d, idx, g) && idx < |d.table| && taken !! d.used
    requires b in taken && g'.own == g.own + taken && g'.cur == g.cur + 1
    requires b < |d.img| && |chunk| <= |d.img[b]| && d1 == d.(used := d.used + taken, free := d1.free)
    requires d1.free + (if g.cur == DIRECT then 2 else 1) == d.free
    ensures Since(d0, Put(d1, idx, b, chunk, ino), idx, g')
  {
    hide Since;
    SinceStep(d0, d, Put(d1, idx, b, chunk, ino), idx, g, g', WriteAt(d.img, b, 0, chunk), ino, taken);
  }

  lemma PutWritten(d1: Disk, bs: nat, idx: nat, data: seq<Byte>, g: Progress, g': Progress, b: nat, read: nat,
                   chunk: seq<Byte>, ino: Inode)
    requires idx < |d1.table| && b < |d1.img| && |chunk| <= |d1.img[b]|
    requires ino.kind == File && g.pos + read <= |data| && g.cur == |g.ptrs|
    requires g' == Next(g, read, data, g'.tmp, g'.own, b) && chunk == data[g.pos..g.pos + read]
    requires Writing(WriteAt(d1.img, b, 0, chunk), bs, ino, data[..g.pos + read], g'.own, g.ptrs + [b], g'.tmp)
    requires Fed(START, data[..g.pos + read]) == Fed(g.crc, chunk)
    requires (g.pos + read == |data| || g.pos + read == Cap(bs, g.cur + 1))
    requires (g.cur < DIRECT ==> g'.tmp == NoPtrs(bs / 4)) && (forall i :: 0 <= i < |g'.tmp| ==> g'.tmp[i] < U32)
    ensures Written(Put(d1, idx, b, chunk, ino), bs, idx, data, g')
  {
    hide Writing, Fed, Cap, WriteAt, Put, NoPtrs;
    PutFacts(d1, idx, b, chunk, ino);
  }

  lemma PutFacts(d: Disk, idx: nat, b: nat, chunk: seq<Byte>, ino: Inode)
    requires idx < |d.table| && b < |d.img| && |chunk| <= |d.img[b]|
    ensures var d' := Put(d, idx, b, chunk, ino);
      d'.img == WriteAt(d.img, b, 0, chunk) && idx < |d'.table| && d'.table[idx] == ino
  {
    hide WriteAt;
  }

  lemma DirectStep(d0: Disk, d: Disk, d1: Disk, per: nat, idx: nat, data: seq<Byte>, g: Progress, b: nat, read: nat)
    requires InFile(d0, d, DIRENT_SIZE * per, idx, data, g) && per > 0 && g.pos < |data|
    requires g.cur < DIRECT && TookBlock(d, d1, per, b)
    requires read == Chunk(|data|, g.pos, DIRENT_SIZE * per)
    ensures idx < |d.table| && |d.table[idx].direct| == DIRECT && b < |d1.img| && |d1.img[b]| == DIRENT_SIZE * per
    ensures var ino := d.table[idx].(direct := d.table[idx].direct[g.cur := b], blocks := d.table[idx].blocks + 1,
      size := d.table[idx].size + read);
      InFile(d0, Put(d1, idx, b, data[g.pos..g.pos + read], ino), DIRENT_SIZE * per, idx, data,
          Next(g, read, data, g.tmp, g.own + {b}, b))
  {
    hide InFile, Written, Since, Writing, Fed, Cap, WriteAt, Put, NoPtrs;
    var bs, chunk := DIRENT_SIZE * per, data[g.pos..g.pos + read];
    ChunkFacts(d0, d, bs, idx, data, g);
    WritingFacts(d.img, bs, d.table[idx], data[..g.pos], g.own, g.ptrs, g.tmp);
    NextChunk(data, g, bs, read, chunk);
    DirectWritten(d.img, bs, d.table[idx], data[..g.pos], chunk, data[..g.pos + read], g, b);
    var ino := d.table[idx].(direct := d.table[idx].direct[g.cur := b], blocks := d.table[idx].blocks + 1,
        size := d.table[idx].size + read);
    var g' := Next(g, read, data, g.tmp, g.own + {b}, b);
    PutWritten(d1, bs, idx, data, g, g', b, read, chunk, ino);
    PutSince(d0, d, d1, idx, g, g', b, chunk, ino, {b});
    InFileBy(d0, Put(d1, idx, b, chunk, ino), bs, idx, data, g');
  }

  lemma InFileBy(d0: Disk, d: Disk, bs: nat, idx: nat, data: seq<Byte>, g: Progress)
    requires Written(d, bs, idx, data, g) && Since(d0, d, idx, g)
    ensures InFile(d0, d, bs, idx, data, g)
  {
  }

  /** What the next chunk starts from. */
  lemma ChunkFacts(d0: Disk, d: Disk, bs: nat, idx: nat, data: seq<Byte>, g: Progress)
    requires InFile(d0, d, bs, idx, data, g) && g.pos < |data|
    ensures idx < |d.table| && d.table[idx].kind == File && g.cur == |g.ptrs| && g.pos == Cap(bs, g.cur)
    ensures Writing(d.img, bs, d.table[idx], data[..g.pos], g.own, g.ptrs, g.tmp) && g.own <= d.used
    ensures g.crc == Fed(START, data[..g.pos]) && (g.cur <= DIRECT ==> g.tmp == NoPtrs(bs / 4))
    ensures Since(d0, d, idx, g) && forall i :: 0 <= i < |g.tmp| ==> g.tmp[i] < U32
  {
    hide Writing, Fed, Cap, NoPtrs, Kept;
  }

  lemma WrittenFacts(d: Disk, bs: nat, idx: nat, data: seq<Byte>, g: Progress)
    requires Written(d, bs, idx, data, g) && g.pos < |data|
    ensures idx < |d.table| && d.table[idx].kind == File && g.cur == |g.ptrs| && g.pos == Cap(bs, g.cur)
    ensures Writing(d.img, bs, d.table[idx], data[..g.pos], g.own, g.ptrs, g.tmp)
    ensures g.crc == Fed(START, data[..g.pos]) && (g.cur <= DIRECT ==> g.tmp == NoPtrs(bs / 4))
    ensures forall i :: 0 <= i < |g.tmp| ==> g.tmp[i] < U32
  {
    hide Writing, Fed, Cap, NoPtrs;
  }

  lemma IndirectWritten(img: Image, bs: nat, ino: Inode, done: seq<Byte>, chunk: seq<Byte>, whole: seq<Byte>,
                        g: Progress, b: nat, l1: nat)
    requires Writing(img, bs, ino, done, g.own, g.ptrs, g.tmp) && DIRECT <= |g.ptrs| == g.cur < DIRECT + bs / 4
    requires |done| == Cap(bs, g.cur) && 0 < |chunk| <= bs && whole == done + chunk
    requires b !in g.own && 0 < b < |img| && |img[b]| == bs
    requires if g.cur == DIRECT then l1 !in g.own && l1 != 0 && l1 != b && g.tmp == NoPtrs(bs / 4) else l1 == ino.l1
    ensures |g.tmp| == bs / 4
    ensures Writing(WriteAt(img, b, 0, chunk), bs, ino.(l1 := l1, blocks := ino.blocks + 1, size := ino.size + |chunk|),
                    whole, g.own + {b, l1}, g.ptrs + [b], g.tmp[g.cur - DIRECT := b])
  {
    hide Writing, Cap, WriteAt;
    WritingFacts(img, bs, ino, done, g.own, g.ptrs, g.tmp);
    WriteIndirect(img, bs, ino, done, g.own, g.ptrs, g.tmp, chunk, b, l1);
  }

  /** The block for a chunk, and that for the table when it is the first indirect one. */
  ghost predicate TookIndirect(d: Disk, d2: Disk, bs: nat, cur: nat, old1: nat, b: nat, l1: nat) {
    && d2 == d.(used := d.used + (if cur == DIRECT then {b, l1} else {b}), free := d2.free)
    && d2.free + (if cur == DIRECT then 2 else 1) == d.free
    && b !in d.used && 0 < b < |d.img| && |d.img[b]| == bs
    && if cur == DIRECT then l1 !in d.used && l1 != 0 && l1 != b else l1 == old1
  }

  lemma IndirectPut(d: Disk, d2: Disk, bs: nat, idx: nat, data: seq<Byte>, g: Progress, b: nat, l1: nat, read: nat,
                    ino: Inode, g': Progress)
    requires Written(d, bs, idx, data, g) && g.own <= d.used && bs > 0
    requires g.pos < |data| && DIRECT <= g.cur < DIRECT + bs / 4 && |g.tmp| == bs / 4
    requires TookIndirect(d, d2, bs, g.cur, d.table[idx].l1, b, l1) && read == Chunk(|data|, g.pos, bs)
    requires |d.img| <= U32
    requires ino == d.table[idx].(l1 := l1, blocks := d.table[idx].blocks + 1, size := d.table[idx].size + read)
    requires g' == Next(g, read, data, g.tmp[g.cur - DIRECT := b], g.own + {b, l1}, b)
    ensures Written(Put(d2, idx, b, data[g.pos..g.pos + read], ino), bs, idx, data, g')
  {
    hide Written, Writing, Fed, Cap, WriteAt, Put, NoPtrs;
    WrittenFacts(d, bs, idx, data, g);
    WritingFacts(d.img, bs, d.table[idx], data[..g.pos], g.own, g.ptrs, g.tmp);
    var chunk, done, whole := data[g.pos..g.pos + read], data[..g.pos], data[..g.pos + read];
    NextChunk(data, g, bs, read, chunk);
    IndirectWritten(d.img, bs, d.table[idx], done, chunk, whole, g, b, l1);
    PutWritten(d2, bs, idx, data, g, g', b, read, chunk, ino);
  }

  lemma IndirectStep(d0: Disk, d: Disk, d2: Disk, bs: nat, idx: nat, data: seq<Byte>, g: Progress, b: nat, l1: nat,
                     read: nat)
    requires InFile(d0, d, bs, idx, data, g) && bs > 0 && g.pos < |data| && DIRECT <= g.cur < DIRECT + bs / 4
    requires TookIndirect(d, d2, bs, g.cur, d.table[idx].l1, b, l1) && read == Chunk(|data|, g.pos, bs)
    requires |d.img| <= U32
    ensures idx < |d.table| && |g.tmp| == bs / 4 && b < |d2.img| && |d2.img[b]| == bs
    ensures var ino := d.table[idx].(l1 := l1, blocks := d.table[idx].blocks + 1, size := d.table[idx].size + read);
      InFile(d0, Put(d2, idx, b, data[g.pos..g.pos + read], ino), bs, idx, data,
             Next(g, read, data, g.tmp[g.cur - DIRECT := b], g.own + {b, l1}, b))
  {
    var ino := d.table[idx].(l1 := l1, blocks := d.table[idx].blocks + 1, size := d.table[idx].size + read);
    hide Writing, Fed, Cap, Kept, Put;
    WritingFacts(d.img, bs, d.table[idx], data[..g.pos], g.own, g.ptrs, g.tmp);
    var g' := Next(g, read, data, g.tmp[g.cur - DIRECT := b], g.own + {b, l1}, b);
    IndirectPut(d, d2, bs, idx, data, g, b, l1, read, ino, g');
    var taken := if g.cur == DIRECT then {b, l1} else {b};
    assert g.own + taken == g.own + {b, l1};
    PutSince(d0, d, d2, idx, g, g', b, data[g.pos..g.pos + read], ino, taken);
    hide Written, Since;
  }

  // ---- the loop -----------------------------------------------------------------------------------------------

  lemma Begin(d: Disk, per: nat, idx: nat, data: seq<Byte>)
    requires Sound(d, per) && idx in d.iused
    ensures var d1 := d.(table := d.table[idx := ZeroInode().(kind := File)]);
      InFile(d, d1, DIRENT_SIZE * per, idx, data, Progress(0, 0, START, NoPtrs(DIRENT_SIZE * per / 4), {}, []))
  {
    hide Writing, Clean, Blank, Fed, Cap;
    Quarter(per);
    StartWriting(d.img, DIRENT_SIZE * per, data);
    var d1, g := d.(table := d.table[idx := ZeroInode().(kind := File)]),
        Progress(0, 0, START, NoPtrs(DIRENT_SIZE * per / 4), {}, []);
    assert Written(d1, DIRENT_SIZE * per, idx, data, g);
    assert Since(d, d1, idx, g);
  }

  lemma Quarter(per: nat)
    ensures DIRENT_SIZE * per % 4 == 0
  {
  }

  lemma StartWriting(img: Image, bs: nat, data: seq<Byte>)
    requires bs % 4 == 0
    ensures Writing(img, bs, ZeroInode().(kind := File), data[..0], {}, [], NoPtrs(bs / 4)) && Cap(bs, 0) == 0
    ensures Fed(START, data[..0]) == START
  {
  }

  lemma More(d0: Disk, d: Disk, bs: nat, idx: nat, data: seq<Byte>, g: Progress)
    requires InFile(d0, d, bs, idx, data, g) && g.pos < |data| && FileFits(|data|, bs)
    requires d0.free >= FileCost(|data|, bs)
    ensures g.cur < DIRECT + bs / 4 && d.free >= (if g.cur == DIRECT then 2 else 1)
  {
    hide Writing, Fed, Kept, DivCeil, Cap;
    MoreBlocks(|data|, bs, g.cur);
  }

  lemma MoreBlocks(size: nat, bs: nat, cur: nat)
    requires bs > 0 && Cap(bs, cur) < size
    ensures cur < DivCeil(size, bs)
  {
    CeilBounds(size, bs);
    var n := DivCeil(size, bs);
    if n < cur { MulStep(cur, n, bs); }
  }

  lemma InFileBounds(d0: Disk, d: Disk, bs: nat, idx: nat, data: seq<Byte>, g: Progress)
    requires InFile(d0, d, bs, idx, data, g)
    ensures g.pos <= |data| && idx in d.iused && idx < |d.table| && g.cur == |g.ptrs|
  {
  }

  /** The chunk and the inode are written. */
  method PutChunk(v: Volume, idx: nat, b: nat, chunk: seq<Byte>, ino: Inode)
    requires v.Valid() && idx in v.State().iused && b in v.State().used && |chunk| <= DIRENT_SIZE * v.per
    modifies v`img, v`intended, v`table
    ensures v.Valid() && idx < |old(v.State()).table| && b < |old(v.State()).img|
    ensures |old(v.State()).img[b]| == DIRENT_SIZE * v.per
    ensures v.State() == Put(old(v.State()), idx, b, chunk, ino)
  {
    hide Volume.Valid, BlockMap.Used, InodeMap.Used, WriteAt;
    v.Write(b, 0, chunk);
    v.SetInode(idx, ino);
  }

  /** A chunk with a direct pointer. */
  method DirectChunk(v: Volume, idx: nat, data: seq<Byte>, cur: nat, pos: nat, read: nat, ghost d0: Disk,
                     ghost g: Progress)
    returns (ghost g': Progress, ghost at: nat)
    requires v.Valid() && InFile(d0, v.State(), DIRENT_SIZE * v.per, idx, data, g) && g.cur == cur < DIRECT
    requires g.pos == pos < |data| && v.State().free > 0
    requires read == Chunk(|data|, pos, DIRENT_SIZE * v.per)
    modifies Repr(v)
    ensures v.Valid() && InFile(d0, v.State(), DIRENT_SIZE * v.per, idx, data, g')
    ensures g' == Next(g, read, data, g.tmp, g'.own, at)
  {
    hide Volume.Valid, InFile, Sound, BlockMap.Used, InodeMap.Used, Fed, WriteAt, Put, Volume.State;
    Good(v);
    ghost var d := v.State();
    InFileBounds(d0, d, DIRENT_SIZE * v.per, idx, data, g);
    var ino := GetInode(v, idx);
    var b := v.AllocBlock();
    DirectStep(d0, d, v.State(), v.per, idx, data, g, b, read);
    PutChunk(v, idx, b, data[pos..pos + read], ino.(direct := ino.direct[cur := b], blocks := ino.blocks + 1,
        size := ino.size + read));
    at := b;
    g' := Next(g, read, data, g.tmp, g.own + {b}, b);
  }

  method GetInode(v: Volume, idx: nat) returns (ino: Inode)
    requires idx < |v.State().table|
    ensures ino == v.State().table[idx]
  {
    ino := v.table[idx];
  }

  /** A chunk with a pointer in the indirect table. */
  method IndirectChunk(v: Volume, idx: nat, data: seq<Byte>, cur: nat, pos: nat, read: nat, tmp: seq<nat>,
                       ghost d0: Disk, ghost g: Progress)
    returns (tmp': seq<nat>, ghost g': Progress, ghost at: nat)
    requires v.Valid() && InFile(d0, v.State(), DIRENT_SIZE * v.per, idx, data, g) && g.pos == pos < |data|
    requires g.tmp == tmp
    requires DIRECT <= g.cur == cur < DIRECT + DIRENT_SIZE * v.per / 4
    requires v.State().free >= (if cur == DIRECT then 2 else 1)
    requires read == Chunk(|data|, pos, DIRENT_SIZE * v.per)
    modifies Repr(v)
    ensures v.Valid() && InFile(d0, v.State(), DIRENT_SIZE * v.per, idx, data, g')
    ensures g' == Next(g, read, data, tmp', g'.own, at)
  {
    hide Volume.Valid, InFile, Sound, BlockMap.Used, InodeMap.Used, Fed, WriteAt, Put, Volume.State;
    Good(v);
    ghost var d := v.State();
    InFileBounds(d0, d, DIRENT_SIZE * v.per, idx, data, g);
    var ino := GetInode(v, idx);
    var b, l1 := TakeIndirect(v, cur, ino.l1);
    ImageSmall(d, v.per);
    IndirectStep(d0, d, v.State(), DIRENT_SIZE * v.per, idx, data, g, b, l1, read);
    PutChunk(v, idx, b, data[pos..pos + read], ino.(l1 := l1, blocks := ino.blocks + 1, size := ino.size + read));
    tmp' := tmp[cur - DIRECT := b];
    at := b;
    g' := Next(g, read, data, tmp', g.own + {b, l1}, b);
  }

  lemma ImageSmall(d: Disk, per: nat)
    requires Sound(d, per)
    ensures |d.img| <= U32
  {
  }

  method TakeIndirect(v: Volume, cur: nat, old1: nat) returns (b: nat, l1: nat)
    requires v.Valid() && v.State().free >= (if cur == DIRECT then 2 else 1)
    modifies v.blocks, v.blocks.blocks, v.blocks.megas
    ensures v.Valid() && TookIndirect(old(v.State()), v.State(), DIRENT_SIZE * v.per, cur, old1, b, l1)
  {
    hide Volume.Valid, BlockMap.Used, InodeMap.Used;
    l1 := old1;
    b := v.AllocBlock();
    if cur == DIRECT {
      l1 := v.AllocBlock();
    }
  }

  /** The file is on disk, in blocks taken since state `d0`. */
  ghost predicate Stored(d0: Disk, d: Disk, bs: nat, idx: nat, data: seq<Byte>) {
    && bs > 0 && idx < |d.table| && FileRep(d.img, bs, d.table[idx], data, d.used - d0.used) && Kept(d0, d, idx)
    && d.iused == d0.iused && d.ifree == d0.ifree && d.free + FileCost(|data|, bs) == d0.free
  }

  /** After the indirect table, if there is one, and the checksum. */
  function Closed(d: Disk, idx: nat, tmp: seq<nat>, crc: bv32): Disk
    requires idx < |d.table| && forall i :: 0 <= i < |tmp| ==> tmp[i] < U32
    requires d.table[idx].l1 != 0 ==> d.table[idx].l1 < |d.img| && 4 * |tmp| <= |d.img[d.table[idx].l1]|
  {
    var ino := d.table[idx];
    d.(img := if ino.l1 != 0 then WriteAt(d.img, ino.l1, 0, PutTable(tmp))
        else d.img, table := d.table[idx := ino.(checksum := Finalize(crc))])
  }

  lemma FileDone(img: Image, img': Image, bs: nat, ino: Inode, crc: bv32, data: seq<Byte>, own: set<nat>,
                 ptrs: seq<nat>, tmp: seq<nat>)
    requires Writing(img, bs, ino, data, own, ptrs, tmp) && ino.kind == File && bs > 0
    requires crc == Fed(START, data) && forall i :: 0 <= i < |tmp| ==> tmp[i] < U32
    requires |ptrs| > DIRECT ==>
      ino.l1 < |img| && |img[ino.l1]| == bs && 4 * |tmp| == bs && img' == WriteAt(img, ino.l1, 0, PutTable(tmp))
    requires |ptrs| <= DIRECT ==> img' == img
    ensures FileRep(img', bs, ino.(checksum := Finalize(crc)), data, own) && |ptrs| == DivCeil(|data|, bs)
  {
    hide Writing, FileBlocks, Cap, Fed, PutTable, WriteAt, DivCeil, FileRep, Finalize;
    WritingFacts(img, bs, ino, data, own, ptrs, tmp);
    WritingSize(img, bs, ino, data, own, ptrs, tmp);
    Finish(img, bs, ino, data, own, ptrs, tmp);
    CeilUnique(|data|, bs, |ptrs|);
    SumIrrelevant(img', bs, ino, Finalize(crc), data, own, ptrs);
    RepBy(img', bs, ino.(checksum := Finalize(crc)), data, own, ptrs);
    hide *;
  }

  lemma RepBy(img: Image, bs: nat, ino: Inode, data: seq<Byte>, own: set<nat>, ptrs: seq<nat>)
    requires FileBlocks(img, bs, ino, data, own, ptrs) && ino.kind == File && ino.size == |data|
    requires ino.checksum == Finalize(Fed(START, data))
    ensures FileRep(img, bs, ino, data, own)
  {
    hide FileBlocks, Fed, Finalize;
  }

  lemma WritingSize(img: Image, bs: nat, ino: Inode, done: seq<Byte>, own: set<nat>, ptrs: seq<nat>, tmp: seq<nat>)
    requires Writing(img, bs, ino, done, own, ptrs, tmp) && bs > 0
    ensures |done| <= |ptrs| * bs && (if |done| == 0 then |ptrs| == 0 else |ptrs| > 0 && (|ptrs| - 1) * bs < |done|)
  {
    hide ReadBytes, Inside, Pointers;
    if |ptrs| > 0 { assert Cap(bs, |ptrs| - 1) < |done|; }
  }

  lemma SumIrrelevant(img: Image, bs: nat, ino: Inode, sum: bv32, data: seq<Byte>, own: set<nat>, ptrs: seq<nat>)
    requires FileBlocks(img, bs, ino, data, own, ptrs)
    ensures FileBlocks(img, bs, ino.(checksum := sum), data, own, ptrs)
  {
    hide ReadBytes, ReadTable, Cap, Inside;
  }

  /** The block of the indirect table is in use. */
  lemma TableBlock(d0: Disk, d: Disk, per: nat, idx: nat, data: seq<Byte>, g: Progress)
    requires InFile(d0, d, DIRENT_SIZE * per, idx, data, g) && Sound(d, per)
    ensures idx < |d.table| && (|g.ptrs| > DIRECT <==> d.table[idx].l1 != 0)
    ensures var l1 := d.table[idx].l1;
      l1 != 0 ==> l1 in g.own && l1 < |d.img| && 4 * |g.tmp| == |d.img[l1]| == DIRENT_SIZE * per
  {
    hide Writing, Fed, Cap, Blank, Kept;
    Quarter(per);
    WritingFacts(d.img, DIRENT_SIZE * per, d.table[idx], data[..g.pos], g.own, g.ptrs, g.tmp);
  }

  lemma Complete(d0: Disk, d: Disk, bs: nat, idx: nat, data: seq<Byte>, g: Progress)
    requires InFile(d0, d, bs, idx, data, g) && bs > 0 && g.pos == |data|
    requires idx < |d.table| && (|g.ptrs| > DIRECT <==> d.table[idx].l1 != 0)
    requires var l1 := d.table[idx].l1; l1 != 0 ==> l1 in g.own && l1 < |d.img| && 4 * |g.tmp| == |d.img[l1]| == bs
    ensures Stored(d0, Closed(d, idx, g.tmp, g.crc), bs, idx, data)
  {
    var ino := d.table[idx];
    hide Writing, Fed, Cap, FileRep, WriteAt, Kept, DivCeil, Finalize, Crc32, PutTable, NoPtrs;
    assert data[..|data|] == data;
    var d' := Closed(d, idx, g.tmp, g.crc);
    FileDone(d.img, d'.img, bs, ino, g.crc, data, g.own, g.ptrs, g.tmp);
    KeptOutside(d0, d, d', idx, ino.l1);
    assert d'.table[idx] == ino.(checksum := Finalize(g.crc)) && d'.used - d0.used == g.own;
    assert Stored(d0, d', bs, idx, data);
  }

  lemma KeptOutside(d0: Disk, d: Disk, d': Disk, idx: nat, b: nat)
    requires Kept(d0, d, idx) && d'.used == d.used && d'.iused == d.iused
    requires |d'.img| == |d.img| && (b in d0.used ==> d'.img == d.img)
    requires (forall x :: 0 <= x < |d.img| && x != b ==> d'.img[x] == d.img[x]) && |d'.table| == |d.table|
    requires forall i :: 0 <= i < |d.table| && i != idx ==> d'.table[i] == d.table[i]
    ensures Kept(d0, d', idx)
  {
  }

  method Close(v: Volume, idx: nat, tmp: seq<nat>, crc: bv32)
    requires v.Valid() && idx in v.State().iused && idx < |v.State().table|
    requires forall i :: 0 <= i < |tmp| ==> tmp[i] < U32
    requires var l1 := v.State().table[idx].l1;
      l1 != 0 ==>
      l1 in v.State().used && l1 < |v.State().img| && 4 * |tmp| == |v.State().img[l1]| == DIRENT_SIZE * v.per
    modifies v`img, v`intended, v`table
    ensures v.Valid() && v.State() == Closed(old(v.State()), idx, tmp, crc)
  {
    hide Volume.Valid, BlockMap.Used, InodeMap.Used, WriteAt, PutTable;
    var ino := v.table[idx];
    if ino.l1 != 0 {
      v.Write(ino.l1, 0, PutTable(tmp));
    }
    v.SetInode(idx, ino.(checksum := Finalize(crc)));
  }

  /** The file loop: block by block, with a running checksum. */
  method WriteFile(v: Volume, idx: nat, data: seq<Byte>)
    requires v.Valid() && idx in v.State().iused && FileFits(|data|, DIRENT_SIZE * v.per)
    requires v.State().free >= FileCost(|data|, DIRENT_SIZE * v.per)
    modifies Repr(v)
    ensures v.Valid() && Stored(old(v.State()), v.State(), DIRENT_SIZE * v.per, idx, data)
  {
    hide Volume.Valid, InFile, Sound, BlockMap.Used, InodeMap.Used, Fed, Volume.State, FileFits, FileCost, Stored,
         Closed;
    ghost var d0 := v.State();
    Good(v);
    var bs := DIRENT_SIZE * v.per;
    Begin(d0, v.per, idx, data);
    v.SetInode(idx, ZeroInode().(kind := File));
    var crc, cur: nat, pos: nat, tmp: seq<nat> := START, 0, 0, NoPtrs(bs / 4);
    ghost var g := Progress(pos, cur, crc, tmp, {}, []);
    while pos < |data|
      invariant v.Valid() && InFile(d0, v.State(), bs, idx, data, g) && pos == g.pos <= |data|
      invariant cur == g.cur && crc == g.crc && tmp == g.tmp
    {
      var read := Chunk(|data|, pos, bs);
      More(d0, v.State(), bs, idx, data, g);
      ghost var at;
      if cur < DIRECT {
        g, at := DirectChunk(v, idx, data, cur, pos, read, d0, g);
      } else {
        tmp, g, at := IndirectChunk(v, idx, data, cur, pos, read, tmp, d0, g);
      }
      crc := Update(crc, data[pos..pos + read]);
      pos, cur := pos + read, cur + 1;
    }
    Good(v);
    TableBlock(d0, v.State(), v.per, idx, data, g);
    Complete(d0, v.State(), bs, idx, data, g);
    TableWords(d0, v.State(), bs, idx, data, g);
    Close(v, idx, tmp, crc);
  }

  lemma TableWords(d0: Disk, d: Disk, bs: nat, idx: nat, data: seq<Byte>, g: Progress)
    requires InFile(d0, d, bs, idx, data, g)
    ensures idx in d.iused && idx < |d.table| && g.own <= d.used && forall i :: 0 <= i < |g.tmp| ==> g.tmp[i] < U32
  {
  }
}
