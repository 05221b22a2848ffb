/** The recursion of bsfs_populate_dir (tools/bsfs/bsfs-populate.c:290-475). */
module PopulateTree {
  import opened Division
  import opened Layout
  import opened BlockAllocator
  import opened DiskFormat
  import opened DiskTree
  import opened DiskWrites
  import opened ImageBytes
  import opened Metadata
  import opened Populate
  import opened PopulateFile

  // ---- directories ------------------------------------------------------------------------------------------

  /** Inode `idx` is a directory with the given entries, in blocks `own`. */
  ghost predicate DirAt(d: Disk, per: nat, idx: nat, slots: seq<Dirent>, own: set<nat>, ptrs: seq<nat>) {
    && idx in d.iused && idx < |d.table| && d.table[idx].kind == Directory && d.table[idx].size == DIRENT_SIZE * |slots|
    && DirBlocks(d.img, per, d.table[idx], slots, own, ptrs) && own <= d.used
  }

  const PENDING := Dirent(0, [])

  /** The pointer slot for the next entry is empty exactly when the blocks are full. */
  lemma ReserveFacts(img: Image, per: nat, ino: Inode, slots: seq<Dirent>, own: set<nat>, ptrs: seq<nat>)
    requires DirBlocks(img, per, ino, slots, own, ptrs) && per > 0 && |slots| < DIRECT * per
    ensures var k, off := BlockIndex(DIRENT_SIZE * |slots|, DIRENT_SIZE * per),
      BlockOffset(DIRENT_SIZE * |slots|, DIRENT_SIZE * per);
      && |ino.direct| == DIRECT && k < DIRECT
      && (ino.direct[k] == 0 <==> |slots| == Cap(per, |ptrs|))
      && (if |slots| == Cap(per, |ptrs|) then |ptrs| < DIRECT && k == |ptrs| && off == 0
          else |slots| < Cap(per, |ptrs|) && ptrs != [] && Cap(per, |ptrs| - 1) <= |slots| && k == |ptrs| - 1
               && ino.direct[k] == ptrs[k] && off == DIRENT_SIZE * (|slots| - Cap(per, |ptrs| - 1)))
  {
    SlotPlace(|slots|, per, |ptrs|);
    if |slots| == Cap(per, |ptrs|) { FullBlocks(per, |ptrs|); }
    hide Cap, BlockIndex, BlockOffset, ReadDir;
    if |slots| != Cap(per, |ptrs|) { assert ptrs[|ptrs| - 1] in ptrs; }
  }

  lemma FullBlocks(per: nat, n: nat)
    requires per > 0 && Cap(per, n) < DIRECT * per
    ensures n < DIRECT
  {
    if n > DIRECT { MulStep(n, DIRECT, per); }
  }

  lemma SizeIrrelevant(img: Image, per: nat, ino: Inode, size: nat, slots: seq<Dirent>, own: set<nat>, ptrs: seq<nat>)
    requires DirBlocks(img, per, ino, slots, own, ptrs)
    ensures DirBlocks(img, per, ino.(size := size), slots, own, ptrs)
  {
  }

  /** The directory has one more entry, not yet written, at offset `off` of block `b`. */
  ghost predicate Reserved(d: Disk, d': Disk, per: nat, idx: nat, slots: seq<Dirent>, own: set<nat>, ptrs: seq<nat>,
                           own': set<nat>, ptrs': seq<nat>, b: nat, off: nat) {
    && DirAt(d', per, idx, slots + [PENDING], own', ptrs') && d'.img == d.img && d'.iused == d.iused
    && d'.ifree == d.ifree
    && |d'.table| == |d.table| && (forall i :: 0 <= i < |d.table| && i != idx ==> d'.table[i] == d.table[i])
    && own' == own + (d'.used - d.used) && d.used <= d'.used && d'.free + |ptrs'| == d.free + |ptrs|
    && ptrs' != [] && b == ptrs'[|ptrs'| - 1] && Cap(per, |ptrs'| - 1) <= |slots|
    && off == DIRENT_SIZE * (|slots| - Cap(per, |ptrs'| - 1))
  }

  lemma ReservedHere(d: Disk, per: nat, idx: nat, slots: seq<Dirent>, own: set<nat>, ptrs: seq<nat>)
    requires DirAt(d, per, idx, slots, own, ptrs) && per > 0 && |slots| < Cap(per, |ptrs|) && |slots| < DIRECT * per
    ensures var ino := d.table[idx].(size := d.table[idx].size + DIRENT_SIZE);
      Reserved(d, d.(table := d.table[idx := ino]), per, idx, slots, own, ptrs, own, ptrs, ptrs[|ptrs| - 1],
          BlockOffset(d.table[idx].size, DIRENT_SIZE * per))
  {
    ReserveFacts(d.img, per, d.table[idx], slots, own, ptrs);
    ReserveHere(d.img, per, d.table[idx], slots, own, ptrs);
    hide DirBlocks, Cap, BlockOffset;
    SizeIrrelevant(d.img, per, d.table[idx], d.table[idx].size + DIRENT_SIZE, slots + [PENDING], own, ptrs);
  }

  lemma ReservedNew(d: Disk, d1: Disk, per: nat, idx: nat, slots: seq<Dirent>, own: set<nat>, ptrs: seq<nat>, b: nat)
    requires DirAt(d, per, idx, slots, own, ptrs) && Sound(d, per) && |slots| == Cap(per, |ptrs|)
    requires |slots| < DIRECT * per && TookBlock(d, d1, per, b)
    ensures var k, ino := BlockIndex(d.table[idx].size, DIRENT_SIZE * per), d.table[idx];
      && k == |ptrs| < |ino.direct|
      && Reserved(d, d1.(table := d.table[idx := ino.(direct := ino.direct[k := b], blocks := ino.blocks + 1,
           size := ino.size + DIRENT_SIZE)]), per,
                  idx, slots, own, ptrs, own + {b}, ptrs + [b], b, BlockOffset(ino.size, DIRENT_SIZE * per))
  {
    ReserveFacts(d.img, per, d.table[idx], slots, own, ptrs);
    ReserveNew(d.img, per, d.table[idx], slots, own, ptrs, b);
    hide DirBlocks, Cap, BlockOffset, BlockIndex;
    var ino := d.table[idx];
    SizeIrrelevant(d.img, per, ino.(direct := ino.direct[|ptrs| := b], blocks := ino.blocks + 1),
        ino.size + DIRENT_SIZE, slots + [PENDING], own + {b}, ptrs + [b]);
  }

  /** bsfs_alloc_dirent, and the growth of the directory by one entry. */
  method ReserveDirent(v: Volume, idx: nat, ghost slots: seq<Dirent>, ghost own: set<nat>, ghost ptrs: seq<nat>)
    returns (b: nat, off: nat, ghost own': set<nat>, ghost ptrs': seq<nat>)
    requires v.Valid() && DirAt(v.State(), v.per, idx, slots, own, ptrs) && |slots| < DIRECT * v.per
    requires |slots| == Cap(v.per, |ptrs|) ==> v.State().free > 0
    modifies Repr(v)
    ensures v.Valid() && Reserved(old(v.State()), v.State(), v.per, idx, slots, own, ptrs, own', ptrs', b, off)
  {
    hide Volume.Valid, DirBlocks, Cap, BlockIndex, BlockOffset, Reserved, Sound, BlockMap.Used, InodeMap.Used;
    ghost var d := v.State();
    Good(v);
    ReserveFacts(d.img, v.per, d.table[idx], slots, own, ptrs);
    var ino := v.table[idx];
    var size := ino.size;
    var k := BlockIndex(size, DIRENT_SIZE * v.per);
    off := BlockOffset(size, DIRENT_SIZE * v.per);
    if ino.direct[k] == 0 {
      b := v.AllocBlock();
      ReservedNew(d, v.State(), v.per, idx, slots, own, ptrs, b);
      own', ptrs' := own + {b}, ptrs + [b];
      ino := ino.(direct := ino.direct[k := b], blocks := ino.blocks + 1);
    } else {
      b := ino.direct[k];
      ReservedHere(d, v.per, idx, slots, own, ptrs);
      own', ptrs' := own, ptrs;
    }
    v.SetInode(idx, ino.(size := size + DIRENT_SIZE));
  }

  /** The last entry of the directory is written. */
  lemma Entered(d: Disk, per: nat, idx: nat, slots: seq<Dirent>, own: set<nat>, ptrs: seq<nat>, e: Dirent)
    requires DirAt(d, per, idx, slots, own, ptrs) && Sound(d, per) && slots != []
    requires e.inode < U32 && Storable(e.name)
    ensures ptrs != [] && Cap(per, |ptrs| - 1) < |slots| <= Cap(per, |ptrs| - 1) + per && ptrs[|ptrs| - 1] in own
    ensures var b, off := ptrs[|ptrs| - 1], DIRENT_SIZE * (|slots| - 1 - Cap(per, |ptrs| - 1));
      && b < |d.img| && |d.img[b]| == DIRENT_SIZE * per
      && DirAt(d.(img := WriteAt(d.img, b, off, PutDirent(e))), per, idx, slots[|slots| - 1 := e], own, ptrs)
  {
    if ptrs != [] { assert ptrs[|ptrs| - 1] in ptrs; }
    WriteLast(d.img, per, d.table[idx], slots, own, ptrs, PutDirent(e));
    DirentRoundTrip(e);
    hide DirBlocks, Cap, WriteAt, PutDirent;
  }

  method WriteEntry(v: Volume, b: nat, off: nat, e: Dirent, ghost idx: nat, ghost slots: seq<Dirent>,
                    ghost own: set<nat>, ghost ptrs: seq<nat>)
    requires v.Valid() && DirAt(v.State(), v.per, idx, slots, own, ptrs) && slots != []
    requires e.inode < U32 && Storable(e.name)
    requires ptrs != [] && b == ptrs[|ptrs| - 1] && Cap(v.per, |ptrs| - 1) < |slots|
    requires off == DIRENT_SIZE * (|slots| - 1 - Cap(v.per, |ptrs| - 1))
    modifies v`img, v`intended
    ensures v.Valid() && DirAt(v.State(), v.per, idx, slots[|slots| - 1 := e], own, ptrs)
    ensures v.State() == old(v.State()).(img := v.State().img) && |v.State().img| == |old(v.State()).img| && b in own
    ensures forall x :: 0 <= x < |v.State().img| && x != b ==> v.State().img[x] == old(v.State()).img[x]
  {
    hide Volume.Valid, DirBlocks, Cap, Sound, BlockMap.Used, InodeMap.Used, WriteAt, PutDirent;
    Good(v);
    Entered(v.State(), v.per, idx, slots, own, ptrs, e);
    v.Write(b, off, PutDirent(e));
  }

  // ---- a directory being filled -----------------------------------------------------------------------------

  /** The subtrees written so far. */
  ghost predicate Kids(img: Image, per: nat, table: seq<Inode>, idx: nat, entries: seq<Entry>, kids: seq<Placed>,
                       own: set<nat>, inos: set<nat>) {
    && |kids| <= |entries|
    && forall j :: 0 <= j < |kids| ==> Rep(img, per, table, kids[j], idx, entries[j].node, own, inos)
  }

  lemma KidsFrame(img: Image, img': Image, per: nat, table: seq<Inode>, table': seq<Inode>, idx: nat,
                  entries: seq<Entry>, kids: seq<Placed>,
                  own: set<nat>, inos: set<nat>, own': set<nat>, inos': set<nat>)
    requires Kids(img, per, table, idx, entries, kids, own, inos) && SameBlocks(img, img', own) && own <= own'
    requires inos <= inos'
    requires |table'| == |table| && forall i :: i in inos && i < |table| ==> table'[i] == table[i]
    ensures Kids(img', per, table', idx, entries, kids, own', inos')
  {
    hide Rep;
    forall j | 0 <= j < |kids| ensures Rep(img', per, table', kids[j], idx, entries[j].node, own', inos') {
      RepFrame(img, img', per, table, table', kids[j], idx, entries[j].node, own, inos, own', inos');
    }
  }

  /** Directory `idx`, begun in state `d0`, has entries `slots` and complete subtrees `kids`; the inodes `busy` belong
      to a subtree still to come. */
  ghost predicate InDir(d0: Disk, d: Disk, per: nat, idx: nat, slots: seq<Dirent>, own: set<nat>, ptrs: seq<nat>,
                        entries: seq<Entry>, kids: seq<Placed>, busy: set<nat>) {
    && DirAt(d, per, idx, slots, own, ptrs) && own <= d.used - d0.used && Kept(d0, d, idx) && idx in d0.iused
    && Kids(d.img, per, d.table, idx, entries, kids, d.used - d0.used - own, d.iused - d0.iused - busy)
  }

  lemma AfterReserve(d0: Disk, d: Disk, d1: Disk, per: nat, idx: nat, slots: seq<Dirent>, own: set<nat>, ptrs: seq<nat>,
                     entries: seq<Entry>, kids: seq<Placed>, own1: set<nat>, ptrs1: seq<nat>, b: nat, off: nat)
    requires InDir(d0, d, per, idx, slots, own, ptrs, entries, kids, {})
    requires Reserved(d, d1, per, idx, slots, own, ptrs, own1, ptrs1, b, off)
    ensures InDir(d0, d1, per, idx, slots + [PENDING], own1, ptrs1, entries, kids, {})
  {
    hide DirBlocks, Cap, Kids;
    KidsFrame(d.img, d1.img, per, d.table, d1.table, idx, entries, kids, d.used - d0.used - own,
        d.iused - d0.iused - {},
              d1.used - d0.used - own1, d1.iused - d0.iused - {});
  }

  lemma AfterInode(d0: Disk, d: Disk, d1: Disk, per: nat, idx: nat, slots: seq<Dirent>, own: set<nat>, ptrs: seq<nat>,
                   entries: seq<Entry>, kids: seq<Placed>, c: nat)
    requires InDir(d0, d, per, idx, slots, own, ptrs, entries, kids, {}) && TookInode(d, d1, c)
    ensures InDir(d0, d1, per, idx, slots, own, ptrs, entries, kids, {c}) && c != idx && c !in d0.iused
  {
    hide DirBlocks, Cap, Kids;
    KidsFrame(d.img, d1.img, per, d.table, d1.table, idx, entries, kids, d.used - d0.used - own,
        d.iused - d0.iused - {},
              d1.used - d0.used - own, d1.iused - d0.iused - {c});
  }

  lemma AfterWrite(d0: Disk, d: Disk, img: Image, per: nat, idx: nat, slots: seq<Dirent>, slots1: seq<Dirent>,
                   own: set<nat>, ptrs: seq<nat>,
                   entries: seq<Entry>, kids: seq<Placed>, busy: set<nat>, b: nat)
    requires InDir(d0, d, per, idx, slots, own, ptrs, entries, kids, busy) && b in own && |img| == |d.img|
    requires (forall x :: 0 <= x < |img| && x != b ==> img[x] == d.img[x])
    requires DirAt(d.(img := img), per, idx, slots1, own, ptrs)
    ensures InDir(d0, d.(img := img), per, idx, slots1, own, ptrs, entries, kids, busy)
  {
    hide DirBlocks, Cap, Kids;
    var inos, rest := d.iused - d0.iused - busy, d.used - d0.used - own;
    KidsFrame(d.img, img, per, d.table, d.table, idx, entries, kids, rest, inos, rest, inos);
  }

  /** The subtree at `c` is written by a step that keeps everything else. */
  lemma AfterChild(d0: Disk, d: Disk, d1: Disk, per: nat, idx: nat, slots: seq<Dirent>, own: set<nat>, ptrs: seq<nat>,
                   entries: seq<Entry>, kids: seq<Placed>, c: nat)
    requires InDir(d0, d, per, idx, slots, own, ptrs, entries, kids, {c}) && Kept(d, d1, c) && c != idx
    requires c !in d0.iused
    ensures InDir(d0, d1, per, idx, slots, own, ptrs, entries, kids, {c})
  {
    DirBlocksFrame(d.img, d1.img, per, d.table[idx], slots, own, ptrs);
    hide DirBlocks, Cap, Kids;
    var inos, rest := d.iused - d0.iused - {c}, d.used - d0.used - own;
    KidsFrame(d.img, d1.img, per, d.table, d1.table, idx, entries, kids, rest, inos, d1.used - d0.used - own,
        d1.iused - d0.iused - {c});
    KeptOnce(d0, d, d1, idx, c);
  }

  lemma KeptOnce(d0: Disk, d: Disk, d1: Disk, idx: nat, c: nat)
    requires Kept(d0, d, idx) && Kept(d, d1, c) && c !in d0.iused
    ensures Kept(d0, d1, idx)
  {
  }

  lemma DirBlocksFrame(img: Image, img': Image, per: nat, ino: Inode, slots: seq<Dirent>, own: set<nat>, ptrs: seq<nat>)
    requires DirBlocks(img, per, ino, slots, own, ptrs) && SameBlocks(img, img', own)
    ensures DirBlocks(img', per, ino, slots, own, ptrs)
  {
    ReadDirFrame(img, img', per, ptrs, own);
  }

  /** The subtree just written joins the others. */
  lemma Join(d0: Disk, d: Disk, per: nat, idx: nat, slots: seq<Dirent>, own: set<nat>, ptrs: seq<nat>,
             entries: seq<Entry>, kids: seq<Placed>, kid: Placed, c: nat, mine: set<nat>, inos: set<nat>)
    requires InDir(d0, d, per, idx, slots, own, ptrs, entries, kids, {c}) && |kids| < |entries|
    requires Rep(d.img, per, d.table, kid, idx, entries[|kids|].node, mine, inos) && mine <= d.used - d0.used - own
    requires inos <= d.iused - d0.iused
    ensures InDir(d0, d, per, idx, slots, own, ptrs, entries, kids + [kid], {})
  {
    hide DirBlocks, Cap, Rep, Kids;
    var all, rest := d.iused - d0.iused - {}, d.used - d0.used - own;
    KidsFrame(d.img, d.img, per, d.table, d.table, idx, entries, kids, rest, d.iused - d0.iused - {c}, rest, all);
    RepFrame(d.img, d.img, per, d.table, d.table, kid, idx, entries[|kids|].node, mine, inos, rest, all);
    KidsSnoc(d.img, per, d.table, idx, entries, kids, kid, rest, all);
  }

  lemma KidsSnoc(img: Image, per: nat, table: seq<Inode>, idx: nat, entries: seq<Entry>, kids: seq<Placed>,
                 kid: Placed, own: set<nat>, inos: set<nat>)
    requires Kids(img, per, table, idx, entries, kids, own, inos) && |kids| < |entries|
    requires Rep(img, per, table, kid, idx, entries[|kids|].node, own, inos)
    ensures Kids(img, per, table, idx, entries, kids + [kid], own, inos)
  {
    hide Rep;
  }

  // ---- what a tree needs --------------------------------------------------------------------------------------

  /** The blocks a tree takes. */
  function BlocksOf(node: Node, per: nat): nat
    requires per > 0
    decreases node
  {
    match node
    case Leaf(data) => FileCost(|data|, DIRENT_SIZE * per)
    case Branch(entries) => DivCeil(|entries| + 2, per) + SumBlocks(entries, per)
  }

  function SumBlocks(entries: seq<Entry>, per: nat): nat
    requires per > 0
    decreases entries
  {
    if entries == [] then 0 else SumBlocks(entries[..|entries| - 1], per) + BlocksOf(entries[|entries| - 1].node, per)
  }

  /** The inodes a tree takes. */
  function InodesOf(node: Node): nat
    decreases node
  {
    match node
    case Leaf(_) => 1
    case Branch(entries) => 1 + SumInodes(entries)
  }

  function SumInodes(entries: seq<Entry>): nat
    decreases entries
  {
    if entries == [] then 0 else SumInodes(entries[..|entries| - 1]) + InodesOf(entries[|entries| - 1].node)
  }

  /** Within the limits of the format: names of at most 123 characters, ten blocks of entries, files of at most ten
      direct and one table of indirect blocks. */
  predicate Fits(node: Node, per: nat)
    decreases node
  {
    match node
    case Leaf(data) => FileFits(|data|, DIRENT_SIZE * per)
    case Branch(entries) =>
      && |entries| + 2 <= DIRECT * per
      && forall i ::
           0 <= i < |entries| ==>
           Storable(entries[i].name) && entries[i].name != DOT && entries[i].name != DOTDOT &&
           Fits(entries[i].node, per)
  }

  lemma SumStep(entries: seq<Entry>, k: nat, per: nat)
    requires k < |entries| && per > 0
    ensures SumBlocks(entries[..k + 1], per) == SumBlocks(entries[..k], per) + BlocksOf(entries[k].node, per)
    ensures SumInodes(entries[..k + 1]) == SumInodes(entries[..k]) + InodesOf(entries[k].node)
  {
    assert entries[..k + 1][..k] == entries[..k];
  }

  lemma {:induction false} SumLess(entries: seq<Entry>, k: nat, per: nat)
    requires k <= |entries| && per > 0
    ensures SumBlocks(entries[..k], per) <= SumBlocks(entries, per) && SumInodes(entries[..k]) <= SumInodes(entries)
    decreases |entries| - k
  {
    if k == |entries| {
      assert entries[..k] == entries;
    } else {
      SumStep(entries, k, per);
      SumLess(entries, k + 1, per);
    }
  }

  /** What is left is enough for the entries from `k` on. */
  ghost predicate Room(d0: Disk, d: Disk, per: nat, entries: seq<Entry>, k: nat, ptrs: nat) {
    && per > 0 && k <= |entries| && d0.free >= BlocksOf(Branch(entries), per) && d0.ifree >= SumInodes(entries)
    && d.free + ptrs + SumBlocks(entries[..k], per) == d0.free && d.ifree + SumInodes(entries[..k]) == d0.ifree
  }

  lemma RoomForSlot(d0: Disk, d: Disk, per: nat, entries: seq<Entry>, k: nat, slots: nat, ptrs: nat)
    requires Room(d0, d, per, entries, k, ptrs) && Enough(slots, per, ptrs) && slots < |entries| + 2
    ensures slots == Cap(per, ptrs) ==> ptrs < DivCeil(|entries| + 2, per) && d.free > 0
  {
    SumLess(entries, k, per);
    if slots == Cap(per, ptrs) { MoreBlocks(|entries| + 2, per, ptrs); }
  }

  lemma RoomForChild(d0: Disk, d: Disk, per: nat, entries: seq<Entry>, k: nat, slots: nat, ptrs: nat)
    requires Room(d0, d, per, entries, k, ptrs) && Enough(slots, per, ptrs) && slots <= |entries| + 2 && k < |entries|
    ensures d.free >= BlocksOf(entries[k].node, per) && d.ifree >= InodesOf(entries[k].node)
  {
    SumStep(entries, k, per);
    SumLess(entries, k + 1, per);
    EnoughLe(slots, |entries| + 2, per, ptrs);
  }

  lemma EnoughLe(a: nat, b: nat, per: nat, ptrs: nat)
    requires per > 0 && Enough(a, per, ptrs) && a <= b
    ensures ptrs <= DivCeil(b, per)
  {
    if ptrs > 0 { MoreBlocks(b, per, ptrs - 1); }
  }

  // ---- the recursion --------------------------------------------------------------------------------------------

  /** What a directory being filled consists of. */
  datatype Filling = Filling(slots: seq<Dirent>, own: set<nat>, ptrs: seq<nat>, kids: seq<Placed>)

  ghost predicate Underway(d0: Disk, d: Disk, per: nat, idx: nat, entries: seq<Entry>, f: Filling, busy: set<nat>) {
    && InDir(d0, d, per, idx, f.slots, f.own, f.ptrs, entries, f.kids, busy)
    && Room(d0, d.(ifree := d.ifree + |busy|), per, entries, |f.kids|, |f.ptrs|)
    && |f.slots| <= |entries| + 2 <= DIRECT * per
  }

  /** The last entry of the directory lies at offset `off` of block `b`. */
  ghost predicate LastSlot(per: nat, f: Filling, b: nat, off: nat) {
    && f.slots != [] && f.ptrs != [] && b == f.ptrs[|f.ptrs| - 1] && Cap(per, |f.ptrs| - 1) < |f.slots|
    && off == DIRENT_SIZE * (|f.slots| - 1 - Cap(per, |f.ptrs| - 1))
  }

  lemma AtReserve(d0: Disk, d: Disk, per: nat, idx: nat, entries: seq<Entry>, f: Filling)
    requires Underway(d0, d, per, idx, entries, f, {}) && |f.slots| < |entries| + 2
    ensures DirAt(d, per, idx, f.slots, f.own, f.ptrs) && |f.slots| < DIRECT * per
    ensures (|f.slots| == Cap(per, |f.ptrs|) ==> d.free > 0)
  {
    hide Cap, Kids, ReadDir, Kept, SumBlocks, SumInodes;
    assert Enough(|f.slots|, per, |f.ptrs|) && d.(ifree := d.ifree + 0) == d;
    RoomForSlot(d0, d, per, entries, |f.kids|, |f.slots|, |f.ptrs|);
  }

  lemma AtReserved(d0: Disk, d: Disk, d1: Disk, per: nat, idx: nat, entries: seq<Entry>, f: Filling, own: set<nat>,
                   ptrs: seq<nat>, b: nat, off: nat)
    requires Underway(d0, d, per, idx, entries, f, {}) && |f.slots| < |entries| + 2
    requires Reserved(d, d1, per, idx, f.slots, f.own, f.ptrs, own, ptrs, b, off)
    ensures var f' := f.(slots := f.slots + [PENDING], own := own, ptrs := ptrs);
      Underway(d0, d1, per, idx, entries, f', {}) && LastSlot(per, f', b, off)
  {
    hide Cap, Kids, DirBlocks, Kept, BlocksOf, SumBlocks, SumInodes;
    AfterReserve(d0, d, d1, per, idx, f.slots, f.own, f.ptrs, entries, f.kids, own, ptrs, b, off);
    hide InDir;
  }

  /** A slot for the next entry. */
  method Reserve(v: Volume, idx: nat, ghost d0: Disk, ghost entries: seq<Entry>, ghost f: Filling)
    returns (b: nat, off: nat, ghost f': Filling)
    requires v.Valid() && Underway(d0, v.State(), v.per, idx, entries, f, {}) && |f.slots| < |entries| + 2
    modifies Repr(v)
    ensures v.Valid() && Underway(d0, v.State(), v.per, idx, entries, f', {}) && LastSlot(v.per, f', b, off)
    ensures f'.slots == f.slots + [PENDING] && f'.kids == f.kids
  {
    hide Volume.Valid, Underway, LastSlot, Reserved, DirAt, Cap, Volume.State;
    ghost var d := v.State();
    AtReserve(d0, d, v.per, idx, entries, f);
    ghost var own, ptrs;
    b, off, own, ptrs := ReserveDirent(v, idx, f.slots, f.own, f.ptrs);
    AtReserved(d0, d, v.State(), v.per, idx, entries, f, own, ptrs, b, off);
    f' := f.(slots := f.slots + [PENDING], own := own, ptrs := ptrs);
  }

  lemma AtEnter(d0: Disk, d: Disk, per: nat, idx: nat, entries: seq<Entry>, f: Filling, busy: set<nat>, b: nat,
                off: nat)
    requires Underway(d0, d, per, idx, entries, f, busy) && LastSlot(per, f, b, off)
    ensures DirAt(d, per, idx, f.slots, f.own, f.ptrs) && f.slots != [] && f.ptrs != [] && b == f.ptrs[|f.ptrs| - 1]
    ensures Cap(per, |f.ptrs| - 1) < |f.slots| && off == DIRENT_SIZE * (|f.slots| - 1 - Cap(per, |f.ptrs| - 1))
  {
  }

  lemma AtEntered(d0: Disk, d: Disk, d1: Disk, per: nat, idx: nat, entries: seq<Entry>, f: Filling, busy: set<nat>,
                  b: nat, e: Dirent)
    requires Underway(d0, d, per, idx, entries, f, busy) && f.slots != [] && b in f.own
    requires d1 == d.(img := d1.img) && |d1.img| == |d.img|
    requires (forall x :: 0 <= x < |d.img| && x != b ==> d1.img[x] == d.img[x])
    requires DirAt(d1, per, idx, f.slots[|f.slots| - 1 := e], f.own, f.ptrs)
    ensures Underway(d0, d1, per, idx, entries, f.(slots := f.slots[|f.slots| - 1 := e]), busy)
  {
    hide Cap, Kids, DirBlocks, Kept, BlocksOf, SumBlocks, SumInodes, DirAt;
    AfterWrite(d0, d, d1.img, per, idx, f.slots, f.slots[|f.slots| - 1 := e], f.own, f.ptrs, entries, f.kids, busy, b);
  }

  /** The entry is written into its slot. */
  method Enter(v: Volume, b: nat, off: nat, e: Dirent, ghost idx: nat, ghost d0: Disk, ghost entries: seq<Entry>,
               ghost f: Filling, ghost busy: set<nat>)
    returns (ghost f': Filling)
    requires v.Valid() && Underway(d0, v.State(), v.per, idx, entries, f, busy) && LastSlot(v.per, f, b, off)
    requires e.inode < U32 && Storable(e.name)
    modifies v`img, v`intended
    ensures v.Valid() && f.slots != [] && Underway(d0, v.State(), v.per, idx, entries, f', busy)
    ensures f' == f.(slots := f.slots[|f.slots| - 1 := e])
    ensures v.State() == old(v.State()).(img := v.State().img)
    ensures SameBlocks(old(v.State()).img, v.State().img, old(v.State()).used - f.own)
  {
    hide Volume.Valid, Underway, LastSlot, DirAt, Cap, BlockMap.Used, InodeMap.Used;
    ghost var d := v.State();
    AtEnter(d0, d, v.per, idx, entries, f, busy, b, off);
    WriteEntry(v, b, off, e, idx, f.slots, f.own, f.ptrs);
    AtEntered(d0, d, v.State(), v.per, idx, entries, f, busy, b, e);
    f' := f.(slots := f.slots[|f.slots| - 1 := e]);
  }

  /** Tree `node` is on disk at inode `idx`, in blocks and inodes taken since state `d0`. */
  ghost predicate Planted(d0: Disk, d: Disk, per: nat, idx: nat, parent: nat, p: Placed, node: Node) {
    && per > 0 && p.idx == idx
    && Rep(d.img, per, d.table, p, parent, node, d.used - d0.used, d.iused - d0.iused + {idx}) && Kept(d0, d, idx)
    && d.free + BlocksOf(node, per) == d0.free && d.ifree + InodesOf(node) == d0.ifree + 1
  }

  lemma PlantedFile(d0: Disk, d: Disk, per: nat, idx: nat, parent: nat, data: seq<Byte>)
    requires Stored(d0, d, DIRENT_SIZE * per, idx, data) && per > 0 && idx != 0
    ensures Planted(d0, d, per, idx, parent, Placed(idx, []), Leaf(data))
  {
    hide FileRep, Kept, FileCost;
  }

  lemma Begun(d: Disk, per: nat, idx: nat, entries: seq<Entry>)
    requires Sound(d, per) && idx in d.iused && |entries| + 2 <= DIRECT * per
    requires d.free >= BlocksOf(Branch(entries), per) && d.ifree >= SumInodes(entries)
    ensures Underway(d, d.(table := d.table[idx := ZeroInode().(kind := Directory)]), per, idx, entries,
      Filling([], {}, [], []), {})
  {
    hide Clean, Blank, BlocksOf;
    var d1 := d.(table := d.table[idx := ZeroInode().(kind := Directory)]);
    assert DirBlocks(d.img, per, d1.table[idx], [], {}, []);
    assert entries[..0] == [];
    assert Room(d, d1.(ifree := d1.ifree + |(var e: set<nat> := {}; e)|), per, entries, 0, 0);
  }

  /** "." or "..". */
  method AddLink(v: Volume, idx: nat, e: Dirent, ghost d0: Disk, ghost entries: seq<Entry>, ghost f: Filling)
    returns (ghost f': Filling)
    requires v.Valid() && Underway(d0, v.State(), v.per, idx, entries, f, {}) && |f.slots| < |entries| + 2
    requires e.inode < U32 && Storable(e.name)
    modifies Repr(v)
    ensures v.Valid() && Underway(d0, v.State(), v.per, idx, entries, f', {}) && f'.slots == f.slots + [e]
    ensures f'.kids == f.kids
  {
    hide Volume.Valid, Underway, LastSlot, Volume.State;
    var b, off;
    b, off, f' := Reserve(v, idx, d0, entries, f);
    f' := Enter(v, b, off, e, idx, d0, entries, f', {});
  }

  lemma NeedInode(d0: Disk, d: Disk, per: nat, idx: nat, entries: seq<Entry>, f: Filling, busy: set<nat>)
    requires Underway(d0, d, per, idx, entries, f, busy) && |f.kids| < |entries|
    ensures idx in d.iused && d.ifree + |busy| > 0 && d.free >= BlocksOf(entries[|f.kids|].node, per)
    ensures entries[|f.kids|].node.Leaf? ==> d.free >= FileCost(|entries[|f.kids|].node.data|, DIRENT_SIZE * per)
    ensures entries[|f.kids|].node.Branch? ==> d.ifree + |busy| >= 1 + SumInodes(entries[|f.kids|].node.entries)
  {
    hide Cap, Kids, ReadDir, Kept, SumBlocks, SumInodes;
    assert Enough(|f.slots|, per, |f.ptrs|);
    RoomForChild(d0, d.(ifree := d.ifree + |busy|), per, entries, |f.kids|, |f.slots|, |f.ptrs|);
  }

  lemma TookChild(d0: Disk, d: Disk, d1: Disk, per: nat, idx: nat, entries: seq<Entry>, f: Filling, c: nat)
    requires Underway(d0, d, per, idx, entries, f, {}) && TookInode(d, d1, c)
    ensures Underway(d0, d1, per, idx, entries, f, {c}) && c != idx && c !in d0.iused
    ensures c in d1.iused && c != 0
  {
    hide DirBlocks, Cap, Kids, Kept, BlocksOf, SumBlocks, SumInodes;
    AfterInode(d0, d, d1, per, idx, f.slots, f.own, f.ptrs, entries, f.kids, c);
    hide InDir;
    assert d1.(ifree := d1.ifree + |{c}|).ifree == d.(ifree := d.ifree + |(var e: set<nat> := {}; e)|).ifree;
  }

  lemma Attached(d0: Disk, d: Disk, d1: Disk, per: nat, idx: nat, entries: seq<Entry>, f: Filling, c: nat, kid: Placed)
    requires Underway(d0, d, per, idx, entries, f, {c}) && c != idx && c !in d0.iused
    requires c in d.iused && |f.kids| < |entries|
    requires Planted(d, d1, per, c, idx, kid, entries[|f.kids|].node)
    ensures Underway(d0, d1, per, idx, entries, f.(kids := f.kids + [kid]), {}) && kid.idx == c
  {
    hide DirBlocks, Cap, Kids, Rep, BlocksOf, InodesOf, SumBlocks, SumInodes;
    AfterChild(d0, d, d1, per, idx, f.slots, f.own, f.ptrs, entries, f.kids, c);
    Join(d0, d1, per, idx, f.slots, f.own, f.ptrs, entries, f.kids, kid, c, d1.used - d.used, d1.iused - d.iused + {c});
    hide InDir, Kept;
    SumStep(entries, |f.kids|, per);
    assert |{c}| == 1;
    assert Room(d0, d1.(ifree := d1.ifree + |(var e: set<nat> := {}; e)|), per, entries, |f.kids| + 1, |f.ptrs|);
  }

  /** The entries of a directory whose first |kids| children are written. */
  function SlotsSoFar(idx: nat, parent: nat, entries: seq<Entry>, kids: seq<Placed>): (r: seq<Dirent>)
    requires |kids| <= |entries|
    ensures |r| == |kids| + 2
  {
    Slots(Placed(idx, kids), parent, entries[..|kids|])
  }

  lemma SlotsSnoc(idx: nat, parent: nat, entries: seq<Entry>, kids: seq<Placed>, kid: Placed)
    requires |kids| < |entries|
    ensures SlotsSoFar(idx, parent, entries, kids + [kid]) == SlotsSoFar(idx, parent, entries,
      kids) + [Dirent(kid.idx, entries[|kids|].name)]
  {
  }

  lemma Done(d0: Disk, d: Disk, per: nat, idx: nat, parent: nat, entries: seq<Entry>, f: Filling)
    requires Underway(d0, d, per, idx, entries, f, {}) && |f.kids| == |entries| && idx != 0
    requires f.slots == SlotsSoFar(idx, parent, entries, f.kids)
    ensures Planted(d0, d, per, idx, parent, Placed(idx, f.kids), Branch(entries))
  {
    hide InDir, Rep, Slots, Kept, BlocksOf, InodesOf, SumBlocks, SumInodes;
    assert entries[..|entries|] == entries;
    Whole(d0, d, per, idx, parent, entries, f);
    Totals(entries, per);
  }

  lemma Whole(d0: Disk, d: Disk, per: nat, idx: nat, parent: nat, entries: seq<Entry>, f: Filling)
    requires InDir(d0, d, per, idx, f.slots, f.own, f.ptrs, entries, f.kids, {}) && per > 0
    requires |f.kids| == |entries| && idx != 0 && f.slots == Slots(Placed(idx, f.kids), parent, entries)
    ensures Rep(d.img, per, d.table, Placed(idx, f.kids), parent, Branch(entries), d.used - d0.used,
      d.iused - d0.iused + {idx})
    ensures Kept(d0, d, idx) && |f.ptrs| == DivCeil(|entries| + 2, per)
  {
    var own, inos := d.used - d0.used, d.iused - d0.iused + {idx};
    hide ReadDir, Kids, Kept, Slots, Rep, Cap, DivCeil;
    SlotBlocks(d.img, per, d.table[idx], f.slots, f.own, f.ptrs);
    hide DirBlocks, Enough;
    assert DirRep(d.img, per, d.table[idx], f.slots, f.own);
    DirFrame(d.img, d.img, per, d.table[idx], f.slots, f.own, own);
    hide DirRep;
    KidsFrame(d.img, d.img, per, d.table, d.table, idx, entries, f.kids, own - f.own, d.iused - d0.iused - {}, own,
        inos);
    DoneRep(d.img, per, d.table, Placed(idx, f.kids), parent, entries, own, inos);
  }

  lemma SlotBlocks(img: Image, per: nat, ino: Inode, slots: seq<Dirent>, own: set<nat>, ptrs: seq<nat>)
    requires DirBlocks(img, per, ino, slots, own, ptrs) && per > 0
    ensures |ptrs| == DivCeil(|slots|, per)
  {
    CeilUnique(|slots|, per, |ptrs|);
  }

  lemma Totals(entries: seq<Entry>, per: nat)
    requires per > 0
    ensures BlocksOf(Branch(entries), per) == DivCeil(|entries| + 2, per) + SumBlocks(entries, per)
    ensures InodesOf(Branch(entries)) == 1 + SumInodes(entries)
  {
  }

  lemma DoneRep(img: Image, per: nat, table: seq<Inode>, p: Placed, parent: nat, entries: seq<Entry>, own: set<nat>,
                inos: set<nat>)
    requires p.idx < |table| && p.idx in inos && p.idx != 0
    requires |p.kids| == |entries| && DirRep(img, per, table[p.idx], Slots(p, parent, entries), own)
    requires Kids(img, per, table, p.idx, entries, p.kids, own, inos)
    ensures Rep(img, per, table, p, parent, Branch(entries), own, inos)
  {
    hide DirRep;
  }

  /** A file of one block that comes last in its directory is in the last block taken. */
  ghost predicate LastBlock(d: Disk, per: nat, p: Placed, entries: seq<Entry>) {
    |p.kids| == |entries| > 0 && OneBlock(entries[|entries| - 1].node, per) ==>
    var idx := p.kids[|entries| - 1].idx;
    idx < |d.table| && |d.table[idx].direct| == DIRECT && d.table[idx].direct[0] + d.free + 1 == |d.img|
  }

  predicate OneBlock(node: Node, per: nat) {
    node.Leaf? && 0 < |node.data| <= DIRENT_SIZE * per
  }

  lemma FirstPointer(d0: Disk, d: Disk, per: nat, idx: nat, data: seq<Byte>)
    requires Stored(d0, d, DIRENT_SIZE * per, idx, data) && Sound(d0, per) && Sound(d, per)
    requires OneBlock(Leaf(data), per)
    ensures |d.table[idx].direct| == DIRECT && d.table[idx].direct[0] + d.free + 1 == |d.img|
  {
    hide ReadBytes, ReadTable, Clean, Blank;
    var bs, own := DIRENT_SIZE * per, d.used - d0.used;
    var ptrs: seq<nat> :| FileBlocks(d.img, bs, d.table[idx], data, own, ptrs);
    CeilUnique(|data|, bs, 1);
    CeilUnique(|data|, bs, |ptrs|);
    assert ptrs[0] in ptrs;
  }

  lemma FileLast(d0: Disk, d: Disk, per: nat, p: Placed, entries: seq<Entry>, i: nat)
    requires i < |entries| && |p.kids| == i + 1 && entries[i].node.Leaf?
    requires Sound(d0, per) && Sound(d, per)
    requires Stored(d0, d, DIRENT_SIZE * per, p.kids[i].idx, entries[i].node.data)
    ensures LastBlock(d, per, p, entries[..i + 1])
  {
    hide Stored, Sound;
    if OneBlock(entries[i].node, per) { FirstPointer(d0, d, per, p.kids[i].idx, entries[i].node.data); }
    StoredIndex(d0, d, DIRENT_SIZE * per, p.kids[i].idx, entries[i].node.data);
  }

  lemma StoredIndex(d0: Disk, d: Disk, bs: nat, idx: nat, data: seq<Byte>)
    requires Stored(d0, d, bs, idx, data)
    ensures idx < |d.table|
  {
  }

  lemma NoLast(d: Disk, per: nat, p: Placed, entries: seq<Entry>)
    requires entries == [] || entries[|entries| - 1].node.Branch?
    ensures LastBlock(d, per, p, entries)
  {
  }

  lemma SameLast(d: Disk, d': Disk, per: nat, p: Placed, entries: seq<Entry>)
    requires LastBlock(d, per, p, entries) && d' == d.(img := d'.img) && |d'.img| == |d.img|
    ensures LastBlock(d', per, p, entries)
  {
  }

  /** bsfs_populate_dir. */
  method WriteDir(v: Volume, entries: seq<Entry>, idx: nat, parent: nat) returns (ghost p: Placed)
    requires v.Valid() && idx in v.State().iused && idx != 0
    requires parent in v.State().iused && Fits(Branch(entries), v.per)
    requires v.per > 0 && v.State().free >= BlocksOf(Branch(entries), v.per) && v.State().ifree >= SumInodes(entries)
    modifies Repr(v)
    ensures v.Valid() && Planted(old(v.State()), v.State(), v.per, idx, parent, p, Branch(entries))
    ensures LastBlock(v.State(), v.per, p, entries)
    decreases entries
  {
    hide Volume.Valid, Volume.State, Underway, Cap, Planted, Sound, BlocksOf, SumInodes, InodesOf, Stored, FileFits,
         FileCost, Storable, TookInode, LastBlock;
    ghost var d0 := v.State();
    Good(v);
    Begun(d0, v.per, idx, entries);
    SmallIndex(d0, v.per, idx);
    SmallIndex(d0, v.per, parent);
    v.SetInode(idx, ZeroInode().(kind := Directory));
    ghost var f := Filling([], {}, [], []);
    LinkNames();
    f := AddLink(v, idx, Dirent(idx, DOT), d0, entries, f);
    f := AddLink(v, idx, Dirent(parent, DOTDOT), d0, entries, f);
    NoLast(v.State(), v.per, Placed(idx, f.kids), entries[..0]);
    for i := 0 to |entries|
      invariant v.Valid() && Underway(d0, v.State(), v.per, idx, entries, f, {}) && |f.kids| == i
      invariant f.slots == SlotsSoFar(idx, parent, entries, f.kids)
      invariant LastBlock(v.State(), v.per, Placed(idx, f.kids), entries[..i])
    {
      ghost var g;
      var b, off;
      b, off, g := Reserve(v, idx, d0, entries, f);
      ghost var d := v.State();
      NeedInode(d0, d, v.per, idx, entries, g, {});
      var c := v.AllocInode();
      TookChild(d0, d, v.State(), v.per, idx, entries, g, c);
      NeedInode(d0, v.State(), v.per, idx, entries, g, {c});
      Good(v);
      SmallIndex(v.State(), v.per, c);
      ghost var kid;
      match entries[i].node {
        case Branch(sub) =>
          g := Enter(v, b, off, Dirent(c, entries[i].name), idx, d0, entries, g, {c});
          d := v.State();
          kid := WriteDir(v, sub, c, idx);
          Attached(d0, d, v.State(), v.per, idx, entries, g, c, kid);
          g := g.(kids := g.kids + [kid]);
          NoLast(v.State(), v.per, Placed(idx, g.kids), entries[..i + 1]);
        case Leaf(data) =>
          d := v.State();
          WriteFile(v, c, data);
          kid := Placed(c, []);
          PlantedFile(d, v.State(), v.per, c, idx, data);
          Attached(d0, d, v.State(), v.per, idx, entries, g, c, kid);
          Good(v);
          FileLast(d, v.State(), v.per, Placed(idx, g.kids + [kid]), entries, i);
          d := v.State();
          g := Enter(v, b, off, Dirent(c, entries[i].name), idx, d0, entries, g.(kids := g.kids + [kid]), {});
          SameLast(d, v.State(), v.per, Placed(idx, g.kids), entries[..i + 1]);
      }
      assert g.slots == f.slots + [Dirent(kid.idx, entries[i].name)];
      SlotsSnoc(idx, parent, entries, f.kids, kid);
      f := g;
    }
    Done(d0, v.State(), v.per, idx, parent, entries, f);
    p := Placed(idx, f.kids);
    assert entries[..|entries|] == entries;
  }

  lemma SmallIndex(d: Disk, per: nat, i: nat)
    requires Sound(d, per) && i in d.iused
    ensures i < U32
  {
  }

  lemma LinkNames()
    ensures Storable(DOT) && Storable(DOTDOT)
  {
  }

  ghost predicate Between(own: set<nat>, lo: nat, hi: nat) {
    forall b :: b in own ==> lo <= b < hi
  }

  /** The image holds `entries` as its root directory, in blocks above the metadata and below `top`. */
  ghost predicate Holds(h: Header, img: Image, table: seq<Inode>, root: nat, p: Placed, entries: seq<Entry>, top: nat) {
    && h.blockSize % DIRENT_SIZE == 0 && p.idx == root && h.dataStart <= top <= |img|
    && exists own: set<nat>, inos: set<nat> ::
         Rep(img, h.blockSize / DIRENT_SIZE, table, p, root, Branch(entries), own, inos) &&
         Between(own, h.dataStart, top)
  }

  /** A tree that goes on the volume: within the limits, and not too big. */
  predicate FitsOn(h: Header, entries: seq<Entry>) {
    && h.blockSize >= DIRENT_SIZE && h.dataStart <= h.totalBlocks && Fits(Branch(entries), h.blockSize / DIRENT_SIZE)
    && BlocksOf(Branch(entries), h.blockSize / DIRENT_SIZE) <= h.totalBlocks - h.dataStart
    && InodesOf(Branch(entries)) < h.inodeCount
  }

  /** Where the blocks of the tree end. */
  function TopOf(h: Header, entries: seq<Entry>): nat
    requires h.blockSize >= DIRENT_SIZE
  {
    h.dataStart + BlocksOf(Branch(entries), h.blockSize / DIRENT_SIZE)
  }

  lemma Populated(h: Header, d0: Disk, d: Disk, root: nat, p: Placed, entries: seq<Entry>)
    requires h.blockSize >= DIRENT_SIZE && h.blockSize % DIRENT_SIZE == 0
    requires forall i: nat :: i in d0.used <==> i < h.dataStart
    requires Planted(d0, d, h.blockSize / DIRENT_SIZE, root, root, p, Branch(entries))
    requires Sound(d, h.blockSize / DIRENT_SIZE) && Sound(d0, h.blockSize / DIRENT_SIZE) && h.dataStart <= |d0.img|
    ensures |d.img| == |d0.img| && TopOf(h, entries) + d.free == |d.img|
    ensures Holds(h, d.img, d.table, root, p, entries, TopOf(h, entries))
    ensures |d.table| == |d0.table| && (0 in d0.iused && 0 < |d.table| && root != 0 ==> d.table[0] == d0.table[0])
  {
    hide Rep, BlocksOf, InodesOf;
    var own, inos := d.used - d0.used, d.iused - d0.iused + {root};
    assert Rep(d.img, h.blockSize / DIRENT_SIZE, d.table, p, root, Branch(entries), own, inos);
    NextFree(d0, h.dataStart);
    assert Between(own, h.dataStart, TopOf(h, entries));
  }

  /** The blocks in use are the first ones. */
  lemma NextFree(d: Disk, n: nat)
    requires (forall i: nat :: i in d.used <==> i < n) && (forall i: nat :: i in d.used <==> i + d.free < |d.img|)
    requires n <= |d.img|
    ensures d.free <= |d.img| ==> n + d.free == |d.img|
  {
    if d.free <= |d.img| {
      var m: nat := |d.img| - d.free;
      assert m !in d.used && n !in d.used;
    }
  }

  /** The inode table the header points to lies before the data, and with it the image holds `entries` at the header's
      root. */
  ghost predicate Rooted(img: Image, s: Super, p: Placed, entries: seq<Entry>, top: nat) {
    && s.header.blockSize > 0 && s.root == p.idx && TableFits(s.header, |img|)
    && var t := TableAt(img, s.header.blockSize, s.header.inodeTableStart, s.header.inodeCount);
       Holds(s.header, img, t, p.idx, p, entries, top) && |t| > 0 && t[0] == ZeroInode()
  }

  /** From the image alone, given the block size and the block of the header. */
  ghost predicate Carries(img: Image, bs: nat, offset: nat, p: Placed, entries: seq<Entry>, top: nat) {
    && bs > 0 && bs % DIRENT_SIZE == 0
    && var s := SuperAt(img, bs, offset);
       s.magic == MAGIC && s.version == VERSION && s.header.blockSize == bs && Rooted(img, s, p, entries, top)
  }

  predicate TableFits(h: Header, total: nat) {
    && INODE_SIZE * h.inodeCount <= Cap(h.blockSize, h.inodeTableBlocks)
    && h.inodeTableStart + h.inodeTableBlocks <= h.dataStart <= total
  }

  /** The bitmaps on the image are those in memory. */
  ghost predicate MapsStored(img: Image, h: Header, blocks: seq<bv8>, megas: seq<bv8>, inodes: seq<bv8>) {
    && h.blockSize > 0 && BitmapAt(img, h.blockSize, h.blockBitmapStart, |blocks|) == blocks
    && BitmapAt(img, h.blockSize, h.megablockBitmapStart, |megas|) == megas
    && BitmapAt(img, h.blockSize, h.inodeBitmapStart, |inodes|) == inodes
  }

  /** A header as mkfs.bsfs makes it, with fields that keep to their width and an inode table that has room. */
  ghost predicate Formatted(h: Header, offset: nat) {
    && HEADER_SIZE <= h.blockSize < U32 && h == Format(h.totalBlocks, h.blockSize, offset)
    && h.blockSize % DIRENT_SIZE == 0 && h.totalBlocks < MOST_BLOCKS
    && 8 * (h.blockBitmapBlocks * h.blockSize) < U32 && 8 * h.megablockBitmapSize < U32
  }

  /** The fields of the header have their width. */
  lemma SmallHeader(h: Header, offset: nat, free: nat, ifree: nat, root: nat)
    requires Formatted(h, offset) && h.dataStart <= h.totalBlocks && free <= h.totalBlocks
    requires ifree <= h.inodeCount && root < h.inodeCount
    ensures Storable32(Super(MAGIC, VERSION, h.(freeBlocks := free), ifree, root))
  {
    HeaderFits(h, offset);
    RegionsFit(h.totalBlocks, h.blockSize, offset);
    hide Format;
  }

  /** Writing the metadata disturbs no tree above it. */
  lemma Undisturbed(h: Header, img: Image, img': Image, table: seq<Inode>, p: Placed, entries: seq<Entry>, top: nat)
    requires Holds(h, img, table, p.idx, p, entries, top) && |img'| == |img| <= U32
    requires forall b :: h.dataStart <= b < |img| ==> img'[b] == img[b]
    requires h.blockSize < U32
    ensures Holds(h, img', CutAll(table), p.idx, p, entries, top)
  {
    hide Rep;
    var per := h.blockSize / DIRENT_SIZE;
    var own: set<nat>, inos: set<nat> :| Rep(img, per, table, p, p.idx, Branch(entries), own, inos) &&
        Between(own, h.dataStart, top);
    RepFrame(img, img', per, table, table, p, p.idx, Branch(entries), own, inos, own, inos);
    RepCut(img', per, table, p, p.idx, Branch(entries), own, inos);
    assert Rep(img', per, CutAll(table), p, p.idx, Branch(entries), own, inos);
  }

  lemma HeldBy(h: Header, h': Header, img: Image, table: seq<Inode>, p: Placed, entries: seq<Entry>, top: nat)
    requires Holds(h, img, table, p.idx, p, entries, top) && h'.blockSize == h.blockSize && h'.dataStart == h.dataStart
    ensures Holds(h', img, table, p.idx, p, entries, top)
  {
    hide Rep;
  }

  /** A volume made for `h`. */
  ghost predicate Shaped(v: Volume, h: Header) {
    && v.blocks.total == h.totalBlocks && v.inodes.count == h.inodeCount > 0
    && v.blocks.blocks.Length == Cap(h.blockSize, h.blockBitmapBlocks)
    && h.megablockBitmapSize <= v.blocks.megas.Length && v.inodes.bitmap.Length == Cap(h.blockSize, h.inodeBitmapBlocks)
    && h.blockSize == DIRENT_SIZE * v.per
  }

  lemma ShapedNew(v: Volume, h: Header)
    requires v.blocks.total == h.totalBlocks && v.inodes.count == h.inodeCount > 0
    requires v.blocks.blocks.Length == First(h.blockBitmapBlocks, h.blockSize)
    requires h.megablockBitmapSize <= v.blocks.megas.Length && h.blockSize == DIRENT_SIZE * v.per
    requires v.inodes.bitmap.Length == WholeWords(First(h.inodeBitmapBlocks, h.blockSize))
    ensures Shaped(v, h)
  {
    Commuted(h.blockBitmapBlocks, h.blockSize);
    Commuted(h.inodeBitmapBlocks, h.blockSize);
    WordsOfBlocks(h.inodeBitmapBlocks, v.per);
    hide Cap;
  }

  lemma WordsOfBlocks(n: nat, per: nat)
    ensures WholeWords(n * (DIRENT_SIZE * per)) == n * (DIRENT_SIZE * per)
  {
    var k := n * (16 * per);
    assert n * (DIRENT_SIZE * per) == 8 * k;
  }

  lemma Sizes(v: Volume, h: Header)
    requires v.Valid() && Shaped(v, h)
    ensures |v.img| == |v.intended| == h.totalBlocks && |v.table| == h.inodeCount && v.blocks.free <= h.totalBlocks
    ensures v.inodes.free <= h.inodeCount && v.State().free == v.blocks.free
    ensures v.State().img == v.intended && v.State().table == v.table && h.blockSize == DIRENT_SIZE * v.per
    ensures Even(v.intended, h.blockSize) && |v.img| <= U32 && Even(v.img, h.blockSize)
    ensures Cap(h.blockSize, h.totalBlocks - v.blocks.free) <= U32 ==> v.img == v.intended
  {
  }

  /** What a reader finds after the last writes. */
  lemma Finishes(img: Image, h: Header, offset: nat, blocks: seq<bv8>, megas: seq<bv8>, inodes: seq<bv8>,
                 table: seq<Inode>, s: Super, rest: Rest,
                 p: Placed, entries: seq<Entry>, top: nat)
    requires Formatted(h, offset) && h.dataStart <= h.totalBlocks == |img| <= U32 && Suits(h, rest)
    requires |table| == h.inodeCount > 0
    requires s.magic == MAGIC && s.version == VERSION && s.header == h.(freeBlocks := s.header.freeBlocks)
    requires s.root == p.idx && Storable32(s)
    requires |blocks| == Cap(h.blockSize, h.blockBitmapBlocks) && |megas| == h.megablockBitmapSize
    requires |inodes| == Cap(h.blockSize, h.inodeBitmapBlocks)
    requires (forall b :: 0 <= b < |img| ==> |img[b]| == h.blockSize) && Holds(h, img, table, p.idx, p, entries, top)
    requires table[0] == ZeroInode()
    ensures var r := RegionsOf(h, blocks, megas, inodes, table, s, rest);
      && Fill(h, offset, r, |img|) && Even(Finished(img, h, offset, r), h.blockSize)
      && Carries(Finished(img, h, offset, r), h.blockSize, offset, p, entries, top)
      && MapsStored(Finished(img, h, offset, r), h, blocks, megas, inodes)
      && TableAt(Finished(img, h, offset, r), h.blockSize, h.inodeTableStart, h.inodeCount) == CutAll(table)
      && SuperAt(Finished(img, h, offset, r), h.blockSize, offset) == s
  {
    hide Format, Holds, Finished, Cap, RegionsOf, Suits, Storable32, SuperAt, TableAt, BitmapAt;
    Consecutively(h, offset);
    var r := RegionsOf(h, blocks, megas, inodes, table, s, rest);
    ReadsBack(img, h, offset, blocks, megas, inodes, table, s, rest);
    var img' := Finished(img, h, offset, r);
    FinishedRead(img, h, offset, r);
    Undisturbed(h, img, img', table, p, entries, top);
    HeldBy(h, s.header, img', CutAll(table), p, entries, top);
    CutZero();
  }

  lemma Consecutively(h: Header, offset: nat)
    requires Formatted(h, offset)
    ensures Consecutive(h, offset) && INODE_SIZE * h.inodeCount <= Cap(h.blockSize, h.inodeTableBlocks)
  {
    hide Format, Cap;
    RegionsFit(h.totalBlocks, h.blockSize, offset);
    Commuted(h.inodeTableBlocks, h.blockSize);
  }

  lemma Commuted(n: nat, bs: nat)
    ensures Cap(bs, n) == n * bs
  {
  }

  /** The header written last, as the image has it at byte `at`. */
  ghost predicate Signed(img: Image, bs: nat, at: nat) {
    bs > 0 && Region(img, bs, at, HEADER_SIZE)[3..7] == PutU32(MAGIC)
  }

  lemma Signature(img: Image, h: Header, offset: nat, r: Regions, s: Super, rest: Rest)
    requires Even(img, h.blockSize) && h.blockSize > 0 && s.magic == MAGIC && Storable32(s)
    requires |rest.jump| == 3 && |rest.boot| == HEADER_SIZE - 3 - 4 * WORDS
    requires r.header == PutHeader(s, rest.jump, rest.boot) && offset < |img| && HEADER_SIZE <= h.blockSize
    ensures Signed(Stamped(img, h, offset, r), h.blockSize, Seek(h.blockSize, offset, 0))
  {
    hide Stamped, Region;
    StampedHeader(img, h, offset, r);
    assert PutHeader(s, rest.jump, rest.boot)[3..7] == PutTable(Fields(s))[..4] == PutU32(MAGIC);
  }

  /** The writes at the end of bsfs-populate: the bitmaps, the inode table, the header. */
  method WriteMetadata(v: Volume, h: Header, offset: nat, root: nat, rest: Rest, ghost p: Placed,
                       ghost entries: seq<Entry>, ghost top: nat)
    requires v.Valid() && Shaped(v, h) && Formatted(h, offset)
    requires h.dataStart <= h.totalBlocks && Suits(h, rest) && root == p.idx < h.inodeCount
    requires Holds(h, v.State().img, v.State().table, root, p, entries, top) && 0 < |v.State().table|
    requires v.State().table[0] == ZeroInode()
    requires h.dataStart + v.State().free <= |v.State().img|
    modifies v`img, v`intended
    ensures v.Valid() && v.State() == old(v.State()).(img := v.State().img)
    ensures Carries(v.State().img, h.blockSize, offset, p, entries, top)
    ensures MapsStored(v.State().img, h, v.blocks.blocks[..], v.blocks.megas[..h.megablockBitmapSize],
      v.inodes.bitmap[..])
    ensures Signed(v.img, h.blockSize, Seek(h.blockSize, offset, 0))
    ensures TableAt(v.State().img, h.blockSize, h.inodeTableStart, h.inodeCount) == CutAll(v.State().table)
    ensures h.blockSize > 0
    ensures var s := Super(MAGIC, VERSION, h.(freeBlocks := v.blocks.free), v.inodes.free, root);
      && SuperAt(v.State().img, h.blockSize, offset) == s
      && SuperFrom(v.img, h.blockSize, Seek(h.blockSize, offset, 0)) == s
    ensures Cap(h.blockSize, h.dataStart) <= U32 ==>
      TableAt(v.img, h.blockSize, h.inodeTableStart, h.inodeCount) == CutAll(v.State().table)
  {
    hide *;
    Sizes(v, h);
    ShapeFacts(v, h);
    SmallHeader(h, offset, v.blocks.free, v.inodes.free, root);
    var s := Super(MAGIC, VERSION, h.(freeBlocks := v.blocks.free), v.inodes.free, root);
    var blocks, megas, inodes := v.blocks.blocks[..], v.blocks.megas[..h.megablockBitmapSize], v.inodes.bitmap[..];
    Finishes(v.intended, h, offset, blocks, megas, inodes, v.table, s, rest, p, entries, top);
    var r := RegionsOf(h, blocks, megas, inodes, v.table, s, rest);
    ghost var intended' := Finished(v.intended, h, offset, r);
    UnusedAbove(v, h, intended');
    Stamps(v.img, h, offset, blocks, megas, inodes, v.table, s, rest);
    if Cap(h.blockSize, h.totalBlocks - v.blocks.free) <= U32 {
      CapMore(h.blockSize, h.dataStart, h.totalBlocks - v.blocks.free);
      StampedInPlace(v.img, h, offset, r);
    }
    v.Overwrite(Stamped(v.img, h, offset, r), intended');
  }

  /** What the image itself has after the last writes, wherever its blocks went. */
  lemma Stamps(img: Image, h: Header, offset: nat, blocks: seq<bv8>, megas: seq<bv8>, inodes: seq<bv8>,
               table: seq<Inode>, s: Super, rest: Rest)
    requires Formatted(h, offset) && h.dataStart <= h.totalBlocks == |img| && Suits(h, rest)
    requires |table| == h.inodeCount && s.magic == MAGIC && Storable32(s)
    requires |blocks| == Cap(h.blockSize, h.blockBitmapBlocks) && |megas| == h.megablockBitmapSize
    requires |inodes| == Cap(h.blockSize, h.inodeBitmapBlocks) && Even(img, h.blockSize)
    ensures var r := RegionsOf(h, blocks, megas, inodes, table, s, rest);
      && h.blockSize > 0 && Signed(Stamped(img, h, offset, r), h.blockSize, Seek(h.blockSize, offset, 0))
      && SuperFrom(Stamped(img, h, offset, r), h.blockSize, Seek(h.blockSize, offset, 0)) == s
      && (Cap(h.blockSize, h.dataStart) <= U32 ==>
           TableAt(Stamped(img, h, offset, r), h.blockSize, h.inodeTableStart, h.inodeCount) == CutAll(table))
  {
    hide Format, Finished, Stamped, Cap, Storable32, SuperAt, TableAt, BitmapAt, Signed, TableBytes, BitmapBytes,
         PutHeader, GetHeader, Region;
    Consecutively(h, offset);
    var r := RegionsOf(h, blocks, megas, inodes, table, s, rest);
    StampedHeader(img, h, offset, r);
    HeaderRoundTrip(s, rest.jump, rest.boot);
    Signature(img, h, offset, r, s, rest);
    if Cap(h.blockSize, h.dataStart) <= U32 {
      StampedInPlace(img, h, offset, r);
      ReadsBack(img, h, offset, blocks, megas, inodes, table, s, rest);
    }
  }

  lemma ShapeFacts(v: Volume, h: Header)
    requires Shaped(v, h)
    ensures v.inodes.count == h.inodeCount > 0 && v.blocks.blocks.Length == Cap(h.blockSize, h.blockBitmapBlocks)
    ensures h.megablockBitmapSize <= v.blocks.megas.Length
    ensures v.inodes.bitmap.Length == Cap(h.blockSize, h.inodeBitmapBlocks)
    ensures h.blockSize == DIRENT_SIZE * v.per
  {
  }

  lemma UnusedAbove(v: Volume, h: Header, img': Image)
    requires v.Valid() && h.dataStart + v.State().free <= |v.State().img| == |img'|
    requires forall b :: h.dataStart <= b < |v.State().img| ==> img'[b] == v.State().img[b]
    ensures forall b :: 0 <= b < |img'| && b !in v.State().used ==> img'[b] == v.State().img[b]
  {
  }

  /** Populating a fresh image. When the tree ends below 4 GiB, the image holds it. */
  method PopulateImage(h: Header, entries: seq<Entry>, offset: nat, rest: Rest) returns (v: Volume, ghost p: Placed)
    requires Formatted(h, offset) && FitsOn(h, entries) && Suits(h, rest)
    ensures fresh(v) && v.Valid() && Shaped(v, h) && v.blocks.free == h.totalBlocks - TopOf(h, entries)
    ensures Carries(v.State().img, h.blockSize, offset, p, entries, TopOf(h, entries))
    ensures MapsStored(v.State().img, h, v.blocks.blocks[..], v.blocks.megas[..h.megablockBitmapSize],
      v.inodes.bitmap[..])
    ensures Cap(h.blockSize, TopOf(h, entries)) <= U32 ==> v.img == v.State().img
    ensures Signed(v.img, h.blockSize, Seek(h.blockSize, offset, 0))
    ensures TableAt(v.State().img, h.blockSize, h.inodeTableStart, h.inodeCount) == CutAll(v.State().table)
    ensures h.blockSize > 0 && v.inodes.free == h.inodeCount - 1 - InodesOf(Branch(entries))
    ensures var s := Super(MAGIC, VERSION, h.(freeBlocks := v.blocks.free), v.inodes.free, p.idx);
      && SuperAt(v.State().img, h.blockSize, offset) == s
      && SuperFrom(v.img, h.blockSize, Seek(h.blockSize, offset, 0)) == s
    ensures Cap(h.blockSize, h.dataStart) <= U32 ==>
      TableAt(v.img, h.blockSize, h.inodeTableStart, h.inodeCount) == CutAll(v.State().table)
    ensures LastBlock(v.State(), h.blockSize / DIRENT_SIZE, p, entries)
  {
    hide Format, Volume.Valid, Volume.State, BlocksOf, Fits, Holds, Suits, Carries, MapsStored, Signed, TableAt,
         CutAll, LastBlock, TopOf, SuperAt, SuperFrom, Seek, InodesOf;
    var root;
    v, root, p := FillImage(h, entries, offset);
    hide Shaped;
    ghost var d := v.State();
    WriteMetadata(v, h, offset, root, rest, p, entries, TopOf(h, entries));
    Sizes(v, h);
    SameLast(d, v.State(), h.blockSize / DIRENT_SIZE, p, entries);
  }

  /** The part before the metadata is written. */
  method FillImage(h: Header, entries: seq<Entry>, offset: nat) returns (v: Volume, root: nat, ghost p: Placed)
    requires Formatted(h, offset) && FitsOn(h, entries)
    ensures fresh(v) && v.Valid() && Shaped(v, h) && root == p.idx < h.inodeCount
    ensures v.blocks.free + TopOf(h, entries) == h.totalBlocks == |v.State().img| && v.State().free == v.blocks.free
    ensures Holds(h, v.State().img, v.State().table, root, p, entries, TopOf(h, entries))
    ensures h.dataStart <= TopOf(h, entries) && v.inodes.free == h.inodeCount - 1 - InodesOf(Branch(entries))
    ensures 0 < |v.State().table| && v.State().table[0] == ZeroInode()
    ensures LastBlock(v.State(), h.blockSize / DIRENT_SIZE, p, entries)
  {
    hide Format, Volume.Valid, Volume.State, Planted, BlocksOf, Fits, Sound, Holds, LastBlock;
    v := new Volume(h, offset);
    ShapedNew(v, h);
    hide Shaped;
    root := v.AllocInode();
    ghost var d0 := v.State();
    Good(v);
    Sizes(v, h);
    p := WriteDir(v, entries, root, root);
    Good(v);
    Sizes(v, h);
    Populated(h, d0, v.State(), root, p, entries);
    RootIndex(h, v, d0, root, p, entries);
  }

  lemma RootIndex(h: Header, v: Volume, d0: Disk, root: nat, p: Placed, entries: seq<Entry>)
    requires v.Valid() && Shaped(v, h) && Planted(d0, v.State(), v.per, root, root, p, Branch(entries))
    ensures root == p.idx < h.inodeCount && d0.used <= v.State().used && 0 < |v.State().table|
    ensures v.inodes.free + InodesOf(Branch(entries)) == d0.ifree + 1
  {
  }
}
