/** Reading a directory tree back from an image (tools/bsfs/bsfs-extract.c:214-332). */
module Extract {
  import opened Division
  import opened Layout
  import opened DiskFormat
  import opened DiskTree
  import opened ImageBytes
  import opened Metadata
  import opened Populate
  import opened PopulateTree

  // ---- files --------------------------------------------------------------------------------------

  /** A run of blocks holds block `j` at its place. */
  lemma {:induction false} BlockBytes(img: Image, bs: nat, ptrs: seq<nat>, j: nat)
    requires j < |ptrs|
    ensures Cap(bs, j) + bs <= |ReadBytes(img, bs, ptrs)|
    ensures ReadBytes(img, bs, ptrs)[Cap(bs, j)..Cap(bs, j) + bs] == DiskTree.At(img, ptrs[j], bs)
  {
    var n := |ptrs| - 1;
    var front := ptrs[..n];
    assert bs * (n + 1) == bs * n + bs;
    if j < n {
      BlockBytes(img, bs, front, j);
      assert ReadBytes(img, bs, ptrs)[Cap(bs, j)..Cap(bs, j) + bs] == ReadBytes(img, bs,
          front)[Cap(bs, j)..Cap(bs, j) + bs];
    }
  }

  /** How many bytes of a block are copied; a negative rest would wrap. */
  function WriteCount(remaining: int, bs: nat): (n: nat)
    ensures 0 < remaining && bs < U32 ==> n == if remaining < bs then remaining else bs
  {
    if remaining < bs then remaining % U32 else bs
  }

  /** The first `k` blocks of the file are copied. */
  ghost predicate Copied(data: seq<Byte>, bs: nat, k: nat, out: seq<Byte>, remaining: int) {
    remaining == |data| - Cap(bs, k) && out == if Cap(bs, k) <= |data| then data[..Cap(bs, k)] else data
  }

  lemma CopyStep(img: Image, bs: nat, ptrs: seq<nat>, data: seq<Byte>, k: nat, out: seq<Byte>, remaining: int)
    requires Copied(data, bs, k, out, remaining) && k < |ptrs| && Enough(|data|, bs, |ptrs|)
    requires ReadBytes(img, bs, ptrs)[..|data|] == data && bs < U32
    ensures var n := WriteCount(remaining, bs);
      n <= bs && Copied(data, bs, k + 1, out + DiskTree.At(img, ptrs[k], bs)[..n], remaining - bs)
  {
    hide ReadBytes, Cap, Enough;
    BlockBytes(img, bs, ptrs, k);
    CapNext(bs, k);
    StillLeft(|data|, bs, k, |ptrs|);
    LongEnough(img, bs, ptrs, |data|);
    NextBlock(ReadBytes(img, bs, ptrs), data, Cap(bs, k), bs, DiskTree.At(img, ptrs[k], bs));
  }

  lemma NextBlock(all: seq<Byte>, data: seq<Byte>, c: nat, bs: nat, block: seq<Byte>)
    requires |data| <= |all| && all[..|data|] == data && c < |data|
    requires c + bs <= |all| && all[c..c + bs] == block
    ensures data[..c] + block[..if |data| - c < bs then |data| - c else bs] == if c + bs <= |data| then data[..c + bs]
      else data
  {
  }

  lemma LongEnough(img: Image, bs: nat, ptrs: seq<nat>, size: nat)
    requires Enough(size, bs, |ptrs|)
    ensures size <= |ReadBytes(img, bs, ptrs)|
  {
  }

  lemma StillLeft(size: nat, bs: nat, k: nat, n: nat)
    requires k < n && Enough(size, bs, n)
    ensures Cap(bs, k) < size
  {
    if k < n - 1 { MulStep(n - 1, k, bs); }
  }

  lemma AllCopied(data: seq<Byte>, bs: nat, n: nat, out: seq<Byte>, remaining: int)
    requires Copied(data, bs, n, out, remaining) && Enough(|data|, bs, n)
    ensures out == data && remaining <= 0
  {
    if Cap(bs, n) <= |data| { assert data[..|data|] == data; }
  }

  /** The pointers not 0 are those of the file, in order. */
  lemma DirectPointer(img: Image, bs: nat, ino: Inode, data: seq<Byte>, own: set<nat>, ptrs: seq<nat>, i: nat)
    requires FileBlocks(img, bs, ino, data, own, ptrs) && i < DIRECT
    ensures |ino.direct| == DIRECT && (ino.direct[i] != 0 <==> i < |ptrs|) && (i < |ptrs| ==> ino.direct[i] == ptrs[i])
  {
    hide ReadBytes, ReadTable, Cap;
    if i < |ptrs| { assert ptrs[i] in ptrs; }
  }

  lemma TablePointer(img: Image, bs: nat, ino: Inode, data: seq<Byte>, own: set<nat>, ptrs: seq<nat>, table: seq<nat>,
                     i: nat)
    requires FileBlocks(img, bs, ino, data, own, ptrs) && ino.l1 != 0 && |table| == bs / 4
    requires 4 * |table| == bs && i < bs / 4
    requires table == ReadTable(DiskTree.At(img, ino.l1, bs), bs / 4)
    ensures DIRECT < |ptrs| && (table[i] != 0 <==> DIRECT + i < |ptrs|)
    ensures (DIRECT + i < |ptrs| ==> table[i] == ptrs[DIRECT + i])
  {
    hide ReadBytes, ReadTable, Cap;
    if DIRECT + i < |ptrs| { assert ptrs[DIRECT + i] in ptrs; }
  }

  lemma FileFacts(img: Image, bs: nat, ino: Inode, data: seq<Byte>, own: set<nat>, ptrs: seq<nat>)
    requires FileBlocks(img, bs, ino, data, own, ptrs)
    ensures bs == 4 * (bs / 4) && Enough(|data|, bs, |ptrs|) && ReadBytes(img, bs, ptrs)[..|data|] == data
    ensures |ptrs| <= DIRECT + bs / 4 && |ino.direct| == DIRECT && (ino.l1 != 0 <==> |ptrs| > DIRECT)
  {
  }

  lemma FileOpen(img: Image, bs: nat, ino: Inode, data: seq<Byte>, own: set<nat>)
    requires FileRep(img, bs, ino, data, own)
    ensures ino.size == |data| && exists ptrs: seq<nat> :: FileBlocks(img, bs, ino, data, own, ptrs)
  {
    hide FileBlocks;
  }

  lemma NothingCopied(data: seq<Byte>, bs: nat)
    ensures Copied(data, bs, 0, [], |data|)
  {
  }

  lemma MoreLeft(data: seq<Byte>, bs: nat, k: nat, n: nat, out: seq<Byte>, remaining: int)
    requires Copied(data, bs, k, out, remaining) && k < n && Enough(|data|, bs, n)
    ensures remaining > 0
  {
    StillLeft(|data|, bs, k, n);
  }

  /** How far bsfs_write_inode_to_file has come: it goes on; it has ended at a short read; or it has used bytes it does
      not have, past its buffer or in a table that was not read whole. */
  datatype Copy = Going(out: seq<Byte>, remaining: int) | Ended(out: seq<Byte>) | Astray

  /** One pointer. */
  function Step(img: Image, bs: nat, c: Copy, b: nat): Copy
    requires bs > 0
  {
    if !c.Going? || b == 0 then c
    else
      var block, n := Fetched(img, bs, b), WriteCount(c.remaining, bs);
      if |block| < bs then Ended(c.out + block)
      else if n > bs then Astray
      else Going(c.out + block[..n], c.remaining - bs)
  }

  /** The first `k` pointers. */
  function Steps(img: Image, bs: nat, c: Copy, ptrs: seq<nat>, k: nat): Copy
    requires bs > 0 && k <= |ptrs|
  {
    if k == 0 then c else Step(img, bs, Steps(img, bs, c, ptrs, k - 1), ptrs[k - 1])
  }

  /** Likewise, until nothing remains. */
  function StepsWhile(img: Image, bs: nat, c: Copy, ptrs: seq<nat>, k: nat): Copy
    requires bs > 0 && k <= |ptrs|
  {
    if k == 0 then c
    else
      var d := StepsWhile(img, bs, c, ptrs, k - 1);
      if d.Going? && d.remaining > 0 then Step(img, bs, d, ptrs[k - 1]) else d
  }

  /** What bsfs_write_inode_to_file makes of any inode. */
  function CopyOut(img: Image, bs: nat, ino: Inode): Copy
    requires bs > 0 && bs % 4 == 0
  {
    var c := Steps(img, bs, Going([], ino.size), ino.direct, |ino.direct|);
    if !c.Going? || ino.l1 == 0 then c
    else if |Fetched(img, bs, ino.l1)| < bs then Astray
    else
      var table := ReadTable(Fetched(img, bs, ino.l1), bs / 4);
      StepsWhile(img, bs, c, table, |table|)
  }

  /** Once nothing remains, or the end was met, the loop over the table is over. */
  lemma {:induction false} StepsStop(img: Image, bs: nat, c: Copy, ptrs: seq<nat>, k: nat, m: nat)
    requires bs > 0 && k <= m <= |ptrs|
    requires var d := StepsWhile(img, bs, c, ptrs, k); !d.Going? || d.remaining <= 0
    ensures StepsWhile(img, bs, c, ptrs, m) == StepsWhile(img, bs, c, ptrs, k)
    decreases m
  {
    if m > k { StepsStop(img, bs, c, ptrs, k, m - 1); }
  }

  /** Once the end was met, the loop over the pointers is over. */
  lemma {:induction false} StepsEnd(img: Image, bs: nat, c: Copy, ptrs: seq<nat>, k: nat, m: nat)
    requires bs > 0 && k <= m <= |ptrs| && !Steps(img, bs, c, ptrs, k).Going?
    ensures Steps(img, bs, c, ptrs, m) == Steps(img, bs, c, ptrs, k)
    decreases m
  {
    if m > k { StepsEnd(img, bs, c, ptrs, k, m - 1); }
  }

  /** bsfs_write_inode_to_file, for any image and inode. */
  method WriteInodeToFile(img: Image, bs: nat, ino: Inode) returns (c: Copy)
    requires bs > 0 && bs % 4 == 0
    ensures c == CopyOut(img, bs, ino)
  {
    hide Step, Fetched;
    c := Going([], ino.size);
    ghost var c0 := c;
    for i := 0 to |ino.direct|
      invariant c == Steps(img, bs, c0, ino.direct, i) && c.Going?
    {
      c := Step(img, bs, c, ino.direct[i]);
      if !c.Going? {
        StepsEnd(img, bs, c0, ino.direct, i + 1, |ino.direct|);
        return;
      }
    }
    if ino.l1 != 0 {
      var block := Fetched(img, bs, ino.l1);
      if |block| < bs {
        return Astray;
      }
      var table := ReadTable(block, bs / 4);
      ghost var c1 := c;
      var i: nat := 0;
      while i < |table| && c.remaining > 0
        invariant i <= |table| && c == StepsWhile(img, bs, c1, table, i) && c.Going?
      {
        c := Step(img, bs, c, table[i]);
        i := i + 1;
        if !c.Going? {
          StepsStop(img, bs, c1, table, i, |table|);
          return;
        }
      }
      if i < |table| { StepsStop(img, bs, c1, table, i, |table|); }
    }
  }

  /** Every block begins below 4 GiB and is one of the image. */
  ghost predicate Near(own: set<nat>, img: Image, bs: nat) {
    forall b :: b in own ==> b < |img| && Cap(bs, b) < U32
  }

  /** A file whose blocks begin below 4 GiB comes out as it is. */
  lemma FileCopied(img: Image, bs: nat, ino: Inode, data: seq<Byte>, own: set<nat>)
    requires FileRep(img, bs, ino, data, own) && 0 < bs < U32 && bs % 4 == 0 && Near(own, img, bs)
    ensures var c := CopyOut(img, bs, ino); c.Going? && c.out == data
  {
    hide ReadBytes, Cap, WriteCount, ReadTable, FileRep, Copied, Enough, FileBlocks, DiskTree.At, Fetched, Steps,
         StepsWhile, Near;
    FileOpen(img, bs, ino, data, own);
    var ptrs: seq<nat> :| FileBlocks(img, bs, ino, data, own, ptrs);
    FileFacts(img, bs, ino, data, own, ptrs);
    var c := DirectCopied(img, bs, ino, data, own, ptrs, DIRECT);
    if ino.l1 == 0 {
      AllCopied(data, bs, |ptrs|, c.out, c.remaining);
    } else {
      TableFetched(img, bs, ino, data, own, ptrs);
      var table := ReadTable(DiskTree.At(img, ino.l1, bs), bs / 4);
      var d := TableCopied(img, bs, ino, data, own, ptrs, table, c, |table|);
      AllCopied(data, bs, |ptrs|, d.out, d.remaining);
    }
  }

  lemma TableFetched(img: Image, bs: nat, ino: Inode, data: seq<Byte>, own: set<nat>, ptrs: seq<nat>)
    requires FileBlocks(img, bs, ino, data, own, ptrs) && bs > 0 && Near(own, img, bs) && ino.l1 != 0
    ensures Fetched(img, bs, ino.l1) == DiskTree.At(img, ino.l1, bs) && |ptrs| > DIRECT
  {
    hide ReadBytes, ReadTable, Fetched;
    FetchedExact(img, bs, ino.l1);
  }

  /** The direct pointers. */
  lemma {:induction false} DirectCopied(img: Image, bs: nat, ino: Inode, data: seq<Byte>, own: set<nat>,
                                        ptrs: seq<nat>, k: nat)
    returns (c: Copy)
    requires FileBlocks(img, bs, ino, data, own, ptrs) && ino.size == |data| && 0 < bs < U32 && Near(own, img, bs)
    requires k <= DIRECT
    ensures |ino.direct| == DIRECT && c == Steps(img, bs, Going([], ino.size), ino.direct, k) && c.Going?
    ensures Copied(data, bs, if k < |ptrs| then k else |ptrs|, c.out, c.remaining)
  {
    hide FileBlocks, Copied, Cap, Near, Step;
    FileFacts(img, bs, ino, data, own, ptrs);
    if k == 0 {
      c := Going([], ino.size);
      NothingCopied(data, bs);
    } else {
      var b := DirectCopied(img, bs, ino, data, own, ptrs, k - 1);
      DirectPointer(img, bs, ino, data, own, ptrs, k - 1);
      c := Step(img, bs, b, ino.direct[k - 1]);
      if k - 1 < |ptrs| { PointerCopied(img, bs, ino, data, own, ptrs, k - 1, b); } else { Skipped(img, bs, b); }
    }
  }

  lemma Skipped(img: Image, bs: nat, c: Copy)
    requires bs > 0
    ensures Step(img, bs, c, 0) == c
  {
  }

  /** Pointer `k` of the file. */
  lemma PointerCopied(img: Image, bs: nat, ino: Inode, data: seq<Byte>, own: set<nat>, ptrs: seq<nat>, k: nat, c: Copy)
    requires FileBlocks(img, bs, ino, data, own, ptrs) && 0 < bs < U32 && Near(own, img, bs) && k < |ptrs|
    requires c.Going? && Copied(data, bs, k, c.out, c.remaining)
    ensures var d := Step(img, bs, c, ptrs[k]);
      d.Going? && Copied(data, bs, k + 1, d.out, d.remaining)
  {
    assert ptrs[k] in ptrs;
    FetchedExact(img, bs, ptrs[k]);
    hide ReadBytes, Cap, WriteCount, Copied, Enough, FileBlocks, DiskTree.At, Fetched;
    FileFacts(img, bs, ino, data, own, ptrs);
    CopyStep(img, bs, ptrs, data, k, c.out, c.remaining);
    PointerSet(img, bs, ino, data, own, ptrs, k);
  }

  lemma PointerSet(img: Image, bs: nat, ino: Inode, data: seq<Byte>, own: set<nat>, ptrs: seq<nat>, k: nat)
    requires FileBlocks(img, bs, ino, data, own, ptrs) && k < |ptrs|
    ensures ptrs[k] != 0
  {
    assert ptrs[k] in ptrs;
  }

  /** The pointers in the table. */
  lemma {:induction false} TableCopied(img: Image, bs: nat, ino: Inode, data: seq<Byte>, own: set<nat>,
                                       ptrs: seq<nat>, table: seq<nat>, c0: Copy, k: nat)
    returns (c: Copy)
    requires FileBlocks(img, bs, ino, data, own, ptrs) && ino.l1 != 0 && 0 < bs < U32 && bs % 4 == 0
    requires Near(own, img, bs) && k <= |table| && table == ReadTable(DiskTree.At(img, ino.l1, bs), bs / 4)
    requires |ptrs| > DIRECT && c0.Going? && Copied(data, bs, DIRECT, c0.out, c0.remaining)
    ensures c == StepsWhile(img, bs, c0, table, k) && c.Going?
    ensures Copied(data, bs, if DIRECT + k < |ptrs| then DIRECT + k else |ptrs|, c.out, c.remaining)
  {
    hide FileBlocks, Copied, Cap, Near, Step, ReadTable, Enough, DiskTree.At;
    FileFacts(img, bs, ino, data, own, ptrs);
    if k == 0 {
      c := c0;
    } else {
      var b := TableCopied(img, bs, ino, data, own, ptrs, table, c0, k - 1);
      TablePointer(img, bs, ino, data, own, ptrs, table, k - 1);
      c := StepsWhile(img, bs, c0, table, k);
      if DIRECT + (k - 1) < |ptrs| {
        MoreLeft(data, bs, DIRECT + (k - 1), |ptrs|, b.out, b.remaining);
        PointerCopied(img, bs, ino, data, own, ptrs, DIRECT + (k - 1), b);
      } else {
        Skipped(img, bs, b);
      }
    }
  }

  // ---- directories --------------------------------------------------------------------------------

  /** A run of blocks holds entry `d` of block `i` at its place. */
  lemma {:induction false} SlotInRun(img: Image, per: nat, ptrs: seq<nat>, i: nat, d: nat)
    requires i < |ptrs| && d < per
    ensures Cap(per, i) + d < |ReadDir(img, per, ptrs)|
    ensures ReadDir(img, per, ptrs)[Cap(per, i) + d] == ReadBlock(DiskTree.At(img, ptrs[i], DIRENT_SIZE * per), per)[d]
  {
    var n := |ptrs| - 1;
    assert per * (n + 1) == per * n + per;
    hide ReadBlock;
    if i < n {
      SlotInRun(img, per, ptrs[..n], i, d);
      assert ReadDir(img, per, ptrs)[Cap(per, i) + d] == ReadDir(img, per, ptrs[..n])[Cap(per, i) + d];
    }
  }

  lemma DirPointer(img: Image, per: nat, ino: Inode, slots: seq<Dirent>, own: set<nat>, ptrs: seq<nat>, i: nat)
    requires DirBlocks(img, per, ino, slots, own, ptrs) && i < DIRECT
    ensures |ino.direct| == DIRECT && (ino.direct[i] != 0 <==> i < |ptrs|) && (i < |ptrs| ==> ino.direct[i] == ptrs[i])
  {
    hide ReadDir, Cap;
    if i < |ptrs| { assert ptrs[i] in ptrs; }
  }

  lemma SlotHere(img: Image, per: nat, ino: Inode, slots: seq<Dirent>, own: set<nat>, ptrs: seq<nat>, i: nat, d: nat)
    requires DirBlocks(img, per, ino, slots, own, ptrs) && i < |ptrs| && d < per
    ensures ReadBlock(DiskTree.At(img, ptrs[i], DIRENT_SIZE * per), per)[d] == if Cap(per, i) + d < |slots| then
      slots[Cap(per, i) + d] else Dirent(0, [])
  {
    SlotInRun(img, per, ptrs, i, d);
    hide ReadDir, Cap, ReadBlock;
  }

  /** After the first `n` slots, the entries found. */
  ghost predicate Visited(entries: seq<Entry>, n: nat, out: seq<Entry>) {
    out == if n <= 2 then [] else if n - 2 <= |entries| then entries[..n - 2] else entries
  }

  lemma VisitEntry(entries: seq<Entry>, n: nat, out: seq<Entry>)
    requires Visited(entries, n, out) && 2 <= n < |entries| + 2
    ensures Visited(entries, n + 1, out + [entries[n - 2]])
  {
  }

  lemma VisitOther(entries: seq<Entry>, n: nat, out: seq<Entry>)
    requires Visited(entries, n, out) && (n < 2 || |entries| + 2 <= n)
    ensures Visited(entries, n + 1, out)
  {
    assert entries[..|entries|] == entries && entries[..0] == [];
  }

  /** Past the last entry, further slots make no difference. */
  lemma {:induction false} VisitRest(entries: seq<Entry>, n: nat, m: nat, out: seq<Entry>)
    requires Visited(entries, n, out) && |entries| + 2 <= n <= m
    ensures Visited(entries, m, out) && out == entries
  {
    assert entries[..|entries|] == entries;
  }

  /** What slot `n` of a directory says. */
  lemma SlotMeaning(p: Placed, parent: nat, entries: seq<Entry>, n: nat)
    requires |p.kids| == |entries| && n < |entries| + 2
    ensures var e := Slots(p, parent, entries)[n];
      if n == 0 then e == Dirent(p.idx, DOT) else if n == 1 then e == Dirent(parent, DOTDOT)
          else e == Dirent(p.kids[n - 2].idx, entries[n - 2].name)
  {
  }

  lemma ChildFacts(img: Image, per: nat, table: seq<Inode>, p: Placed, parent: nat, entries: seq<Entry>,
                   own: set<nat>, inos: set<nat>, j: nat)
    requires Rep(img, per, table, p, parent, Branch(entries), own, inos) && Fits(Branch(entries), per) && j < |entries|
    ensures |p.kids| == |entries|
    ensures var kid, e := p.kids[j], entries[j];
      && e.name != DOT && e.name != DOTDOT && Fits(e.node, per) && kid.idx != 0 && kid.idx < |table|
      && Rep(img, per, table, kid, p.idx, e.node, own, inos)
      && (if e.node.Leaf? then table[kid.idx].kind == File &&
           FileRep(img, DIRENT_SIZE * per, table[kid.idx], e.node.data, own) else table[kid.idx].kind == Directory)
  {
    hide DirBlocks, FileBlocks;
  }

  lemma DirFacts(img: Image, per: nat, table: seq<Inode>, p: Placed, parent: nat, entries: seq<Entry>, own: set<nat>,
                 inos: set<nat>)
    requires Rep(img, per, table, p, parent, Branch(entries), own, inos)
    ensures p.idx < |table| && |p.kids| == |entries| && table[p.idx].kind == Directory
    ensures exists ptrs: seq<nat> :: DirBlocks(img, per, table[p.idx], Slots(p, parent, entries), own, ptrs)
  {
    hide DirBlocks;
  }

  /** The bytes of a file of the tree. */
  method ExtractFile(img: Image, per: nat, ino: Inode, ghost data: seq<Byte>, ghost own: set<nat>)
    returns (out: seq<Byte>)
    requires FileRep(img, DIRENT_SIZE * per, ino, data, own) && 0 < DIRENT_SIZE * per < U32
    requires Near(own, img, DIRENT_SIZE * per)
    ensures out == data
  {
    hide FileRep, Near, CopyOut;
    assert DIRENT_SIZE * per % 4 == 0;
    FileCopied(img, DIRENT_SIZE * per, ino, data, own);
    var copy := WriteInodeToFile(img, DIRENT_SIZE * per, ino);
    out := copy.out;
  }

  /** The inner loop of bsfs_extract_dir: the entries of one block, the `i`-th of the directory. */
  method ExtractBlock(img: Image, per: nat, table: seq<Inode>, block: seq<Dirent>, before: seq<Entry>,
                      ghost p: Placed, ghost parent: nat, ghost entries: seq<Entry>, ghost own: set<nat>,
                          ghost inos: set<nat>, ghost ptrs: seq<nat>, ghost i: nat)
    returns (out: seq<Entry>)
    requires Rep(img, per, table, p, parent, Branch(entries), own, inos) && Fits(Branch(entries), per)
    requires 0 < DIRENT_SIZE * per < U32
    requires p.idx < |table| && |p.kids| == |entries|
    requires DirBlocks(img, per, table[p.idx], Slots(p, parent, entries), own, ptrs) && i < |ptrs|
    requires block == ReadBlock(DiskTree.At(img, ptrs[i], DIRENT_SIZE * per), per) && Near(own, img, DIRENT_SIZE * per)
    requires Visited(entries, Cap(per, i), before)
    ensures Visited(entries, Cap(per, i + 1), out)
    decreases entries, 0
  {
    hide Rep, Fits, DirBlocks, ReadBlock, Visited, Cap, Slots, FileRep, Near;
    out := before;
    for d := 0 to per
      invariant Visited(entries, Cap(per, i) + d, out)
    {
      ghost var n := Cap(per, i) + d;
      SlotHere(img, per, table[p.idx], Slots(p, parent, entries), own, ptrs, i, d);
      if n < |entries| + 2 { SlotMeaning(p, parent, entries, n); }
      if 2 <= n < |entries| + 2 {
        ChildFacts(img, per, table, p, parent, entries, own, inos, n - 2);
        VisitEntry(entries, n, out);
      } else {
        VisitOther(entries, n, out);
      }
      var e := block[d];
      if e.inode == 0 {
        continue;
      }
      if e.name == DOT || e.name == DOTDOT {
        continue;
      }
      var sub := table[e.inode];
      match sub.kind {
        case Free => continue;
        case File =>
          var data := ExtractFile(img, per, sub, entries[n - 2].node.data, own);
          out := out + [Entry(e.name, Leaf(data))];
        case Directory =>
          var below := ExtractDir(img, per, table, e.inode, p.kids[n - 2], p.idx, entries[n - 2].node.entries, own,
              inos);
          out := out + [Entry(e.name, Branch(below))];
      }
    }
    CapNext(per, i);
  }

  /** bsfs_extract_dir. */
  method ExtractDir(img: Image, per: nat, table: seq<Inode>, idx: nat, ghost p: Placed, ghost parent: nat,
                    ghost entries: seq<Entry>, ghost own: set<nat>, ghost inos: set<nat>)
    returns (out: seq<Entry>)
    requires Rep(img, per, table, p, parent, Branch(entries), own, inos) && Fits(Branch(entries), per)
    requires 0 < DIRENT_SIZE * per < U32 && idx == p.idx && Near(own, img, DIRENT_SIZE * per)
    ensures out == entries
    decreases entries, 1
  {
    hide Rep, Fits, DirBlocks, ReadBlock, Visited, Cap, Slots, Near, Fetched;
    DirFacts(img, per, table, p, parent, entries, own, inos);
    ghost var ptrs: seq<nat> :| DirBlocks(img, per, table[p.idx], Slots(p, parent, entries), own, ptrs);
    VisitNone(entries, per);
    out := [];
    var ino := table[idx];
    for i := 0 to DIRECT
      invariant Visited(entries, Cap(per, if i < |ptrs| then i else |ptrs|), out)
    {
      DirPointer(img, per, ino, Slots(p, parent, entries), own, ptrs, i);
      if ino.direct[i] == 0 {
        continue;
      }
      EntryFetched(img, per, ino, Slots(p, parent, entries), own, ptrs, i);
      out := ExtractBlock(img, per, table, ReadBlock(Fetched(img, DIRENT_SIZE * per, ino.direct[i]), per), out, p,
          parent, entries, own, inos, ptrs, i);
    }
    AllVisited(img, per, ino, Slots(p, parent, entries), own, ptrs, entries, out);
  }

  lemma EntryFetched(img: Image, per: nat, ino: Inode, slots: seq<Dirent>, own: set<nat>, ptrs: seq<nat>, i: nat)
    requires DirBlocks(img, per, ino, slots, own, ptrs) && i < |ptrs| && per > 0 && Near(own, img, DIRENT_SIZE * per)
    ensures Fetched(img, DIRENT_SIZE * per, ptrs[i]) == DiskTree.At(img, ptrs[i], DIRENT_SIZE * per)
  {
    hide ReadDir, Fetched;
    assert ptrs[i] in ptrs;
    FetchedExact(img, DIRENT_SIZE * per, ptrs[i]);
  }

  lemma VisitNone(entries: seq<Entry>, per: nat)
    ensures Visited(entries, Cap(per, 0), [])
  {
  }

  lemma AllVisited(img: Image, per: nat, ino: Inode, slots: seq<Dirent>, own: set<nat>, ptrs: seq<nat>,
                   entries: seq<Entry>, out: seq<Entry>)
    requires DirBlocks(img, per, ino, slots, own, ptrs) && |slots| == |entries| + 2
    requires Visited(entries, Cap(per, if DIRECT < |ptrs| then DIRECT else |ptrs|), out)
    ensures out == entries
  {
    hide ReadDir, Cap;
    VisitRest(entries, Cap(per, |ptrs|), Cap(per, |ptrs|), out);
  }

  // ---- the round trip -----------------------------------------------------------------------------

  datatype Extraction = Extracted(entries: seq<Entry>) | NoSignature | WrongVersion | WrongBlockSize

  /** bsfs-extract: the header in block `offset`, the inode table it points to, then the tree. */
  method ExtractImage(img: Image, bs: nat, offset: nat, force: bool, ghost p: Placed, ghost entries: seq<Entry>,
                      ghost top: nat)
    returns (r: Extraction)
    requires 0 < bs < U32 && Fits(Branch(entries), bs / DIRENT_SIZE) && Cap(bs, top) <= U32
    requires var s := SuperFrom(img, bs, Seek(bs, offset, 0));
      s.magic == MAGIC && (s.version == VERSION || force) && s.header.blockSize == bs ==>
      Rooted(img, s, p, entries, top)
    ensures var s := SuperFrom(img, bs, Seek(bs, offset, 0));
      r == if s.magic != MAGIC then NoSignature else if s.version != VERSION && !force then WrongVersion
           else if s.header.blockSize != bs then WrongBlockSize else Extracted(entries)
  {
    hide Rep, Fits, SuperFrom, TableFrom, Cap, Near;
    var s := SuperFrom(img, bs, Seek(bs, offset, 0));
    if s.magic != MAGIC {
      return NoSignature;
    }
    if s.version != VERSION && !force {
      return WrongVersion;
    }
    if s.header.blockSize != bs {
      return WrongBlockSize;
    }
    TableSought(s.header, |img|, top);
    var table := TableFrom(img, bs, Seek(bs, s.header.inodeTableStart, 0), s.header.inodeCount);
    ghost var own: set<nat>, inos: set<nat> :| Rep(img, bs / DIRENT_SIZE, table, p, p.idx, Branch(entries), own,
        inos) &&
        Between(own, s.header.dataStart, top);
    BelowTop(own, s.header.dataStart, top, img, bs);
    var out := ExtractDir(img, bs / DIRENT_SIZE, table, s.root, p, p.idx, entries, own, inos);
    r := Extracted(out);
  }

  lemma TableSought(h: Header, total: nat, top: nat)
    requires TableFits(h, total) && h.inodeCount > 0 && h.dataStart <= top && Cap(h.blockSize, top) <= U32
    requires h.blockSize > 0
    ensures Seek(h.blockSize, h.inodeTableStart, 0) == Cap(h.blockSize, h.inodeTableStart)
  {
    assert h.inodeTableBlocks > 0;
    CapBelow(h.blockSize, h.inodeTableStart, top);
    SeekExact(h.blockSize, h.inodeTableStart);
  }

  lemma BelowTop(own: set<nat>, lo: nat, top: nat, img: Image, bs: nat)
    requires Between(own, lo, top) && top <= |img| && bs > 0 && Cap(bs, top) <= U32
    ensures Near(own, img, bs)
  {
    forall b | b in own ensures b < |img| && Cap(bs, b) < U32 { CapBelow(bs, b, top); }
  }

  /** Extracting a populated image, with nothing but the image, yields the tree it was populated with, when the tree
      ends below 4 GiB. */
  method RoundTrip(h: Header, entries: seq<Entry>, offset: nat, rest: Rest, force: bool) returns (r: Extraction)
    requires Formatted(h, offset) && FitsOn(h, entries) && Suits(h, rest)
    requires Cap(h.blockSize, TopOf(h, entries)) <= U32
    ensures r == Extracted(entries)
  {
    hide Format, Volume.Valid, Rooted, Fits, BlocksOf, InodesOf, Suits, SuperFrom, MapsStored, Shaped, Cap, Seek,
         LastBlock, Signed;
    var v;
    ghost var p;
    v, p := PopulateImage(h, entries, offset, rest);
    OffsetSought(h, offset, TopOf(h, entries));
    r := ExtractImage(v.img, h.blockSize, offset, force, p, entries, TopOf(h, entries));
  }

  lemma OffsetSought(h: Header, offset: nat, top: nat)
    requires Formatted(h, offset) && h.dataStart <= top && Cap(h.blockSize, top) <= U32
    ensures Seek(h.blockSize, offset, 0) == Cap(h.blockSize, offset)
  {
    Consecutively(h, offset);
    CapBelow(h.blockSize, offset, top);
    SeekExact(h.blockSize, offset);
  }
}
