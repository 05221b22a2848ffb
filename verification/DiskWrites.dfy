/** How single writes change what inodes hold (tools/bsfs/bsfs.c:109-134, tools/bsfs/bsfs-populate.c:307-470). */
module DiskWrites {
  import opened Sequences
  import opened Layout
  import opened DiskFormat
  import opened DiskTree

  /** fseeko and fwrite: `data` at offset `off` of block `b`. */
  function WriteAt(img: Image, b: nat, off: nat, data: seq<Byte>): (r: Image)
    requires b < |img| && off + |data| <= |img[b]|
    ensures |r| == |img| && |r[b]| == |img[b]| && forall x :: 0 <= x < |img| && x != b ==> r[x] == img[x]
  {
    img[b := img[b][..off] + data + img[b][off + |data|..]]
  }

  // ---- directory slots ----------------------------------------------------------------------------

  lemma SlotWritten(block: seq<Byte>, per: nat, j: nat, e: seq<Byte>)
    requires |block| == DIRENT_SIZE * per && j < per && |e| == DIRENT_SIZE
    ensures DIRENT_SIZE * j + DIRENT_SIZE <= |block|
    ensures ReadBlock(block[..DIRENT_SIZE * j] + e + block[DIRENT_SIZE * j + DIRENT_SIZE..], per) == ReadBlock(block,
      per)[j := GetDirent(e)]
  {
    var o := DIRENT_SIZE * j;
    var block' := block[..o] + e + block[o + DIRENT_SIZE..];
    forall d | 0 <= d < per ensures ReadBlock(block', per)[d] == ReadBlock(block, per)[j := GetDirent(e)][d] {
      var k := DIRENT_SIZE * d;
      if d == j {
        assert block'[k..k + DIRENT_SIZE] == e;
      } else {
        SlotApart(block, o, e, k);
      }
    }
  }

  lemma SlotApart(block: seq<Byte>, o: nat, e: seq<Byte>, k: nat)
    requires o + |e| <= |block| && k + |e| <= |block| && (k + |e| <= o || o + |e| <= k)
    ensures (block[..o] + e + block[o + |e|..])[k..k + |e|] == block[k..k + |e|]
  {
  }

  lemma BlankBlock(per: nat)
    ensures ReadBlock(Zeros(DIRENT_SIZE * per), per) == Unused(per)
  {
    forall d | 0 <= d < per ensures ReadBlock(Zeros(DIRENT_SIZE * per), per)[d] == Unused(per)[d] {
      var z := Zeros(DIRENT_SIZE * per);
      assert z[DIRENT_SIZE * d..DIRENT_SIZE * d + DIRENT_SIZE] == Zeros(DIRENT_SIZE);
      EmptySlot();
    }
  }

  lemma DirSnoc(img: Image, per: nat, ptrs: seq<nat>, b: nat)
    ensures ReadDir(img, per, ptrs + [b]) == ReadDir(img, per, ptrs) + ReadBlock(At(img, b, DIRENT_SIZE * per), per)
  {
    assert (ptrs + [b])[..|ptrs|] == ptrs;
  }

  lemma UnusedSplit(n: nat)
    requires n > 0
    ensures Unused(n) == [Dirent(0, [])] + Unused(n - 1)
  {
  }

  /** A slot of the last block is taken. */
  lemma ReserveHere(img: Image, per: nat, ino: Inode, slots: seq<Dirent>, own: set<nat>, ptrs: seq<nat>)
    requires DirBlocks(img, per, ino, slots, own, ptrs) && |slots| < Cap(per, |ptrs|)
    ensures DirBlocks(img, per, ino, slots + [Dirent(0, [])], own, ptrs)
  {
    var n := per * |ptrs| - |slots|;
    UnusedSplit(n);
    assert slots + Unused(n) == (slots + [Dirent(0, [])]) + Unused(n - 1);
  }

  /** A fresh block is added and its first slot taken. */
  lemma ReserveNew(img: Image, per: nat, ino: Inode, slots: seq<Dirent>, own: set<nat>, ptrs: seq<nat>, b: nat)
    requires DirBlocks(img, per, ino, slots, own, ptrs) && |slots| == Cap(per, |ptrs|) && |ptrs| < DIRECT && per > 0
    requires b !in own && b != 0 && At(img, b, DIRENT_SIZE * per) == Zeros(DIRENT_SIZE * per)
    ensures |ino.direct| == DIRECT && ino.direct[|ptrs|] == 0
    ensures DirBlocks(img, per, ino.(direct := ino.direct[|ptrs| := b], blocks := ino.blocks + 1),
                      slots + [Dirent(0, [])], own + {b}, ptrs + [b])
  {
    var n := |ptrs|;
    DirSnoc(img, per, ptrs, b);
    BlankBlock(per);
    UnusedSplit(per);
    assert slots + Unused(0) == slots;
    assert ReadDir(img, per, ptrs + [b]) == (slots + [Dirent(0, [])]) + Unused(per - 1);
    assert per * (n + 1) == per * n + per;
    assert ino.direct[n := b] == (ptrs + [b]) + NoPtrs(DIRECT - (n + 1));
    var ptrs' := ptrs + [b];
    forall i, j | 0 <= i < j < |ptrs'| ensures ptrs'[i] != ptrs'[j] { assert ptrs'[i] in ptrs; }
  }

  lemma WriteApart(img: Image, img': Image, per: nat, ptrs: seq<nat>, b: nat)
    requires |img'| == |img| && b !in ptrs && forall x :: 0 <= x < |img| && x != b ==> img'[x] == img[x]
    ensures ReadDir(img', per, ptrs) == ReadDir(img, per, ptrs)
  {
    if ptrs != [] { WriteApart(img, img', per, ptrs[..|ptrs| - 1], b); }
  }

  /** The last slot is written. */
  lemma WriteLast(img: Image, per: nat, ino: Inode, slots: seq<Dirent>, own: set<nat>, ptrs: seq<nat>, e: seq<Byte>)
    requires DirBlocks(img, per, ino, slots, own, ptrs) && slots != [] && |e| == DIRENT_SIZE
    requires ptrs != [] ==> ptrs[|ptrs| - 1] < |img| && |img[ptrs[|ptrs| - 1]]| == DIRENT_SIZE * per
    ensures ptrs != [] && Cap(per, |ptrs| - 1) < |slots| <= Cap(per, |ptrs| - 1) + per
    ensures var j := |slots| - 1 - Cap(per, |ptrs| - 1);
      DirBlocks(WriteAt(img, ptrs[|ptrs| - 1], DIRENT_SIZE * j, e), per, ino, slots[|slots| - 1 := GetDirent(e)], own,
          ptrs)
  {
    var n := |ptrs| - 1;
    var s, b := |slots| - 1, ptrs[n];
    var j := s - per * n;
    assert per * (n + 1) == per * n + per;
    var img' := WriteAt(img, b, DIRENT_SIZE * j, e);
    SlotWritten(img[b], per, j, e);
    assert ptrs == ptrs[..n] + [b];
    DirSnoc(img, per, ptrs[..n], b);
    DirSnoc(img', per, ptrs[..n], b);
    assert b !in ptrs[..n];
    WriteApart(img, img', per, ptrs[..n], b);
    SplitUpdate(ReadDir(img, per, ptrs[..n]), ReadBlock(img[b], per), j, GetDirent(e));
    UpdateFront(slots, Unused(per * |ptrs| - |slots|), s, GetDirent(e));
  }

  lemma SplitUpdate(a: seq<Dirent>, b: seq<Dirent>, j: nat, d: Dirent)
    requires j < |b|
    ensures a + b[j := d] == (a + b)[|a| + j := d]
  {
  }

  lemma UpdateFront(a: seq<Dirent>, b: seq<Dirent>, s: nat, d: Dirent)
    requires s < |a|
    ensures (a + b)[s := d] == a[s := d] + b
  {
  }

  // ---- file contents --------------------------------------------------------------------------------

  function PutTable(t: seq<nat>): (b: seq<Byte>)
    requires forall i :: 0 <= i < |t| ==> t[i] < U32
    ensures |b| == 4 * |t|
  {
    seq(4 * |t|, i requires 0 <= i < 4 * |t| => PutU32(t[i / 4])[i % 4])
  }

  lemma TableRoundTrip(t: seq<nat>)
    requires forall i :: 0 <= i < |t| ==> t[i] < U32
    ensures ReadTable(PutTable(t), |t|) == t
  {
    var b := PutTable(t);
    forall j | 0 <= j < |t| ensures ReadTable(b, |t|)[j] == t[j] {
      assert b[4 * j..4 * j + 4] == PutU32(t[j]) by {
        forall k | 0 <= k < 4 ensures b[4 * j + k] == PutU32(t[j])[k] {
          assert (4 * j + k) / 4 == j && (4 * j + k) % 4 == k;
        }
      }
      WordRoundTrip(t[j]);
    }
  }

  /** The part of a file written so far. */
  ghost predicate Content(img: Image, bs: nat, done: seq<Byte>, own: set<nat>, ptrs: seq<nat>) {
    Inside(ptrs, own) && NoDup(ptrs) && Enough(|done|, bs, |ptrs|) && ReadBytes(img, bs, ptrs)[..|done|] == done
  }

  /** Its pointers in the inode, and in a table of indirect blocks still in memory. */
  ghost predicate Pointers(bs: nat, ino: Inode, own: set<nat>, ptrs: seq<nat>, tmp: seq<nat>) {
    && bs % 4 == 0 && |ptrs| <= DIRECT + bs / 4 && |tmp| == bs / 4 && ino.blocks == |ptrs|
    && if |ptrs| <= DIRECT then ino.direct == ptrs + NoPtrs(DIRECT - |ptrs|) && ino.l1 == 0
       else && ino.direct == ptrs[..DIRECT] && ino.l1 != 0 && ino.l1 in own && ino.l1 !in ptrs
            && tmp == ptrs[DIRECT..] + NoPtrs(bs / 4 - (|ptrs| - DIRECT))
  }

  ghost predicate Writing(img: Image, bs: nat, ino: Inode, done: seq<Byte>, own: set<nat>, ptrs: seq<nat>,
                          tmp: seq<nat>) {
    Content(img, bs, done, own, ptrs) && Pointers(bs, ino, own, ptrs, tmp) && ino.size == |done|
  }

  lemma BytesApart(img: Image, img': Image, bs: nat, ptrs: seq<nat>, b: nat)
    requires |img'| == |img| && b !in ptrs && forall x :: 0 <= x < |img| && x != b ==> img'[x] == img[x]
    ensures ReadBytes(img', bs, ptrs) == ReadBytes(img, bs, ptrs)
  {
    if ptrs != [] { BytesApart(img, img', bs, ptrs[..|ptrs| - 1], b); }
  }

  /** The next chunk goes to block `b`, which no pointer leads to yet. */
  lemma AppendBytes(img: Image, bs: nat, done: seq<Byte>, chunk: seq<Byte>, ptrs: seq<nat>, b: nat)
    requires |done| == Cap(bs, |ptrs|) && ReadBytes(img, bs, ptrs)[..|done|] == done && |chunk| <= bs
    requires b < |img| && |img[b]| == bs && b !in ptrs
    ensures ReadBytes(WriteAt(img, b, 0, chunk), bs, ptrs + [b])[..|done| + |chunk|] == done + chunk
  {
    var img' := WriteAt(img, b, 0, chunk);
    BytesApart(img, img', bs, ptrs, b);
    assert (ptrs + [b])[..|ptrs|] == ptrs;
    assert img'[b][..|chunk|] == chunk;
    var all := ReadBytes(img', bs, ptrs) + img'[b];
    assert ReadBytes(img', bs, ptrs + [b]) == all;
    assert ReadBytes(img, bs, ptrs) == done;
  }

  lemma GrownPtrs(ptrs: seq<nat>, b: nat, own: set<nat>)
    requires Inside(ptrs, own) && NoDup(ptrs) && b !in own && b != 0
    ensures Inside(ptrs + [b], own + {b}) && NoDup(ptrs + [b])
  {
    var ptrs' := ptrs + [b];
    forall i, j | 0 <= i < j < |ptrs'| ensures ptrs'[i] != ptrs'[j] { assert ptrs'[i] in ptrs; }
  }

  lemma ContentStep(img: Image, bs: nat, done: seq<Byte>, own: set<nat>, ptrs: seq<nat>, chunk: seq<Byte>, b: nat)
    requires Content(img, bs, done, own, ptrs) && |done| == Cap(bs, |ptrs|) && 0 < |chunk| <= bs
    requires b < |img| && |img[b]| == bs && b !in own && b != 0
    ensures Content(WriteAt(img, b, 0, chunk), bs, done + chunk, own + {b}, ptrs + [b])
  {
    assert b !in ptrs;
    AppendBytes(img, bs, done, chunk, ptrs, b);
    GrownPtrs(ptrs, b, own);
    assert bs * (|ptrs| + 1) == bs * |ptrs| + bs;
    hide ReadBytes, WriteAt, Inside, NoDup;
  }

  lemma ContentMore(img: Image, bs: nat, done: seq<Byte>, own: set<nat>, own': set<nat>, ptrs: seq<nat>)
    requires Content(img, bs, done, own, ptrs) && own <= own'
    ensures Content(img, bs, done, own', ptrs)
  {
  }

  /** A chunk that still has a direct pointer. */
  lemma WriteDirect(img: Image, bs: nat, ino: Inode, done: seq<Byte>, own: set<nat>, ptrs: seq<nat>, tmp: seq<nat>,
                    chunk: seq<Byte>, b: nat)
    requires Writing(img, bs, ino, done, own, ptrs, tmp) && |ptrs| < DIRECT && |done| == Cap(bs, |ptrs|)
    requires 0 < |chunk| <= bs
    requires b < |img| && |img[b]| == bs && b !in own && b != 0
    ensures |ino.direct| == DIRECT
    ensures Writing(WriteAt(img, b, 0, chunk), bs, 
                    ino.(direct := ino.direct[|ptrs| := b], blocks := ino.blocks + 1, size := |done| + |chunk|),
                    done + chunk, own + {b}, ptrs + [b], tmp)
  {
    ContentStep(img, bs, done, own, ptrs, chunk, b);
    hide Content, WriteAt;
    assert ino.direct[|ptrs| := b] == (ptrs + [b]) + NoPtrs(DIRECT - (|ptrs| + 1));
  }

  /** A chunk whose pointer goes to the indirect table `l1`. */
  lemma WriteIndirect(img: Image, bs: nat, ino: Inode, done: seq<Byte>, own: set<nat>, ptrs: seq<nat>, tmp: seq<nat>,
                      chunk: seq<Byte>, b: nat, l1: nat)
    requires Writing(img, bs, ino, done, own, ptrs, tmp) && DIRECT <= |ptrs| < DIRECT + bs / 4
    requires |done| == Cap(bs, |ptrs|) && 0 < |chunk| <= bs
    requires b < |img| && |img[b]| == bs && b !in own && b != 0
    requires if |ptrs| == DIRECT then l1 !in own && l1 != 0 && l1 != b && tmp == NoPtrs(bs / 4) else l1 == ino.l1
    ensures Writing(WriteAt(img, b, 0, chunk), bs,
                    ino.(l1 := l1, blocks := ino.blocks + 1, size := |done| + |chunk|),
                    done + chunk, own + {b, l1}, ptrs + [b], tmp[|ptrs| - DIRECT := b])
  {
    assert |ptrs| == DIRECT ==> tmp == ptrs[DIRECT..] + NoPtrs(bs / 4 - (|ptrs| - DIRECT));
    IndirectSlot(ptrs, tmp, bs / 4, b);
    assert (ptrs + [b])[..DIRECT] == ptrs[..DIRECT];
    assert l1 !in ptrs + [b] by { assert Inside(ptrs, own); }
    ContentStep(img, bs, done, own, ptrs, chunk, b);
    hide WriteAt;
    ContentMore(WriteAt(img, b, 0, chunk), bs, done + chunk, own + {b}, own + {b, l1}, ptrs + [b]);
    hide Content;
    assert |ptrs| == DIRECT ==> ino.direct == ptrs[..DIRECT];
  }

  lemma IndirectSlot(ptrs: seq<nat>, tmp: seq<nat>, cap: nat, b: nat)
    requires DIRECT <= |ptrs| < DIRECT + cap && tmp == ptrs[DIRECT..] + NoPtrs(cap - (|ptrs| - DIRECT))
    ensures tmp[|ptrs| - DIRECT := b] == (ptrs + [b])[DIRECT..] + NoPtrs(cap - (|ptrs| + 1 - DIRECT))
  {
  }

  /** The indirect table is written last. */
  lemma Finish(img: Image, bs: nat, ino: Inode, data: seq<Byte>, own: set<nat>, ptrs: seq<nat>, tmp: seq<nat>)
    requires Writing(img, bs, ino, data, own, ptrs, tmp) && forall i :: 0 <= i < |tmp| ==> tmp[i] < U32
    requires |ptrs| > DIRECT ==> ino.l1 < |img| && |img[ino.l1]| == bs
    ensures |ptrs| <= DIRECT ==> FileBlocks(img, bs, ino, data, own, ptrs)
    ensures |ptrs| > DIRECT ==>
      4 * (bs / 4) == bs && FileBlocks(WriteAt(img, ino.l1, 0, PutTable(tmp)), bs, ino, data, own, ptrs)
  {
    hide ReadBytes, ReadTable, PutTable, Cap, NoDup, WriteAt;
    if |ptrs| > DIRECT {
      var img' := WriteAt(img, ino.l1, 0, PutTable(tmp));
      BytesApart(img, img', bs, ptrs, ino.l1);
      TableRoundTrip(tmp);
      WholeBlock(img, ino.l1, PutTable(tmp));
    }
  }

  lemma WholeBlock(img: Image, b: nat, data: seq<Byte>)
    requires b < |img| && |data| == |img[b]|
    ensures WriteAt(img, b, 0, data)[b] == data
  {
  }
}
