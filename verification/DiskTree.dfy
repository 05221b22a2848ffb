/** Directory trees and how an image holds them (tools/bsfs/bsfs-extract.c:214-332 reads them this way). */
module DiskTree {
  import opened Sequences
  import opened Layout
  import opened DiskFormat
  import opened Checksum

  // ---- trees --------------------------------------------------------------------------------------

  datatype Node = Leaf(data: seq<Byte>) | Branch(entries: seq<Entry>)
  datatype Entry = Entry(name: seq<Byte>, node: Node)

  /** The inode numbers of a tree on disk. */
  datatype Placed = Placed(idx: nat, kids: seq<Placed>)

  // ---- blocks -------------------------------------------------------------------------------------

  type Image = seq<seq<Byte>>

  function At(img: Image, b: nat, bs: nat): (r: seq<Byte>)
    ensures |r| == bs
  {
    if b < |img| && |img[b]| == bs then img[b] else Zeros(bs)
  }

  /** Directory entries in a block. */
  function ReadBlock(block: seq<Byte>, per: nat): (r: seq<Dirent>)
    requires |block| == DIRENT_SIZE * per
    ensures |r| == per
    ensures forall d :: 0 <= d < per ==> r[d] == GetDirent(block[DIRENT_SIZE * d..DIRENT_SIZE * d + DIRENT_SIZE])
  {
    seq(per, d requires 0 <= d < per => GetDirent(block[DIRENT_SIZE * d..DIRENT_SIZE * d + DIRENT_SIZE]))
  }

  /** Directory entries in a run of blocks. */
  function ReadDir(img: Image, per: nat, ptrs: seq<nat>): (r: seq<Dirent>)
    ensures |r| == per * |ptrs|
  {
    if ptrs == [] then []
    else ReadDir(img, per, ptrs[..|ptrs| - 1]) + ReadBlock(At(img, ptrs[|ptrs| - 1], DIRENT_SIZE * per), per)
  }

  /** The bytes in a run of blocks. */
  function ReadBytes(img: Image, bs: nat, ptrs: seq<nat>): (r: seq<Byte>)
    ensures |r| == bs * |ptrs|
  {
    if ptrs == [] then []
    else ReadBytes(img, bs, ptrs[..|ptrs| - 1]) + At(img, ptrs[|ptrs| - 1], bs)
  }

  /** Block numbers in an indirect block. */
  function ReadTable(block: seq<Byte>, n: nat): (r: seq<nat>)
    requires |block| == 4 * n
    ensures |r| == n && forall j :: 0 <= j < n ==> r[j] == GetU32(block[4 * j..4 * j + 4])
  {
    seq(n, j requires 0 <= j < n => GetU32(block[4 * j..4 * j + 4]))
  }

  function NoPtrs(n: nat): (r: seq<nat>)
    ensures |r| == n && forall i :: 0 <= i < n ==> r[i] == 0
  {
    seq(n, _ => 0)
  }

  function Unused(n: nat): (r: seq<Dirent>)
    ensures |r| == n && forall i :: 0 <= i < n ==> r[i] == Dirent(0, [])
  {
    seq(n, _ => Dirent(0, []))
  }

  /** The pointers lead into `own`, and none is 0. */
  ghost predicate Inside(ptrs: seq<nat>, own: set<nat>) {
    forall p :: p in ptrs ==> p in own && p != 0
  }

  /** What `n` blocks hold. */
  function Cap(unit: nat, n: nat): nat {
    unit * n
  }

  lemma CapNext(unit: nat, n: nat)
    ensures Cap(unit, n + 1) == Cap(unit, n) + unit
  {
  }

  /** As many blocks as the content needs. */
  predicate Enough(size: nat, unit: nat, n: nat) {
    size <= Cap(unit, n) && (if n == 0 then size == 0 else Cap(unit, n - 1) < size)
  }

  // ---- what an inode holds ------------------------------------------------------------------------

  /** A directory with the given entries, in blocks of `own`. */
  ghost predicate DirRep(img: Image, per: nat, ino: Inode, slots: seq<Dirent>, own: set<nat>) {
    && ino.kind == Directory && ino.size == DIRENT_SIZE * |slots|
    && exists ptrs: seq<nat> :: DirBlocks(img, per, ino, slots, own, ptrs)
  }

  ghost predicate DirBlocks(img: Image, per: nat, ino: Inode, slots: seq<Dirent>, own: set<nat>, ptrs: seq<nat>) {
    && |ptrs| <= DIRECT && ino.direct == ptrs + NoPtrs(DIRECT - |ptrs|) && ino.blocks == |ptrs| && Inside(ptrs, own)
    && NoDup(ptrs)
    && Enough(|slots|, per, |ptrs|)
    && ReadDir(img, per, ptrs) == slots + Unused(Cap(per, |ptrs|) - |slots|)
  }

  /** A file with the given bytes, in blocks of `own`. */
  ghost predicate FileRep(img: Image, bs: nat, ino: Inode, data: seq<Byte>, own: set<nat>) {
    && ino.kind == File && ino.size == |data| && ino.checksum == Crc32(data)
    && exists ptrs: seq<nat> :: FileBlocks(img, bs, ino, data, own, ptrs)
  }

  ghost predicate FileBlocks(img: Image, bs: nat, ino: Inode, data: seq<Byte>, own: set<nat>, ptrs: seq<nat>) {
    && bs % 4 == 0 && |ptrs| <= DIRECT + bs / 4 && Inside(ptrs, own) && Enough(|data|, bs, |ptrs|)
    && ReadBytes(img, bs, ptrs)[..|data|] == data && ino.blocks == |ptrs|
    && if |ptrs| <= DIRECT then ino.direct == ptrs + NoPtrs(DIRECT - |ptrs|) && ino.l1 == 0
       else && ino.direct == ptrs[..DIRECT] && ino.l1 != 0 && ino.l1 in own
            && ReadTable(At(img, ino.l1, bs), bs / 4) == ptrs[DIRECT..] + NoPtrs(bs / 4 - (|ptrs| - DIRECT))
  }

  const DOT: seq<Byte> := [46]
  const DOTDOT: seq<Byte> := [46, 46]

  /** The entries of a directory: itself, its parent, its children. */
  function Slots(p: Placed, parent: nat, entries: seq<Entry>): (r: seq<Dirent>)
    requires |p.kids| == |entries|
    ensures |r| == |entries| + 2
  {
    [Dirent(p.idx, DOT), Dirent(parent, DOTDOT)] + seq(|entries|,
        i requires 0 <= i < |entries| => Dirent(p.kids[i].idx, entries[i].name))
  }

  /** The image holds tree `node` at `p`, using blocks of `own` and inodes of `inos`. */
  ghost predicate Rep(img: Image, per: nat, table: seq<Inode>, p: Placed, parent: nat, node: Node, own: set<nat>,
                      inos: set<nat>)
    decreases node
  {
    && p.idx < |table| && p.idx in inos && p.idx != 0
    && match node
       case Leaf(data) => p.kids == [] && FileRep(img, DIRENT_SIZE * per, table[p.idx], data, own)
       case Branch(entries) =>
         && |p.kids| == |entries| && DirRep(img, per, table[p.idx], Slots(p, parent, entries), own)
         && forall i :: 0 <= i < |entries| ==> Rep(img, per, table, p.kids[i], p.idx, entries[i].node, own, inos)
  }

  // ---- framing ------------------------------------------------------------------------------------

  ghost predicate SameBlocks(img: Image, img': Image, own: set<nat>) {
    |img'| == |img| && forall b :: b in own && b < |img| ==> img'[b] == img[b]
  }

  lemma InsideFront(ptrs: seq<nat>, own: set<nat>)
    requires Inside(ptrs, own) && ptrs != []
    ensures Inside(ptrs[..|ptrs| - 1], own) && ptrs[|ptrs| - 1] in own
  {
    var front := ptrs[..|ptrs| - 1];
    forall p | p in front ensures p in ptrs {
    }
    assert ptrs[|ptrs| - 1] in ptrs;
  }

  lemma {:induction false} ReadDirFrame(img: Image, img': Image, per: nat, ptrs: seq<nat>, own: set<nat>)
    requires SameBlocks(img, img', own) && Inside(ptrs, own)
    ensures ReadDir(img', per, ptrs) == ReadDir(img, per, ptrs)
  {
    if ptrs != [] {
      InsideFront(ptrs, own);
      ReadDirFrame(img, img', per, ptrs[..|ptrs| - 1], own);
    }
  }

  lemma {:induction false} ReadBytesFrame(img: Image, img': Image, bs: nat, ptrs: seq<nat>, own: set<nat>)
    requires SameBlocks(img, img', own) && Inside(ptrs, own)
    ensures ReadBytes(img', bs, ptrs) == ReadBytes(img, bs, ptrs)
  {
    if ptrs != [] {
      InsideFront(ptrs, own);
      ReadBytesFrame(img, img', bs, ptrs[..|ptrs| - 1], own);
    }
  }

  lemma DirFrame(img: Image, img': Image, per: nat, ino: Inode, slots: seq<Dirent>, own: set<nat>, own': set<nat>)
    requires DirRep(img, per, ino, slots, own) && SameBlocks(img, img', own) && own <= own'
    ensures DirRep(img', per, ino, slots, own')
  {
    var ptrs :| DirBlocks(img, per, ino, slots, own, ptrs);
    ReadDirFrame(img, img', per, ptrs, own);
    assert DirBlocks(img', per, ino, slots, own', ptrs);
  }

  lemma FileFrame(img: Image, img': Image, bs: nat, ino: Inode, data: seq<Byte>, own: set<nat>, own': set<nat>)
    requires FileRep(img, bs, ino, data, own) && SameBlocks(img, img', own) && own <= own'
    ensures FileRep(img', bs, ino, data, own')
  {
    var ptrs :| FileBlocks(img, bs, ino, data, own, ptrs);
    ReadBytesFrame(img, img', bs, ptrs, own);
    assert FileBlocks(img', bs, ino, data, own', ptrs);
  }

  /** A tree stays where none of its blocks and inodes is written. */
  lemma {:induction false} RepFrame(img: Image, img': Image, per: nat, table: seq<Inode>, table': seq<Inode>,
                                    p: Placed, parent: nat, node: Node,
                                    own: set<nat>, inos: set<nat>, own': set<nat>, inos': set<nat>)
    requires Rep(img, per, table, p, parent, node, own, inos) && SameBlocks(img, img', own) && own <= own'
    requires inos <= inos'
    requires |table'| == |table| && forall i :: i in inos && i < |table| ==> table'[i] == table[i]
    ensures Rep(img', per, table', p, parent, node, own', inos')
    decreases node
  {
    match node
    case Leaf(data) => FileFrame(img, img', DIRENT_SIZE * per, table[p.idx], data, own, own');
    case Branch(entries) =>
      DirFrame(img, img', per, table[p.idx], Slots(p, parent, entries), own, own');
      forall i | 0 <= i < |entries| ensures Rep(img', per, table', p.kids[i], p.idx, entries[i].node, own', inos') {
        RepFrame(img, img', per, table, table', p.kids[i], p.idx, entries[i].node, own, inos, own', inos');
      }
  }
}
