/** Where the fields of the structures of BSFS are, byte by byte (include/common/bsfs/bsfs.h:31-93): every writer puts
them there and every reader finds them there. */
module Packed {
  import opened Layout
  import opened DiskFormat
  import opened DiskTree
  import opened DiskWrites
  import opened Metadata
  import opened LittleEndian

  /** The sizes of the members of a packed structure, in order. */
  const HEADER_MEMBERS: seq<nat> := [3, 4, 4, 4, 4, 4, 4, 4, 4, 4, 4, 4, 4, 4, 4, 4, 4, 4, 4, 8, 32, 395, 2]
  const INODE_MEMBERS: seq<nat> := [1, 2, 4, 4, 8, 4, 8, 8, 8, 4, 4 * DIRECT, 4, 4, 4, 4, 31 - DIRECT]
  const DIRENT_MEMBERS: seq<nat> := [4, NAME_MAX]

  /** Where member `i` begins: behind those before it. */
  function Offset(members: seq<nat>, i: nat): nat
    requires i <= |members|
  {
    if i == 0 then 0 else Offset(members, i - 1) + members[i - 1]
  }

  lemma InodeOffsets()
    ensures Offset(INODE_MEMBERS, 0) == 0 && Offset(INODE_MEMBERS, 1) == 1 && Offset(INODE_MEMBERS, 4) == 11
    ensures Offset(INODE_MEMBERS, 5) == 19 && Offset(INODE_MEMBERS, 6) == 23 && Offset(INODE_MEMBERS, 10) == 51
    ensures Offset(INODE_MEMBERS, 11) == 91 && Offset(INODE_MEMBERS, 12) == 95 && Offset(INODE_MEMBERS, 14) == 103
    ensures Offset(INODE_MEMBERS, 15) == 107 && Offset(INODE_MEMBERS, 16) == INODE_SIZE
  {
    var m := INODE_MEMBERS;
    assert Offset(m, 2) == 3 && Offset(m, 3) == 7;
    assert Offset(m, 4) == 11 && Offset(m, 5) == 19 && Offset(m, 6) == 23;
    assert Offset(m, 7) == 31 && Offset(m, 8) == 39 && Offset(m, 9) == 47;
    assert Offset(m, 10) == 51 && Offset(m, 11) == 91 && Offset(m, 12) == 95;
    assert Offset(m, 13) == 99 && Offset(m, 14) == 103 && Offset(m, 15) == 107;
  }

  lemma {:induction false} HeaderOffsets(i: nat)
    requires 1 <= i <= 19
    ensures Offset(HEADER_MEMBERS, i) == 4 * i - 1
  {
    if i > 1 { HeaderOffsets(i - 1); }
  }

  lemma HeaderEnd()
    ensures Offset(HEADER_MEMBERS, 23) == HEADER_SIZE && Offset(DIRENT_MEMBERS, 2) == DIRENT_SIZE
    ensures Offset(DIRENT_MEMBERS, 1) == 4
  {
    HeaderOffsets(19);
    assert Offset(HEADER_MEMBERS, 20) == 83 && Offset(HEADER_MEMBERS, 21) == 115 && Offset(HEADER_MEMBERS, 22) == 510;
    assert Offset(DIRENT_MEMBERS, 1) == 4;
  }

  // ---- inodes -------------------------------------------------------------------------------------

  /** The bytes of an inode as the structure declares it. */
  ghost predicate InodeBytes(b: seq<Byte>, size: nat, blocks: nat, direct: seq<nat>, l1: nat, checksum: nat)
    requires |direct| == DIRECT
  {
    && FieldAt(b, Offset(INODE_MEMBERS, 4), 8, size) && FieldAt(b, Offset(INODE_MEMBERS, 5), 4, blocks)
    && (forall i :: 0 <= i < DIRECT ==> FieldAt(b, Offset(INODE_MEMBERS, 10) + 4 * i, 4, direct[i]))
    && FieldAt(b, Offset(INODE_MEMBERS, 11), 4, l1) && FieldAt(b, Offset(INODE_MEMBERS, 14), 4, checksum)
  }

  /** BSFS_INODE_TYPE_FREE, BSFS_INODE_TYPE_FILE and BSFS_INODE_TYPE_DIRECTORY. */
  predicate TypeByte(kind: Kind, b: Byte) {
    b == if kind.Free? then 0 else if kind.File? then 1 else 2
  }

  lemma LongIs(b: seq<Byte>)
    requires |b| == 8
    ensures FieldAt(b, 0, 8, GetU64(b))
  {
    WordField(b[..4]);
    WordField(b[4..]);
    hide FieldAt, GetU32;
    assert b[..4] == b[0..0 + 4] && b[4..] == b[4..4 + 4];
    FieldWithin(b, 0, 4, 0, 4, GetU32(b[..4]));
    FieldWithin(b, 4, 4, 0, 4, GetU32(b[4..]));
    LongField(b, GetU32(b[..4]), GetU32(b[4..]));
  }

  /** A word at offset `off`. */
  lemma WordAt(b: seq<Byte>, off: nat)
    requires off + 4 <= |b|
    ensures FieldAt(b, off, 4, GetU32(b[off..off + 4]))
  {
    hide FieldAt, GetU32;
    WordField(b[off..off + 4]);
    FieldWithin(b, off, 4, 0, 4, GetU32(b[off..off + 4]));
  }

  lemma LongAt(b: seq<Byte>, off: nat)
    requires off + 8 <= |b|
    ensures FieldAt(b, off, 8, GetU64(b[off..off + 8]))
  {
    hide FieldAt, GetU64;
    LongIs(b[off..off + 8]);
    FieldWithin(b, off, 8, 0, 8, GetU64(b[off..off + 8]));
  }

  lemma TableWordAt(b: seq<Byte>, off: nat, n: nat, i: nat)
    requires off + 4 * n <= |b| && i < n
    ensures FieldAt(b, off + 4 * i, 4, ReadTable(b[off..off + 4 * n], n)[i])
  {
    hide FieldAt, GetU32;
    WordAt(b, off + 4 * i);
    var t, k := b[off..off + 4 * n], 4 * i;
    assert k + 4 <= |t| && t[k] == b[off + k] && t[k + 1] == b[off + k + 1] && t[k + 2] == b[off + k + 2] &&
      t[k + 3] == b[off + k + 3];
    assert t[k..k + 4] == b[off + k..off + k + 4];
  }

  /** Whatever 128 bytes hold, the reader finds the fields where the structure has them. */
  lemma InodeParsed(b: seq<Byte>)
    requires |b| == INODE_SIZE
    ensures var ino := GetInode(b);
      && InodeBytes(b, ino.size, ino.blocks, ino.direct, ino.l1, GetU32(b[103..107]))
      && ino.checksum == OfBits(GetU32(b[103..107]))
      && (ino.kind.File? <==> b[0] == 1) && (ino.kind.Directory? <==> b[0] == 2)
  {
    InodeOffsets();
    LongAt(b, 11);
    WordAt(b, 19);
    WordAt(b, 91);
    WordAt(b, 103);
    hide FieldAt, GetU32, GetU64, Bits, OfBits, Offset, ReadTable;
    forall i | 0 <= i < DIRECT ensures FieldAt(b, 51 + 4 * i, 4, GetInode(b).direct[i]) {
      TableWordAt(b, 51, DIRECT, i);
    }
  }

  /** The writer puts them there, with the type in the first byte, and leaves the rest in its place. */
  lemma InodeStored(ino: Inode, x: Extra)
    requires Sized(x)
    ensures var b := PutInode(ino, x);
      && TypeByte(ino.kind, b[0])
      && InodeBytes(b, ino.size % U64, ino.blocks % U32, Words(ino.direct, DIRECT), ino.l1 % U32, Bits(ino.checksum))
      && b[1..11] == x.owners && b[23..51] == x.times && b[95..103] == x.deeper && b[107..128] == x.padding
  {
    InodeRoundTrip(ino, x);
    var b := PutInode(ino, x);
    InodeParsed(b);
    hide InodeBytes, PutU64, PutU32, GetU32, PutTable, Bits, OfBits, Words;
    assert b[103..107] == PutU32(Bits(ino.checksum));
    WordRoundTrip(Bits(ino.checksum));
  }

  /** The words of a table are where an array has them. */
  lemma TableStored(t: seq<nat>, i: nat)
    requires (forall j :: 0 <= j < |t| ==> t[j] < U32) && i < |t|
    ensures FieldAt(PutTable(t), 4 * i, 4, t[i])
  {
    hide FieldAt, GetU32, PutU32;
    var b := PutTable(t);
    TableRoundTrip(t);
    TableWordAt(b, 0, |t|, i);
    assert b[0..0 + 4 * |t|] == b;
  }

  // ---- the header ---------------------------------------------------------------------------------

  /** Member `i` of the header is the word `v`. */
  ghost predicate HeaderWord(b: seq<Byte>, i: nat, v: int)
    requires i <= 23
  {
    v >= 0 && FieldAt(b, Offset(HEADER_MEMBERS, i), 4, v)
  }

  /** The bytes of a header as the structure declares it. */
  ghost predicate HeaderBytes(b: seq<Byte>, s: Super) {
    && HeaderWord(b, 1, s.magic) && HeaderWord(b, 2, s.version) && HeaderWord(b, 3, s.header.blockSize)
    && HeaderWord(b, 4, s.header.totalBlocks) && HeaderWord(b, 5, s.header.inodeCount)
    && HeaderWord(b, 6, s.header.freeBlocks) && HeaderWord(b, 7, s.freeInodes)
    && HeaderWord(b, 8, s.header.blockBitmapStart) && HeaderWord(b, 9, s.header.blockBitmapBlocks)
    && HeaderWord(b, 10, s.header.megablockBitmapStart) && HeaderWord(b, 11, s.header.megablockBitmapBlocks)
    && HeaderWord(b, 12, s.header.megablockBitmapSize) && HeaderWord(b, 13, s.header.inodeBitmapStart)
    && HeaderWord(b, 14, s.header.inodeBitmapBlocks) && HeaderWord(b, 15, s.header.inodeTableStart)
    && HeaderWord(b, 16, s.header.inodeTableBlocks) && HeaderWord(b, 17, s.header.dataStart)
    && HeaderWord(b, 18, s.root)
  }

  lemma HeaderWordIs(b: seq<Byte>, i: nat)
    requires |b| == HEADER_SIZE && i < WORDS
    ensures HeaderWord(b, i + 1, ReadTable(b[3..3 + 4 * WORDS], WORDS)[i])
  {
    hide FieldAt, ReadTable;
    HeaderOffsets(i + 1);
    TableWordAt(b, 3, WORDS, i);
  }

  lemma HeaderParsed(b: seq<Byte>)
    requires |b| == HEADER_SIZE
    ensures HeaderBytes(b, GetHeader(b))
  {
    hide HeaderWord, ReadTable;
    var w := ReadTable(b[3..3 + 4 * WORDS], WORDS);
    forall i | 0 <= i < WORDS ensures HeaderWord(b, i + 1, w[i]) { HeaderWordIs(b, i); }
    assert HeaderWord(b, 0 + 1, w[0]) && HeaderWord(b, 1 + 1, w[1]) && HeaderWord(b, 2 + 1, w[2]) &&
      HeaderWord(b, 3 + 1, w[3]) && HeaderWord(b, 4 + 1, w[4]) && HeaderWord(b, 5 + 1, w[5]);
    assert HeaderWord(b, 6 + 1, w[6]) && HeaderWord(b, 7 + 1, w[7]) && HeaderWord(b, 8 + 1, w[8]) &&
      HeaderWord(b, 9 + 1, w[9]) && HeaderWord(b, 10 + 1, w[10]) && HeaderWord(b, 11 + 1, w[11]);
    assert HeaderWord(b, 12 + 1, w[12]) && HeaderWord(b, 13 + 1, w[13]) && HeaderWord(b, 14 + 1, w[14]) &&
      HeaderWord(b, 15 + 1, w[15]) && HeaderWord(b, 16 + 1, w[16]) && HeaderWord(b, 17 + 1, w[17]);
  }

  lemma HeaderStored(s: Super, jump: seq<Byte>, rest: seq<Byte>)
    requires Storable32(s) && |jump| == 3 && |rest| == HEADER_SIZE - 3 - 4 * WORDS
    ensures HeaderBytes(PutHeader(s, jump, rest), s)
    ensures PutHeader(s, jump, rest)[..3] == jump && PutHeader(s, jump, rest)[75..] == rest
  {
    HeaderRoundTrip(s, jump, rest);
    HeaderParsed(PutHeader(s, jump, rest));
    hide HeaderBytes, PutTable, Fields;
  }

  // ---- directory entries --------------------------------------------------------------------------

  /** The inode comes first; the name follows, with a NUL behind it unless it fills its field. */
  ghost predicate DirentBytes(b: seq<Byte>, inode: nat, name: seq<Byte>) {
    && |b| == DIRENT_SIZE && FieldAt(b, 0, 4, inode) && |name| <= NAME_MAX && 0 !in name
    && b[4..4 + |name|] == name && (|name| < NAME_MAX ==> b[4 + |name|] == 0)
  }

  lemma {:induction false} CStringIs(b: seq<Byte>)
    ensures var s := CString(b);
      |s| <= |b| && 0 !in s && b[..|s|] == s && (|s| < |b| ==> b[|s|] == 0)
  {
    if b != [] && b[0] != 0 {
      CStringIs(b[1..]);
      var t := CString(b[1..]);
      assert b[..|t| + 1] == [b[0]] + b[1..][..|t|];
    }
  }

  lemma DirentParsed(b: seq<Byte>)
    requires |b| == DIRENT_SIZE
    ensures DirentBytes(b, GetDirent(b).inode, GetDirent(b).name)
  {
    WordAt(b, 0);
    CStringIs(b[4..]);
    hide FieldAt, GetU32, CString;
    var s := CString(b[4..]);
    assert b[4..][..|s|] == b[4..4 + |s|] && b[0..0 + 4] == b[..4];
  }

  lemma DirentStored(d: Dirent)
    requires d.inode < U32 && 0 !in d.name
    ensures DirentBytes(PutDirent(d), d.inode, if |d.name| < NAME_MAX then d.name else d.name[..NAME_MAX - 1])
  {
    DirentRoundTrip(d);
    DirentParsed(PutDirent(d));
    hide DirentBytes;
  }

  // ---- in an image --------------------------------------------------------------------------------

  /** Inode `i` of a table that follows byte `at`: its size is eight bytes from byte 128 i + 11 on, and so on. */
  lemma InodeInTable(table: seq<Inode>, extras: seq<Extra>, i: nat)
    requires |extras| == |table| && (forall i :: 0 <= i < |extras| ==> Sized(extras[i])) && i < |table|
    ensures var b, ino := TableBytes(table, extras)[INODE_SIZE * i..INODE_SIZE * i + INODE_SIZE], table[i];
      && TypeByte(ino.kind, b[0])
      && InodeBytes(b, ino.size % U64, ino.blocks % U32, Words(ino.direct, DIRECT), ino.l1 % U32, Bits(ino.checksum))
  {
    hide InodeBytes, PutInode, Words, Bits, TableBytes;
    TableEntry(table, extras, i);
    InodeStored(table[i], extras[i]);
  }
}
