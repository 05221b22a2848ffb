/** The structures BSFS keeps in blocks (include/common/bsfs/bsfs.h:56-104), and their bytes. */
module DiskFormat {
  import opened Layout

  type Byte = x: nat | x < 256

  const U64: nat := 0x1_0000_0000_0000_0000
  const NAME_MAX: nat := 124   // BSFS_MAX_DIRENTNAME
  const DIRECT: nat := 10      // BSFS_MAX_DIRECTBLOCKS
  const NOWHERE: nat := 0xFFFF_FFFF   // UINT32_MAX

  // ---- little-endian words ------------------------------------------------------------------------

  function PutU32(x: nat): (b: seq<Byte>)
    requires x < U32
    ensures |b| == 4
  {
    [x % 256, x / 256 % 256, x / 0x1_0000 % 256, x / 0x100_0000]
  }

  function GetU32(b: seq<Byte>): (x: nat)
    requires |b| == 4
    ensures x < U32
  {
    var p: nat, q: nat, r: nat, s: nat := b[0], b[1], b[2], b[3];
    p + 256 * q + 0x1_0000 * r + 0x100_0000 * s
  }

  lemma WordRoundTrip(x: nat)
    requires x < U32
    ensures GetU32(PutU32(x)) == x
  {
    var a := x / 256;
    var b := a / 256;
    assert x == 256 * a + x % 256 && a == 256 * b + a % 256 && b == 256 * (b / 256) + b % 256;
    assert x / 0x1_0000 == b && x / 0x100_0000 == b / 256;
  }

  // ---- C strings and directory entries ------------------------------------------------------------

  function Zeros(n: nat): (z: seq<Byte>)
    ensures |z| == n && forall i :: 0 <= i < n ==> z[i] == 0
  {
    seq(n, _ => 0)
  }

  /** The characters before the first NUL. */
  function CString(b: seq<Byte>): seq<Byte> {
    if b == [] || b[0] == 0 then [] else [b[0]] + CString(b[1..])
  }

  lemma {:induction false} CStringPadded(name: seq<Byte>, n: nat)
    requires 0 !in name && n > 0
    ensures CString(name + Zeros(n)) == name
  {
    if name == [] {
      assert name + Zeros(n) == Zeros(n);
    } else {
      assert (name + Zeros(n))[1..] == name[1..] + Zeros(n);
      CStringPadded(name[1..], n);
    }
  }

  datatype Dirent = Dirent(inode: nat, name: seq<Byte>)

  /** A name as snprintf stores it: cut to 123 characters, with NULs behind. */
  function PutName(name: seq<Byte>): (b: seq<Byte>)
    ensures |b| == NAME_MAX
  {
    var cut := if |name| < NAME_MAX then name else name[..NAME_MAX - 1];
    cut + Zeros(NAME_MAX - |cut|)
  }

  function PutDirent(d: Dirent): (b: seq<Byte>)
    requires d.inode < U32
    ensures |b| == DIRENT_SIZE
  {
    PutU32(d.inode) + PutName(d.name)
  }

  function GetDirent(b: seq<Byte>): (d: Dirent)
    requires |b| == DIRENT_SIZE
    ensures d.inode < U32
  {
    Dirent(GetU32(b[..4]), CString(b[4..]))
  }

  /** A name that survives being stored. */
  predicate Storable(name: seq<Byte>) {
    0 !in name && |name| < NAME_MAX
  }

  lemma DirentRoundTrip(d: Dirent)
    requires d.inode < U32 && 0 !in d.name
    ensures GetDirent(PutDirent(d)) == if |d.name| < NAME_MAX then d else Dirent(d.inode, d.name[..NAME_MAX - 1])
  {
    var b, cut := PutDirent(d), if |d.name| < NAME_MAX then d.name else d.name[..NAME_MAX - 1];
    assert b[..4] == PutU32(d.inode) && b[4..] == PutName(d.name);
    WordRoundTrip(d.inode);
    CStringPadded(cut, NAME_MAX - |cut|);
  }

  /** Storing loses nothing exactly for names of at most 123 characters. */
  lemma NameSurvives(d: Dirent)
    requires d.inode < U32 && 0 !in d.name
    ensures GetDirent(PutDirent(d)) == d <==> |d.name| < NAME_MAX
  {
    DirentRoundTrip(d);
  }

  /** An unused slot reads as the free inode with the empty name. */
  lemma EmptySlot()
    ensures GetDirent(Zeros(DIRENT_SIZE)) == Dirent(0, [])
  {
    var z := Zeros(DIRENT_SIZE);
    assert z[..4][0] == 0 && z[4..][0] == 0;
  }

  // ---- inodes -------------------------------------------------------------------------------------

  datatype Kind = Free | File | Directory

  datatype Inode = Inode(kind: Kind, size: nat, blocks: nat, direct: seq<nat>, l1: nat, checksum: bv32)

  function ZeroInode(): Inode {
    Inode(Free, 0, 0, seq(DIRECT, _ => 0), 0, 0)
  }
}
