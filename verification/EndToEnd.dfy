/** From the host's files to the kernel's reader: populating an image (tools/bsfs/bsfs-populate.c), then resolving,
    opening and checking in the kernel (kernel/common/bsfs/bsfs.c). */
module EndToEnd {
  import opened Layout
  import opened DiskFormat
  import opened DiskTree
  import opened ImageBytes
  import opened Metadata
  import opened Populate
  import opened PopulateTree
  import opened Resolve
  import opened Reader

  /** What the kernel finds on the image bsfs-populate leaves. */
  lemma Mounts(img: Image, h: Header, offset: nat, sector: nat, p: Placed, entries: seq<Entry>,
               top: nat)
    returns (own: set<nat>, inos: set<nat>)
    requires Carries(img, h.blockSize, offset, p, entries, top) && Fits(Branch(entries), h.blockSize / DIRENT_SIZE)
    requires 0 < sector && sector % INODE_SIZE == 0 && h.blockSize % sector == 0 && Cap(h.blockSize, |img|) <= U32
    ensures var s := SuperAt(img, h.blockSize, offset);
      Mounted(img, Context(s.header, s.root, sector), p, Branch(entries), own, inos)
  {
    hide Rep, SuperAt, TableAt, Fits, Cap;
    var s := SuperAt(img, h.blockSize, offset);
    var c := Context(s.header, s.root, sector);
    own, inos :| Rep(img, Per(c), TableOf(img, c), p, p.idx, Branch(entries), own, inos) &&
        Between(own, s.header.dataStart, top);
    Wider(own, s.header.dataStart, top, |img|);
    FewInodes(s.header, |img|);
  }

  lemma Wider(own: set<nat>, lo: nat, top: nat, hi: nat)
    requires Between(own, lo, top) && top <= hi
    ensures Between(own, lo, hi)
  {
  }

  lemma FewInodes(h: Header, total: nat)
    requires TableFits(h, total) && Cap(h.blockSize, total) <= U32
    ensures h.inodeCount <= NOWHERE
  {
    CapMore(h.blockSize, h.inodeTableBlocks, total);
  }

  /** Every file of every tree within the limits, once populated, is opened on the image by the path of its names and
      passes its checksum. */
  method StoreAndVerify(h: Header, entries: seq<Entry>, names: seq<seq<Byte>>, sector: nat, maxRead: nat,
                        bufsize: nat, offset: nat, rest: Rest, ghost pos: seq<nat>)
    returns (v: Verdict)
    requires Formatted(h, offset) && FitsOn(h, entries) && Suits(h, rest) && h.blockSize <= 0x1_0000
    requires 0 < sector && sector % INODE_SIZE == 0 && h.blockSize % sector == 0
    requires Cap(h.blockSize, h.totalBlocks) <= U32
    requires Proper(Branch(entries)) && Reaches(Branch(entries), pos) && pos != []
    requires names == PathTo(Branch(entries), pos) && NodeAt(Branch(entries), pos).Leaf?
    requires h.blockSize <= bufsize <= maxRead && bufsize % h.blockSize == 0 && bufsize < 0xB000_0000
    ensures v == Accepted
  {
    hide Format, Volume.Valid, Holds, Rooted, SuperAt, Fits, BlocksOf, InodesOf, Proper, PathTo, NodeAt, Reaches,
         Suits, MapsStored, Cap, Mounted, Shaped, TopOf, LastBlock, Signed;
    var vol;
    ghost var p;
    vol, p := PopulateImage(h, entries, offset, rest);
    Sizes(vol, h);
    CapMore(h.blockSize, TopOf(h, entries), h.totalBlocks);
    ghost var own, inos := Mounts(vol.img, h, offset, sector, p, entries, TopOf(h, entries));
    var s := SuperAt(vol.img, h.blockSize, offset);
    v := OpenAndVerify(vol.img, Context(s.header, s.root, sector), names, maxRead, bufsize, p, Branch(entries), own,
        inos, pos);
  }
}
