/** Four-level page tables in flat physical memory (include/kernel/vmm.h, kernel/kernel/vmm.c).

Physical memory is a sequence of frames of 512 entries and the direct map is the identity.  A `Path`
names a position in an address space by the indices that lead to it; `Node` is the table found
there and `Translate` is what the processor makes of a page.  `Inv` says that the tables of all
live address spaces form trees that meet only below upper-half PML4 slots copied from the kernel.
*/
module PageTables {

  const ENTRIES: nat := 512
  const LOWER_HALF: nat := 256

  datatype Option<+T> = None | Some(value: T)

  /** The bits of an entry outside the address mask that the kernel uses. */
  datatype Flags = Flags(present: bool, writable: bool, user: bool, cache: nat, pageSize: bool, noExec: bool)

  /** A 64-bit entry, split by VMM_PTE_ADDR_MASK into a frame number and flags. */
  datatype Entry = Entry(frame: nat, flags: Flags)

  const NO_FLAGS := Flags(false, false, false, 0, false, false)
  const ZERO := Entry(0, NO_FLAGS)
  const TABLE_KERNEL := Flags(true, true, false, 0, false, false)
  const TABLE_USER := Flags(true, true, true, 0, false, false)
  const KERNEL_DATA := Flags(true, true, false, 0, false, true)
  const USER_CODE := Flags(true, true, true, 0, false, false)
  const USER_DATA := Flags(true, true, true, 0, false, true)

  type Table = t: seq<Entry> | |t| == 512 witness seq(512, _ => ZERO)
  type Memory = seq<Table>

  /** A table after `memset(table, 0, 4096)`. */
  function EmptyTable(): (t: Table)
    ensures forall i :: 0 <= i < 512 ==> t[i] == ZERO
  {
    seq(512, _ => ZERO)
  }

  /** What the memory bus returns: entry `i` of frame `f`, zero outside physical memory. */
  function At(mem: Memory, f: nat, i: nat): Entry {
    if f < |mem| && i < ENTRIES then mem[f][i] else ZERO
  }

  function Write(mem: Memory, f: nat, i: nat, e: Entry): (mem': Memory)
    requires f < |mem| && i < ENTRIES
    ensures |mem'| == |mem|
    ensures forall g, j :: At(mem', g, j) == if g == f && j == i then e else At(mem, g, j)
  {
    mem[f := mem[f][i := e]]
  }

  function Erase(mem: Memory, f: nat): (mem': Memory)
    requires f < |mem|
    ensures |mem'| == |mem|
    ensures forall g, j :: At(mem', g, j) == if g == f then ZERO else At(mem, g, j)
  {
    mem[f := EmptyTable()]
  }

  // ---- positions --------------------------------------------------------------------------------

  datatype Path = Root | Sub(up: Path, index: nat)

  function Depth(p: Path): nat {
    match p case Root => 0 case Sub(up, _) => Depth(up) + 1
  }

  /** The PML4 index a path starts with. */
  function Top(p: Path): nat
    requires p.Sub?
  {
    if p.up.Root? then p.index else Top(p.up)
  }

  /** An entry at depth 1 (PML4), 2 (PDPT) or 3 (PD) that points to a lower table. */
  predicate IsTable(e: Entry, depth: nat) {
    e != ZERO && 1 <= depth <= 3 && (depth == 1 || !e.flags.pageSize)
  }

  /** The entry at a path, zero when the walk stops above it. */
  function EntryAt(mem: Memory, r: nat, p: Path): Entry
    decreases p, 0
  {
    match p
    case Root => ZERO
    case Sub(up, i) =>
      match Node(mem, r, up)
      case None => ZERO
      case Some(t) => At(mem, t, i)
  }

  /** The table at a path of the address space rooted at `r`. */
  function Node(mem: Memory, r: nat, p: Path): Option<nat>
    decreases p, 1
  {
    if p.Root? then Some(r)
    else
      var e := EntryAt(mem, r, p);
      if IsTable(e, Depth(p)) then Some(e.frame) else None
  }

  // ---- pages and their translation --------------------------------------------------------------

  datatype Page = Page(i4: nat, i3: nat, i2: nat, i1: nat)

  datatype Mapping = Mapping(frame: nat, flags: Flags)

  function PathL4(v: Page): Path { Sub(Root, v.i4) }
  function PathL3(v: Page): Path { Sub(PathL4(v), v.i3) }
  function PathL2(v: Page): Path { Sub(PathL3(v), v.i2) }
  function PathL1(v: Page): Path { Sub(PathL2(v), v.i1) }

  function Leaf(e: Entry, offset: nat): Option<Mapping> {
    if e.flags.present then Some(Mapping(e.frame + offset, e.flags)) else None
  }

  /** The frame and flags that 4-level paging gives a page: 1 GiB, 2 MiB or 4 KiB leaf. */
  function Translate(mem: Memory, r: nat, v: Page): Option<Mapping> {
    var e3, e2, e1 := EntryAt(mem, r, PathL3(v)), EntryAt(mem, r, PathL2(v)), EntryAt(mem, r, PathL1(v));
    if e3.flags.pageSize then Leaf(e3, v.i2 * 512 + v.i1)
    else if e2.flags.pageSize then Leaf(e2, v.i1)
    else Leaf(e1, 0)
  }

  /** The page of a virtual address: the four index macros. */
  function PageOf(virt: nat): Page {
    Page(virt / 0x80_0000_0000 % 512, virt / 0x4000_0000 % 512, virt / 0x20_0000 % 512, virt / 0x1000 % 512)
  }

  // ---- the invariant ----------------------------------------------------------------------------

  /** Slot `i` of `r` is the kernel's own upper-half table. */
  predicate Shared(mem: Memory, k: nat, r: nat, i: nat) {
    && LOWER_HALF <= i
    && At(mem, r, i) != ZERO && At(mem, k, i) != ZERO
    && At(mem, r, i).frame == At(mem, k, i).frame
  }

  /** Position `p` of `r` and position `q` of `s` are the same place by construction. */
  predicate Same(mem: Memory, k: nat, r: nat, p: Path, s: nat, q: Path) {
    p == q && (r == s || (p.Sub? && Shared(mem, k, r, Top(p)) && Shared(mem, k, s, Top(p))))
  }

  ghost predicate Closed(mem: Memory, used: set<nat>, roots: set<nat>) {
    && (forall f :: f in used ==> f < |mem|)
    && forall r, p :: r in roots && Node(mem, r, p).Some? ==> Node(mem, r, p).value in used
  }

  ghost predicate Disjoint(mem: Memory, k: nat, roots: set<nat>) {
    forall r, p, s, q ::
      (r in roots && s in roots && Node(mem, r, p).Some? && Node(mem, r, p) == Node(mem, s, q)) ==>
        Same(mem, k, r, p, s, q)
  }

  ghost predicate Inv(mem: Memory, used: set<nat>, k: nat, roots: set<nat>) {
    k in roots && Closed(mem, used, roots) && Disjoint(mem, k, roots)
  }

  lemma KernelIn(mem: Memory, used: set<nat>, k: nat, roots: set<nat>)
    requires Inv(mem, used, k, roots)
    ensures k in roots
  {
  }

  /** Copied slots lead to the same tables. */
  lemma {:induction false} SharedNodes(mem: Memory, k: nat, r: nat, s: nat, p: Path)
    requires p.Sub? && Shared(mem, k, r, Top(p)) && Shared(mem, k, s, Top(p))
    ensures Node(mem, r, p) == Node(mem, s, p)
    ensures p.up.Sub? ==> EntryAt(mem, r, p) == EntryAt(mem, s, p)
  {
    if p.up.Sub? {
      SharedNodes(mem, k, r, s, p.up);
      assert EntryAt(mem, r, p) == EntryAt(mem, s, p);
    } else {
      SlotNode(mem, r, p.index);
      SlotNode(mem, s, p.index);
    }
  }

  /** A non-zero PML4 slot is a table. */
  lemma SlotNode(mem: Memory, r: nat, j: nat)
    ensures EntryAt(mem, r, Sub(Root, j)) == At(mem, r, j)
    ensures Node(mem, r, Sub(Root, j)) == if At(mem, r, j) == ZERO then None else Some(At(mem, r, j).frame)
  {
    assert Node(mem, r, Root) == Some(r);
    assert Depth(Sub(Root, j)) == Depth(Root) + 1 == 1;
  }

  // ---- writing a leaf ---------------------------------------------------------------------------

  /** Writing a non-table entry over a non-table entry moves no table. */
  lemma {:induction false} LeafWriteNodes(mem: Memory, used: set<nat>, k: nat, roots: set<nat>,
                                          r: nat, up: Path, f: nat, i: nat, e: Entry, s: nat, q: Path)
    requires Inv(mem, used, k, roots) && r in roots && s in roots
    requires Node(mem, r, up) == Some(f) && i < ENTRIES
    requires !IsTable(At(mem, f, i), Depth(up) + 1) && !IsTable(e, Depth(up) + 1)
    ensures f < |mem|
    ensures Node(Write(mem, f, i, e), s, q) == Node(mem, s, q)
    ensures EntryAt(Write(mem, f, i, e), s, q) ==
            if q == Sub(up, i) && Node(mem, s, up) == Some(f) then e else EntryAt(mem, s, q)
  {
    assert f in used;
    if q.Sub? {
      LeafWriteNodes(mem, used, k, roots, r, up, f, i, e, s, q.up);
      if Node(mem, s, q.up) == Some(f) {
        assert Same(mem, k, r, up, s, q.up);
      }
    }
  }

  /** A leaf write below the PML4 keeps the invariant. */
  lemma {:induction false} LeafWriteInv(mem: Memory, used: set<nat>, k: nat, roots: set<nat>,
                                        r: nat, up: Path, f: nat, i: nat, e: Entry)
    requires Inv(mem, used, k, roots) && r in roots
    requires up.Sub? && Node(mem, r, up) == Some(f) && i < ENTRIES
    requires !IsTable(At(mem, f, i), Depth(up) + 1) && !IsTable(e, Depth(up) + 1)
    ensures f < |mem|
    ensures Inv(Write(mem, f, i, e), used, k, roots)
    ensures forall s, j :: s in roots ==> At(Write(mem, f, i, e), s, j) == At(mem, s, j)
  {
    assert f in used;
    var mem' := Write(mem, f, i, e);
    forall s, q | s in roots ensures Node(mem', s, q) == Node(mem, s, q) {
      LeafWriteNodes(mem, used, k, roots, r, up, f, i, e, s, q);
    }
    forall s | s in roots ensures s != f {
      assert Node(mem, s, Root) == Some(s);
    }
    assert forall s, j :: s in roots ==> Shared(mem', k, s, j) == Shared(mem, k, s, j);
  }

  // ---- adding an empty table --------------------------------------------------------------------

  /** Memory after a zeroed frame `g` is hung into entry `i` of table `f`. */
  function Attach(mem: Memory, f: nat, i: nat, g: nat, flags: Flags): (mem': Memory)
    requires f < |mem| && g < |mem| && i < ENTRIES
    ensures |mem'| == |mem|
  {
    Write(Erase(mem, g), f, i, Entry(g, flags))
  }

  /** Hanging a fresh empty table into a zero entry adds one table and changes no other entry. */
  lemma {:induction false} AttachNodes(mem: Memory, used: set<nat>, k: nat, roots: set<nat>,
                                       r: nat, up: Path, f: nat, i: nat, g: nat, flags: Flags, s: nat, q: Path)
    requires Inv(mem, used, k, roots) && r in roots && s in roots
    requires Node(mem, r, up) == Some(f) && Depth(up) <= 2 && i < ENTRIES && At(mem, f, i) == ZERO
    requires g !in used && g < |mem| && flags.present && !flags.pageSize
    ensures f < |mem|
    ensures var mem', here := Attach(mem, f, i, g, flags), q == Sub(up, i) && Node(mem, s, up) == Some(f);
            && Node(mem', s, q) == (if here then Some(g) else Node(mem, s, q))
            && EntryAt(mem', s, q) == (if here then Entry(g, flags) else EntryAt(mem, s, q))
  {
    assert f in used;
    var mem' := Attach(mem, f, i, g, flags);
    if q.Sub? {
      AttachNodes(mem, used, k, roots, r, up, f, i, g, flags, s, q.up);
      if q.up == Sub(up, i) && Node(mem, s, up) == Some(f) {
        assert Depth(q.up) == Depth(up) + 1;
        assert EntryAt(mem, s, q.up) == ZERO && EntryAt(mem', s, q) == ZERO == EntryAt(mem, s, q);
      } else if Node(mem, s, q.up).Some? {
        var t := Node(mem, s, q.up).value;
        assert t in used && Node(mem', s, q.up) == Some(t);
        if t == f {
          assert Same(mem, k, r, up, s, q.up);
          assert EntryAt(mem', s, q) == if q.index == i then Entry(g, flags) else EntryAt(mem, s, q);
        } else {
          assert EntryAt(mem', s, q) == EntryAt(mem, s, q);
        }
      }
    }
  }

  /** Root slots other than the written one keep their entries, and no slot becomes shared. */
  lemma {:induction false} AttachSlots(mem: Memory, used: set<nat>, k: nat, roots: set<nat>,
                                       r: nat, up: Path, f: nat, i: nat, g: nat, flags: Flags)
    requires Inv(mem, used, k, roots) && r in roots
    requires Node(mem, r, up) == Some(f) && Depth(up) <= 2 && i < ENTRIES && At(mem, f, i) == ZERO
    requires g !in used && g < |mem| && flags.present && !flags.pageSize
    ensures f < |mem|
    ensures forall s, j :: s in roots && (s != r || up.Sub? || j != i) ==>
              At(Attach(mem, f, i, g, flags), s, j) == At(mem, s, j)
    ensures forall s, j :: s in roots && Shared(mem, k, s, j) ==> Shared(Attach(mem, f, i, g, flags), k, s, j)
    ensures forall s, j :: s in roots && s != k && Shared(Attach(mem, f, i, g, flags), k, s, j) ==> Shared(mem, k, s, j)
  {
    assert f in used;
    forall s | s in roots ensures s != g && (s == f ==> up == Root && s == r) {
      assert Node(mem, s, Root) == Some(s);
      if s == f { assert Same(mem, k, r, up, s, Root); }
    }
    forall s, j | s in roots && At(mem, s, j) != ZERO ensures At(mem, s, j).frame in used {
      SlotNode(mem, s, j);
    }
    var mem' := Attach(mem, f, i, g, flags);
    forall s, j | s in roots && s != k ensures Shared(mem', k, s, j) == Shared(mem, k, s, j) {
      assert At(mem', s, j) == At(mem, s, j) || (s == f && j == i && At(mem', s, j).frame == g);
      assert At(mem', k, j) == At(mem, k, j) || (k == f && j == i && At(mem', k, j).frame == g);
    }
  }

  /** ... and keeps the invariant, with the frame now in use. */
  lemma {:induction false} AttachInv(mem: Memory, used: set<nat>, k: nat, roots: set<nat>,
                                     r: nat, up: Path, f: nat, i: nat, g: nat, flags: Flags)
    requires Inv(mem, used, k, roots) && r in roots
    requires Node(mem, r, up) == Some(f) && Depth(up) <= 2 && i < ENTRIES && At(mem, f, i) == ZERO
    requires g !in used && g < |mem| && flags.present && !flags.pageSize
    ensures f < |mem|
    ensures Inv(Attach(mem, f, i, g, flags), used + {g}, k, roots)
    ensures forall s, j :: s in roots && (s != r || up.Sub? || j != i) ==>
              At(Attach(mem, f, i, g, flags), s, j) == At(mem, s, j)
  {
    assert f in used;
    var mem' := Attach(mem, f, i, g, flags);
    var here := Sub(up, i);
    forall s, q | s in roots
      ensures Node(mem', s, q) == if q == here && Node(mem, s, up) == Some(f) then Some(g) else Node(mem, s, q)
    {
      AttachNodes(mem, used, k, roots, r, up, f, i, g, flags, s, q);
    }
    AttachSlots(mem, used, k, roots, r, up, f, i, g, flags);
    forall s, p, t, q | s in roots && t in roots && Node(mem', s, p).Some? && Node(mem', s, p) == Node(mem', t, q)
      ensures Same(mem', k, s, p, t, q)
    {
      if p == here && Node(mem, s, up) == Some(f) {
        assert Same(mem, k, s, up, t, up);
      } else {
        assert Same(mem, k, s, p, t, q);
      }
    }
  }

  // ---- address spaces ---------------------------------------------------------------------------

  /** Marking more frames in use keeps the invariant. */
  lemma MoreUsed(mem: Memory, used: set<nat>, more: set<nat>, k: nat, roots: set<nat>)
    requires Inv(mem, used, k, roots) && used <= more && forall f :: f in more ==> f < |mem|
    ensures Inv(mem, more, k, roots)
  {
  }

  /** Zeroing a frame in no tree changes no walk. */
  lemma {:induction false} EraseNodes(mem: Memory, used: set<nat>, roots: set<nat>, g: nat, s: nat, q: Path)
    requires Closed(mem, used, roots) && s in roots && g !in used && g < |mem|
    ensures Node(Erase(mem, g), s, q) == Node(mem, s, q)
    ensures EntryAt(Erase(mem, g), s, q) == EntryAt(mem, s, q)
  {
    if q.Sub? { EraseNodes(mem, used, roots, g, s, q.up); }
  }

  lemma {:induction false} EmptyRoot(mem: Memory, g: nat, q: Path)
    requires g < |mem| && forall j :: At(mem, g, j) == ZERO
    ensures EntryAt(mem, g, q) == ZERO && (q.Sub? ==> Node(mem, g, q) == None)
  {
    if q.Sub? { EmptyRoot(mem, g, q.up); }
  }

  /** A fresh zeroed frame is a new, empty address space. */
  lemma AddRoot(mem: Memory, used: set<nat>, k: nat, roots: set<nat>, g: nat)
    requires Inv(mem, used, k, roots) && g !in used && g < |mem|
    ensures Inv(Erase(mem, g), used + {g}, k, roots + {g})
    ensures forall v :: Translate(Erase(mem, g), g, v) == None
    ensures forall s, v :: s in roots ==> Translate(Erase(mem, g), s, v) == Translate(mem, s, v)
  {
    var mem' := Erase(mem, g);
    forall s, q | s in roots ensures Node(mem', s, q) == Node(mem, s, q) && EntryAt(mem', s, q) == EntryAt(mem, s, q) {
      EraseNodes(mem, used, roots, g, s, q);
    }
    forall q ensures EntryAt(mem', g, q) == ZERO && (q.Sub? ==> Node(mem', g, q) == None) {
      EmptyRoot(mem', g, q);
    }
    forall s | s in roots ensures Node(mem, s, Root) == Some(s) && s in used {
    }
    assert forall s, j :: s in roots ==> Shared(mem', k, s, j) == Shared(mem, k, s, j);
  }

  /** Copying the kernel's slot `i` into an empty upper-half slot makes the two trees meet there. */
  lemma {:induction false} CopySlotNodes(mem: Memory, used: set<nat>, k: nat, roots: set<nat>, r: nat, i: nat, s: nat,
                                         q: Path)
    requires Inv(mem, used, k, roots) && r in roots && r != k && s in roots
    requires LOWER_HALF <= i < ENTRIES && At(mem, r, i) == ZERO
    ensures r < |mem|
    ensures var mem', src := Write(mem, r, i, At(mem, k, i)), if s == r && q.Sub? && Top(q) == i then k else s;
            Node(mem', s, q) == Node(mem, src, q) && EntryAt(mem', s, q) == EntryAt(mem, src, q)
  {
    assert Node(mem, r, Root) == Some(r);
    if q.Sub? {
      SlotNode(mem, s, q.index);
      SlotNode(mem, k, q.index);
      SlotNode(Write(mem, r, i, At(mem, k, i)), s, q.index);
      CopySlotNodes(mem, used, k, roots, r, i, s, q.up);
    }
  }

  lemma CopySlotInv(mem: Memory, used: set<nat>, k: nat, roots: set<nat>, r: nat, i: nat)
    requires Inv(mem, used, k, roots) && r in roots && r != k
    requires LOWER_HALF <= i < ENTRIES && At(mem, r, i) == ZERO
    ensures r < |mem|
    ensures Inv(Write(mem, r, i, At(mem, k, i)), used, k, roots)
  {
    assert Node(mem, r, Root) == Some(r);
    var mem' := Write(mem, r, i, At(mem, k, i));
    forall s, q | s in roots
      ensures Node(mem', s, q) == Node(mem, if s == r && q.Sub? && Top(q) == i then k else s, q)
    {
      CopySlotNodes(mem, used, k, roots, r, i, s, q);
    }
    forall s, p, t, q | s in roots && t in roots && Node(mem', s, p).Some? && Node(mem', s, p) == Node(mem', t, q)
      ensures Same(mem', k, s, p, t, q)
    {
      var s', t' := if s == r && p.Sub? && Top(p) == i then k else s, if t == r && q.Sub? && Top(q) == i then k else t;
      assert Same(mem, k, s', p, t', q);
      if p.Sub? { SlotOfNode(mem', s, p); SlotOfNode(mem', t, q); }
    }
  }

  /** A table below a slot means the slot is not zero. */
  lemma {:induction false} SlotOfNode(mem: Memory, r: nat, p: Path)
    requires p.Sub? && (Node(mem, r, p).Some? || (p.up.Sub? && EntryAt(mem, r, p) != ZERO))
    ensures At(mem, r, Top(p)) != ZERO
  {
    if p.up.Sub? { SlotOfNode(mem, r, p.up); } else { SlotNode(mem, r, p.index); }
  }

  // ---- what a leaf write and an attach do to translations ---------------------------------------

  /** The leaf of level 1 (4 KiB), 2 (2 MiB) or 3 (1 GiB) at `u` covers page `v`. */
  predicate Covers(level: nat, u: Page, v: Page) {
    u.i4 == v.i4 && u.i3 == v.i3 && (level <= 2 ==> u.i2 == v.i2) && (level <= 1 ==> u.i1 == v.i1)
  }

  /** Where page `v` lies inside a leaf of that level, in frames. */
  function Offset(level: nat, v: Page): nat {
    if level == 1 then 0 else if level == 2 then v.i1 else v.i2 * 512 + v.i1
  }

  function UpPath(level: nat, v: Page): Path
    requires 1 <= level <= 3
  {
    if level == 1 then PathL2(v) else if level == 2 then PathL3(v) else PathL4(v)
  }

  function UpIndex(level: nat, v: Page): nat
    requires 1 <= level <= 3
  {
    if level == 1 then v.i1 else if level == 2 then v.i2 else v.i3
  }

  /** Address spaces `r` and `s` have the same table in PML4 slot `i`. */
  predicate Sees(mem: Memory, k: nat, r: nat, s: nat, i: nat) {
    r == s || (Shared(mem, k, r, i) && Shared(mem, k, s, i))
  }

  /** Every address space translates every page as before, except that the pages of the leaf at `u`
      now get entry `e`, in `r` and in the spaces that share its PML4 slot. */
  ghost predicate Remapped(mem: Memory, mem': Memory, k: nat, roots: set<nat>, r: nat, level: nat, u: Page, e: Entry) {
    forall s, v :: s in roots ==>
      Translate(mem', s, v) ==
        if Covers(level, u, v) && Sees(mem', k, r, s, u.i4) then Leaf(e, Offset(level, v)) else Translate(mem, s, v)
  }

  /** The 4 KiB leaf entry of a page. */
  function LeafOf(mem: Memory, r: nat, v: Page): Entry {
    EntryAt(mem, r, PathL1(v))
  }

  /** Every 4 KiB leaf entry is as before except that of page `u`, which is now `e`. */
  ghost predicate LeafSet(mem: Memory, mem': Memory, k: nat, roots: set<nat>, r: nat, u: Page, e: Entry) {
    forall s, v :: s in roots ==>
      LeafOf(mem', s, v) == if v == u && Sees(mem', k, r, s, u.i4) then e else LeafOf(mem, s, v)
  }

  /** No 2 MiB or 1 GiB leaf has appeared. */
  ghost predicate NoNewLarge(mem: Memory, mem': Memory, roots: set<nat>) {
    forall s, q ::
        s in roots && Depth(q) <= 3 && EntryAt(mem', s, q).flags.pageSize ==> EntryAt(mem, s, q).flags.pageSize
  }

  /** Sharing a slot is the only way two address spaces reach one table. */
  lemma {:induction false} SeesTable(mem: Memory, used: set<nat>, k: nat, roots: set<nat>, r: nat, s: nat, p: Path)
    requires Inv(mem, used, k, roots) && r in roots && s in roots
    requires p.Sub? && Node(mem, r, p).Some?
    ensures Node(mem, s, p) == Node(mem, r, p) <==> Sees(mem, k, r, s, Top(p))
  {
    if Sees(mem, k, r, s, Top(p)) && r != s { SharedNodes(mem, k, r, s, p); }
    if Node(mem, s, p) == Node(mem, r, p) { assert Same(mem, k, r, p, s, p); }
  }

  lemma Depths(v: Page)
    ensures Depth(PathL4(v)) == 1 && Depth(PathL3(v)) == 2 && Depth(PathL2(v)) == 3 && Depth(PathL1(v)) == 4
    ensures Top(PathL4(v)) == Top(PathL3(v)) == Top(PathL2(v)) == v.i4
  {
    assert Depth(Root) == 0;
    assert Depth(PathL4(v)) == 1;
    assert Depth(PathL3(v)) == 2;
    assert Depth(PathL2(v)) == 3;
    assert Top(PathL4(v)) == v.i4;
    assert Top(PathL3(v)) == v.i4;
  }

  lemma {:induction false} LeafWriteRemaps(mem: Memory, used: set<nat>, k: nat, roots: set<nat>,
                                           r: nat, level: nat, u: Page, f: nat, e: Entry)
    requires Inv(mem, used, k, roots) && r in roots && 1 <= level <= 3
    requires Node(mem, r, UpPath(level, u)) == Some(f) && UpIndex(level, u) < ENTRIES
    requires level > 1 ==> (e == ZERO || e.flags.pageSize)
    requires level > 1 ==> !IsTable(At(mem, f, UpIndex(level, u)), 5 - level)
    ensures f < |mem|
    ensures var mem' := Write(mem, f, UpIndex(level, u), e);
            Inv(mem', used, k, roots) && Remapped(mem, mem', k, roots, r, level, u, e)
  {
    Depths(u);
    var up, i := UpPath(level, u), UpIndex(level, u);
    LeafWriteInv(mem, used, k, roots, r, up, f, i, e);
    var mem' := Write(mem, f, i, e);
    forall s, v | s in roots
      ensures Translate(mem', s, v) ==
        if Covers(level, u, v) && Sees(mem', k, r, s, u.i4) then Leaf(e, Offset(level, v)) else Translate(mem, s, v)
    {
      LeafWriteOne(mem, used, k, roots, r, level, u, f, e, s, v);
    }
  }

  lemma {:induction false} LeafWriteOne(mem: Memory, used: set<nat>, k: nat, roots: set<nat>,
                                        r: nat, level: nat, u: Page, f: nat, e: Entry, s: nat, v: Page)
    requires Inv(mem, used, k, roots) && r in roots && s in roots && 1 <= level <= 3
    requires Node(mem, r, UpPath(level, u)) == Some(f) && UpIndex(level, u) < ENTRIES
    requires level > 1 ==> (e == ZERO || e.flags.pageSize)
    requires level > 1 ==> !IsTable(At(mem, f, UpIndex(level, u)), 5 - level)
    ensures f < |mem|
    ensures Translate(Write(mem, f, UpIndex(level, u), e), s, v) ==
        if Covers(level, u, v) && Sees(mem, k, r, s, u.i4) then Leaf(e, Offset(level, v)) else Translate(mem, s, v)
  {
    Depths(u); Depths(v);
    var up, i := UpPath(level, u), UpIndex(level, u);
    LeafWriteNodes(mem, used, k, roots, r, up, f, i, e, s, PathL3(v));
    LeafWriteNodes(mem, used, k, roots, r, up, f, i, e, s, PathL2(v));
    LeafWriteNodes(mem, used, k, roots, r, up, f, i, e, s, PathL1(v));
    SeesTable(mem, used, k, roots, r, s, up);
  }

  /** Hanging in an empty table changes no translation anywhere. */
  lemma {:induction false} AttachTranslate(mem: Memory, used: set<nat>, k: nat, roots: set<nat>,
                                           r: nat, up: Path, f: nat, i: nat, g: nat, flags: Flags, s: nat, v: Page)
    requires Inv(mem, used, k, roots) && r in roots && s in roots
    requires Node(mem, r, up) == Some(f) && Depth(up) <= 2 && i < ENTRIES && At(mem, f, i) == ZERO
    requires g !in used && g < |mem| && flags.present && !flags.pageSize
    ensures f < |mem|
    ensures Translate(Attach(mem, f, i, g, flags), s, v) == Translate(mem, s, v)
  {
    Depths(v);
    assert Depth(Sub(up, i)) == Depth(up) + 1;
    AttachNodes(mem, used, k, roots, r, up, f, i, g, flags, s, PathL3(v));
    AttachNodes(mem, used, k, roots, r, up, f, i, g, flags, s, PathL2(v));
    AttachNodes(mem, used, k, roots, r, up, f, i, g, flags, s, PathL1(v));
  }

  lemma {:induction false} LeafWriteLeaves(mem: Memory, used: set<nat>, k: nat, roots: set<nat>, r: nat, u: Page,
                                           f: nat, e: Entry)
    requires Inv(mem, used, k, roots) && r in roots && Node(mem, r, PathL2(u)) == Some(f) && u.i1 < ENTRIES
    ensures f < |mem|
    ensures LeafSet(mem, Write(mem, f, u.i1, e), k, roots, r, u, e) && NoNewLarge(mem, Write(mem, f, u.i1, e), roots)
  {
    Depths(u);
    LeafWriteInv(mem, used, k, roots, r, PathL2(u), f, u.i1, e);
    var mem' := Write(mem, f, u.i1, e);
    forall s, v | s in roots
      ensures LeafOf(mem', s, v) == if v == u && Sees(mem', k, r, s, u.i4) then e else LeafOf(mem, s, v)
    {
      LeafWriteNodes(mem, used, k, roots, r, PathL2(u), f, u.i1, e, s, PathL1(v));
      SeesTable(mem, used, k, roots, r, s, PathL2(u));
    }
    forall s, q | s in roots && Depth(q) <= 3 ensures EntryAt(mem', s, q) == EntryAt(mem, s, q) {
      LeafWriteNodes(mem, used, k, roots, r, PathL2(u), f, u.i1, e, s, q);
    }
  }
}
