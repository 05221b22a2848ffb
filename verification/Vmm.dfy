/** Mapping and unmapping (kernel/kernel/vmm.c) over the frame allocator. */
module Vmm {
  import opened PageTables
  import opened Ownership
  import opened FrameAllocator

  class AddressSpaces {
    const pmm: Pmm
    /** Physical memory, seen as page tables. */
    var mem: Memory
    /** PML4 frame of the kernel and of every live address space. */
    var kernel: nat
    ghost var roots: set<nat>

    ghost predicate Valid()
      reads this, pmm.bitmap
    {
      pmm.Valid() && |mem| == pmm.Frames() && Inv(mem, pmm.Used(), kernel, roots)
    }

    /** Process frames are reached once each. */
    ghost predicate Accounted()
      reads this, pmm.bitmap
    {
      OwnInv(mem, pmm.Used(), kernel, roots)
    }

    ghost function FramesOf(r: nat): set<nat>
      reads this, pmm.bitmap
    {
      Owned(mem, pmm.Used(), kernel, r)
    }

    ghost predicate Loose(h: nat)
      reads this
    {
      Unowned(mem, kernel, roots, h)
    }

    /** Starts from the kernel's PML4 just after `vmm_init`: one zeroed frame in use. */
    constructor (pmm: Pmm, memory: Memory, kernel: nat)
      requires pmm.Valid() && |memory| == pmm.Frames() && kernel in pmm.Used()
      requires forall i :: At(memory, kernel, i) == ZERO
      ensures Valid() && this.pmm == pmm && this.kernel == kernel
      ensures roots == {kernel} && mem == memory
      ensures Accounted() && forall v :: Translate(mem, kernel, v) == None
    {
      this.pmm, this.mem, this.kernel, this.roots := pmm, memory, kernel, {kernel};
      forall q ensures EntryAt(memory, kernel, q) == ZERO && (q.Sub? ==> Node(memory, kernel, q) == None) {
        EmptyRoot(memory, kernel, q);
      }
    }

    /** Follows entry `i` of `table`, hanging in a zeroed table first when the entry is zero.
        `ok` is false where the kernel panics for lack of memory. */
    method Descend(table: nat, i: nat, flags: Flags, ghost r: nat, ghost up: Path, ghost v: Page)
      returns (ok: bool, next: nat)
      requires OnPath(Sub(up, i), v) && Valid() && r in roots
      requires Depth(up) <= 2 && i < ENTRIES
      requires Node(mem, r, up) == Some(table)
      requires At(mem, table, i) == ZERO || IsTable(At(mem, table, i), Depth(up) + 1)
      requires flags.present && !flags.pageSize
      modifies this`mem, pmm.bitmap
      ensures ok ==> Valid() && Node(mem, r, Sub(up, i)) == Some(next)
      ensures ok ==> forall q :: q != Sub(up, i) ==> EntryAt(mem, r, q) == old(EntryAt(mem, r, q))
      ensures ok ==> Grown(old(mem), old(pmm.Used()), mem, pmm.Used(), kernel, roots, r, v)
      ensures ok ==> Hung(old(mem), mem, r, Sub(up, i), flags)
      ensures !ok ==> forall f: nat :: f < pmm.Frames() ==> f in pmm.Used()
    {
      assert table in pmm.Used();
      if At(mem, table, i) == ZERO {
        ok, next := pmm.Alloc();
        if !ok {
          return;
        }
        ghost var before, used := mem, old(pmm.Used());
        DescendFacts(before, used, kernel, roots, r, up, table, i, next, flags, v);
        mem := Write(Erase(mem, next), table, i, Entry(next, flags));
      } else {
        ok := true;
        next := mem[table][i].frame;
      }
    }

    /** Walks to the page table of `v`, creating the missing tables on the way. */
    method Walk(r: nat, v: Page, flags: Flags) returns (ok: bool, pt: nat)
      requires Valid() && r in roots && v.i4 < ENTRIES
      requires v.i3 < ENTRIES && v.i2 < ENTRIES
      requires !EntryAt(mem, r, PathL3(v)).flags.pageSize && !EntryAt(mem, r, PathL2(v)).flags.pageSize
      requires flags.present && !flags.pageSize
      modifies this`mem, pmm.bitmap
      ensures ok ==> Valid() && Node(mem, r, PathL2(v)) == Some(pt)
      ensures ok ==> EntryAt(mem, r, PathL1(v)) == old(EntryAt(mem, r, PathL1(v)))
      ensures ok ==> Grown(old(mem), old(pmm.Used()), mem, pmm.Used(), kernel, roots, r, v)
      ensures ok ==> HungTo(old(mem), mem, r, v, 1, flags)
      ensures !ok ==> forall f: nat :: f < pmm.Frames() ==> f in pmm.Used()
    {
      hide Inv, Grown, Translate, PageTables.Shared;
      Depths(v);
      pt := 0;
      ghost var m0, u0 := mem, pmm.Used();
      var pdpt, pd;
      SlotNode(mem, r, v.i4);
      ok, pdpt := Descend(r, v.i4, flags, r, Root, v);
      if !ok { return; }
      ghost var m1, u1 := mem, pmm.Used();
      ok, pd := Descend(pdpt, v.i3, flags, r, PathL4(v), v);
      if !ok { return; }
      ghost var m2, u2 := mem, pmm.Used();
      GrownTrans(m0, u0, m1, u1, m2, u2, kernel, roots, r, v);
      ok, pt := Descend(pd, v.i2, flags, r, PathL3(v), v);
      if !ok { return; }
      GrownTrans(m0, u0, m2, u2, mem, pmm.Used(), kernel, roots, r, v);
    }

    /** vmm_map: after it, exactly the named page translates to the new frame, in `r` and in the address
        spaces that share its PML4 slot; every other page of every address space is as before. */
    method Map(r: nat, frame: nat, virt: nat, flags: Flags) returns (ok: bool)
      requires Valid() && r in roots
      requires !EntryAt(mem, r, PathL3(PageOf(virt))).flags.pageSize
      requires !EntryAt(mem, r, PathL2(PageOf(virt))).flags.pageSize
      modifies this`mem, pmm.bitmap
      ensures ok ==> Valid() && Remapped(old(mem), mem, kernel, roots, r, 1, PageOf(virt), Entry(frame, flags))
      ensures ok ==>
        LeafSet(old(mem), mem, kernel, roots, r, PageOf(virt), Entry(frame, flags)) &&
        NoNewLarge(old(mem), mem, roots)
      ensures ok ==> TablesAdded(old(mem), mem, roots, PageOf(virt)) && Node(mem, r, PathL2(PageOf(virt))).Some?
      ensures ok ==> TablesTaken(old(mem), old(pmm.Used()), mem, pmm.Used(), r, PageOf(virt))
      ensures ok ==> old(pmm.Used()) <= pmm.Used() && SharesKept(old(mem), mem, kernel, roots)
      ensures ok ==> (UserTo(mem, r, PageOf(virt), 1) <==> flags.user && OpenTo(old(mem), r, PageOf(virt), 1))
      ensures !ok ==> forall f: nat :: f < pmm.Frames() ==> f in pmm.Used()
      ensures ok && Mappable(old(mem), old(pmm.Used()), kernel, roots, r, frame, PageOf(virt)) && flags.present ==>
                MapBalance(old(mem), old(pmm.Used()), mem, pmm.Used(), kernel, roots, r, frame, PageOf(virt))
      ensures ok && Remappable(old(mem), old(pmm.Used()), kernel, roots, r, frame, PageOf(virt)) && flags.present ==>
                RemapBalance(old(mem), old(pmm.Used()), mem, pmm.Used(), kernel, roots, r, frame, PageOf(virt))
    {
      hide Inv, Grown, Translate, Remapped, Mappable, MapBalance, Remappable, RemapBalance, OwnInv;
      var v := PageOf(virt);
      var pt;
      ok, pt := Walk(r, v, if flags.user then TABLE_USER else TABLE_KERNEL);
      if !ok { return; }
      ghost var m1 := mem;
      LeafWriteRemaps(mem, pmm.Used(), kernel, roots, r, 1, v, pt, Entry(frame, flags));
      LeafAccess(old(mem), mem, pmm.Used(), kernel, roots, r, 1, v, pt, Entry(frame, flags));
      mem := Write(mem, pt, v.i1, Entry(frame, flags));
      MapFacts(old(mem), old(pmm.Used()), m1, pmm.Used(), mem, kernel, roots, r, v, pt, frame, flags);
    }

    /** vmm_unmap: exactly the named page loses its translation. */
    method Unmap(r: nat, virt: nat)
      requires Valid() && r in roots && Node(mem, r, PathL2(PageOf(virt))).Some?
      modifies this`mem
      ensures Valid() && Remapped(old(mem), mem, kernel, roots, r, 1, PageOf(virt), ZERO)
      ensures LeafSet(old(mem), mem, kernel, roots, r, PageOf(virt), ZERO) && NoNewLarge(old(mem), mem, roots)
      ensures SharesKept(old(mem), mem, kernel, roots) && NodesKept(old(mem), mem, roots)
      ensures old(Accounted()) ==> UnmapBalance(old(mem), mem, pmm.Used(), kernel, roots, r, PageOf(virt))
    {
      hide Inv, Translate, Remapped, OwnInv, UnmapBalance, Node, EntryAt, LeafSet, NoNewLarge, SharesKept, NodesKept;
      var v := PageOf(virt);
      WalkDown(mem, r, v);
      var pdpt := At(mem, r, v.i4).frame;
      var pd := At(mem, pdpt, v.i3).frame;
      var pt := At(mem, pd, v.i2).frame;
      LeafCleared(mem, pmm.Used(), kernel, roots, r, v, pt);
      if Accounted() { UnmapFacts(mem, pmm.Used(), kernel, roots, r, v, pt); }
      mem := Write(mem, pt, v.i1, ZERO);
    }

    /** vmm_map_large: exactly the 512 pages of the named 2 MiB range change. */
    method MapLarge(r: nat, frame: nat, virt: nat, flags: Flags) returns (ok: bool)
      requires Valid() && r in roots && !EntryAt(mem, r, PathL3(PageOf(virt))).flags.pageSize
      requires !IsTable(EntryAt(mem, r, PathL2(PageOf(virt))), 3)
      modifies this`mem, pmm.bitmap
      ensures ok ==>
        Valid() && Remapped(old(mem), mem, kernel, roots, r, 2, PageOf(virt), Entry(frame, flags.(pageSize := true)))
      ensures ok ==> (UserTo(mem, r, PageOf(virt), 2) <==> flags.user && OpenTo(old(mem), r, PageOf(virt), 2))
      ensures ok ==> old(pmm.Used()) <= pmm.Used() && SharesKept(old(mem), mem, kernel, roots)
      ensures !ok ==> forall f: nat :: f < pmm.Frames() ==> f in pmm.Used()
      ensures ok && old(Accounted()) ==> Accounted()
    {
      hide Inv, Translate, Remapped, OwnInv, Hung, HungTo, UserTo, OpenTo, Grown, SharesKept;
      var v, iflags := PageOf(virt), if flags.user then TABLE_USER else TABLE_KERNEL;
      Depths(v);
      SlotNode(mem, r, v.i4);
      ghost var m0, u0 := mem, pmm.Used();
      var pdpt, pd;
      ok, pdpt := Descend(r, v.i4, iflags, r, Root, v);
      if !ok { return; }
      ghost var m1, u1 := mem, pmm.Used();
      ok, pd := Descend(pdpt, v.i3, iflags, r, PathL4(v), v);
      if !ok { return; }
      HungTwice(m0, m1, mem, r, v, iflags);
      GrownTrans(m0, u0, m1, u1, mem, pmm.Used(), kernel, roots, r, v);
      LargeFacts(m0, u0, mem, pmm.Used(), kernel, roots, r, 2, v, pd, Entry(frame, flags.(pageSize := true)));
      LeafAccess(m0, mem, pmm.Used(), kernel, roots, r, 2, v, pd, Entry(frame, flags.(pageSize := true)));
      mem := Write(mem, pd, v.i2, Entry(frame, flags.(pageSize := true)));
    }

    method UnmapLarge(r: nat, virt: nat)
      requires Valid() && r in roots && Node(mem, r, PathL3(PageOf(virt))).Some?
      requires !IsTable(EntryAt(mem, r, PathL2(PageOf(virt))), 3)
      modifies this`mem
      ensures Valid() && Remapped(old(mem), mem, kernel, roots, r, 2, PageOf(virt), ZERO)
      ensures SharesKept(old(mem), mem, kernel, roots) && (old(Accounted()) ==> Accounted())
    {
      hide Translate, Remapped, OwnInv;
      var v := PageOf(virt);
      Depths(v);
      assert EntryAt(mem, r, PathL3(v)) != ZERO && Node(mem, r, PathL4(v)).Some? && Node(mem, r, Root) == Some(r);
      var pdpt := At(mem, r, v.i4).frame;
      var pd := At(mem, pdpt, v.i3).frame;
      GrownRefl(mem, pmm.Used(), kernel, roots, r, v);
      LargeFacts(mem, pmm.Used(), mem, pmm.Used(), kernel, roots, r, 2, v, pd, ZERO);
      mem := Write(mem, pd, v.i2, ZERO);
    }

    /** vmm_map_huge: exactly the 512 * 512 pages of the named 1 GiB range change. */
    method MapHuge(r: nat, frame: nat, virt: nat, flags: Flags) returns (ok: bool)
      requires Valid() && r in roots && !IsTable(EntryAt(mem, r, PathL3(PageOf(virt))), 2)
      modifies this`mem, pmm.bitmap
      ensures ok ==>
        Valid() && Remapped(old(mem), mem, kernel, roots, r, 3, PageOf(virt), Entry(frame, flags.(pageSize := true)))
      ensures ok ==> (UserTo(mem, r, PageOf(virt), 3) <==> flags.user && OpenTo(old(mem), r, PageOf(virt), 3))
      ensures ok ==> old(pmm.Used()) <= pmm.Used() && SharesKept(old(mem), mem, kernel, roots)
      ensures !ok ==> forall f: nat :: f < pmm.Frames() ==> f in pmm.Used()
      ensures ok && old(Accounted()) ==> Accounted()
    {
      hide Inv, Translate, Remapped, OwnInv;
      var v, iflags := PageOf(virt), if flags.user then TABLE_USER else TABLE_KERNEL;
      Depths(v);
      SlotNode(mem, r, v.i4);
      ghost var m0, u0 := mem, pmm.Used();
      var pdpt;
      ok, pdpt := Descend(r, v.i4, iflags, r, Root, v);
      if !ok { return; }
      LargeFacts(m0, u0, mem, pmm.Used(), kernel, roots, r, 3, v, pdpt, Entry(frame, flags.(pageSize := true)));
      LeafAccess(m0, mem, pmm.Used(), kernel, roots, r, 3, v, pdpt, Entry(frame, flags.(pageSize := true)));
      mem := Write(mem, pdpt, v.i3, Entry(frame, flags.(pageSize := true)));
    }

    method UnmapHuge(r: nat, virt: nat)
      requires Valid() && r in roots && Node(mem, r, PathL4(PageOf(virt))).Some?
      requires !IsTable(EntryAt(mem, r, PathL3(PageOf(virt))), 2)
      modifies this`mem
      ensures Valid() && Remapped(old(mem), mem, kernel, roots, r, 3, PageOf(virt), ZERO)
      ensures SharesKept(old(mem), mem, kernel, roots) && (old(Accounted()) ==> Accounted())
    {
      hide Translate, Remapped, OwnInv;
      var v := PageOf(virt);
      Depths(v);
      SlotNode(mem, r, v.i4);
      var pdpt := At(mem, r, v.i4).frame;
      GrownRefl(mem, pmm.Used(), kernel, roots, r, v);
      LargeFacts(mem, pmm.Used(), mem, pmm.Used(), kernel, roots, r, 3, v, pdpt, ZERO);
      mem := Write(mem, pdpt, v.i3, ZERO);
    }
  }

  // ---- access from user mode --------------------------------------------------------------------------

  /** The entry at `q` is as before, or a table was hung in where there was none, with `flags`. */
  ghost predicate Hung(m: Memory, m': Memory, r: nat, q: Path, flags: Flags) {
    EntryAt(m', r, q).flags == if EntryAt(m, r, q) == ZERO then flags else EntryAt(m, r, q).flags
  }

  /** The same for the tables above the leaf of level `level` on the walk to `v`. */
  ghost predicate HungTo(m: Memory, m': Memory, r: nat, v: Page, level: nat, flags: Flags) {
    && Hung(m, m', r, PathL4(v), flags) && (level <= 2 ==> Hung(m, m', r, PathL3(v), flags))
    && (level <= 1 ==> Hung(m, m', r, PathL2(v), flags))
  }

  lemma HungTwice(m0: Memory, m1: Memory, m2: Memory, r: nat, v: Page, flags: Flags)
    requires Hung(m0, m1, r, PathL4(v), flags) && Hung(m1, m2, r, PathL3(v), flags)
    requires EntryAt(m1, r, PathL3(v)) == EntryAt(m0, r, PathL3(v))
    requires EntryAt(m2, r, PathL4(v)) == EntryAt(m1, r, PathL4(v))
    ensures HungTo(m0, m2, r, v, 2, flags)
  {
  }

  /** The user bit is set in every entry on the walk to `v`, down to the leaf of level `level`: the processor lets user
      mode through. */
  ghost predicate UserTo(m: Memory, r: nat, v: Page, level: nat) {
    && EntryAt(m, r, PathL4(v)).flags.user && EntryAt(m, r, PathL3(v)).flags.user
    && (level <= 2 ==> EntryAt(m, r, PathL2(v)).flags.user) && (level <= 1 ==> EntryAt(m, r, PathL1(v)).flags.user)
  }

  /** The tables there are above the leaf let user mode through. */
  ghost predicate OpenTo(m: Memory, r: nat, v: Page, level: nat) {
    && Open(m, r, PathL4(v)) && (level <= 2 ==> Open(m, r, PathL3(v))) && (level <= 1 ==> Open(m, r, PathL2(v)))
  }

  ghost predicate Open(m: Memory, r: nat, q: Path) {
    EntryAt(m, r, q) == ZERO || EntryAt(m, r, q).flags.user
  }

  /** A leaf for user mode is reached from user mode exactly when the tables that were there let it through. */
  lemma LeafAccess(m0: Memory, m1: Memory, u: set<nat>, k: nat, roots: set<nat>, r: nat, level: nat, v: Page, f: nat,
                   e: Entry)
    requires Inv(m1, u, k, roots) && r in roots && 1 <= level <= 3
    requires Node(m1, r, UpPath(level, v)) == Some(f) && UpIndex(level, v) < ENTRIES
    requires level > 1 ==> !IsTable(At(m1, f, UpIndex(level, v)), 5 - level) && e.flags.pageSize
    requires HungTo(m0, m1, r, v, level, if e.flags.user then TABLE_USER else TABLE_KERNEL)
    ensures f < |m1|
    ensures UserTo(Write(m1, f, UpIndex(level, v), e), r, v, level) <==> e.flags.user && OpenTo(m0, r, v, level)
  {
    hide Inv, EntryAt, Node;
    Depths(v);
    var up, i := UpPath(level, v), UpIndex(level, v);
    LeafWriteNodes(m1, u, k, roots, r, up, f, i, e, r, PathL4(v));
    LeafWriteNodes(m1, u, k, roots, r, up, f, i, e, r, PathL3(v));
    LeafWriteNodes(m1, u, k, roots, r, up, f, i, e, r, PathL2(v));
    LeafWriteNodes(m1, u, k, roots, r, up, f, i, e, r, PathL1(v));
  }

  lemma GrownRefl(m: Memory, u: set<nat>, k: nat, roots: set<nat>, r: nat, v: Page)
    ensures Grown(m, u, m, u, k, roots, r, v)
  {
  }

  /** A large or huge leaf write after the tables above it were created. */
  lemma {:induction false} LargeFacts(m0: Memory, u0: set<nat>, m1: Memory, u1: set<nat>, k: nat, roots: set<nat>,
                                      r: nat, level: nat, v: Page, f: nat, e: Entry)
    requires Inv(m1, u1, k, roots) && r in roots && Grown(m0, u0, m1, u1, k, roots, r, v) && 2 <= level <= 3
    requires Node(m1, r, UpPath(level, v)) == Some(f) && UpIndex(level, v) < ENTRIES
    requires e == ZERO || e.flags.pageSize
    requires !IsTable(At(m1, f, UpIndex(level, v)), 5 - level)
    ensures f < |m1|
    ensures var m2 := Write(m1, f, UpIndex(level, v), e);
      && Inv(m2, u1, k, roots) && Remapped(m0, m2, k, roots, r, level, v, e)
      && SharesKept(m0, m2, k, roots) && (OwnInv(m0, u0, k, roots) ==> OwnInv(m2, u1, k, roots)) && u0 <= u1
  {
    Depths(v);
    var up, i := UpPath(level, v), UpIndex(level, v);
    LeafWriteInv(m1, u1, k, roots, r, up, f, i, e);
    LeafWriteRemaps(m1, u1, k, roots, r, level, v, f, e);
    var m2 := Write(m1, f, i, e);
    assert forall s, j :: s in roots ==> Shared(m2, k, s, j) == Shared(m1, k, s, j);
    if OwnInv(m0, u0, k, roots) {
      LeafOwnInv(m1, u1, k, roots, r, up, f, i, e);
    }
  }

  /** Slots shared with the kernel stay shared, and no other slot of a process becomes so. */
  ghost predicate SharesKept(m: Memory, m': Memory, k: nat, roots: set<nat>) {
    && (forall s, i :: s in roots && Shared(m, k, s, i) ==> Shared(m', k, s, i))
    && (forall s, i :: s in roots && s != k && Shared(m', k, s, i) ==> Shared(m, k, s, i))
  }

  /** A frame that may be mapped at `v` of `r` without being reached twice. */
  ghost predicate Mappable(m: Memory, u: set<nat>, k: nat, roots: set<nat>, r: nat, frame: nat, v: Page) {
    && OwnInv(m, u, k, roots)
    && (Private(m, k, r, PathL4(v)) ==> frame in u && Unowned(m, k, roots, frame) && EntryAt(m, r, PathL1(v)) == ZERO)
  }

  /** Mapping a loose frame gives `r` that frame and the new tables, and nobody else anything. */
  ghost predicate MapBalance(m: Memory, u: set<nat>, m': Memory, u': set<nat>, k: nat, roots: set<nat>,
                             r: nat, frame: nat, v: Page) {
    && OwnInv(m', u', k, roots)
    && (forall h ::
         h in u && (h != frame || !Private(m, k, r, PathL4(v))) && Unowned(m, k, roots, h) ==>
         Unowned(m', k, roots, h))
    && (forall s :: s in roots ==>
          Owned(m', u', k, s) ==
          Owned(m, u, k, s) + if s == r && Private(m, k, r, PathL4(v)) then u' - u + {frame} else {})
  }

  /** A frame that may be mapped at `v` of `r`, which may be mapped already. */
  ghost predicate Remappable(m: Memory, u: set<nat>, k: nat, roots: set<nat>, r: nat, frame: nat, v: Page) {
    OwnInv(m, u, k, roots) && (Private(m, k, r, PathL4(v)) ==> frame in u && Unowned(m, k, roots, frame))
  }

  /** Mapping it gives `r` that frame and the new tables, takes from it the frame that was mapped there, and nobody else
      anything. */
  ghost predicate RemapBalance(m: Memory, u: set<nat>, m': Memory, u': set<nat>, k: nat, roots: set<nat>,
                               r: nat, frame: nat, v: Page) {
    && OwnInv(m', u', k, roots)
    && (forall s :: s in roots ==>
          Owned(m', u', k, s) ==
          if s == r && Private(m, k, r, PathL4(v))
          then Owned(m, u, k, s) + (u' - u) - Target(EntryAt(m, r, PathL1(v))) + {frame} else Owned(m, u, k, s))
  }

  /** Unmapping takes the leaf's frame from its owner and leaves it loose. */
  ghost predicate UnmapBalance(m: Memory, m': Memory, u: set<nat>, k: nat, roots: set<nat>, r: nat, v: Page) {
    var gone := if Private(m, k, r, PathL4(v)) then Target(EntryAt(m, r, PathL1(v))) else {};
    && OwnInv(m', u, k, roots)
    && (forall h :: Unowned(m, k, roots, h) || h in gone ==> Unowned(m', k, roots, h))
    && (forall s :: s in roots ==> Owned(m', u, k, s) == Owned(m, u, k, s) - if s == r then gone else {})
  }

  lemma {:induction false} MapFacts(m0: Memory, u0: set<nat>, m1: Memory, u1: set<nat>, m2: Memory, k: nat,
                                    roots: set<nat>,
                                    r: nat, v: Page, pt: nat, frame: nat, flags: Flags)
    requires Inv(m1, u1, k, roots) && r in roots && Grown(m0, u0, m1, u1, k, roots, r, v)
    requires Node(m1, r, PathL2(v)) == Some(pt) && v.i1 < ENTRIES && pt < |m1|
    requires m2 == Write(m1, pt, v.i1, Entry(frame, flags))
    requires EntryAt(m1, r, PathL1(v)) == EntryAt(m0, r, PathL1(v))
    requires Remapped(m1, m2, k, roots, r, 1, v, Entry(frame, flags))
    ensures Remapped(m0, m2, k, roots, r, 1, v, Entry(frame, flags)) && u0 <= u1
    ensures LeafSet(m0, m2, k, roots, r, v, Entry(frame, flags)) && NoNewLarge(m0, m2, roots)
    ensures SharesKept(m0, m2, k, roots) && TablesAdded(m0, m2, roots, v) && Node(m2, r, PathL2(v)).Some?
    ensures TablesTaken(m0, u0, m2, u1, r, v)
    ensures Mappable(m0, u0, k, roots, r, frame, v) && flags.present ==>
              MapBalance(m0, u0, m2, u1, k, roots, r, frame, v)
    ensures Remappable(m0, u0, k, roots, r, frame, v) && flags.present ==>
              RemapBalance(m0, u0, m2, u1, k, roots, r, frame, v)
  {
    Depths(v);
    var up := PathL2(v);
    LeafWriteInv(m1, u1, k, roots, r, up, pt, v.i1, Entry(frame, flags));
    LeafWriteLeaves(m1, u1, k, roots, r, v, pt, Entry(frame, flags));
    assert forall s, i :: s in roots ==> Shared(m2, k, s, i) == Shared(m1, k, s, i);
    forall s, q | s in roots ensures Node(m2, s, q) == Node(m1, s, q) {
      LeafWriteNodes(m1, u1, k, roots, r, up, pt, v.i1, Entry(frame, flags), s, q);
    }
    if Mappable(m0, u0, k, roots, r, frame, v) && flags.present {
      LeafOwnInv(m1, u1, k, roots, r, up, pt, v.i1, Entry(frame, flags));
      forall s | s in roots
        ensures Owned(m2, u1, k, s) ==
                Owned(m0, u0, k, s) + if s == r && Private(m0, k, r, PathL4(v)) then u1 - u0 + {frame} else {}
      {
        LeafOwned(m1, u1, k, roots, r, up, pt, v.i1, Entry(frame, flags), s);
      }
    }
    if Remappable(m0, u0, k, roots, r, frame, v) && flags.present {
      RemapFacts(m0, u0, m1, u1, m2, k, roots, r, v, pt, frame, flags);
    }
  }

  lemma {:induction false} RemapFacts(m0: Memory, u0: set<nat>, m1: Memory, u1: set<nat>, m2: Memory, k: nat,
                                      roots: set<nat>, r: nat, v: Page, pt: nat, frame: nat, flags: Flags)
    requires Inv(m1, u1, k, roots) && r in roots && Grown(m0, u0, m1, u1, k, roots, r, v)
    requires Node(m1, r, PathL2(v)) == Some(pt) && v.i1 < ENTRIES && pt < |m1|
    requires m2 == Write(m1, pt, v.i1, Entry(frame, flags))
    requires EntryAt(m1, r, PathL1(v)) == EntryAt(m0, r, PathL1(v))
    requires Remappable(m0, u0, k, roots, r, frame, v) && flags.present
    ensures RemapBalance(m0, u0, m2, u1, k, roots, r, frame, v)
  {
    hide Inv, OwnInv, Translate, LeafOf, Owned, Unowned, NoNewLarge, TablesAdded, TablesTaken;
    Depths(v);
    var up := PathL2(v);
    LeafOwnInv(m1, u1, k, roots, r, up, pt, v.i1, Entry(frame, flags));
    forall s | s in roots
      ensures Owned(m2, u1, k, s) ==
              if s == r && Private(m0, k, r, PathL4(v))
              then Owned(m0, u0, k, s) + (u1 - u0) - Target(EntryAt(m0, r, PathL1(v))) + {frame}
                  else Owned(m0, u0, k, s)
    {
      LeafOwned(m1, u1, k, roots, r, up, pt, v.i1, Entry(frame, flags), s);
    }
  }

  /** The tables on the walk to a page, when its last one is there. */
  lemma WalkDown(m: Memory, r: nat, v: Page)
    requires Node(m, r, PathL2(v)).Some?
    ensures Node(m, r, PathL2(v)) == Some(At(m, At(m, At(m, r, v.i4).frame, v.i3).frame, v.i2).frame)
  {
    Depths(v);
    assert EntryAt(m, r, PathL2(v)) != ZERO && Node(m, r, PathL3(v)).Some?;
    assert EntryAt(m, r, PathL3(v)) != ZERO && Node(m, r, PathL4(v)).Some?;
    SlotNode(m, r, v.i4);
    var pdpt := At(m, r, v.i4).frame;
    assert Node(m, r, PathL4(v)) == Some(pdpt);
    assert EntryAt(m, r, PathL3(v)) == At(m, pdpt, v.i3);
    assert EntryAt(m, r, PathL2(v)) == At(m, At(m, pdpt, v.i3).frame, v.i2);
  }

  lemma LeafCleared(m: Memory, u: set<nat>, k: nat, roots: set<nat>, r: nat, v: Page, pt: nat)
    requires Inv(m, u, k, roots) && r in roots && Node(m, r, PathL2(v)) == Some(pt) && v.i1 < ENTRIES
    ensures pt < |m| && Inv(Write(m, pt, v.i1, ZERO), u, k, roots)
    ensures Remapped(m, Write(m, pt, v.i1, ZERO), k, roots, r, 1, v, ZERO)
    ensures LeafSet(m, Write(m, pt, v.i1, ZERO), k, roots, r, v, ZERO)
    ensures NoNewLarge(m, Write(m, pt, v.i1, ZERO), roots)
    ensures SharesKept(m, Write(m, pt, v.i1, ZERO), k, roots) && NodesKept(m, Write(m, pt, v.i1, ZERO), roots)
  {
    hide Inv, Translate, Remapped, Node, EntryAt;
    Depths(v);
    LeafWriteRemaps(m, u, k, roots, r, 1, v, pt, ZERO);
    LeafWriteInv(m, u, k, roots, r, PathL2(v), pt, v.i1, ZERO);
    LeafWriteLeaves(m, u, k, roots, r, v, pt, ZERO);
    LeafKeepsNodes(m, u, k, roots, r, PathL2(v), pt, v.i1, ZERO);
  }

  lemma {:induction false} UnmapFacts(m: Memory, u: set<nat>, k: nat, roots: set<nat>, r: nat, v: Page, pt: nat)
    requires Inv(m, u, k, roots) && r in roots && OwnInv(m, u, k, roots)
    requires Node(m, r, PathL2(v)) == Some(pt) && v.i1 < ENTRIES
    ensures pt < |m|
    ensures UnmapBalance(m, Write(m, pt, v.i1, ZERO), u, k, roots, r, v)
  {
    Depths(v);
    LeafWriteInv(m, u, k, roots, r, PathL2(v), pt, v.i1, ZERO);
    LeafOwnInv(m, u, k, roots, r, PathL2(v), pt, v.i1, ZERO);
    var m' := Write(m, pt, v.i1, ZERO);
    var gone := if Private(m, k, r, PathL4(v)) then Target(EntryAt(m, r, PathL1(v))) else {};
    forall s | s in roots ensures Owned(m', u, k, s) == Owned(m, u, k, s) - if s == r then gone else {} {
      LeafOwned(m, u, k, roots, r, PathL2(v), pt, v.i1, ZERO, s);
    }
    forall h | h in gone ensures Unowned(m', k, roots, h) {
      forall s, q | s in roots && Tracked(m', k, s, q) ensures Frame(m', s, q) != Some(h) {
        LeafFrame(m, u, k, roots, r, PathL2(v), pt, v.i1, ZERO, s, q);
        assert Sole(m, k, r, PathL1(v), s, q);
      }
    }
  }

  ghost predicate NodesKept(m: Memory, m': Memory, roots: set<nat>) {
    forall s, q :: s in roots ==> Node(m', s, q) == Node(m, s, q)
  }

  lemma {:induction false} LeafKeepsNodes(m: Memory, u: set<nat>, k: nat, roots: set<nat>, r: nat, up: Path, f: nat,
                                          i: nat, e: Entry)
    requires Inv(m, u, k, roots) && r in roots && up.Sub?
    requires Node(m, r, up) == Some(f) && i < ENTRIES
    requires !IsTable(At(m, f, i), Depth(up) + 1) && !IsTable(e, Depth(up) + 1)
    ensures f < |m| && NodesKept(m, Write(m, f, i, e), roots)
  {
    forall s, q | s in roots ensures f < |m| && Node(Write(m, f, i, e), s, q) == Node(m, s, q) {
      LeafWriteNodes(m, u, k, roots, r, up, f, i, e, s, q);
    }
  }

  /** A table position on the walk to `v`. */
  predicate OnPath(q: Path, v: Page) {
    q == PathL4(v) || q == PathL3(v) || q == PathL2(v)
  }

  /** Tables have appeared only on the walk to `v`, and none has gone. */
  ghost predicate TablesAdded(m: Memory, m': Memory, roots: set<nat>, v: Page) {
    && (forall s, q :: s in roots && Node(m', s, q).Some? && Node(m, s, q).None? ==> OnPath(q, v))
    && (forall s, q :: s in roots && Node(m, s, q).Some? ==> Node(m', s, q) == Node(m, s, q))
  }

  /** The frames taken are those of the tables that have appeared on the walk to `v` in `r`. */
  ghost predicate TablesTaken(m: Memory, u: set<nat>, m': Memory, u': set<nat>, r: nat, v: Page) {
    && (forall q ::
         OnPath(q, v) && Node(m, r, q).None? && Node(m', r, q).Some? ==>
         Node(m', r, q).value in u' && Node(m', r, q).value !in u)
    && (forall f :: f in u' && f !in u ==> exists q :: OnPath(q, v) && Node(m, r, q).None? && Node(m', r, q) == Some(f))
  }

  /** Between two states only empty tables were added on the walk to `v` in `r`: no translation
      changed, and the new frames belong to `r` if the slot is private. */
  ghost predicate Grown(m: Memory, u: set<nat>, m': Memory, u': set<nat>, k: nat, roots: set<nat>, r: nat, v: Page) {
    && u <= u' && |m'| == |m|
    && (forall s, w :: s in roots ==> Translate(m', s, w) == Translate(m, s, w))
    && (forall s, w :: s in roots ==> LeafOf(m', s, w) == LeafOf(m, s, w)) && NoNewLarge(m, m', roots)
    && SharesKept(m, m', k, roots) && TablesAdded(m, m', roots, v) && TablesTaken(m, u, m', u', r, v)
    && (OwnInv(m, u, k, roots) ==> OwnInv(m', u', k, roots))
    && (OwnInv(m, u, k, roots) ==> forall h :: h in u && Unowned(m, k, roots, h) ==> Unowned(m', k, roots, h))
    && (OwnInv(m, u, k, roots) ==> forall s :: s in roots ==>
          Owned(m', u', k, s) == Owned(m, u, k, s) + if s == r && Private(m, k, r, PathL4(v)) then u' - u else {})
  }

  lemma {:induction false} GrownTrans(m0: Memory, u0: set<nat>, m1: Memory, u1: set<nat>, m2: Memory, u2: set<nat>,
                                      k: nat, roots: set<nat>, r: nat, v: Page)
    requires Grown(m0, u0, m1, u1, k, roots, r, v) && Grown(m1, u1, m2, u2, k, roots, r, v) && r in roots
    ensures Grown(m0, u0, m2, u2, k, roots, r, v)
  {
    hide Translate, OwnInv, Unowned, Owned, TablesTaken;
    TakenTrans(m0, u0, m1, u1, m2, u2, roots, r, v);
  }

  lemma {:induction false} TakenTrans(m0: Memory, u0: set<nat>, m1: Memory, u1: set<nat>, m2: Memory, u2: set<nat>,
                                      roots: set<nat>, r: nat, v: Page)
    requires TablesTaken(m0, u0, m1, u1, r, v) && TablesTaken(m1, u1, m2, u2, r, v) && r in roots && u0 <= u1 <= u2
    requires TablesAdded(m0, m1, roots, v) && TablesAdded(m1, m2, roots, v)
    ensures TablesTaken(m0, u0, m2, u2, r, v)
  {
    hide Node, OnPath;
    forall f | f in u2 && f !in u0 ensures exists q ::
        OnPath(q, v) && Node(m0, r, q).None? && Node(m2, r, q) == Some(f) {
      if f in u1 {
        var q :| OnPath(q, v) && Node(m0, r, q).None? && Node(m1, r, q) == Some(f);
      } else {
        var q :| OnPath(q, v) && Node(m1, r, q).None? && Node(m2, r, q) == Some(f);
      }
    }
  }

  lemma {:induction false} DescendFacts(m: Memory, used: set<nat>, k: nat, roots: set<nat>,
                                        r: nat, up: Path, f: nat, i: nat, g: nat, flags: Flags, v: Page)
    requires Inv(m, used, k, roots) && r in roots && OnPath(Sub(up, i), v)
    requires Node(m, r, up) == Some(f) && Depth(up) <= 2 && i < ENTRIES && At(m, f, i) == ZERO
    requires g !in used && g < |m| && flags.present && !flags.pageSize
    ensures f < |m|
    ensures var m' := Attach(m, f, i, g, flags);
      && Inv(m', used + {g}, k, roots) && Node(m', r, Sub(up, i)) == Some(g)
      && (forall q :: q != Sub(up, i) ==> EntryAt(m', r, q) == EntryAt(m, r, q))
      && Grown(m, used, m', used + {g}, k, roots, r, v)
  {
    AttachInv(m, used, k, roots, r, up, f, i, g, flags);
    AttachSlots(m, used, k, roots, r, up, f, i, g, flags);
    var m' := Attach(m, f, i, g, flags);
    Depths(v);
    assert Top(Sub(up, i)) == v.i4;
    forall s, w | s in roots ensures Translate(m', s, w) == Translate(m, s, w) {
      AttachTranslate(m, used, k, roots, r, up, f, i, g, flags, s, w);
    }
    forall s, w | s in roots ensures LeafOf(m', s, w) == LeafOf(m, s, w) {
      Depths(w);
      assert Depth(Sub(up, i)) == Depth(up) + 1;
      AttachNodes(m, used, k, roots, r, up, f, i, g, flags, s, PathL1(w));
    }
    AttachTables(m, used, k, roots, r, up, f, i, g, flags);
    AttachNodes(m, used, k, roots, r, up, f, i, g, flags, r, Sub(up, i));
    if OwnInv(m, used, k, roots) {
      AttachOwnInv(m, used, k, roots, r, up, f, i, g, flags);
      forall s | s in roots
        ensures Owned(m', used + {g}, k, s) ==
                Owned(m, used, k, s) + if s == r && Private(m, k, r, PathL4(v)) then {g} else {}
      {
        AttachOwned(m, used, k, roots, r, up, f, i, g, flags, s);
      }
    }
  }

  lemma {:induction false} AttachTables(m: Memory, used: set<nat>, k: nat, roots: set<nat>,
                                        r: nat, up: Path, f: nat, i: nat, g: nat, flags: Flags)
    requires Inv(m, used, k, roots) && r in roots
    requires Node(m, r, up) == Some(f) && Depth(up) <= 2 && i < ENTRIES && At(m, f, i) == ZERO
    requires g !in used && g < |m| && flags.present && !flags.pageSize
    ensures f < |m|
    ensures var m' := Attach(m, f, i, g, flags);
      && (forall q :: q != Sub(up, i) ==> EntryAt(m', r, q) == EntryAt(m, r, q))
      && (forall s, q :: s in roots && EntryAt(m', s, q).flags.pageSize ==> EntryAt(m, s, q).flags.pageSize)
      && (forall s, q :: s in roots && Node(m', s, q).Some? && Node(m, s, q).None? ==> q == Sub(up, i))
      && (forall s, q :: s in roots && Node(m, s, q).Some? ==> Node(m', s, q) == Node(m, s, q))
  {
    AttachInv(m, used, k, roots, r, up, f, i, g, flags);
    var m' := Attach(m, f, i, g, flags);
    forall s, q | s in roots
      ensures EntryAt(m', s, q) == EntryAt(m, s, q) || (q == Sub(up, i) && EntryAt(m', s, q) == Entry(g, flags))
      ensures s == r && q != Sub(up, i) ==> EntryAt(m', s, q) == EntryAt(m, s, q)
      ensures Node(m', s, q).Some? && Node(m, s, q).None? ==> q == Sub(up, i)
      ensures Node(m, s, q).Some? ==> Node(m', s, q) == Node(m, s, q)
    {
      AttachNodes(m, used, k, roots, r, up, f, i, g, flags, s, q);
      if q == Sub(up, i) && Node(m, s, up) == Some(f) { assert EntryAt(m, s, q) == ZERO; }
    }
  }

  // ---- the shared kernel half -------------------------------------------------------------------

  /** Through a slot copied from the kernel a process sees exactly what the kernel sees. */
  lemma {:induction false} SharedAgree(m: Memory, k: nat, r: nat, v: Page)
    requires Shared(m, k, r, v.i4)
    ensures Translate(m, r, v) == Translate(m, k, v)
  {
    Depths(v);
    assert Shared(m, k, k, v.i4);
    SharedNodes(m, k, r, k, PathL3(v));
    SharedNodes(m, k, r, k, PathL2(v));
    assert Top(PathL1(v)) == v.i4;
    SharedNodes(m, k, r, k, PathL1(v));
  }

  /** Over any run of mapping and unmapping, in any address space, a process goes on translating every
      page below a slot that existed at its creation exactly as the kernel does. */
  lemma {:induction false} SharedForever(run: seq<Memory>, k: nat, roots: set<nat>, r: nat, j: nat, v: Page)
    requires r in roots && j < |run| && Shared(run[0], k, r, v.i4)
    requires forall i :: 0 <= i < |run| - 1 ==> SharesKept(run[i], run[i + 1], k, roots)
    ensures Shared(run[j], k, r, v.i4) && Translate(run[j], r, v) == Translate(run[j], k, v)
  {
    if j > 0 {
      SharedForever(run, k, roots, r, j - 1, v);
      assert SharesKept(run[j - 1], run[j - 1 + 1], k, roots);
    }
    SharedAgree(run[j], k, r, v);
  }

  /** Mapping or unmapping in the lower half of one address space is invisible to every other. */
  lemma LowerHalfIsolated(m: Memory, m': Memory, k: nat, roots: set<nat>, r: nat, level: nat, u: Page, e: Entry,
                          s: nat, v: Page)
    requires Remapped(m, m', k, roots, r, level, u, e) && u.i4 < LOWER_HALF && s in roots && s != r
    ensures Translate(m', s, v) == Translate(m, s, v)
  {
  }
}
