/** Releasing memory (kernel/kernel/vmm.c: vmm_free, vmm_destroy). */
module Teardown {
  import opened PageTables
  import opened Ownership
  import opened FrameAllocator
  import opened Vmm

  // ---- vmm_free ---------------------------------------------------------------------------------

  /** The level of the leaf that maps `v`: 3 for 1 GiB, 2 for 2 MiB, 1 otherwise. */
  function LeafLevel(m: Memory, r: nat, v: Page): (level: nat)
    ensures 1 <= level <= 3
  {
    if EntryAt(m, r, PathL3(v)).flags.pageSize then 3 else if EntryAt(m, r, PathL2(v)).flags.pageSize then 2 else 1
  }

  function LeafEntry(m: Memory, r: nat, v: Page): Entry {
    EntryAt(m, r, Sub(UpPath(LeafLevel(m, r, v), v), UpIndex(LeafLevel(m, r, v), v)))
  }

  /** The frames behind the leaf that maps `v`. */
  function LeafFrames(m: Memory, r: nat, v: Page): set<nat> {
    Run(LeafEntry(m, r, v).frame, match LeafLevel(m, r, v) case 1 => 1 case 2 => 512 case _ => 512 * 512)
  }

  function Run(start: nat, count: nat): (run: set<nat>)
    ensures forall f :: f in run <==> start <= f < start + count
  {
    if count == 0 then {} else Run(start, count - 1) + {start + count - 1}
  }

  /** No table of any live address space is among `gone`. */
  ghost predicate NoTables(m: Memory, roots: set<nat>, gone: set<nat>) {
    forall s, p :: s in roots && Node(m, s, p).Some? ==> Node(m, s, p).value !in gone
  }

  method FreeRun(pmm: Pmm, start: nat, count: nat)
    requires pmm.Valid() && Run(start, count) <= pmm.Used()
    modifies pmm.bitmap
    ensures pmm.Used() == old(pmm.Used()) - Run(start, count)
  {
    for i := 0 to count
      invariant pmm.Used() == old(pmm.Used()) - Run(start, i)
    {
      assert start + i in Run(start, count);
      pmm.Free(start + i);
      assert Run(start, i + 1) == Run(start, i) + {start + i};
    }
  }

  /** vmm_free: releases exactly the frames of the leaf that maps the page, whatever its size, and
      unmaps exactly the pages of that leaf. */
  method Free(a: AddressSpaces, r: nat, virt: nat)
    requires a.Valid() && r in a.roots
    requires LeafLevel(a.mem, r, PageOf(virt)) == 1 ==> LeafOf(a.mem, r, PageOf(virt)).flags.present
    requires LeafFrames(a.mem, r, PageOf(virt)) <= a.pmm.Used()
    requires NoTables(a.mem, a.roots, LeafFrames(a.mem, r, PageOf(virt)))
    modifies a`mem, a.pmm.bitmap
    ensures a.Valid() && a.pmm.Used() == old(a.pmm.Used()) - LeafFrames(old(a.mem), r, PageOf(virt))
    ensures Remapped(old(a.mem), a.mem, a.kernel, a.roots, r, LeafLevel(old(a.mem), r, PageOf(virt)), PageOf(virt),
      ZERO)
    ensures SharesKept(old(a.mem), a.mem, a.kernel, a.roots) && NodesKept(old(a.mem), a.mem, a.roots)
    ensures LeafLevel(old(a.mem), r, PageOf(virt)) == 1 ==>
              && LeafSet(old(a.mem), a.mem, a.kernel, a.roots, r, PageOf(virt), ZERO)
              && NoNewLarge(old(a.mem), a.mem, a.roots)
    ensures old(a.Accounted()) && Private(old(a.mem), a.kernel, r, PathL4(PageOf(virt))) &&
            LeafLevel(old(a.mem), r, PageOf(virt)) == 1 ==>
              FreeBalance(old(a.mem), a.mem, old(a.pmm.Used()), a.pmm.Used(), a.kernel, a.roots, r, PageOf(virt))
  {
    hide Inv, Remapped, LeafSet, NoNewLarge, SharesKept, NodesKept, OwnInv, NoTables, FreeBalance, Run;
    var v := PageOf(virt);
    Depths(v);
    ghost var m, used, gone := a.mem, a.pmm.Used(), LeafFrames(a.mem, r, v);
    LeafTables(m, r, v);
    var pdpt := At(a.mem, r, v.i4).frame;
    var e := At(a.mem, pdpt, v.i3);
    if e.flags.pageSize {
      FreeRun(a.pmm, e.frame, 512 * 512);
      FreeFacts(m, used, gone, a.kernel, a.roots, r, 3, v, pdpt);
      a.mem := Write(a.mem, pdpt, v.i3, ZERO);
      return;
    }
    var pd := e.frame;
    e := At(a.mem, pd, v.i2);
    if e.flags.pageSize {
      FreeRun(a.pmm, e.frame, 512);
      FreeFacts(m, used, gone, a.kernel, a.roots, r, 2, v, pd);
      a.mem := Write(a.mem, pd, v.i2, ZERO);
      return;
    }
    var pt := e.frame;
    e := At(a.mem, pt, v.i1);
    assert gone == {e.frame};
    a.pmm.Free(e.frame);
    FreeFacts(m, used, gone, a.kernel, a.roots, r, 1, v, pt);
    FreePrivate(m, used, a.kernel, a.roots, r, v, pt);
    a.mem := Write(a.mem, pt, v.i1, ZERO);
  }

  /** Freeing a private 4 KiB page takes its frame from its owner and from use. */
  ghost predicate FreeBalance(m: Memory, m': Memory, u: set<nat>, u': set<nat>, k: nat, roots: set<nat>, r: nat,
                              v: Page) {
    && OwnInv(m', u', k, roots)
    && (forall s ::
         s in roots ==> Owned(m', u', k, s) == Owned(m, u, k, s) - if s == r then {LeafOf(m, r, v).frame} else {})
  }

  /** The tables on the way to the leaf that maps `v`. */
  lemma LeafTables(m: Memory, r: nat, v: Page)
    requires LeafLevel(m, r, v) == 1 ==> LeafOf(m, r, v).flags.present
    ensures Node(m, r, PathL4(v)) == Some(At(m, r, v.i4).frame)
    ensures LeafLevel(m, r, v) <= 2 ==> Node(m, r, PathL3(v)) == Some(EntryAt(m, r, PathL3(v)).frame)
    ensures LeafLevel(m, r, v) == 1 ==> Node(m, r, PathL2(v)) == Some(EntryAt(m, r, PathL2(v)).frame)
  {
    Depths(v);
    SlotNode(m, r, v.i4);
    var level := LeafLevel(m, r, v);
    if level == 1 {
      assert EntryAt(m, r, PathL1(v)) != ZERO && Node(m, r, PathL2(v)).Some?;
      assert EntryAt(m, r, PathL2(v)) != ZERO && Node(m, r, PathL3(v)).Some?;
    } else if level == 2 {
      assert EntryAt(m, r, PathL2(v)) != ZERO && Node(m, r, PathL3(v)).Some?;
    }
    if level <= 2 {
      assert EntryAt(m, r, PathL3(v)) != ZERO && Node(m, r, PathL4(v)).Some?;
    }
  }

  lemma {:induction false} FreeFacts(m: Memory, u: set<nat>, gone: set<nat>, k: nat, roots: set<nat>,
                                     r: nat, level: nat, v: Page, f: nat)
    requires Inv(m, u, k, roots) && r in roots && 1 <= level <= 3 && NoTables(m, roots, gone)
    requires Node(m, r, UpPath(level, v)) == Some(f) && UpIndex(level, v) < ENTRIES
    requires level > 1 ==> !IsTable(At(m, f, UpIndex(level, v)), 5 - level)
    ensures f < |m|
    ensures var m' := Write(m, f, UpIndex(level, v), ZERO);
      && Inv(m', u - gone, k, roots) && Remapped(m, m', k, roots, r, level, v, ZERO) && SharesKept(m, m', k, roots)
      && NodesKept(m, m', roots)
      && (level == 1 ==> LeafSet(m, m', k, roots, r, v, ZERO) && NoNewLarge(m, m', roots))
  {
    Depths(v);
    var m' := Write(m, f, UpIndex(level, v), ZERO);
    LeafWriteRemaps(m, u, k, roots, r, level, v, f, ZERO);
    LeafWriteInv(m, u, k, roots, r, UpPath(level, v), f, UpIndex(level, v), ZERO);
    if level == 1 { LeafWriteLeaves(m, u, k, roots, r, v, f, ZERO); }
    forall s, q | s in roots ensures Node(m', s, q) == Node(m, s, q) {
      LeafWriteNodes(m, u, k, roots, r, UpPath(level, v), f, UpIndex(level, v), ZERO, s, q);
    }
  }

  lemma {:induction false} FreePrivate(m: Memory, u: set<nat>, k: nat, roots: set<nat>, r: nat, v: Page, pt: nat)
    requires Inv(m, u, k, roots) && r in roots
    requires Node(m, r, PathL2(v)) == Some(pt) && v.i1 < ENTRIES && LeafOf(m, r, v) != ZERO
    ensures pt < |m|
    ensures OwnInv(m, u, k, roots) && Private(m, k, r, PathL4(v)) ==>
              FreeBalance(m, Write(m, pt, v.i1, ZERO), u, u - {LeafOf(m, r, v).frame}, k, roots, r, v)
  {
    if OwnInv(m, u, k, roots) && Private(m, k, r, PathL4(v)) {
      UnmapFacts(m, u, k, roots, r, v, pt);
      LeafWriteInvAt(m, u, k, roots, r, v, pt);
      FreeOwn(Write(m, pt, v.i1, ZERO), u, k, roots, LeafOf(m, r, v).frame);
    } else {
      LeafWriteInvAt(m, u, k, roots, r, v, pt);
    }
  }

  lemma LeafWriteInvAt(m: Memory, u: set<nat>, k: nat, roots: set<nat>, r: nat, v: Page, pt: nat)
    requires Inv(m, u, k, roots) && r in roots && Node(m, r, PathL2(v)) == Some(pt) && v.i1 < ENTRIES
    ensures pt < |m| && Inv(Write(m, pt, v.i1, ZERO), u, k, roots)
  {
    Depths(v);
    LeafWriteInv(m, u, k, roots, r, PathL2(v), pt, v.i1, ZERO);
  }

  // ---- vmm_destroy ------------------------------------------------------------------------------

  /** An entry at depth 1 to 4 whose frame vmm_destroy releases: a table, or a 4 KiB leaf. */
  predicate Releases(e: Entry, depth: nat) {
    e != ZERO && !(2 <= depth <= 3 && e.flags.pageSize)
  }

  /** The frames released for the first `n` entries, at depth `depth`, of table `t`. */
  ghost function Below(m: Memory, t: nat, depth: nat, n: nat): set<nat>
    requires 1 <= depth <= 4
    decreases 4 - depth, n
  {
    if n == 0 then {}
    else
      var e := At(m, t, n - 1);
      Below(m, t, depth, n - 1) +
      if !Releases(e, depth) then {} else if depth == 4 then {e.frame}
          else {e.frame} + Below(m, e.frame, depth + 1, ENTRIES)
  }

  /** Path `p` is entry `i` of the table at `up`, or lies below it. */
  predicate Within(up: Path, i: nat, p: Path) {
    p.Sub? && (p == Sub(up, i) || Within(up, i, p.up))
  }

  /** Every frame to be released sits at a path below the entry it is released for. */
  lemma {:induction false} BelowPath(m: Memory, r: nat, up: Path, t: nat, depth: nat, n: nat, f: nat)
    returns (i: nat, p: Path)
    requires Node(m, r, up) == Some(t) && Depth(up) + 1 == depth <= 4 && f in Below(m, t, depth, n)
    ensures i < n && Within(up, i, p) && Depth(p) <= 4 && Frame(m, r, p) == Some(f)
    decreases 4 - depth, n
  {
    var e, q := At(m, t, n - 1), Sub(up, n - 1);
    if f in Below(m, t, depth, n - 1) {
      i, p := BelowPath(m, r, up, t, depth, n - 1, f);
    } else {
      assert Depth(q) == depth && EntryAt(m, r, q) == e;
      i := n - 1;
      if f == e.frame {
        p := q;
      } else {
        var j;
        assert Node(m, r, q) == Some(e.frame);
        j, p := BelowPath(m, r, q, e.frame, depth + 1, ENTRIES, f);
        WithinTrans(up, i, q, j, p);
      }
    }
  }

  lemma {:induction false} WithinTrans(up: Path, i: nat, q: Path, j: nat, p: Path)
    requires Within(up, i, q) && Within(q, j, p)
    ensures Within(up, i, p)
  {
    if p != Sub(q, j) { WithinTrans(up, i, q, j, p.up); }
  }

  lemma {:induction false} WithinFacts(up: Path, i: nat, p: Path)
    requires Within(up, i, p)
    ensures Depth(up) < Depth(p)
    ensures Top(p) == if up.Root? then i else Top(up)
  {
    if p != Sub(up, i) { WithinFacts(up, i, p.up); }
  }

  lemma {:induction false} WithinUnique(up: Path, i: nat, j: nat, p: Path)
    requires Within(up, i, p) && Within(up, j, p)
    ensures i == j
  {
    if p == Sub(up, i) || p == Sub(up, j) {
      if Within(up, i, p.up) { WithinFacts(up, i, p.up); }
      if Within(up, j, p.up) { WithinFacts(up, j, p.up); }
    } else {
      WithinUnique(up, i, j, p.up);
    }
  }

  /** Entries of `up` that lie in the lower half. */
  predicate LowerPart(up: Path, n: nat) {
    if up.Root? then n <= LOWER_HALF else Top(up) < LOWER_HALF
  }

  /** The lower half is private, so what is released for one entry is released for no other. */
  lemma {:induction false} BelowDisjoint(m: Memory, u: set<nat>, k: nat, roots: set<nat>,
                                         r: nat, up: Path, t: nat, depth: nat, n: nat)
    requires OwnInv(m, u, k, roots) && r in roots && r != k
    requires Node(m, r, up) == Some(t) && Depth(up) + 1 == depth <= 4 && LowerPart(up, n + 1)
    requires Releases(At(m, t, n), depth)
    ensures At(m, t, n).frame !in Below(m, t, depth, n)
    ensures depth < 4 ==> Node(m, r, Sub(up, n)) == Some(At(m, t, n).frame)
    ensures depth < 4 ==> Below(m, At(m, t, n).frame, depth + 1, ENTRIES) !! Below(m, t, depth, n) + {At(m, t, n).frame}
  {
    var e, q := At(m, t, n), Sub(up, n);
    assert Depth(q) == depth && EntryAt(m, r, q) == e;
    assert Frame(m, r, q) == Some(e.frame);
    assert Within(up, n, q);
    WithinFacts(up, n, q);
    if e.frame in Below(m, t, depth, n) {
      var i, p := BelowPath(m, r, up, t, depth, n, e.frame);
      assert Sole(m, k, r, q, r, p);
      WithinFacts(up, i, p);
      WithinUnique(up, i, n, q);
      assert false;
    }
    if depth < 4 {
      assert Node(m, r, q) == Some(e.frame);
      forall f | f in Below(m, e.frame, depth + 1, ENTRIES)
        ensures f !in Below(m, t, depth, n) && f != e.frame
      {
        BelowApart(m, u, k, roots, r, up, t, depth, n, f);
      }
    }
  }

  lemma {:induction false} BelowApart(m: Memory, u: set<nat>, k: nat, roots: set<nat>,
                                      r: nat, up: Path, t: nat, depth: nat, n: nat, f: nat)
    requires OwnInv(m, u, k, roots) && r in roots && r != k
    requires Node(m, r, up) == Some(t) && Depth(up) + 1 == depth < 4 && LowerPart(up, n + 1)
    requires Node(m, r, Sub(up, n)) == Some(At(m, t, n).frame)
    requires f in Below(m, At(m, t, n).frame, depth + 1, ENTRIES)
    ensures f !in Below(m, t, depth, n) && f != At(m, t, n).frame
  {
    var q := Sub(up, n);
    assert Within(up, n, q);
    var j, p := BelowPath(m, r, q, At(m, t, n).frame, depth + 1, ENTRIES, f);
    WithinFacts(q, j, p);
    WithinTrans(up, n, q, j, p);
    WithinFacts(up, n, p);
    assert Private(m, k, r, p) && Tracked(m, k, r, p);
    assert Depth(q) == depth && Frame(m, r, q) == Node(m, r, q);
    assert Sole(m, k, r, p, r, q);
    if f in Below(m, t, depth, n) {
      var i, p' := BelowPath(m, r, up, t, depth, n, f);
      WithinFacts(up, i, p');
      assert Sole(m, k, r, p, r, p');
      WithinUnique(up, i, n, p);
      assert false;
    }
  }

  /** One level of vmm_destroy's nested loops: releases, once each, the frames below the first `n`
      entries of a lower-half table, deepest first. */
  method ReleaseTable(a: AddressSpaces, t: nat, depth: nat, n: nat, ghost used: set<nat>, ghost r: nat, ghost up: Path)
    requires a.pmm.Valid() && OwnInv(a.mem, used, a.kernel, a.roots) && r in a.roots && r != a.kernel
    requires Node(a.mem, r, up) == Some(t) && Depth(up) + 1 == depth <= 4 && n <= ENTRIES && LowerPart(up, n)
    requires t < |a.mem| && (forall f :: f in used ==> f < |a.mem|)
    requires Below(a.mem, t, depth, n) <= a.pmm.Used()
    modifies a.pmm.bitmap
    ensures a.pmm.Used() == old(a.pmm.Used()) - Below(a.mem, t, depth, n)
    decreases 4 - depth
  {
    hide OwnInv, Below, Node, Depth, Top, Pmm.Used;
    BelowStart(a.mem, t, depth);
    for i := 0 to n
      invariant a.pmm.Used() == old(a.pmm.Used()) - Below(a.mem, t, depth, i)
      invariant Below(a.mem, t, depth, n) <= old(a.pmm.Used())
    {
      BelowMonotone(a.mem, t, depth, i + 1, n);
      BelowStep(a.mem, t, depth, i);
      var e := a.mem[t][i];
      if e == ZERO { continue; }
      if 2 <= depth <= 3 && e.flags.pageSize { continue; }
      BelowDisjoint(a.mem, used, a.kernel, a.roots, r, up, t, depth, i);
      if depth < 4 {
        TableInUse(a.mem, used, a.kernel, a.roots, r, Sub(up, i));
        assert Depth(Sub(up, i)) == depth && LowerPart(Sub(up, i), ENTRIES) by { PathStep(up, i); }
        ReleaseTable(a, e.frame, depth + 1, ENTRIES, used, r, Sub(up, i));
      }
      a.pmm.Free(e.frame);
    }
  }

  lemma PathStep(up: Path, i: nat)
    ensures Depth(Sub(up, i)) == Depth(up) + 1
    ensures LowerPart(up, i + 1) ==> LowerPart(Sub(up, i), ENTRIES)
  {
  }

  lemma BelowStart(m: Memory, t: nat, depth: nat)
    requires 1 <= depth <= 4
    ensures Below(m, t, depth, 0) == {}
  {
  }

  lemma BelowStep(m: Memory, t: nat, depth: nat, i: nat)
    requires 1 <= depth <= 4
    ensures var e := At(m, t, i);
            Below(m, t, depth, i + 1) == Below(m, t, depth, i) +
              if !Releases(e, depth) then {} else if depth == 4 then {e.frame}
                  else {e.frame} + Below(m, e.frame, depth + 1, ENTRIES)
  {
  }

  lemma TableInUse(m: Memory, u: set<nat>, k: nat, roots: set<nat>, r: nat, p: Path)
    requires OwnInv(m, u, k, roots) && r in roots && Node(m, r, p).Some?
    ensures Node(m, r, p).value in u
  {
    NodeDepth(m, r, p);
    assert Frame(m, r, p) == Node(m, r, p);
  }

  lemma {:induction false} BelowMonotone(m: Memory, t: nat, depth: nat, i: nat, n: nat)
    requires 1 <= depth <= 4 && i <= n
    ensures Below(m, t, depth, i) <= Below(m, t, depth, n)
  {
    if i < n { BelowMonotone(m, t, depth, i, n - 1); }
  }

  /** The frames of `r` in its lower half: tables and 4 KiB pages. */
  ghost predicate InLower(m: Memory, r: nat, f: nat) {
    exists p: Path :: p.Sub? && Depth(p) <= 4 && Top(p) < LOWER_HALF && Frame(m, r, p) == Some(f)
  }

  /** vmm_destroy: releases exactly the tables and 4 KiB pages of the lower half, each once. */
  method Destroy(a: AddressSpaces, r: nat)
    requires a.Valid() && a.Accounted() && r in a.roots && r != a.kernel
    modifies a.pmm.bitmap
    ensures forall f :: f in a.pmm.Used() <==> f in old(a.pmm.Used()) && !InLower(a.mem, r, f)
  {
    hide Pmm.Used, Below;
    ghost var used := a.pmm.Used();
    assert Node(a.mem, r, Root) == Some(r) && r in used;
    LowerFrames(a.mem, used, a.kernel, a.roots, r);
    ReleaseTable(a, r, 1, LOWER_HALF, used, r, Root);
  }

  /** The traversal visits every lower-half frame and no other. */
  lemma {:induction false} LowerFrames(m: Memory, u: set<nat>, k: nat, roots: set<nat>, r: nat)
    requires OwnInv(m, u, k, roots) && r in roots && r != k
    ensures forall f :: f in Below(m, r, 1, LOWER_HALF) <==> InLower(m, r, f)
    ensures Below(m, r, 1, LOWER_HALF) <= u
  {
    assert Node(m, r, Root) == Some(r) && Depth(Root) == 0;
    forall f | f in Below(m, r, 1, LOWER_HALF) ensures InLower(m, r, f) && f in u {
      var i, p := BelowPath(m, r, Root, r, 1, LOWER_HALF, f);
      WithinFacts(Root, i, p);
      assert Tracked(m, k, r, p);
    }
    forall f | InLower(m, r, f) ensures f in Below(m, r, 1, LOWER_HALF) {
      var p: Path :| p.Sub? && Depth(p) <= 4 && Top(p) < LOWER_HALF && Frame(m, r, p) == Some(f);
      Visited(m, r, p, f);
    }
  }

  /** A frame at a path is released for the PML4 entry that leads to it. */
  lemma {:induction false} Visited(m: Memory, r: nat, q: Path, f: nat)
    requires q.Sub? && Depth(q) <= 4 && Top(q) < LOWER_HALF && Frame(m, r, q) == Some(f)
    ensures f in Below(m, r, 1, LOWER_HALF)
  {
    var e := EntryAt(m, r, q);
    assert e != ZERO && Releases(e, Depth(q)) && e.frame == f;
    assert Node(m, r, q.up).Some?;
    BelowStep(m, Node(m, r, q.up).value, Depth(q), q.index);
    Climb(m, r, q, f);
    BelowMonotone(m, r, 1, Top(q) + 1, LOWER_HALF);
  }

  lemma {:induction false} Climb(m: Memory, r: nat, q: Path, f: nat)
    requires q.Sub? && Depth(q) <= 4 && Node(m, r, q.up).Some? && q.index < ENTRIES
    requires f in Below(m, Node(m, r, q.up).value, Depth(q), q.index + 1)
    ensures f in Below(m, r, 1, Top(q) + 1)
  {
    var up := q.up;
    if up.Root? {
      assert Node(m, r, up) == Some(r) && Depth(up) == 0 && Depth(q) == 1;
    } else {
      var t := Node(m, r, up).value;
      BelowMonotone(m, t, Depth(q), q.index + 1, ENTRIES);
      assert IsTable(EntryAt(m, r, up), Depth(up)) && Node(m, r, up.up).Some?;
      BelowStep(m, Node(m, r, up.up).value, Depth(up), up.index);
      Climb(m, r, up, f);
    }
  }
}
