/** Whole runs of map and unmap calls of all page sizes, in any mix of address spaces (kernel/kernel/vmm.c:19-271). */
module VmmRuns {
  import opened PageTables
  import opened Vmm

  /** A call: map or unmap the page of `virt` in address space `r`, as a leaf of level 1 (4 KiB), 2 (2 MiB) or 3 (1
      GiB). */
  datatype Call = Call(r: nat, level: nat, virt: nat, map_: bool, frame: nat, flags: Flags)

  function Written(c: Call): Entry {
    if !c.map_ then ZERO else Entry(c.frame, if c.level == 1 then c.flags else c.flags.(pageSize := true))
  }

  /** The call meets no leaf of another size on its walk, and an unmap finds its table. */
  predicate Allowed(m: Memory, c: Call) {
    var v := PageOf(c.virt);
    match c.level
    case 1 => if c.map_ then !EntryAt(m, c.r, PathL3(v)).flags.pageSize && !EntryAt(m, c.r, PathL2(v)).flags.pageSize
        else Node(m, c.r, PathL2(v)).Some?
    case 2 => (if c.map_ then !EntryAt(m, c.r, PathL3(v)).flags.pageSize else Node(m, c.r, PathL3(v)).Some?) &&
        !IsTable(EntryAt(m, c.r, PathL2(v)), 3)
    case 3 => (c.map_ || Node(m, c.r, PathL4(v)).Some?) && !IsTable(EntryAt(m, c.r, PathL3(v)), 2)
    case _ => false
  }

  /** What page `v` of space `s` translates to after the calls: what the last call wrote that covers the page in a space
      with the same table in that PML4 slot, or else what it was.  `m` is memory before the first call. */
  function After(m: Memory, k: nat, calls: seq<Call>, s: nat, v: Page): Option<Mapping> {
    if calls == [] then Translate(m, s, v)
    else
      var c := calls[|calls| - 1];
      if Covers(c.level, PageOf(c.virt), v) && Sees(m, k, c.r, s, v.i4) then Leaf(Written(c), Offset(c.level, v))
          else After(m, k, calls[..|calls| - 1], s, v)
  }

  /** Which spaces have the same table in a slot does not change. */
  lemma SeesKept(m: Memory, m': Memory, k: nat, roots: set<nat>, r: nat, s: nat, i: nat)
    requires SharesKept(m, m', k, roots) && r in roots && s in roots && k in roots
    ensures Sees(m', k, r, s, i) == Sees(m, k, r, s, i)
  {
  }

  lemma SharesTrans(m: Memory, m1: Memory, m2: Memory, k: nat, roots: set<nat>)
    requires SharesKept(m, m1, k, roots) && SharesKept(m1, m2, k, roots)
    ensures SharesKept(m, m2, k, roots)
  {
  }

  /** Every space translates as the calls so far say. */
  ghost predicate Agrees(m: Memory, m': Memory, k: nat, roots: set<nat>, calls: seq<Call>) {
    SharesKept(m, m', k, roots) && forall s, v :: s in roots ==> Translate(m', s, v) == After(m, k, calls, s, v)
  }

  lemma AgreesNext(m: Memory, m1: Memory, m2: Memory, k: nat, roots: set<nat>, calls: seq<Call>, c: Call)
    requires Agrees(m, m1, k, roots, calls) && c.r in roots && k in roots
    requires Remapped(m1, m2, k, roots, c.r, c.level, PageOf(c.virt), Written(c)) && SharesKept(m1, m2, k, roots)
    ensures Agrees(m, m2, k, roots, calls + [c])
  {
    hide Translate, Covers, Leaf, Offset, PageOf, Sees, SharesKept;
    SharesTrans(m, m1, m2, k, roots);
    forall s, v | s in roots ensures Translate(m2, s, v) == After(m, k, calls + [c], s, v) {
      assert (calls + [c])[..|calls|] == calls;
      SeesKept(m, m2, k, roots, c.r, s, v.i4);
      CoversSlot(c.level, PageOf(c.virt), v);
    }
  }

  lemma CoversSlot(level: nat, u: Page, v: Page)
    ensures Covers(level, u, v) ==> u.i4 == v.i4
  {
  }

  /** One call. */
  method Perform(a: AddressSpaces, c: Call) returns (ok: bool)
    requires a.Valid() && c.r in a.roots && Allowed(a.mem, c)
    modifies a`mem, a.pmm.bitmap
    ensures ok ==>
      a.Valid() && Remapped(old(a.mem), a.mem, a.kernel, a.roots, c.r, c.level, PageOf(c.virt), Written(c)) &&
      SharesKept(old(a.mem), a.mem, a.kernel, a.roots)
    ensures !ok ==> forall f: nat :: f < a.pmm.Frames() ==> f in a.pmm.Used()
  {
    hide Inv, Remapped, SharesKept, Translate, PageOf, EntryAt, Node;
    ok := true;
    if c.map_ {
      if c.level == 1 {
        ok := a.Map(c.r, c.frame, c.virt, c.flags);
      } else if c.level == 2 {
        ok := a.MapLarge(c.r, c.frame, c.virt, c.flags);
      } else {
        ok := a.MapHuge(c.r, c.frame, c.virt, c.flags);
      }
    } else if c.level == 1 {
      a.Unmap(c.r, c.virt);
    } else if c.level == 2 {
      a.UnmapLarge(c.r, c.virt);
    } else {
      a.UnmapHuge(c.r, c.virt);
    }
  }

  lemma AgreesNone(m: Memory, k: nat, roots: set<nat>)
    ensures Agrees(m, m, k, roots, [])
  {
  }

  /** Performs the calls up to the first that is not allowed, `ok` being false where the kernel panics for lack of
      memory: every page of every space translates as the calls performed say, and as nothing else does. */
  method Run(a: AddressSpaces, calls: seq<Call>) returns (ok: bool, n: nat)
    requires a.Valid() && forall i :: 0 <= i < |calls| ==> calls[i].r in a.roots
    modifies a`mem, a.pmm.bitmap
    ensures ok ==>
      a.Valid() && n <= |calls| && (n < |calls| ==> !Allowed(a.mem, calls[n])) &&
      Agrees(old(a.mem), a.mem, a.kernel, a.roots, calls[..n])
    ensures !ok ==> forall f: nat :: f < a.pmm.Frames() ==> f in a.pmm.Used()
  {
    hide Inv, Remapped, SharesKept, Translate, Agrees, Allowed;
    ghost var m := a.mem;
    KernelIn(a.mem, a.pmm.Used(), a.kernel, a.roots);
    AgreesNone(m, a.kernel, a.roots);
    ok, n := true, 0;
    while n < |calls| && Allowed(a.mem, calls[n])
      invariant n <= |calls| && a.Valid() && Agrees(m, a.mem, a.kernel, a.roots, calls[..n])
      decreases |calls| - n
    {
      ghost var m1 := a.mem;
      ok := Perform(a, calls[n]);
      if !ok { return; }
      AgreesNext(m, m1, a.mem, a.kernel, a.roots, calls[..n], calls[n]);
      assert calls[..n] + [calls[n]] == calls[..n + 1];
      n := n + 1;
    }
  }

  // ---- what this means ----------------------------------------------------------------------------

  /** Whatever is mapped and unmapped, a process translates each page of a slot it shares as the kernel does. */
  lemma {:induction false} SharedSlots(m: Memory, k: nat, calls: seq<Call>, r: nat, v: Page)
    requires Shared(m, k, r, v.i4)
    ensures After(m, k, calls, r, v) == After(m, k, calls, k, v)
    decreases |calls|
  {
    if calls == [] {
      SharedAgree(m, k, r, v);
    } else {
      hide Translate, Leaf, Offset, PageOf;
      SharedSlots(m, k, calls[..|calls| - 1], r, v);
    }
  }

  /** No call of another space changes the lower half of a process. */
  lemma {:induction false} LowerHalves(m: Memory, k: nat, calls: seq<Call>, s: nat, v: Page)
    requires v.i4 < LOWER_HALF && forall i :: 0 <= i < |calls| ==> calls[i].r != s
    ensures After(m, k, calls, s, v) == Translate(m, s, v)
    decreases |calls|
  {
    hide Translate, Leaf, Offset, PageOf;
    if calls != [] { LowerHalves(m, k, calls[..|calls| - 1], s, v); }
  }
}
