/** Process address spaces: their pages, process_create and process_destroy (kernel/kernel/process.c). */
module Processes {
  import opened Machine
  import opened Division
  import opened PageTables
  import opened Ownership
  import opened FrameAllocator
  import opened Vmm
  import opened Teardown

  const SPAN: nat := 0x10_0000_0000   // 2^36 pages in the 48-bit address space

  /** The page with virtual page number `n`. */
  function PageNo(n: nat): Page {
    Page(n / 0x800_0000 % 512, n / 0x4_0000 % 512, n / 512 % 512, n % 512)
  }

  lemma DivScale(n: nat, d: nat)
    requires d > 0
    ensures n * PAGE / (d * PAGE) == n / d
  {
    var q, r := n / d, n % d;
    assert n == q * d + r;
    assert n * PAGE == q * (d * PAGE) + r * PAGE;
    DivUnique(n * PAGE, d * PAGE, q, r * PAGE);
  }

  lemma PageOfNumber(n: nat)
    ensures PageOf(n * PAGE) == PageNo(n)
  {
    DivScale(n, 0x800_0000);
    DivScale(n, 0x4_0000);
    DivScale(n, 512);
    DivScale(n, 1);
  }

  lemma PageNoValue(n: nat)
    ensures var v := PageNo(n); n % SPAN == v.i4 * 0x800_0000 + v.i3 * 0x4_0000 + v.i2 * 512 + v.i1
  {
    var a := n / 512;
    var b := a / 512;
    var c := b / 512;
    var d := c / 512;
    assert n / 0x4_0000 == b && n / 0x800_0000 == c && n / SPAN == d;
    assert n == a * 512 + n % 512 && a == b * 512 + a % 512 && b == c * 512 + b % 512 && c == d * 512 + c % 512;
    assert n == d * SPAN + n % SPAN;
  }

  lemma CloseMod(a: nat, b: nat)
    requires a % SPAN == b % SPAN && a <= b < a + SPAN
    ensures a == b
  {
    assert a == a / SPAN * SPAN + a % SPAN && b == b / SPAN * SPAN + b % SPAN;
  }

  /** Different pages of one address space have different paths. */
  lemma PageNoInjective(a: nat, b: nat)
    requires PageNo(a) == PageNo(b) && a <= b < a + SPAN
    ensures a == b
  {
    hide PageNo;
    PageNoValue(a);
    PageNoValue(b);
    CloseMod(a, b);
  }

  // ---- allocating and mapping a run of pages ----------------------------------------------------

  predicate InPages(v: Page, first: nat, count: nat) {
    exists n :: first <= n < first + count && v == PageNo(n)
  }

  /** A table position on the walk to one of the pages. */
  predicate OnRun(q: Path, first: nat, count: nat) {
    exists n :: first <= n < first + count && OnPath(q, PageNo(n))
  }

  ghost predicate RunTables(m: Memory, m': Memory, roots: set<nat>, first: nat, count: nat) {
    && (forall s, q :: s in roots && Node(m', s, q).Some? && Node(m, s, q).None? ==> OnRun(q, first, count))
    && (forall s, q :: s in roots && Node(m, s, q).Some? ==> Node(m', s, q) == Node(m, s, q))
  }

  /** `r` has gained `count` mapped pages from page number `first`, and all frames taken into use. */
  ghost predicate Extended(m: Memory, u: set<nat>, m': Memory, u': set<nat>, k: nat, roots: set<nat>,
                           r: nat, first: nat, count: nat, flags: Flags) {
    && u <= u' && OwnInv(m', u', k, roots) && SharesKept(m, m', k, roots) && NoNewLarge(m, m', roots)
    && RunTables(m, m', roots, first, count)
    && (forall s :: s in roots ==> Owned(m', u', k, s) == Owned(m, u, k, s) + if s == r then u' - u else {})
    && (forall s, v :: s in roots && s != r ==> Translate(m', s, v) == Translate(m, s, v))
    && (forall s, v :: s in roots && (s != r || !InPages(v, first, count)) ==> LeafOf(m', s, v) == LeafOf(m, s, v))
    && (forall n :: first <= n < first + count ==> LeafOf(m', r, PageNo(n)).flags == flags)
  }

  /** The pages are private to `r`, unmapped, and not below a large page. */
  ghost predicate Vacant(m: Memory, k: nat, r: nat, first: nat, count: nat) {
    forall n :: first <= n < first + count ==>
      var v := PageNo(n);
      Private(m, k, r, PathL4(v)) && LeafOf(m, r, v) == ZERO &&
      !EntryAt(m, r, PathL3(v)).flags.pageSize && !EntryAt(m, r, PathL2(v)).flags.pageSize
  }

  lemma {:induction false} ExtendStep(m0: Memory, u0: set<nat>, m1: Memory, u1: set<nat>, m2: Memory, u2: set<nat>,
                                      k: nat, roots: set<nat>, r: nat, first: nat, j: nat, flags: Flags, h: nat)
    requires Extended(m0, u0, m1, u1, k, roots, r, first, j, flags) && r in roots
    requires j < SPAN && h !in u1 && u1 + {h} <= u2
    requires Private(m1, k, r, PathL4(PageNo(first + j)))
    requires forall s :: s in roots ==> Owned(m1, u1 + {h}, k, s) == Owned(m1, u1, k, s)
    requires MapBalance(m1, u1 + {h}, m2, u2, k, roots, r, h, PageNo(first + j))
    requires LeafSet(m1, m2, k, roots, r, PageNo(first + j), Entry(h, flags))
    requires Remapped(m1, m2, k, roots, r, 1, PageNo(first + j), Entry(h, flags))
    requires NoNewLarge(m1, m2, roots) && SharesKept(m1, m2, k, roots) && TablesAdded(m1, m2, roots, PageNo(first + j))
    ensures Extended(m0, u0, m2, u2, k, roots, r, first, j + 1, flags) && OwnInv(m2, u2, k, roots)
  {
    hide OwnInv, Owned, LeafOf, PageNo, Translate, Leaf;
    var v := PageNo(first + j);
    RunTablesStep(m0, m1, m2, roots, first, j);
    assert SharesKept(m0, m2, k, roots);
    assert NoNewLarge(m0, m2, roots);
    forall s | s in roots ensures Owned(m2, u2, k, s) == Owned(m0, u0, k, s) + if s == r then u2 - u0 else {} {
    }
    assert !Shared(m2, k, r, v.i4);
    forall s, w | s in roots && (s != r || !InPages(w, first, j + 1)) ensures LeafOf(m2, s, w) == LeafOf(m0, s, w) {
      assert !(s == r && w == v);
      assert !InPages(w, first, j) || s != r;
    }
    forall n | first <= n < first + j + 1 ensures LeafOf(m2, r, PageNo(n)).flags == flags {
    }
  }

  lemma {:induction false} RunTablesStep(m0: Memory, m1: Memory, m2: Memory, roots: set<nat>, first: nat, j: nat)
    requires RunTables(m0, m1, roots, first, j) && TablesAdded(m1, m2, roots, PageNo(first + j))
    ensures RunTables(m0, m2, roots, first, j + 1)
  {
    hide Node, PageNo, OnPath;
    forall s, q | s in roots && Node(m2, s, q).Some? && Node(m0, s, q).None? ensures OnRun(q, first, j + 1) {
      if Node(m1, s, q).Some? {
        var n :| first <= n < first + j && OnPath(q, PageNo(n));
      } else {
        assert OnPath(q, PageNo(first + j));
      }
    }
  }

  /** The loop shared by the stacks, the heap and the loader: a fresh frame for every page from
      `start` up to `end`. */
  method MapPages(a: AddressSpaces, r: nat, first: nat, count: nat, flags: Flags) returns (ok: bool)
    requires a.Valid() && a.Accounted() && r in a.roots
    requires r != a.kernel && count <= SPAN && flags.present
    requires Vacant(a.mem, a.kernel, r, first, count)
    modifies a`mem, a.pmm.bitmap
    ensures ok ==> a.Valid() && a.Accounted()
    ensures ok ==>
      Extended(old(a.mem), old(a.pmm.Used()), a.mem, a.pmm.Used(), a.kernel, a.roots, r, first, count, flags)
    ensures !ok ==> forall f: nat :: f < a.pmm.Frames() ==> f in a.pmm.Used()
  {
    hide Inv, OwnInv, Extended, Vacant, PageNo, Pmm.Used, MapBalance, Mappable, LeafSet, Remapped, NoNewLarge,
         SharesKept, TablesAdded;
    ghost var m0, u0 := a.mem, a.pmm.Used();
    ExtendStart(m0, u0, a.kernel, a.roots, r, first, flags);
    ok := true;
    for j := 0 to count
      invariant a.Valid() && a.Accounted()
      invariant Extended(m0, u0, a.mem, a.pmm.Used(), a.kernel, a.roots, r, first, j, flags)
    {
      ghost var m1, u1 := a.mem, a.pmm.Used();
      VacantNow(m0, u0, m1, u1, a.kernel, a.roots, r, first, j, count, flags);
      var h;
      ok, h := a.pmm.Alloc();
      if !ok { return; }
      MoreUsed(m1, u1, u1 + {h}, a.kernel, a.roots);
      AllocOwn(m1, u1, a.kernel, a.roots, h);
      PageOfNumber(first + j);
      VacantMappable(m1, u1 + {h}, a.kernel, a.roots, r, first + j, h);
      ok := a.Map(r, h, (first + j) * PAGE, flags);
      if !ok { return; }
      ExtendStep(m0, u0, m1, u1, a.mem, a.pmm.Used(), a.kernel, a.roots, r, first, j, flags, h);
    }
  }

  lemma ExtendStart(m: Memory, u: set<nat>, k: nat, roots: set<nat>, r: nat, first: nat, flags: Flags)
    requires OwnInv(m, u, k, roots)
    ensures Extended(m, u, m, u, k, roots, r, first, 0, flags)
  {
  }

  lemma VacantMappable(m: Memory, u: set<nat>, k: nat, roots: set<nat>, r: nat, n: nat, h: nat)
    requires OwnInv(m, u, k, roots) && Vacant(m, k, r, n, 1) && h in u && Unowned(m, k, roots, h)
    ensures Mappable(m, u, k, roots, r, h, PageNo(n))
  {
    hide OwnInv, PageNo;
  }

  /** The next page is still vacant after `j` pages were mapped. */
  lemma {:induction false} VacantNow(m0: Memory, u0: set<nat>, m1: Memory, u1: set<nat>, k: nat, roots: set<nat>,
                                     r: nat, first: nat, j: nat, count: nat, flags: Flags)
    requires Extended(m0, u0, m1, u1, k, roots, r, first, j, flags) && r in roots && r != k
    requires j < count <= SPAN && Vacant(m0, k, r, first, count)
    ensures Vacant(m1, k, r, first + j, 1)
    ensures Private(m1, k, r, PathL4(PageNo(first + j))) && LeafOf(m1, r, PageNo(first + j)) == ZERO
    ensures !EntryAt(m1, r, PathL3(PageNo(first + j))).flags.pageSize
    ensures !EntryAt(m1, r, PathL2(PageNo(first + j))).flags.pageSize
  {
    hide OwnInv, Owned, PageNo, LeafOf;
    var v := PageNo(first + j);
    forall n | first <= n < first + j ensures PageNo(n) != v {
      if PageNo(n) == v { PageNoInjective(n, first + j); }
    }
    Depths(v);
    assert !InPages(v, first, j);
  }

  // ---- process_create ---------------------------------------------------------------------------

  /** PML4 slots 256 up to `n` of `r` have been copied from the kernel. */
  ghost predicate Copied(m: Memory, m': Memory, k: nat, roots: set<nat>, r: nat, n: nat) {
    && (forall s, q: Path :: s in roots && (s != r || q.Root? || !(LOWER_HALF <= Top(q) < n)) ==>
          Node(m', s, q) == Node(m, s, q) && EntryAt(m', s, q) == EntryAt(m, s, q))
    && (forall q: Path :: q.Sub? && LOWER_HALF <= Top(q) < n ==>
          Node(m', r, q) == Node(m, k, q) && EntryAt(m', r, q) == EntryAt(m, k, q))
    && (forall i: nat :: At(m', r, i) == if LOWER_HALF <= i < n then At(m, k, i) else At(m, r, i))
    && (forall s, i :: s in roots && s != r ==> At(m', s, i) == At(m, s, i))
  }

  method CopyKernelHalf(a: AddressSpaces, r: nat)
    requires a.Valid() && a.Accounted() && r in a.roots && r != a.kernel
    requires forall i :: LOWER_HALF <= i ==> At(a.mem, r, i) == ZERO
    modifies a`mem
    ensures a.Valid() && a.Accounted() && Copied(old(a.mem), a.mem, a.kernel, a.roots, r, ENTRIES)
    ensures forall s :: s in a.roots ==> a.FramesOf(s) == old(a.FramesOf(s))
  {
    hide Inv, OwnInv, Owned, Copied, Pmm.Used;
    ghost var m, used := a.mem, a.pmm.Used();
    assert r < |a.mem| && a.kernel < |a.mem| by { RootInUse(m, used, a.kernel, a.roots, r); }
    CopiedStart(m, a.kernel, a.roots, r);
    for i := LOWER_HALF to ENTRIES
      invariant a.Valid() && a.Accounted() && a.pmm.Used() == used
      invariant Copied(m, a.mem, a.kernel, a.roots, r, i)
      invariant forall s :: s in a.roots ==> Owned(a.mem, used, a.kernel, s) == Owned(m, used, a.kernel, s)
    {
      CopyStep(m, a.mem, used, a.kernel, a.roots, r, i);
      a.mem := Write(a.mem, r, i, At(a.mem, a.kernel, i));
    }
  }

  lemma RootInUse(m: Memory, u: set<nat>, k: nat, roots: set<nat>, r: nat)
    requires Inv(m, u, k, roots) && r in roots
    ensures r < |m| && k < |m| && r in u && k in roots
  {
    assert Node(m, r, Root) == Some(r) && Node(m, k, Root) == Some(k);
  }

  lemma CopiedStart(m: Memory, k: nat, roots: set<nat>, r: nat)
    ensures Copied(m, m, k, roots, r, LOWER_HALF)
  {
  }

  lemma {:induction false} CopyStep(m0: Memory, m: Memory, u: set<nat>, k: nat, roots: set<nat>, r: nat, i: nat)
    requires Inv(m, u, k, roots) && OwnInv(m, u, k, roots) && r in roots
    requires r != k && LOWER_HALF <= i < ENTRIES
    requires Copied(m0, m, k, roots, r, i) && forall j :: LOWER_HALF <= j ==> At(m0, r, j) == ZERO
    ensures r < |m|
    ensures var m' := Write(m, r, i, At(m, k, i));
      && Inv(m', u, k, roots) && OwnInv(m', u, k, roots) && Copied(m0, m', k, roots, r, i + 1)
      && forall s :: s in roots ==> Owned(m', u, k, s) == Owned(m, u, k, s)
  {
    RootInUse(m, u, k, roots, r);
    var m' := Write(m, r, i, At(m, k, i));
    CopySlotInv(m, u, k, roots, r, i);
    forall s, q: Path | s in roots
      ensures Node(m', s, q) == Node(m, if s == r && q.Sub? && Top(q) == i then k else s, q)
      ensures EntryAt(m', s, q) == EntryAt(m, if s == r && q.Sub? && Top(q) == i then k else s, q)
    {
      CopySlotNodes(m, u, k, roots, r, i, s, q);
    }
    if At(m, k, i) != ZERO {
      CopySlotOwn(m, u, k, roots, r, i);
    } else {
      assert At(m, r, i) == ZERO;
      assert m[r][i := ZERO] == m[r];
      assert m' == m;
    }
  }

  /** No 2 MiB or 1 GiB page lies in the private part of `r`. */
  ghost predicate Small(m: Memory, k: nat, r: nat) {
    forall v :: Private(m, k, r, PathL4(v)) ==>
      !EntryAt(m, r, PathL3(v)).flags.pageSize && !EntryAt(m, r, PathL2(v)).flags.pageSize
  }

  /** The private upper half of `r` is its kernel stack and the tables that lead there. */
  ghost predicate UpperShape(m: Memory, k: nat, r: nat, first: nat, count: nat) {
    && (forall n :: first <= n < first + count ==>
          && PageNo(n).i4 >= LOWER_HALF && Private(m, k, r, PathL4(PageNo(n)))
          && LeafOf(m, r, PageNo(n)).flags == KERNEL_DATA)
    && (forall v: Page ::
         v.i4 >= LOWER_HALF && Private(m, k, r, PathL4(v)) && LeafOf(m, r, v) != ZERO ==> InPages(v, first, count))
    && (forall q: Path ::
         q.Sub? && Top(q) >= LOWER_HALF && Private(m, k, r, q) && Node(m, r, q).Some? ==> OnRun(q, first, count))
  }

  /** Below an empty PML4 slot there is nothing. */
  lemma {:induction false} EmptySlot(m: Memory, r: nat, q: Path)
    requires q.Sub? && At(m, r, Top(q)) == ZERO
    ensures Node(m, r, q) == None && EntryAt(m, r, q) == ZERO
  {
    if q.up.Sub? { EmptySlot(m, r, q.up); } else { SlotNode(m, r, q.index); }
  }

  /** After the copy, the pages for both stacks can be mapped and the upper half holds no private page. */
  lemma {:induction false} AfterCopy(m0: Memory, m1: Memory, k: nat, roots: set<nat>, r: nat, sf: nat, sc: nat,
                                     kf: nat, kc: nat)
    requires Copied(m0, m1, k, roots, r, ENTRIES) && r in roots && k in roots && r != k
    requires forall i :: LOWER_HALF <= i ==> At(m0, r, i) == ZERO
    requires forall v: Page ::
      v.i4 < LOWER_HALF ==> !EntryAt(m0, r, PathL3(v)).flags.pageSize && !EntryAt(m0, r, PathL2(v)).flags.pageSize
    requires forall n :: sf <= n < sf + sc ==> PageNo(n).i4 < LOWER_HALF && LeafOf(m0, r, PageNo(n)) == ZERO
    requires forall n :: kf <= n < kf + kc ==> PageNo(n).i4 >= LOWER_HALF && At(m0, k, PageNo(n).i4) == ZERO
    ensures Vacant(m1, k, r, sf, sc) && Vacant(m1, k, r, kf, kc) && Small(m1, k, r)
    ensures forall q: Path ::
      q.Sub? && Top(q) >= LOWER_HALF && Private(m1, k, r, q) ==> Node(m1, r, q) == None && EntryAt(m1, r, q) == ZERO
    ensures forall i :: LOWER_HALF <= i < ENTRIES && At(m0, k, i) != ZERO ==> Shared(m1, k, r, i)
  {
    hide PageNo;
    forall q: Path | q.Sub? && Top(q) >= LOWER_HALF && Private(m1, k, r, q) ensures Node(m1, r, q) == None &&
        EntryAt(m1, r, q) == ZERO {
      assert At(m1, r, Top(q)) == ZERO;
      EmptySlot(m1, r, q);
    }
    forall v | Private(m1, k, r, PathL4(v))
      ensures !EntryAt(m1, r, PathL3(v)).flags.pageSize && !EntryAt(m1, r, PathL2(v)).flags.pageSize
    {
      Depths(v);
    }
    forall n | sf <= n < sf + sc ensures Private(m1, k, r, PathL4(PageNo(n))) && LeafOf(m1, r, PageNo(n)) == ZERO {
      Depths(PageNo(n));
      assert Top(PathL1(PageNo(n))) == PageNo(n).i4;
    }
    forall n | kf <= n < kf + kc ensures Private(m1, k, r, PathL4(PageNo(n))) && LeafOf(m1, r, PageNo(n)) == ZERO {
      Depths(PageNo(n));
      assert Top(PathL1(PageNo(n))) == PageNo(n).i4;
      assert At(m1, r, PageNo(n).i4) == ZERO;
    }
  }

  /** Mapping some pages leaves others vacant and brings no large page. */
  lemma {:induction false} VacantKept(m1: Memory, u1: set<nat>, m2: Memory, u2: set<nat>, k: nat, roots: set<nat>,
                                      r: nat,
                                      first: nat, count: nat, flags: Flags, g: nat, d: nat)
    requires Extended(m1, u1, m2, u2, k, roots, r, first, count, flags) && r in roots && r != k
    requires Vacant(m1, k, r, g, d) && forall n :: g <= n < g + d ==> !InPages(PageNo(n), first, count)
    ensures Vacant(m2, k, r, g, d)
  {
    hide PageNo, InPages, LeafOf, OwnInv, Owned;
    forall n | g <= n < g + d
      ensures var v := PageNo(n);
        Private(m2, k, r, PathL4(v)) && LeafOf(m2, r, v) == ZERO &&
        !EntryAt(m2, r, PathL3(v)).flags.pageSize && !EntryAt(m2, r, PathL2(v)).flags.pageSize
    {
      Depths(PageNo(n));
    }
  }

  lemma {:induction false} SmallKept(m1: Memory, u1: set<nat>, m2: Memory, u2: set<nat>, k: nat, roots: set<nat>,
                                     r: nat,
                                     first: nat, count: nat, flags: Flags)
    requires Extended(m1, u1, m2, u2, k, roots, r, first, count, flags) && r in roots && r != k && Small(m1, k, r)
    ensures Small(m2, k, r)
  {
    hide PageNo, InPages, LeafOf, OwnInv, Owned;
    forall v | Private(m2, k, r, PathL4(v))
      ensures !EntryAt(m2, r, PathL3(v)).flags.pageSize && !EntryAt(m2, r, PathL2(v)).flags.pageSize
    {
      Depths(v);
      assert Private(m1, k, r, PathL4(v));
    }
  }

  /** Mapping lower-half pages does not touch the upper half. */
  lemma {:induction false} UpperKept(m1: Memory, u1: set<nat>, m2: Memory, u2: set<nat>, k: nat, roots: set<nat>,
                                     r: nat,
                                     first: nat, count: nat, flags: Flags, kf: nat, kc: nat)
    requires Extended(m1, u1, m2, u2, k, roots, r, first, count, flags) && r in roots && r != k
    requires UpperShape(m1, k, r, kf, kc) && forall n :: first <= n < first + count ==> PageNo(n).i4 < LOWER_HALF
    ensures UpperShape(m2, k, r, kf, kc)
  {
    hide PageNo, LeafOf, OwnInv, Owned;
    forall n | kf <= n < kf + kc ensures Private(m2, k, r, PathL4(PageNo(n))) &&
        LeafOf(m2, r, PageNo(n)) == LeafOf(m1, r, PageNo(n)) {
      assert !InPages(PageNo(n), first, count);
    }
    forall v: Page | v.i4 >= LOWER_HALF && Private(m2, k, r, PathL4(v)) &&
        LeafOf(m2, r, v) != ZERO ensures InPages(v, kf, kc) {
      assert !InPages(v, first, count);
      assert Private(m1, k, r, PathL4(v)) && LeafOf(m1, r, v) != ZERO;
    }
    forall q: Path | q.Sub? && Top(q) >= LOWER_HALF && Private(m2, k, r, q) &&
        Node(m2, r, q).Some? ensures OnRun(q, kf, kc) {
      if Node(m1, r, q).None? {
        var n :| first <= n < first + count && OnPath(q, PageNo(n));
        Depths(PageNo(n));
        assert false;
      }
      assert Private(m1, k, r, q);
    }
  }

  /** Mapping the kernel stack into an empty private upper half. */
  lemma {:induction false} UpperGrow(m1: Memory, u1: set<nat>, m2: Memory, u2: set<nat>, k: nat, roots: set<nat>,
                                     r: nat,
                                     kf: nat, kc: nat)
    requires Extended(m1, u1, m2, u2, k, roots, r, kf, kc, KERNEL_DATA) && r in roots && r != k
    requires UpperShape(m1, k, r, kf, 0) && Vacant(m1, k, r, kf, kc)
    requires forall n :: kf <= n < kf + kc ==> PageNo(n).i4 >= LOWER_HALF
    ensures UpperShape(m2, k, r, kf, kc)
  {
    hide PageNo, LeafOf, OwnInv, Owned;
    forall n | kf <= n < kf + kc ensures Private(m2, k, r, PathL4(PageNo(n))) {
      assert Private(m1, k, r, PathL4(PageNo(n)));
    }
    forall v: Page | v.i4 >= LOWER_HALF && Private(m2, k, r, PathL4(v)) &&
        LeafOf(m2, r, v) != ZERO ensures InPages(v, kf, kc) {
      assert Private(m1, k, r, PathL4(v)) && !InPages(v, kf, 0);
    }
    forall q: Path | q.Sub? && Top(q) >= LOWER_HALF && Private(m2, k, r, q) &&
        Node(m2, r, q).Some? ensures OnRun(q, kf, kc) {
      assert Private(m1, k, r, q);
      assert !OnRun(q, kf, 0);
    }
  }

  class Process {
    var pml4: nat
    var stackTop: nat
    var stackSize: nat
    var kernelStackTop: nat
    var kernelStackSize: nat
    var brkStart: nat
    var brk: nat

    ghost function KernelFirst(): nat
      reads this
      requires kernelStackSize <= kernelStackTop
    {
      (kernelStackTop - kernelStackSize) / PAGE
    }

    ghost function KernelCount(): nat
      reads this
    {
      kernelStackSize / PAGE
    }

    /** A process whose private memory is 4 KiB pages, the upper-half ones being its kernel stack. */
    ghost predicate Built(a: AddressSpaces)
      reads this, a, a.pmm.bitmap
    {
      && a.Valid() && a.Accounted() && pml4 in a.roots && pml4 != a.kernel
      && kernelStackSize <= kernelStackTop && KernelCount() <= SPAN
      && Small(a.mem, a.kernel, pml4) && UpperShape(a.mem, a.kernel, pml4, KernelFirst(), KernelCount())
    }
  }

  predicate Aligned(top: nat, size: nat) {
    top % PAGE == 0 && size % PAGE == 0 && size <= top && size / PAGE <= SPAN
  }

  /** What process_create does to memory: every existing kernel slot is shared, the user stack is
      mapped, the rest of the lower half and every other address space are as before, and all frames
      taken into use belong to the process. */
  ghost predicate Created(m: Memory, u: set<nat>, m': Memory, u': set<nat>, k: nat, roots: set<nat>, r: nat, sf: nat,
                          sc: nat) {
    && u <= u' && Owned(m', u', k, r) == Owned(m, u, k, r) + (u' - u)
    && (forall s :: s in roots && s != r ==> Owned(m', u', k, s) == Owned(m, u, k, s))
    && (forall s, v :: s in roots && s != r ==> Translate(m', s, v) == Translate(m, s, v))
    && (forall i :: LOWER_HALF <= i < ENTRIES && At(m, k, i) != ZERO ==> Shared(m', k, r, i))
    && (forall n :: sf <= n < sf + sc ==> LeafOf(m', r, PageNo(n)).flags == USER_DATA)
    && (forall v: Page :: v.i4 < LOWER_HALF && !InPages(v, sf, sc) ==> LeafOf(m', r, v) == LeafOf(m, r, v))
  }

  /** The pages of the user stack; none when either its top or its size is zero. */
  function StackFirst(top: nat, size: nat): nat
    requires size <= top
  {
    (top - size) / PAGE
  }

  function StackCount(top: nat, size: nat): nat {
    if top != 0 && size != 0 then size / PAGE else 0
  }

  /** process_create. */
  method Create(a: AddressSpaces, p: Process, pml4: nat, stackTop: nat, stackSize: nat, kernelStackTop: nat,
                kernelStackSize: nat)
    returns (ok: bool)
    requires a.Valid() && a.Accounted() && pml4 in a.roots && pml4 != a.kernel
    requires forall i :: LOWER_HALF <= i ==> At(a.mem, pml4, i) == ZERO
    requires forall v: Page :: v.i4 < LOWER_HALF ==>
               !EntryAt(a.mem, pml4, PathL3(v)).flags.pageSize && !EntryAt(a.mem, pml4, PathL2(v)).flags.pageSize
    requires Aligned(stackTop, stackSize) && Aligned(kernelStackTop, kernelStackSize)
    requires forall n ::
      StackFirst(stackTop, stackSize) <= n < StackFirst(stackTop, stackSize) + StackCount(stackTop, stackSize) ==>
               PageNo(n).i4 < LOWER_HALF && LeafOf(a.mem, pml4, PageNo(n)) == ZERO
    requires var kf := (kernelStackTop - kernelStackSize) / PAGE;
      forall n ::
          kf <= n < kf + kernelStackSize / PAGE ==>
          PageNo(n).i4 >= LOWER_HALF && At(a.mem, a.kernel, PageNo(n).i4) == ZERO
    modifies p, a`mem, a.pmm.bitmap
    ensures ok ==>
      p.Built(a) && p.pml4 == pml4 && p.kernelStackTop == kernelStackTop && p.kernelStackSize == kernelStackSize
    ensures ok ==> p.brkStart == old(p.brkStart) && p.brk == old(p.brk)
    ensures ok ==>
      if stackTop == 0 || stackSize == 0 then p.stackTop == kernelStackTop && p.stackSize == kernelStackSize
      else p.stackTop == stackTop && p.stackSize == stackSize
    ensures ok ==> Created(old(a.mem), old(a.pmm.Used()), a.mem, a.pmm.Used(), a.kernel, a.roots, pml4,
                           StackFirst(stackTop, stackSize), StackCount(stackTop, stackSize))
    ensures !ok ==> forall f: nat :: f < a.pmm.Frames() ==> f in a.pmm.Used()
  {
    hide Inv, OwnInv, Owned, Copied, Pmm.Used, Extended, Vacant, Small, UpperShape, PageNo, LeafOf, Translate, Created;
    p.pml4 := pml4;
    var hasStack := stackTop != 0 && stackSize != 0;
    ghost var m0 := a.mem;
    CopyKernelHalf(a, pml4);
    ok := MapStacks(a, pml4, (stackTop - stackSize) / PAGE, if hasStack then stackSize / PAGE else 0,
                    (kernelStackTop - kernelStackSize) / PAGE, kernelStackSize / PAGE, m0);
    if !ok { return; }
    p.kernelStackTop, p.kernelStackSize := kernelStackTop, kernelStackSize;
    p.stackTop := if hasStack then stackTop else kernelStackTop;
    p.stackSize := if hasStack then stackSize else kernelStackSize;
  }

  /** The two stack loops of process_create, after the kernel half was copied from memory `m0`. */
  method MapStacks(a: AddressSpaces, r: nat, sf: nat, sc: nat, kf: nat, kc: nat, ghost m0: Memory) returns (ok: bool)
    requires a.Valid() && a.Accounted() && r in a.roots
    requires r != a.kernel && sc <= SPAN && kc <= SPAN
    requires Copied(m0, a.mem, a.kernel, a.roots, r, ENTRIES)
    requires forall s :: s in a.roots ==> a.FramesOf(s) == Owned(m0, a.pmm.Used(), a.kernel, s)
    requires forall i :: LOWER_HALF <= i ==> At(m0, r, i) == ZERO
    requires forall v: Page :: v.i4 < LOWER_HALF ==>
               !EntryAt(m0, r, PathL3(v)).flags.pageSize && !EntryAt(m0, r, PathL2(v)).flags.pageSize
    requires forall n :: sf <= n < sf + sc ==> PageNo(n).i4 < LOWER_HALF && LeafOf(m0, r, PageNo(n)) == ZERO
    requires forall n :: kf <= n < kf + kc ==> PageNo(n).i4 >= LOWER_HALF && At(m0, a.kernel, PageNo(n).i4) == ZERO
    modifies a`mem, a.pmm.bitmap
    ensures ok ==> a.Valid() && a.Accounted() && Small(a.mem, a.kernel, r) && UpperShape(a.mem, a.kernel, r, kf, kc)
    ensures ok ==> Created(m0, old(a.pmm.Used()), a.mem, a.pmm.Used(), a.kernel, a.roots, r, sf, sc)
    ensures !ok ==> forall f: nat :: f < a.pmm.Frames() ==> f in a.pmm.Used()
  {
    hide Inv, OwnInv, Owned, Copied, Pmm.Used, Extended, Vacant, Small, UpperShape, PageNo, LeafOf, Translate, Created;
    ghost var k, roots, m1, u0 := a.kernel, a.roots, a.mem, a.pmm.Used();
    RootInUse(m1, u0, k, roots, r);
    AfterCopy(m0, m1, k, roots, r, sf, sc, kf, kc);
    UpperStart(m1, k, r, kf);
    LowHigh(sf, sc, kf, kc);
    ok := MapPages(a, r, sf, sc, USER_DATA);
    if !ok { return; }
    ghost var m2, u2 := a.mem, a.pmm.Used();
    VacantKept(m1, u0, m2, u2, k, roots, r, sf, sc, USER_DATA, kf, kc);
    SmallKept(m1, u0, m2, u2, k, roots, r, sf, sc, USER_DATA);
    UpperKept(m1, u0, m2, u2, k, roots, r, sf, sc, USER_DATA, kf, 0);
    ok := MapPages(a, r, kf, kc, KERNEL_DATA);
    if !ok { return; }
    UpperGrow(m2, u2, a.mem, a.pmm.Used(), k, roots, r, kf, kc);
    SmallKept(m2, u2, a.mem, a.pmm.Used(), k, roots, r, kf, kc, KERNEL_DATA);
    CreateBalance(m0, m1, u0, m2, u2, a.mem, a.pmm.Used(), k, roots, r, sf, sc, kf, kc);
  }

  lemma UpperStart(m: Memory, k: nat, r: nat, kf: nat)
    requires forall q: Path ::
      q.Sub? && Top(q) >= LOWER_HALF && Private(m, k, r, q) ==> Node(m, r, q) == None && EntryAt(m, r, q) == ZERO
    ensures UpperShape(m, k, r, kf, 0)
  {
    forall v: Page | v.i4 >= LOWER_HALF && Private(m, k, r, PathL4(v)) ensures LeafOf(m, r, v) == ZERO {
      Depths(v);
      assert Top(PathL1(v)) == v.i4;
    }
  }

  lemma LowHigh(sf: nat, sc: nat, kf: nat, kc: nat)
    requires forall n :: sf <= n < sf + sc ==> PageNo(n).i4 < LOWER_HALF
    requires forall n :: kf <= n < kf + kc ==> PageNo(n).i4 >= LOWER_HALF
    ensures forall n :: kf <= n < kf + kc ==> !InPages(PageNo(n), sf, sc)
  {
    hide PageNo;
  }

  lemma {:induction false} CreateBalance(m0: Memory, m1: Memory, u0: set<nat>, m2: Memory, u2: set<nat>, m3: Memory,
                                         u3: set<nat>,
                                         k: nat, roots: set<nat>, r: nat, sf: nat, sc: nat, kf: nat, kc: nat)
    requires r in roots && r != k && Copied(m0, m1, k, roots, r, ENTRIES)
    requires forall s :: s in roots ==> Owned(m1, u0, k, s) == Owned(m0, u0, k, s)
    requires Extended(m1, u0, m2, u2, k, roots, r, sf, sc, USER_DATA)
    requires Extended(m2, u2, m3, u3, k, roots, r, kf, kc, KERNEL_DATA)
    requires forall i :: LOWER_HALF <= i < ENTRIES && At(m0, k, i) != ZERO ==> Shared(m1, k, r, i)
    requires forall n :: sf <= n < sf + sc ==> PageNo(n).i4 < LOWER_HALF
    requires forall n :: kf <= n < kf + kc ==> PageNo(n).i4 >= LOWER_HALF
    ensures Created(m0, u0, m3, u3, k, roots, r, sf, sc)
  {
    hide OwnInv, Owned, PageNo;
    forall v: Page | v.i4 < LOWER_HALF ensures LeafOf(m3, r, v) == LeafOf(m2, r, v) &&
        LeafOf(m1, r, v) == LeafOf(m0, r, v) {
      Depths(v);
      assert Top(PathL1(v)) == v.i4;
      assert !InPages(v, kf, kc);
    }
  }

  // ---- process_destroy --------------------------------------------------------------------------

  /** A frame that holds a private upper-half table of `r`. */
  ghost predicate InUpper(m: Memory, k: nat, r: nat, f: nat) {
    exists q: Path :: q.Sub? && Top(q) >= LOWER_HALF && Private(m, k, r, q) && Node(m, r, q) == Some(f)
  }

  ghost function UpperTables(m: Memory, u: set<nat>, k: nat, r: nat): set<nat> {
    set f | f in u && InUpper(m, k, r, f)
  }

  /** `r` has lost exactly `count` mapped pages from page number `first`, and the frames released are
      exactly the frames it lost. */
  ghost predicate Shrunk(m: Memory, u: set<nat>, m': Memory, u': set<nat>, k: nat, roots: set<nat>, r: nat,
                         first: nat, count: nat) {
    && SharesKept(m, m', k, roots) && NodesKept(m, m', roots) && NoNewLarge(m, m', roots)
    && u' <= u && Owned(m', u', k, r) == Owned(m, u, k, r) - (u - u') && u - u' <= Owned(m, u, k, r)
    && (forall s :: s in roots && s != r ==> Owned(m', u', k, s) == Owned(m, u, k, s))
    && (forall s, v :: s in roots && s != r ==> Translate(m', s, v) == Translate(m, s, v))
    && (forall s, v :: s in roots && (s != r || !InPages(v, first, count)) ==> LeafOf(m', s, v) == LeafOf(m, s, v))
    && (forall n :: first <= n < first + count ==> LeafOf(m', r, PageNo(n)) == ZERO)
  }

  /** A private 4 KiB page holds a frame in use that is no table. */
  lemma {:induction false} PrivateLeaf(m: Memory, u: set<nat>, k: nat, roots: set<nat>, r: nat, v: Page)
    requires OwnInv(m, u, k, roots) && r in roots && Private(m, k, r, PathL4(v)) && LeafOf(m, r, v) != ZERO
    ensures LeafOf(m, r, v).frame in u && NoTables(m, roots, {LeafOf(m, r, v).frame})
    ensures LeafOf(m, r, v).frame in Owned(m, u, k, r)
  {
    Depths(v);
    var p := PathL1(v);
    assert Top(p) == v.i4;
    assert Tracked(m, k, r, p) && Frame(m, r, p) == Some(LeafOf(m, r, v).frame);
    forall s, q | s in roots && Node(m, s, q).Some? ensures Node(m, s, q).value != LeafOf(m, r, v).frame {
      NodeDepth(m, s, q);
      assert Frame(m, s, q) == Node(m, s, q);
      assert Sole(m, k, r, p, s, q);
    }
  }

  lemma {:induction false} ShrinkStep(m0: Memory, u0: set<nat>, m1: Memory, u1: set<nat>, m2: Memory, u2: set<nat>,
                                      k: nat, roots: set<nat>, r: nat, first: nat, j: nat)
    requires Shrunk(m0, u0, m1, u1, k, roots, r, first, j) && r in roots && r != k
    requires Private(m1, k, r, PathL4(PageNo(first + j)))
    requires LeafOf(m1, r, PageNo(first + j)).frame in Owned(m1, u1, k, r)
    requires u2 == u1 - {LeafOf(m1, r, PageNo(first + j)).frame}
    requires FreeBalance(m1, m2, u1, u2, k, roots, r, PageNo(first + j))
    requires LeafSet(m1, m2, k, roots, r, PageNo(first + j), ZERO)
    requires Remapped(m1, m2, k, roots, r, 1, PageNo(first + j), ZERO)
    requires NoNewLarge(m1, m2, roots) && SharesKept(m1, m2, k, roots) && NodesKept(m1, m2, roots)
    ensures Shrunk(m0, u0, m2, u2, k, roots, r, first, j + 1) && OwnInv(m2, u2, k, roots)
  {
    hide OwnInv, PageNo, LeafOf, Translate, Leaf, Node;
    var v := PageNo(first + j);
    assert !Shared(m2, k, r, v.i4);
    assert u1 <= u0 && Owned(m1, u1, k, r) <= u1;
    hide Owned;
    forall s, w | s in roots && (s != r || !InPages(w, first, j + 1)) ensures LeafOf(m2, s, w) == LeafOf(m0, s, w) {
      assert !(s == r && w == v);
      assert !InPages(w, first, j) || s != r;
    }
    forall n | first <= n < first + j + 1 ensures LeafOf(m2, r, PageNo(n)) == ZERO {
    }
  }

  /** The release loop of process_destroy and of a shrinking break. */
  method FreePages(a: AddressSpaces, r: nat, first: nat, count: nat)
    requires a.Valid() && a.Accounted() && r in a.roots
    requires r != a.kernel && count <= SPAN && Small(a.mem, a.kernel, r)
    requires forall n ::
      first <= n < first + count ==>
      Private(a.mem, a.kernel, r, PathL4(PageNo(n))) && LeafOf(a.mem, r, PageNo(n)).flags.present
    modifies a`mem, a.pmm.bitmap
    ensures a.Valid() && a.Accounted()
    ensures Shrunk(old(a.mem), old(a.pmm.Used()), a.mem, a.pmm.Used(), a.kernel, a.roots, r, first, count)
  {
    hide Inv, OwnInv, Shrunk, Small, PageNo, Pmm.Used, LeafSet, Remapped, NoNewLarge, SharesKept, NodesKept,
         FreeBalance, NoTables;
    ghost var m0, u0 := a.mem, a.pmm.Used();
    ShrinkStart(m0, u0, a.kernel, a.roots, r, first);
    for j := 0 to count
      invariant a.Valid() && a.Accounted()
      invariant Shrunk(m0, u0, a.mem, a.pmm.Used(), a.kernel, a.roots, r, first, j)
    {
      ghost var m1, u1, v := a.mem, a.pmm.Used(), PageNo(first + j);
      StillMapped(m0, u0, m1, u1, a.kernel, a.roots, r, first, j, count);
      PrivateLeaf(m1, u1, a.kernel, a.roots, r, v);
      PageOfNumber(first + j);
      assert LeafFrames(m1, r, v) == {LeafOf(m1, r, v).frame};
      Free(a, r, (first + j) * PAGE);
      ShrinkStep(m0, u0, m1, u1, a.mem, a.pmm.Used(), a.kernel, a.roots, r, first, j);
    }
  }

  lemma ShrinkStart(m: Memory, u: set<nat>, k: nat, roots: set<nat>, r: nat, first: nat)
    ensures Shrunk(m, u, m, u, k, roots, r, first, 0)
  {
  }

  lemma {:induction false} StillMapped(m0: Memory, u0: set<nat>, m1: Memory, u1: set<nat>, k: nat, roots: set<nat>,
                                       r: nat, first: nat, j: nat, count: nat)
    requires Shrunk(m0, u0, m1, u1, k, roots, r, first, j) && r in roots && r != k
    requires Small(m0, k, r) && j < count <= SPAN
    requires forall n ::
      first <= n < first + count ==> Private(m0, k, r, PathL4(PageNo(n))) && LeafOf(m0, r, PageNo(n)).flags.present
    ensures var v := PageNo(first + j);
      Private(m1, k, r, PathL4(v)) && LeafOf(m1, r, v).flags.present && LeafLevel(m1, r, v) == 1
  {
    hide PageNo, LeafOf, Owned;
    var v := PageNo(first + j);
    forall n | first <= n < first + j ensures PageNo(n) != v {
      if PageNo(n) == v { PageNoInjective(n, first + j); }
    }
    assert !InPages(v, first, j);
    Depths(v);
  }

  /** process_destroy: every frame of the process goes back, once, except the tables of its private
      upper half, which vmm_destroy never visits; nothing else changes for any other process. */
  method DestroyProcess(a: AddressSpaces, p: Process)
    requires p.Built(a)
    modifies a`mem, a`roots, a.pmm.bitmap
    ensures a.roots == old(a.roots) - {p.pml4} && a.Valid() && a.Accounted()
    ensures a.pmm.Used() ==
            old(a.pmm.Used()) - (old(a.FramesOf(p.pml4)) - UpperTables(old(a.mem), old(a.pmm.Used()), a.kernel, p.pml4))
    ensures forall s :: s in a.roots ==> a.FramesOf(s) == old(a.FramesOf(s))
    ensures forall s, v :: s in a.roots ==> Translate(a.mem, s, v) == old(Translate(a.mem, s, v))
  {
    hide Inv, OwnInv, Shrunk, Small, UpperShape, PageNo, Pmm.Used, Owned, InLower, UpperTables, Translate;
    ghost var r, kf, kc := p.pml4, p.KernelFirst(), p.KernelCount();
    ghost var m0, u0, k, roots := a.mem, a.pmm.Used(), a.kernel, a.roots;
    StackMapped(m0, k, r, kf, kc);
    FreePages(a, p.pml4, (p.kernelStackTop - p.kernelStackSize) / PAGE, p.kernelStackSize / PAGE);
    ghost var m1, u1 := a.mem, a.pmm.Used();
    RootInUse(m1, u1, k, roots, r);
    Destroy(a, p.pml4);
    DestroyFacts(m0, u0, m1, u1, k, roots, r, kf, kc, a.pmm.Used());
    a.pmm.Free(p.pml4);
    a.roots := a.roots - {r};
  }

  lemma StackMapped(m: Memory, k: nat, r: nat, kf: nat, kc: nat)
    requires UpperShape(m, k, r, kf, kc)
    ensures forall n ::
      kf <= n < kf + kc ==> Private(m, k, r, PathL4(PageNo(n))) && LeafOf(m, r, PageNo(n)).flags.present
  {
  }

  /** Once the kernel stack is gone, the process owns its PML4, its lower half and its upper tables. */
  lemma {:induction false} OwnedParts(m: Memory, u: set<nat>, k: nat, roots: set<nat>, r: nat)
    requires OwnInv(m, u, k, roots) && r in roots && r != k
    requires forall v: Page :: v.i4 >= LOWER_HALF && Private(m, k, r, PathL4(v)) ==> LeafOf(m, r, v) == ZERO
    ensures forall f: nat :: f in Owned(m, u, k, r) <==> f == r || InLower(m, r, f) || f in UpperTables(m, u, k, r)
    ensures forall f: nat :: f in UpperTables(m, u, k, r) ==> f != r && !InLower(m, r, f)
    ensures !InLower(m, r, r) && r in u
  {
    assert Private(m, k, r, Root) && Frame(m, r, Root) == Some(r) && Depth(Root) == 0;
    forall f: nat | f in Owned(m, u, k, r) ensures f == r || InLower(m, r, f) || f in UpperTables(m, u, k, r) {
      var p :| Private(m, k, r, p) && Depth(p) <= 4 && Frame(m, r, p) == Some(f);
      if p.Sub? && Top(p) >= LOWER_HALF {
        if Depth(p) == 4 {
          var v := PathPage(p);
          assert false;
        }
        assert InUpper(m, k, r, f);
      }
    }
    forall f: nat | InLower(m, r, f) ensures f in Owned(m, u, k, r) && f != r {
      var p: Path :| p.Sub? && Depth(p) <= 4 && Top(p) < LOWER_HALF && Frame(m, r, p) == Some(f);
      assert Private(m, k, r, p) && Tracked(m, k, r, p);
      assert Sole(m, k, r, p, r, Root);
    }
    forall f: nat | f in UpperTables(m, u, k, r) ensures f in Owned(m, u, k, r) && f != r && !InLower(m, r, f) {
      UpperApart(m, u, k, roots, r, f);
    }
  }

  lemma {:induction false} UpperApart(m: Memory, u: set<nat>, k: nat, roots: set<nat>, r: nat, f: nat)
    requires OwnInv(m, u, k, roots) && r in roots && r != k && f in UpperTables(m, u, k, r)
    ensures f in Owned(m, u, k, r) && f != r && !InLower(m, r, f)
  {
    var q: Path :| q.Sub? && Top(q) >= LOWER_HALF && Private(m, k, r, q) && Node(m, r, q) == Some(f);
    NodeDepth(m, r, q);
    assert Frame(m, r, q) == Some(f);
    assert Frame(m, r, Root) == Some(r) && Depth(Root) == 0;
    assert Sole(m, k, r, q, r, Root);
    assert !InLower(m, r, f);
  }

  lemma PathPage(p: Path) returns (v: Page)
    requires Depth(p) == 4
    ensures p == PathL1(v) && Top(p) == v.i4
  {
    assert Depth(p.up) == 3 && Depth(p.up.up) == 2 && Depth(p.up.up.up) == 1 && Depth(p.up.up.up.up) == 0;
    v := Page(p.up.up.up.index, p.up.up.index, p.up.index, p.index);
    Depths(v);
    assert Top(PathL1(v)) == v.i4;
  }

  lemma {:induction false} UpperTablesKept(m0: Memory, u0: set<nat>, m1: Memory, u1: set<nat>, k: nat,
                                           roots: set<nat>, r: nat)
    requires OwnInv(m1, u1, k, roots) && r in roots && r != k && u1 <= u0
    requires SharesKept(m0, m1, k, roots) && NodesKept(m0, m1, roots)
    ensures UpperTables(m1, u1, k, r) == UpperTables(m0, u0, k, r)
  {
    forall q ensures Private(m1, k, r, q) == Private(m0, k, r, q) && Node(m1, r, q) == Node(m0, r, q) {
    }
    forall f: nat ensures InUpper(m1, k, r, f) <==> InUpper(m0, k, r, f) {
    }
    forall f: nat | InUpper(m1, k, r, f) ensures f in u1 {
      var q: Path :| q.Sub? && Top(q) >= LOWER_HALF && Private(m1, k, r, q) && Node(m1, r, q) == Some(f);
      TableInUse(m1, u1, k, roots, r, q);
    }
  }

  lemma {:induction false} DestroyFacts(m0: Memory, u0: set<nat>, m1: Memory, u1: set<nat>, k: nat, roots: set<nat>,
                                        r: nat,
                                        kf: nat, kc: nat, u2: set<nat>)
    requires Inv(m1, u1, k, roots) && OwnInv(m1, u1, k, roots) && r in roots && r != k
    requires UpperShape(m0, k, r, kf, kc) && Shrunk(m0, u0, m1, u1, k, roots, r, kf, kc)
    requires forall f :: f in u2 <==> f in u1 && !InLower(m1, r, f)
    ensures r in u2
    ensures u2 - {r} == u0 - (Owned(m0, u0, k, r) - UpperTables(m0, u0, k, r))
    ensures Inv(m1, u2 - {r}, k, roots - {r}) && OwnInv(m1, u2 - {r}, k, roots - {r})
    ensures forall s :: s in roots && s != r ==> Owned(m1, u2 - {r}, k, s) == Owned(m0, u0, k, s)
    ensures forall s, v :: s in roots && s != r ==> Translate(m1, s, v) == Translate(m0, s, v)
  {
    hide OwnInv, PageNo;
    forall v: Page | v.i4 >= LOWER_HALF && Private(m1, k, r, PathL4(v)) ensures LeafOf(m1, r, v) == ZERO {
      assert Private(m0, k, r, PathL4(v));
      if !InPages(v, kf, kc) { assert LeafOf(m1, r, v) == LeafOf(m0, r, v); }
    }
    OwnedParts(m1, u1, k, roots, r);
    UpperTablesKept(m0, u0, m1, u1, k, roots, r);
    var gone := u1 - (u2 - {r});
    forall f | f in gone ensures Owns(m1, k, r, f) {
      assert f in Owned(m1, u1, k, r);
    }
    assert u2 - {r} == u1 - gone;
    RemoveRoot(m1, u1, gone, k, roots, r);
    assert forall f: nat :: f in u2 - {r} <==> f in u0 - (Owned(m0, u0, k, r) - UpperTables(m0, u0, k, r));
  }

  /** The default kernel stack: 16 KiB below PROCESS_VIRT_KERNEL_STACK_TOP. */
  const KERNEL_STACK_TOP: nat := 0xFFFF_FF80_0000_0000
  const KERNEL_STACK_SIZE: nat := 0x4000
  const KERNEL_STACK_PAGE: nat := 0xF_FFFF_F7FF_FFFC   // (KERNEL_STACK_TOP - KERNEL_STACK_SIZE) / PAGE
  const KERNEL_STACK_LEAF := Page(510, 511, 511, 508)

  lemma KernelStackPages(n: nat)
    requires KERNEL_STACK_PAGE <= n < KERNEL_STACK_PAGE + 4
    ensures PageNo(n) == KERNEL_STACK_LEAF.(i1 := 508 + n - KERNEL_STACK_PAGE)
  {
    DivUnique(n, 0x800_0000, 0x1FF_FFFE, 0x7FF_FFFC + n - KERNEL_STACK_PAGE);
    DivUnique(n, 0x4_0000, 0x3_FFFF_FDFF, 0x3_FFFC + n - KERNEL_STACK_PAGE);
    DivUnique(n, 512, 0x7FF_FFFB_FFFF, 0x1FC + n - KERNEL_STACK_PAGE);
  }

  lemma OnKernelStack(q: Path)
    requires OnRun(q, KERNEL_STACK_PAGE, 4)
    ensures OnPath(q, KERNEL_STACK_LEAF)
  {
    hide PageNo;
    var n :| KERNEL_STACK_PAGE <= n < KERNEL_STACK_PAGE + 4 && OnPath(q, PageNo(n));
    KernelStackPages(n);
  }

  /** With the default kernel stack exactly three frames stay behind: the PDPT, PD and PT of slot 510. */
  lemma {:induction false} ThreeLeft(m: Memory, u: set<nat>, k: nat, roots: set<nat>, r: nat)
    requires OwnInv(m, u, k, roots) && r in roots && r != k && UpperShape(m, k, r, KERNEL_STACK_PAGE, 4)
    ensures |UpperTables(m, u, k, r)| == 3
    ensures var v := KERNEL_STACK_LEAF;
      && Node(m, r, PathL4(v)).Some? && Node(m, r, PathL3(v)).Some? && Node(m, r, PathL2(v)).Some?
      && UpperTables(m, u, k, r) == {Node(m, r, PathL4(v)).value, Node(m, r, PathL3(v)).value,
           Node(m, r, PathL2(v)).value}
  {
    hide PageNo, OwnInv, OnRun, InPages, Node, LeafOf, Private;
    var v := KERNEL_STACK_LEAF;
    KernelStackPages(KERNEL_STACK_PAGE);
    ThreeTables(m, u, k, roots, r, v);
    var x, y, z := Node(m, r, PathL4(v)).value, Node(m, r, PathL3(v)).value, Node(m, r, PathL2(v)).value;
    forall f: nat | f in UpperTables(m, u, k, r) ensures f in {x, y, z} {
      var q: Path :| q.Sub? && Top(q) >= LOWER_HALF && Private(m, k, r, q) && Node(m, r, q) == Some(f);
      OnKernelStack(q);
    }
    assert UpperTables(m, u, k, r) == {x, y, z};
  }

  /** The tables on the way to a private upper-half page are three different upper tables. */
  lemma {:induction false} ThreeTables(m: Memory, u: set<nat>, k: nat, roots: set<nat>, r: nat, v: Page)
    requires OwnInv(m, u, k, roots) && r in roots && r != k && v.i4 >= LOWER_HALF
    requires Private(m, k, r, PathL4(v)) && LeafOf(m, r, v) != ZERO
    ensures Node(m, r, PathL4(v)).Some? && Node(m, r, PathL3(v)).Some? && Node(m, r, PathL2(v)).Some?
    ensures var x, y, z := Node(m, r, PathL4(v)).value, Node(m, r, PathL3(v)).value, Node(m, r, PathL2(v)).value;
            x != y && x != z && y != z && {x, y, z} <= UpperTables(m, u, k, r)
  {
    Depths(v);
    assert Node(m, r, PathL2(v)).Some?;
    assert EntryAt(m, r, PathL2(v)) != ZERO && Node(m, r, PathL3(v)).Some?;
    assert EntryAt(m, r, PathL3(v)) != ZERO && Node(m, r, PathL4(v)).Some?;
    assert Sole(m, k, r, PathL4(v), r, PathL3(v)) && Sole(m, k, r, PathL4(v), r, PathL2(v)) &&
        Sole(m, k, r, PathL3(v), r, PathL2(v));
    TableInUse(m, u, k, roots, r, PathL4(v));
    TableInUse(m, u, k, roots, r, PathL3(v));
    TableInUse(m, u, k, roots, r, PathL2(v));
  }
}
