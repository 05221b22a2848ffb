/** kmalloc and kfree over the frame allocator and the kernel's page tables (kernel/kernel/slab.c:46-164,
    kernel/kernel/kmalloc.c:10-45), and whole runs of them. */
module KernelHeap {
  import opened Sequences
  import opened Machine
  import SlabPages
  import Slab
  import opened PageTables
  import opened Ownership
  import opened FrameAllocator
  import opened Vmm
  import opened Processes

  const FIRST: nat := Slab.START / PAGE
  const PAGES: nat := 0x1000_0000   // SLAB_VIRT_SIZE / VMM_DEFAULT_PAGE_SIZE

  // ---- the pages and the page tables --------------------------------------------------------------

  /** The frames behind the slab pages. */
  function Frames(h: Slab.Pool): set<nat> {
    h.mapped.Values
  }

  /** The address of the `j`-th page of the slab region. */
  function Address(j: nat): nat {
    Slab.START + PAGE * j
  }

  /** What the kernel's entry for the `j`-th page should be. */
  function EntryFor(h: Slab.Pool, j: nat): Entry {
    if Address(j) in h.mapped then Entry(h.mapped[Address(j)], KERNEL_DATA) else ZERO
  }

  /** In the slab region the kernel maps exactly the slab pages; their frames are in use and in no address space. */
  ghost predicate Tied(h: Slab.Pool, m: Memory, u: set<nat>, k: nat, roots: set<nat>) {
    && (forall p :: p in h.mapped ==> h.mapped[p] in u && Unowned(m, k, roots, h.mapped[p]))
    && forall j: nat :: j < PAGES ==> PageTied(h, m, k, j)
  }

  /** The entry of the `j`-th page is as it should be, and the page is not part of a large one. */
  predicate PageTied(h: Slab.Pool, m: Memory, k: nat, j: nat) {
    var v := PageNo(FIRST + j);
    && LeafOf(m, k, v) == EntryFor(h, j) && !EntryAt(m, k, PathL3(v)).flags.pageSize
    && !EntryAt(m, k, PathL2(v)).flags.pageSize
  }

  /** The pages made so far. */
  function Made(h: Slab.Pool): nat {
    h.top / PAGE
  }

  /** `f` holds a table of the kernel that was not there in `m0`. */
  ghost predicate IsNew(m0: Memory, m: Memory, k: nat, f: nat) {
    exists q :: Node(m0, k, q).None? && Node(m, k, q) == Some(f)
  }

  ghost function NewTables(m0: Memory, m: Memory, u: set<nat>, k: nat): set<nat> {
    set f | f in u && IsNew(m0, m, k, f)
  }

  /** All tables on the walks to the pages made are there; those that were not there in `m0` are on these walks. */
  ghost predicate Walked(m0: Memory, m: Memory, k: nat, n: nat) {
    && (forall q :: OnRun(q, FIRST, n) ==> Node(m, k, q).Some?)
    && (forall q :: Node(m0, k, q).Some? ==> Node(m, k, q) == Node(m0, k, q))
    && (forall q :: Node(m, k, q).Some? && Node(m0, k, q).None? ==> OnRun(q, FIRST, n))
  }

  /** The account: the frames in use are those in use at the start, one for each slab page, and one for each new
      table. */
  ghost predicate Account(h: Slab.Pool, m0: Memory, u0: set<nat>, m: Memory, u: set<nat>, k: nat) {
    && Walked(m0, m, k, Made(h)) && u == u0 + Frames(h) + NewTables(m0, m, u, k)
    && u0 !! Frames(h) && u0 !! NewTables(m0, m, u, k) && Frames(h) !! NewTables(m0, m, u, k)
  }

  /** A heap on an address space. */
  ghost predicate Sits(h: Slab.Allocator, a: AddressSpaces, m0: Memory, u0: set<nat>)
    reads h, a, a.pmm.bitmap
  {
    && h.Valid() && a.Valid() && a.Accounted()
    && Tied(h.Value(), a.mem, a.pmm.Used(), a.kernel, a.roots)
    && Account(h.Value(), m0, u0, a.mem, a.pmm.Used(), a.kernel)
  }

  lemma MappedOne(m: map<nat, nat>, p: nat, f: nat)
    requires p !in m
    ensures m[p := f].Values == m.Values + {f}
  {
    forall x | x in m.Values ensures x in m[p := f].Values { var q :| q in m && m[q] == x; assert m[p := f][q] == x; }
    assert m[p := f][p] == f;
  }

  lemma UnmappedOne(m: map<nat, nat>, p: nat)
    requires p in m && forall q, r :: q in m && r in m && q != r ==> m[q] != m[r]
    ensures (m - {p}).Values == m.Values - {m[p]}
  {
    forall x | x in m.Values && x != m[p] ensures x in (m - {p}).Values { var q :| q in m && m[q] == x;
        assert (m - {p})[q] == x; }
  }

  /** Without an object in use there is no page. */
  lemma NoObjectsNoPages(h: Slab.Pool, l: Slab.Lists)
    requires Slab.Inv(h, l) && Slab.Busy(h.slabs) && forall x :: !Slab.IsLive(h, x)
    ensures h.mapped == map[]
  {
    hide Slab.ListsOk, Slab.IsLive, Slab.PageOk;
    forall p | p in h.slabs ensures exists x :: Slab.IsLive(h, x) { PageHasObject(h, l, p); }
  }

  lemma PageHasObject(h: Slab.Pool, l: Slab.Lists, p: nat)
    requires Slab.Inv(h, l) && Slab.Busy(h.slabs) && p in h.slabs
    ensures exists x :: Slab.IsLive(h, x)
  {
    hide Slab.ListsOk, SlabPages.OnGrid, SlabPages.Max, SlabPages.PageOf, Slab.FreeObjects;
    var slab := h.slabs[p];
    assert Slab.PageOk(h.word, p, slab);
    Slab.CountHeld(h.word, p, slab);
    var x :| Slab.Held(h.word, p, slab, x);
    SlabPages.PageOfObject(p, slab.bin, x);
    assert Slab.IsLive(h, x);
  }

  lemma RegionPage(j: nat)
    requires j < PAGES
    ensures PageTables.PageOf(Address(j)) == PageNo(FIRST + j) && Address(j) % PAGE == 0
  {
    PageOfNumber(FIRST + j);
    assert Address(j) == (FIRST + j) * PAGE;
  }

  lemma OtherPage(i: nat, j: nat)
    requires i < PAGES && j < PAGES && i != j
    ensures PageNo(FIRST + i) != PageNo(FIRST + j) && Address(i) != Address(j)
  {
    hide PageNo;
    if PageNo(FIRST + i) == PageNo(FIRST + j) {
      if i <= j { PageNoInjective(FIRST + i, FIRST + j); } else { PageNoInjective(FIRST + j, FIRST + i); }
    }
  }

  // ---- a page is added ----------------------------------------------------------------------------

  lemma {:induction false} WalkedNext(m0: Memory, m1: Memory, m2: Memory, k: nat, roots: set<nat>, n: nat)
    requires Walked(m0, m1, k, n) && k in roots && TablesAdded(m1, m2, roots, PageNo(FIRST + n))
    requires Node(m2, k, PathL2(PageNo(FIRST + n))).Some?
    ensures Walked(m0, m2, k, n + 1)
  {
    var v := PageNo(FIRST + n);
    AboveTables(m2, k, v);
    hide Node, PageNo, OnPath;
    forall q ensures OnRun(q, FIRST, n + 1) <==> OnRun(q, FIRST, n) || OnPath(q, v) {
      if OnRun(q, FIRST, n + 1) {
        var x :| FIRST <= x < FIRST + (n + 1) && OnPath(q, PageNo(x));
        if x < FIRST + n { assert OnRun(q, FIRST, n); }
      }
    }
  }

  lemma AboveTables(m: Memory, k: nat, v: Page)
    requires Node(m, k, PathL2(v)).Some?
    ensures forall q :: OnPath(q, v) ==> Node(m, k, q).Some?
  {
    Depths(v);
    assert EntryAt(m, k, PathL2(v)) != ZERO && Node(m, k, PathL3(v)).Some?;
    assert EntryAt(m, k, PathL3(v)) != ZERO && Node(m, k, PathL4(v)).Some?;
  }

  /** The new tables after a page are those before and those taken for its walk. */
  lemma {:induction false} TablesNext(m0: Memory, m1: Memory, u1: set<nat>, m2: Memory, u2: set<nat>, k: nat,
                                      roots: set<nat>, n: nat, phys: nat)
    requires Walked(m0, m1, k, n) && k in roots && TablesAdded(m1, m2, roots, PageNo(FIRST + n))
    requires phys !in u1 && u1 + {phys} <= u2
    requires TablesTaken(m1, u1 + {phys}, m2, u2, k, PageNo(FIRST + n)) && Closed(m1, u1, roots)
    ensures NewTables(m0, m2, u2, k) == NewTables(m0, m1, u1, k) + (u2 - u1 - {phys})
  {
    hide Node, PageNo, OnPath;
    var v := PageNo(FIRST + n);
    forall f | f in u2 && IsNew(m0, m2, k, f) ensures f in NewTables(m0, m1, u1, k) + (u2 - u1 - {phys}) {
      var q :| Node(m0, k, q).None? && Node(m2, k, q) == Some(f);
      if Node(m1, k, q).Some? {
        assert IsNew(m0, m1, k, f);
      }
    }
    forall f | f in u1 && IsNew(m0, m1, k, f) ensures IsNew(m0, m2, k, f) {
      var q :| Node(m0, k, q).None? && Node(m1, k, q) == Some(f);
      assert Node(m2, k, q) == Some(f);
    }
    forall f | f in u2 - u1 - {phys} ensures IsNew(m0, m2, k, f) {
      var q :| OnPath(q, v) && Node(m1, k, q).None? && Node(m2, k, q) == Some(f);
      assert Node(m0, k, q).None?;
    }
  }

  /** What mapping frame `phys` at the next page has done. */
  ghost predicate PageMapped(m1: Memory, u1: set<nat>, m2: Memory, u2: set<nat>, k: nat, roots: set<nat>, n: nat,
                             phys: nat) {
    var v := PageNo(FIRST + n);
    && phys !in u1 && u1 + {phys} <= u2 && k in roots && Closed(m1, u1, roots) && Node(m2, k, PathL2(v)).Some?
    && LeafSet(m1, m2, k, roots, k, v, Entry(phys, KERNEL_DATA)) && NoNewLarge(m1, m2, roots)
    && TablesAdded(m1, m2, roots, v)
    && TablesTaken(m1, u1 + {phys}, m2, u2, k, v)
    && (forall f :: f in u1 + {phys} && Unowned(m1, k, roots, f) ==> Unowned(m2, k, roots, f))
    && Unowned(m1, k, roots, phys)
  }

  ghost predicate Extends(h: Slab.Pool, h': Slab.Pool, phys: nat) {
    && h.top % PAGE == 0 && h'.top == h.top + PAGE && h'.mapped == h.mapped[Address(Made(h)) := phys]
    && Address(Made(h)) !in h.mapped
  }

  lemma {:induction false} AddsPage(h: Slab.Pool, h': Slab.Pool, m0: Memory, u0: set<nat>, m1: Memory, u1: set<nat>,
                                    m2: Memory, u2: set<nat>,
                                    k: nat, roots: set<nat>, phys: nat)
    requires Tied(h, m1, u1, k, roots) && Account(h, m0, u0, m1, u1, k) && Extends(h, h', phys) && Made(h) < PAGES
    requires PageMapped(m1, u1, m2, u2, k, roots, Made(h), phys)
    ensures Tied(h', m2, u2, k, roots) && Account(h', m0, u0, m2, u2, k)
  {
    hide Node, PageNo, OnPath, LeafOf, Closed, Unowned, EntryFor, LeafSet, NewTables, Walked, TablesTaken,
         TablesAdded, NoNewLarge, PageTied;
    var n := Made(h);
    assert Made(h') == n + 1;
    WalkedNext(m0, m1, m2, k, roots, n);
    TablesNext(m0, m1, u1, m2, u2, k, roots, n, phys);
    MappedOne(h.mapped, Address(n), phys);
    forall j: nat | j < PAGES ensures PageTied(h', m2, k, j) {
      EntryNext(h, h', m1, m2, k, roots, phys, j);
    }
  }

  lemma EntryNext(h: Slab.Pool, h': Slab.Pool, m1: Memory, m2: Memory, k: nat, roots: set<nat>, phys: nat, j: nat)
    requires Extends(h, h', phys) && Made(h) < PAGES && j < PAGES
    requires k in roots && NoNewLarge(m1, m2, roots)
    requires LeafSet(m1, m2, k, roots, k, PageNo(FIRST + Made(h)), Entry(phys, KERNEL_DATA))
    requires PageTied(h, m1, k, j)
    ensures PageTied(h', m2, k, j)
  {
    hide PageNo, LeafOf;
    Depths(PageNo(FIRST + j));
    if j != Made(h) { OtherPage(j, Made(h)); }
  }

  // ---- a page goes back ---------------------------------------------------------------------------

  lemma {:induction false} DropsPage(h: Slab.Pool, h': Slab.Pool, m0: Memory, u0: set<nat>, m1: Memory, u1: set<nat>,
                                     m2: Memory,
                                     k: nat, roots: set<nat>, n: nat)
    requires Tied(h, m1, u1, k, roots) && Account(h, m0, u0, m1, u1, k) && k in roots && n < PAGES
    requires h'.top == h.top && Address(n) in h.mapped && h'.mapped == h.mapped - {Address(n)}
    requires forall q, r :: q in h.mapped && r in h.mapped && q != r ==> h.mapped[q] != h.mapped[r]
    requires LeafSet(m1, m2, k, roots, k, PageNo(FIRST + n), ZERO) && NoNewLarge(m1, m2, roots)
    requires NodesKept(m1, m2, roots)
    requires forall f :: Unowned(m1, k, roots, f) ==> Unowned(m2, k, roots, f)
    ensures var u2 := u1 - {h.mapped[Address(n)]}; Tied(h', m2, u2, k, roots) && Account(h', m0, u0, m2, u2, k)
  {
    hide Node, PageNo, OnPath, LeafOf, Closed, Unowned, EntryFor, LeafSet, NoNewLarge, PageTied, OnRun;
    var phys := h.mapped[Address(n)];
    var u2 := u1 - {phys};
    UnmappedOne(h.mapped, Address(n));
    forall f ensures IsNew(m0, m2, k, f) <==> IsNew(m0, m1, k, f) {
    }
    assert phys in Frames(h);
    assert NewTables(m0, m2, u2, k) == NewTables(m0, m1, u1, k);
    forall j: nat | j < PAGES ensures PageTied(h', m2, k, j) {
      EntryGone(h, h', m1, m2, k, roots, n, j);
    }
  }

  lemma EntryGone(h: Slab.Pool, h': Slab.Pool, m1: Memory, m2: Memory, k: nat, roots: set<nat>, n: nat, j: nat)
    requires n < PAGES && j < PAGES && k in roots
    requires NoNewLarge(m1, m2, roots) && h'.mapped == h.mapped - {Address(n)}
    requires LeafSet(m1, m2, k, roots, k, PageNo(FIRST + n), ZERO)
    requires PageTied(h, m1, k, j)
    ensures PageTied(h', m2, k, j)
  {
    hide PageNo, LeafOf;
    Depths(PageNo(FIRST + j));
    if j != n { OtherPage(j, n); }
  }

  // ---- the calls ----------------------------------------------------------------------------------

  lemma HeapFacts(h: Slab.Pool, l: Slab.Lists)
    requires Slab.Inv(h, l)
    ensures h.top % PAGE == 0 && Address(Made(h)) == Slab.START + h.top && Slab.START + h.top !in h.mapped
    ensures h.mapped.Keys == h.slabs.Keys
    ensures forall q, r :: q in h.mapped && r in h.mapped && q != r ==> h.mapped[q] != h.mapped[r]
    ensures forall p ::
      p in h.mapped ==> Slab.START <= p < Slab.START + h.top && p % PAGE == 0 && h.mapped[p] == h.slabs[p].phys
  {
    Slab.NewAddress(h, l);
    forall p | p in h.slabs ensures p % PAGE == 0 { assert Slab.PageOk(h.word, p, h.slabs[p]); }
  }

  /** bin_alloc's pmm_alloc and vmm_map. */
  method MapSlab(h: Slab.Allocator, a: AddressSpaces) returns (ok: bool, phys: nat)
    requires h.Valid() && a.Valid() && a.Accounted()
    requires Tied(h.Value(), a.mem, a.pmm.Used(), a.kernel, a.roots) && Made(h.Value()) < PAGES
    modifies a`mem, a.pmm.bitmap
    ensures ok ==> a.Valid() && a.Accounted() && phys !in Frames(h.Value())
    ensures ok ==>
      PageMapped(old(a.mem), old(a.pmm.Used()), a.mem, a.pmm.Used(), a.kernel, a.roots, Made(h.Value()), phys)
    ensures !ok ==> forall f: nat :: f < a.pmm.Frames() ==> f in a.pmm.Used()
  {
    hide Inv, OwnInv, Pmm.Used, MapBalance, Mappable, LeafSet, Remapped, NoNewLarge, SharesKept, TablesAdded,
         TablesTaken, PageNo, LeafOf, Unowned,
         Slab.Inv, Slab.Busy, EntryFor;
    ghost var m, u, n := a.mem, a.pmm.Used(), Made(h.Value());
    HeapFacts(h.Value(), h.lists);
    assert PageTied(h.Value(), m, a.kernel, n);
    ok, phys := a.pmm.Alloc();
    if !ok { return; }
    MoreUsed(m, u, u + {phys}, a.kernel, a.roots);
    AllocOwn(m, u, a.kernel, a.roots, phys);
    RegionPage(n);
    KernelFacts(m, u, a.kernel, a.roots, PageNo(FIRST + n), phys);
    ok := a.Map(a.kernel, phys, Slab.START + h.top, KERNEL_DATA);
    if !ok { return; }
    KernelBalance(m, u + {phys}, a.mem, a.pmm.Used(), a.kernel, a.roots, phys, PageNo(FIRST + n));
  }

  /** The kernel's own pages are in no process's account. */
  lemma KernelFacts(m: Memory, u: set<nat>, k: nat, roots: set<nat>, v: Page, phys: nat)
    requires Inv(m, u, k, roots) && OwnInv(m, u + {phys}, k, roots)
    ensures k in roots && Closed(m, u, roots) && Mappable(m, u + {phys}, k, roots, k, phys, v)
  {
    hide OwnInv;
  }

  lemma KernelBalance(m: Memory, u: set<nat>, m': Memory, u': set<nat>, k: nat, roots: set<nat>, phys: nat, v: Page)
    requires MapBalance(m, u, m', u', k, roots, k, phys, v)
    ensures OwnInv(m', u', k, roots) && forall f :: f in u && Unowned(m, k, roots, f) ==> Unowned(m', k, roots, f)
  {
    hide OwnInv, Unowned, Owned;
  }

  /** bin_alloc; `ok` is false where the kernel panics for lack of memory. */
  method BinAlloc(h: Slab.Allocator, a: AddressSpaces, b: nat, ghost m0: Memory, ghost u0: set<nat>)
    returns (ok: bool, addr: nat)
    requires Sits(h, a, m0, u0) && b < SlabPages.BINS && Made(h.Value()) < PAGES
    modifies h, a`mem, a.pmm.bitmap
    ensures ok ==>
      Sits(h, a, m0, u0) && Slab.Allocated(old(h.Value()), h.Value(), b, addr) &&
      Made(h.Value()) <= old(Made(h.Value())) + 1
    ensures !ok ==> forall f: nat :: f < a.pmm.Frames() ==> f in a.pmm.Used()
  {
    hide Inv, OwnInv, Pmm.Used, PageMapped, Tied, Account, Slab.Inv, Slab.Busy, Slab.Allocated, SlabPages.BINS;
    ghost var h0, m, u := h.Value(), a.mem, a.pmm.Used();
    HeapFacts(h0, h.lists);
    Slab.EmptyHead(h0, h.lists, b);
    ok := true;
    var phys: nat := 0;
    if h.bins[b].free == 0 {
      ok, phys := MapSlab(h, a);
      if !ok { return false, 0; }
      addr := h.Allocate(b, phys);
      HeapFacts(h.Value(), h.lists);
      AddsPage(h0, h.Value(), m0, u0, m, u, a.mem, a.pmm.Used(), a.kernel, a.roots, phys);
    } else {
      addr := h.Allocate(b, phys);
      SamePages(h0, h.Value(), m0, u0, m, u, a.kernel, a.roots);
    }
  }

  lemma SamePages(h: Slab.Pool, h': Slab.Pool, m0: Memory, u0: set<nat>, m: Memory, u: set<nat>, k: nat,
                  roots: set<nat>)
    requires h'.mapped == h.mapped && h'.top == h.top
    ensures Tied(h, m, u, k, roots) ==> Tied(h', m, u, k, roots)
    ensures Account(h, m0, u0, m, u, k) ==> Account(h', m0, u0, m, u, k)
  {
    hide LeafOf, PageNo, Unowned, Walked, NewTables;
    if Tied(h, m, u, k, roots) {
      forall j: nat | j < PAGES ensures PageTied(h', m, k, j) { assert PageTied(h, m, k, j); }
    }
  }

  /** kmalloc. */
  method Kmalloc(h: Slab.Allocator, a: AddressSpaces, n: nat, ghost m0: Memory, ghost u0: set<nat>)
    returns (ok: bool, addr: nat)
    requires Sits(h, a, m0, u0) && 0 < n <= 1024 && Made(h.Value()) < PAGES
    modifies h, a`mem, a.pmm.bitmap
    ensures ok ==>
      Sits(h, a, m0, u0) && Slab.Allocated(old(h.Value()), h.Value(), Slab.BinFor(n), addr) &&
      Made(h.Value()) <= old(Made(h.Value())) + 1
    ensures !ok ==> forall f: nat :: f < a.pmm.Frames() ==> f in a.pmm.Used()
  {
    hide Sits, Slab.Allocated, Slab.BinFor, SlabPages.BINS;
    ok, addr := BinAlloc(h, a, Slab.BinFor(n), m0, u0);
  }

  /** bin_free's pmm_free and vmm_unmap, for the `n`-th page. */
  method UnmapSlab(a: AddressSpaces, phys: nat, n: nat)
    requires a.Valid() && a.Accounted() && phys in a.pmm.Used()
    requires Unowned(a.mem, a.kernel, a.roots, phys) && n < PAGES
    requires Node(a.mem, a.kernel, PathL2(PageNo(FIRST + n))).Some? && a.kernel in a.roots
    modifies a`mem, a.pmm.bitmap
    ensures a.Valid() && a.Accounted() && a.pmm.Used() == old(a.pmm.Used()) - {phys}
    ensures LeafSet(old(a.mem), a.mem, a.kernel, a.roots, a.kernel, PageNo(FIRST + n), ZERO)
    ensures NoNewLarge(old(a.mem), a.mem, a.roots)
    ensures NodesKept(old(a.mem), a.mem, a.roots)
    ensures forall f :: Unowned(old(a.mem), a.kernel, a.roots, f) ==> Unowned(a.mem, a.kernel, a.roots, f)
  {
    hide Inv, OwnInv, Pmm.Used, UnmapBalance, LeafSet, Remapped, NoNewLarge, SharesKept, NodesKept, PageNo, Unowned;
    FreeOwn(a.mem, a.pmm.Used(), a.kernel, a.roots, phys);
    a.pmm.Free(phys);
    RegionPage(n);
    ghost var m := a.mem;
    a.Unmap(a.kernel, Address(n));
    UnmapKernel(m, a.mem, a.pmm.Used(), a.kernel, a.roots, PageNo(FIRST + n));
  }

  lemma UnmapKernel(m: Memory, m': Memory, u: set<nat>, k: nat, roots: set<nat>, v: Page)
    requires UnmapBalance(m, m', u, k, roots, k, v)
    ensures OwnInv(m', u, k, roots) && forall f :: Unowned(m, k, roots, f) ==> Unowned(m', k, roots, f)
  {
    hide OwnInv, Unowned, Owned;
  }

  lemma IndexOf(h: Slab.Pool, p: nat)
    requires Slab.START <= p < Slab.START + h.top && p % PAGE == 0 && h.top % PAGE == 0
    ensures var n := (p - Slab.START) / PAGE; Address(n) == p && n < Made(h)
  {
    assert Slab.START % PAGE == 0;
  }

  /** What bin_free finds for the page of an object. */
  lemma SlabOf(h: Slab.Pool, l: Slab.Lists, m0: Memory, u0: set<nat>, m: Memory, u: set<nat>, k: nat, roots: set<nat>,
               addr: nat)
    returns (n: nat)
    requires Slab.Inv(h, l) && Slab.IsLive(h, addr) && Tied(h, m, u, k, roots)
    requires Account(h, m0, u0, m, u, k) && Made(h) <= PAGES
    ensures n < PAGES && Address(n) == SlabPages.PageOf(addr) && Address(n) in h.mapped
    ensures Address(n) in h.slabs && h.slabs[Address(n)].phys == h.mapped[Address(n)]
    ensures h.mapped[Address(n)] in u && Unowned(m, k, roots, h.mapped[Address(n)])
    ensures Node(m, k, PathL2(PageNo(FIRST + n))).Some?
  {
    hide Slab.Inv, Unowned, PageNo, LeafOf, NewTables, Node, PageTied;
    var p := SlabPages.PageOf(addr);
    HeapFacts(h, l);
    n := (p - Slab.START) / PAGE;
    IndexOf(h, p);
    hide Address, Made;
    assert OnPath(PathL2(PageNo(FIRST + n)), PageNo(FIRST + n));
    assert OnRun(PathL2(PageNo(FIRST + n)), FIRST, Made(h));
  }

  /** bin_free and kfree, for an object in use. */
  method Kfree(h: Slab.Allocator, a: AddressSpaces, addr: nat, ghost m0: Memory, ghost u0: set<nat>)
    requires Sits(h, a, m0, u0) && Slab.IsLive(h.Value(), addr) && Made(h.Value()) <= PAGES
    modifies h, a`mem, a.pmm.bitmap
    ensures Sits(h, a, m0, u0) && Slab.Freed(old(h.Value()), h.Value(), addr)
  {
    hide Inv, OwnInv, Pmm.Used, Tied, Account, Slab.Inv, Slab.Busy, Slab.IsLive, Slab.LastOnPage, SlabPages.PageOf,
         PageNo, Node, LeafSet, NoNewLarge,
         NodesKept, Unowned, LeafOf;
    ghost var h0, m, u := h.Value(), a.mem, a.pmm.Used();
    ghost var n := SlabOf(h0, h.lists, m0, u0, m, u, a.kernel, a.roots, addr);
    KernelIn(m, u, a.kernel, a.roots);
    HeapFacts(h0, h.lists);
    var page := SlabPages.PageOf(addr);
    var phys := h.slabs[page].phys;
    h.Release(addr);
    HeapFacts(h.Value(), h.lists);
    if page !in h.slabs {
      var j := (page - Slab.START) / PAGE;
      SameIndex(n, j, page);
      UnmapSlab(a, phys, j);
      DropsPage(h0, h.Value(), m0, u0, m, u, a.mem, a.kernel, a.roots, n);
    } else {
      SamePages(h0, h.Value(), m0, u0, m, u, a.kernel, a.roots);
    }
  }

  lemma SameIndex(n: nat, j: nat, page: nat)
    requires Address(n) == page && j == (page - Slab.START) / PAGE
    ensures j == n
  {
  }

  // ---- whole runs ---------------------------------------------------------------------------------

  datatype Call = Request(bytes: nat) | Release(k: nat)

  /** Exactly the objects held are in use, each once. */
  ghost predicate Holding(h: Slab.Pool, live: seq<nat>) {
    NoDup(live) && forall x :: Slab.IsLive(h, x) <==> x in live
  }

  lemma HoldingMore(h: Slab.Pool, h': Slab.Pool, live: seq<nat>, b: nat, a: nat)
    requires Holding(h, live) && Slab.Allocated(h, h', b, a)
    ensures Holding(h', live + [a])
  {
    hide Slab.IsLive, SlabPages.PageOf, SlabPages.OnGrid;
    assert a !in live;
  }

  lemma HoldingLess(h: Slab.Pool, h': Slab.Pool, live: seq<nat>, k: nat)
    requires Holding(h, live) && k < |live| && Slab.Freed(h, h', live[k])
    ensures Holding(h', RemoveAt(live, k))
  {
    hide Slab.IsLive, SlabPages.PageOf, Slab.LastOnPage;
    var rest := RemoveAt(live, k);
    forall i, j | 0 <= i < j < |rest| ensures rest[i] != rest[j] {
      assert rest[i] == live[if i < k then i else i + 1] && rest[j] == live[if j < k then j else j + 1];
    }
    forall x ensures x in rest <==> x in live && x != live[k] {
      if x in live && x != live[k] {
        var i :| 0 <= i < |live| && live[i] == x;
        assert rest[if i < k then i else i - 1] == x;
      }
      if x in rest {
        var i :| 0 <= i < |rest| && rest[i] == x;
        assert rest[i] == live[if i < k then i else i + 1];
      }
    }
  }

  /** The slab region before the first call: nothing mapped, and the tables of the pages made before still there. */
  ghost predicate Ready(h: Slab.Pool, m: Memory, k: nat) {
    && (forall j: nat :: j < PAGES ==> PageTied(h, m, k, j))
    && forall q :: OnRun(q, FIRST, Made(h)) ==> Node(m, k, q).Some?
  }

  /** What is held after these calls, `answers[i]` being the object that request `i` was given. */
  function Replay(calls: seq<Call>, answers: seq<nat>): seq<nat>
    requires |answers| == |calls|
  {
    if calls == [] then []
    else
      var n := |calls| - 1;
      var live := Replay(calls[..n], answers[..n]);
      match calls[n]
      case Request(_) => live + [answers[n]]
      case Release(k) => if k < |live| then RemoveAt(live, k) else live
  }

  lemma ReplayNext(calls: seq<Call>, i: nat, answers: seq<nat>, a: nat)
    requires i < |calls| && |answers| == i
    ensures Replay(calls[..i + 1], answers + [a]) ==
      var live := Replay(calls[..i], answers);
      match calls[i]
      case Request(_) => live + [a]
      case Release(k) => if k < |live| then RemoveAt(live, k) else live
  {
    assert calls[..i + 1][..i] == calls[..i] && (answers + [a])[..i] == answers;
  }

  /** Over any run of requests and releases exactly the objects held are in use, and the frames in use are those in
      use at the start, one for each slab page, and one for each table of the kernel that was not there at the start;
      these lie on the walks to the pages made. When nothing is held any more, no frame is lost exactly when all these
      tables were there. */
  method Run(h: Slab.Allocator, a: AddressSpaces, calls: seq<Call>)
    returns (ok: bool, live: seq<nat>, answers: seq<nat>)
    requires h.Valid() && a.Valid() && a.Accounted()
    requires (forall x :: !Slab.IsLive(h.Value(), x)) && Ready(h.Value(), a.mem, a.kernel)
    requires Made(h.Value()) + |calls| <= PAGES
    requires forall i :: 0 <= i < |calls| && calls[i].Request? ==> 0 < calls[i].bytes <= 1024
    modifies h, a`mem, a.pmm.bitmap
    ensures ok ==> Sits(h, a, old(a.mem), old(a.pmm.Used())) && Holding(h.Value(), live)
    ensures ok ==> |answers| == |calls| && live == Replay(calls, answers)
    ensures ok && live == [] ==>
      a.pmm.Used() == old(a.pmm.Used()) + NewTables(old(a.mem), a.mem, a.pmm.Used(), a.kernel)
    ensures ok && live == [] ==>
      (a.pmm.Used() == old(a.pmm.Used()) <==>
          forall q :: OnRun(q, FIRST, Made(h.Value())) ==> old(Node(a.mem, a.kernel, q)).Some?)
    ensures !ok ==> forall f: nat :: f < a.pmm.Frames() ==> f in a.pmm.Used()
  {
    hide Inv, OwnInv, Pmm.Used, Tied, Account, Slab.Inv, Slab.Busy, Slab.IsLive, Holding, Slab.Allocated, Slab.Freed,
         Slab.BinFor, NewTables, Made,
         OnRun, Node;
    ghost var m0, u0 := a.mem, a.pmm.Used();
    Start(h, a);
    StartHolding(h.Value());
    ok, live, answers := true, [], [];
    for i := 0 to |calls|
      invariant ok && Sits(h, a, m0, u0) && Holding(h.Value(), live) && Made(h.Value()) <= old(Made(h.Value())) + i
      invariant |answers| == i && live == Replay(calls[..i], answers)
    {
      ghost var before := h.Value();
      match calls[i] {
        case Request(n) =>
          var addr;
          ok, addr := Kmalloc(h, a, n, m0, u0);
          if !ok { return; }
          HoldingMore(before, h.Value(), live, Slab.BinFor(n), addr);
          ReplayNext(calls, i, answers, addr);
          live, answers := live + [addr], answers + [addr];
        case Release(k) =>
          ReplayNext(calls, i, answers, 0);
          answers := answers + [0];
          if k < |live| {
            HeldAt(before, live, k);
            Kfree(h, a, live[k], m0, u0);
            SameMade(before, h.Value(), live[k]);
            HoldingLess(before, h.Value(), live, k);
            live := RemoveAt(live, k);
          }
      }
    }
    assert calls[..|calls|] == calls;
    if live == [] {
      NothingHeld(h.Value());
      NoObjectsNoPages(h.Value(), h.lists);
      NothingLost(h.Value(), m0, u0, a.mem, a.pmm.Used(), a.kernel, a.roots);
    }
  }

  lemma Start(h: Slab.Allocator, a: AddressSpaces)
    requires h.Valid() && a.Valid() && a.Accounted()
    requires (forall x :: !Slab.IsLive(h.Value(), x)) && Ready(h.Value(), a.mem, a.kernel)
    ensures Sits(h, a, a.mem, a.pmm.Used())
  {
    hide Inv, OwnInv, Pmm.Used, Slab.Inv, Slab.IsLive, PageTied, OnRun, Node;
    NoObjectsNoPages(h.Value(), h.lists);
  }

  lemma SameMade(h: Slab.Pool, h': Slab.Pool, addr: nat)
    requires Slab.Freed(h, h', addr)
    ensures Made(h') == Made(h)
  {
  }

  lemma StartHolding(h: Slab.Pool)
    requires forall x :: !Slab.IsLive(h, x)
    ensures Holding(h, [])
  {
  }

  lemma HeldAt(h: Slab.Pool, live: seq<nat>, k: nat)
    requires Holding(h, live) && k < |live|
    ensures Slab.IsLive(h, live[k])
  {
  }

  lemma NothingHeld(h: Slab.Pool)
    requires Holding(h, [])
    ensures forall x :: !Slab.IsLive(h, x)
  {
  }

  lemma {:induction false} NothingLost(h: Slab.Pool, m0: Memory, u0: set<nat>, m: Memory, u: set<nat>, k: nat,
                                       roots: set<nat>)
    requires Account(h, m0, u0, m, u, k) && h.mapped == map[] && Inv(m, u, k, roots)
    ensures u == u0 + NewTables(m0, m, u, k)
    ensures u == u0 <==> forall q :: OnRun(q, FIRST, Made(h)) ==> Node(m0, k, q).Some?
  {
    hide Node, OnRun, Made;
    forall q | OnRun(q, FIRST, Made(h)) && Node(m0, k, q).None? ensures Node(m, k, q).Some? &&
        Node(m, k, q).value in NewTables(m0, m, u, k) {
      assert Node(m, k, q).value in u && IsNew(m0, m, k, Node(m, k, q).value);
    }
  }

  // ---- a run that loses frames --------------------------------------------------------------------

  const SLOT: nat := 288   // the PML4 slot of the slab region

  /** The tables on the walk to the first page were not there while its slot was empty. */
  lemma {:induction false} EmptyBefore(m0: Memory, k: nat)
    requires At(m0, k, SLOT) == ZERO
    ensures forall q :: OnPath(q, PageNo(FIRST)) ==> OnRun(q, FIRST, 1) && Node(m0, k, q).None?
  {
    var v := PageNo(FIRST);
    assert v.i4 == SLOT;
    hide PageNo;
    Depths(v);
    forall q | OnPath(q, v) ensures OnRun(q, FIRST, 1) && Node(m0, k, q).None? {
      assert Top(q) == SLOT;
      EmptySlot(m0, k, q);
    }
  }

  lemma OnlyRun(q: Path)
    requires OnRun(q, FIRST, 1)
    ensures OnPath(q, PageNo(FIRST))
  {
    hide PageNo, OnPath;
  }

  /** Different tables of the kernel are in different frames. */
  lemma TablesApart(m: Memory, u: set<nat>, k: nat, roots: set<nat>, v: Page)
    requires Inv(m, u, k, roots)
    requires Node(m, k, PathL4(v)).Some? && Node(m, k, PathL3(v)).Some? && Node(m, k, PathL2(v)).Some?
    ensures |{Node(m, k, PathL4(v)).value, Node(m, k, PathL3(v)).value, Node(m, k, PathL2(v)).value}| == 3
  {
    Depths(v);
    hide Node;
    assert !Same(m, k, k, PathL4(v), k, PathL3(v));
    assert !Same(m, k, k, PathL4(v), k, PathL2(v)) && !Same(m, k, k, PathL3(v), k, PathL2(v));
  }

  /** The walk to the first page of an empty slot takes three tables. */
  lemma {:induction false} EmptyWalk(m0: Memory, m: Memory, u: set<nat>, k: nat, roots: set<nat>)
    requires Inv(m, u, k, roots) && Walked(m0, m, k, 1) && At(m0, k, SLOT) == ZERO
    ensures |NewTables(m0, m, u, k)| == 3
  {
    hide PageNo, Node, OnRun;
    var v := PageNo(FIRST);
    EmptyBefore(m0, k);
    assert OnPath(PathL4(v), v) && OnPath(PathL3(v), v) && OnPath(PathL2(v), v);
    var a, b, c := Node(m, k, PathL4(v)).value, Node(m, k, PathL3(v)).value, Node(m, k, PathL2(v)).value;
    TablesApart(m, u, k, roots, v);
    assert IsNew(m0, m, k, a) && IsNew(m0, m, k, b) && IsNew(m0, m, k, c);
    forall f | f in NewTables(m0, m, u, k) ensures f in {a, b, c} {
      var q :| Node(m0, k, q).None? && Node(m, k, q) == Some(f);
      OnlyRun(q);
    }
    assert NewTables(m0, m, u, k) == {a, b, c};
  }

  /** The first kmalloc and its kfree, when the slab region has no table yet, leave three frames in use. */
  method FirstObject(h: Slab.Allocator, a: AddressSpaces) returns (ok: bool)
    requires h.Valid() && a.Valid() && a.Accounted()
    requires (forall x :: !Slab.IsLive(h.Value(), x)) && h.top == 0
    requires Ready(h.Value(), a.mem, a.kernel) && At(a.mem, a.kernel, SLOT) == ZERO
    modifies h, a`mem, a.pmm.bitmap
    ensures ok ==>
      (forall x :: !Slab.IsLive(h.Value(), x)) && old(a.pmm.Used()) <= a.pmm.Used() &&
      |a.pmm.Used()| == |old(a.pmm.Used())| + 3
    ensures !ok ==> forall f: nat :: f < a.pmm.Frames() ==> f in a.pmm.Used()
  {
    hide Inv, OwnInv, Pmm.Used, Slab.Inv, Slab.Busy, Slab.IsLive, Slab.Allocated, Slab.LastOnPage, Slab.BinFor,
         NewTables, OnRun, Node, Tied, PageTied;
    ghost var m0, u0 := a.mem, a.pmm.Used();
    Start(h, a);
    var addr;
    ghost var h0 := h.Value();
    ok, addr := Kmalloc(h, a, 8, m0, u0);
    if !ok { return; }
    OnlyObject(h0, h.Value(), Slab.BinFor(8), addr);
    SomePage(h.Value(), h.lists, addr);
    ghost var h1 := h.Value();
    Kfree(h, a, addr, m0, u0);
    NoneLeft(h1, h.Value(), addr);
    NoObjectsNoPages(h.Value(), h.lists);
    SameMade(h1, h.Value(), addr);
    EmptyWalk(m0, a.mem, a.pmm.Used(), a.kernel, a.roots);
  }

  lemma SomePage(h: Slab.Pool, l: Slab.Lists, addr: nat)
    requires Slab.Inv(h, l) && Slab.IsLive(h, addr)
    ensures Made(h) > 0
  {
    HeapFacts(h, l);
  }

  lemma OnlyObject(h: Slab.Pool, h': Slab.Pool, b: nat, addr: nat)
    requires (forall x :: !Slab.IsLive(h, x)) && Slab.Allocated(h, h', b, addr)
    ensures forall x :: Slab.IsLive(h', x) <==> x == addr
  {
    hide Slab.IsLive;
  }

  lemma NoneLeft(h: Slab.Pool, h': Slab.Pool, addr: nat)
    requires (forall x :: Slab.IsLive(h, x) <==> x == addr) && Slab.Freed(h, h', addr)
    ensures forall x :: !Slab.IsLive(h', x)
  {
    hide Slab.IsLive, Slab.LastOnPage;
  }
}
