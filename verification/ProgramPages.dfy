/** The pages of a program while it is loaded: which frames hold them, and what else of memory stays as it was
    (kernel/kernel/elf.c:81-86). */
module ProgramPages {
  import opened Machine
  import opened DiskFormat
  import opened PageTables
  import opened Ownership
  import opened FrameAllocator
  import opened Vmm
  import opened Processes
  import opened ProgramBreak

  /** The contents of frames. */
  type Frames = map<nat, seq<Byte>>

  /** The contents of the pages of a program, by address. */
  type Program = map<nat, seq<Byte>>

  /** Below the stack, exactly the pages of `img` are mapped, each to a frame in use with its bytes. */
  ghost predicate Backed(m: Memory, u: set<nat>, r: nat, ram: Frames, img: Program) {
    && (forall a :: a in img ==> a % PAGE == 0 && a / PAGE < STACK_PAGE)
    && forall n: nat :: n < STACK_PAGE ==> Holds(LeafOf(m, r, PageNo(n)), u, ram, img, n * PAGE)
  }

  /** What the entry of the page at `a` should be. */
  ghost predicate Holds(leaf: Entry, u: set<nat>, ram: Frames, img: Program, a: nat) {
    if a in img then leaf.flags == USER_CODE && leaf.frame in u && leaf.frame in ram && ram[leaf.frame] == img[a]
        else leaf == ZERO
  }

  /** The upper half is empty and the kernel has gained no slot there; there is no large page; the stack is not
      mapped. */
  ghost predicate Bare(m0: Memory, m: Memory, k: nat, r: nat) {
    && (forall i: nat :: LOWER_HALF <= i ==> At(m, r, i) == ZERO && (At(m0, k, i) == ZERO ==> At(m, k, i) == ZERO))
    && (forall v: Page :: !EntryAt(m, r, PathL3(v)).flags.pageSize && !EntryAt(m, r, PathL2(v)).flags.pageSize)
    && (forall n :: STACK_PAGE <= n < STACK_PAGE + STACK_SIZE / PAGE ==> LeafOf(m, r, PageNo(n)) == ZERO)
  }

  /** Address space `r`, new since memory `m0`, with the pages of `img`. */
  ghost predicate Loading(m0: Memory, u0: set<nat>, m: Memory, u: set<nat>, k: nat, roots: set<nat>, r: nat,
                          ram: Frames, img: Program) {
    && OwnInv(m0, u0, k, roots) && Outside(m0, u0, m, u, k, roots, r) && Bare(m0, m, k, r)
    && Backed(m, u, r, ram, img)
  }

  lemma {:induction false} LoadingNew(m0: Memory, u0: set<nat>, m: Memory, u: set<nat>, k: nat, roots: set<nat>,
                                      r: nat, ram: Frames)
    requires OwnInv(m0, u0, k, roots) && Outside(m0, u0, m, u, k, roots, r) && (forall i :: At(m, r, i) == ZERO)
    requires (forall i :: At(m, k, i) == At(m0, k, i))
    requires forall q :: EntryAt(m, r, q) == ZERO
    ensures Loading(m0, u0, m, u, k, roots, r, ram, map[])
  {
    hide PageNo, Outside;
  }

  /** The page is private to `r` and not below a large page; it may be mapped. */
  ghost predicate Roomy(m: Memory, k: nat, r: nat, n: nat) {
    var v := PageNo(n);
    Private(m, k, r, PathL4(v)) && !EntryAt(m, r, PathL3(v)).flags.pageSize && !EntryAt(m, r, PathL2(v)).flags.pageSize
  }

  /** `r` has gained page `n` and all frames taken into use, and lost the frame that was mapped there before. */
  ghost predicate Swapped(m: Memory, u: set<nat>, m': Memory, u': set<nat>, k: nat, roots: set<nat>, r: nat, n: nat,
                          flags: Flags) {
    && u <= u' && OwnInv(m', u', k, roots) && SharesKept(m, m', k, roots) && NoNewLarge(m, m', roots)
    && RunTables(m, m', roots, n, 1)
    && (forall s :: s in roots ==>
          Owned(m', u', k, s) ==
          if s == r then Owned(m, u, k, s) - Target(LeafOf(m, r, PageNo(n))) + (u' - u) else Owned(m, u, k, s))
    && (forall s, v :: s in roots && s != r ==> Translate(m', s, v) == Translate(m, s, v))
    && (forall s, v :: s in roots && (s != r || v != PageNo(n)) ==> LeafOf(m', s, v) == LeafOf(m, s, v))
    && LeafOf(m', r, PageNo(n)).flags == flags
  }

  /** Any page below the stack can be mapped. */
  lemma CanMap(m0: Memory, u0: set<nat>, m: Memory, u: set<nat>, k: nat, roots: set<nat>, r: nat, ram: Frames,
               img: Program, n: nat)
    requires Loading(m0, u0, m, u, k, roots, r, ram, img) && r != k && n < STACK_PAGE
    ensures Roomy(m, k, r, n) && (n * PAGE !in img <==> LeafOf(m, r, PageNo(n)) == ZERO)
  {
    hide PageNo, Outside, LeafOf;
    StackBelowHalf();
    LowPages(n);
    assert Holds(LeafOf(m, r, PageNo(n)), u, ram, img, n * PAGE);
    Depths(PageNo(n));
  }

  /** The frames that are in use, but not the process's, once page `n` is mapped. */
  ghost function Loose(u0: set<nat>, m: Memory, r: nat, n: nat): set<nat> {
    u0 + Target(LeafOf(m, r, PageNo(n)))
  }

  lemma LooseMore(u0: set<nat>, m: Memory, r: nat, n: nat)
    ensures u0 <= Loose(u0, m, r, n)
  {
  }

  /** The next page: a fresh frame `h` with its bytes. A frame that was mapped there before is nobody's now. */
  lemma {:induction false} LoadingStep(m0: Memory, u0: set<nat>, m1: Memory, u1: set<nat>, m2: Memory, u2: set<nat>,
                                       k: nat, roots: set<nat>, r: nat,
                                       ram: Frames, img: Program, n: nat, h: nat, bytes: seq<Byte>)
    requires Loading(m0, u0, m1, u1, k, roots, r, ram, img) && r !in roots && k in roots && n < STACK_PAGE
    requires OwnInv(m1, u1, k, roots + {r}) && Roomy(m1, k, r, n)
    requires Swapped(m1, u1, m2, u2, k, roots + {r}, r, n, USER_CODE) && LeafOf(m2, r, PageNo(n)).frame == h
    requires h !in u1 && h in u2
    ensures Loading(m0, Loose(u0, m1, r, n), m2, u2, k, roots, r, ram[h := bytes], img[n * PAGE := bytes])
    ensures |Loose(u0, m1, r, n)| == |u0| + if n * PAGE in img then 1 else 0
  {
    hide PageNo, Outside, Swapped, Backed, Bare, OwnInv, LeafOf, Loose;
    OutsideSwapped(m0, u0, m1, u1, m2, u2, k, roots, r, n);
    CanMap(m0, u0, m1, u1, k, roots, r, ram, img, n);
    BareStep(m0, u0, m1, u1, m2, u2, k, roots, r, n);
    BackedStep(m1, u1, m2, u2, k, roots + {r}, r, ram, img, n, h, bytes);
  }

  lemma {:induction false} OutsideSwapped(m0: Memory, u0: set<nat>, m1: Memory, u1: set<nat>, m2: Memory, u2: set<nat>,
                                          k: nat, roots: set<nat>, r: nat, n: nat)
    requires Outside(m0, u0, m1, u1, k, roots, r) && r !in roots && OwnInv(m1, u1, k, roots + {r})
    requires OwnInv(m0, u0, k, roots)
    requires Swapped(m1, u1, m2, u2, k, roots + {r}, r, n, USER_CODE) && Roomy(m1, k, r, n)
    ensures Outside(m0, Loose(u0, m1, r, n), m2, u2, k, roots, r) && OwnInv(m0, Loose(u0, m1, r, n), k, roots)
    ensures |Loose(u0, m1, r, n)| == |u0| + if LeafOf(m1, r, PageNo(n)) == ZERO then 0 else 1
  {
    hide Translate, LeafOf, PageNo, OwnInv, NoNewLarge, RunTables, SharesKept, Target, Roomy, Owned;
    OldFrame(m1, u1, k, roots + {r}, r, n);
    LooseSets(u0, u1, u2, Owned(m1, u1, k, r), Owned(m2, u2, k, r), Target(LeafOf(m1, r, PageNo(n))));
    OwnMore(m0, u0, Loose(u0, m1, r, n), k, roots);
  }

  /** What was mapped at the page is a frame of the process. */
  lemma {:induction false} OldFrame(m: Memory, u: set<nat>, k: nat, roots: set<nat>, r: nat, n: nat)
    requires OwnInv(m, u, k, roots) && r in roots && Roomy(m, k, r, n)
    ensures Target(LeafOf(m, r, PageNo(n))) <= Owned(m, u, k, r) <= u
    ensures |Target(LeafOf(m, r, PageNo(n)))| == if LeafOf(m, r, PageNo(n)) == ZERO then 0 else 1
  {
    hide PageNo, LeafOf, OwnInv;
    if LeafOf(m, r, PageNo(n)) != ZERO { PrivateLeaf(m, u, k, roots, r, PageNo(n)); }
  }

  lemma LooseSets(u0: set<nat>, u1: set<nat>, u2: set<nat>, o1: set<nat>, o2: set<nat>, t: set<nat>)
    requires u1 - o1 == u0 && t <= o1 <= u1 <= u2 && o2 == o1 - t + (u2 - u1)
    ensures u2 - o2 == u0 + t && |u0 + t| == |u0| + |t|
  {
    assert t !! u0;
  }

  lemma {:induction false} BareStep(m0: Memory, u0: set<nat>, m1: Memory, u1: set<nat>, m2: Memory, u2: set<nat>,
                                    k: nat, roots: set<nat>, r: nat, n: nat)
    requires Bare(m0, m1, k, r) && r !in roots && k in roots
    requires n < STACK_PAGE && Swapped(m1, u1, m2, u2, k, roots + {r}, r, n, USER_CODE)
    ensures Bare(m0, m2, k, r)
  {
    hide PageNo, OwnInv, Owned, LeafOf, Translate;
    var all := roots + {r};
    StackBelowHalf();
    forall s, i: nat | s in all && LOWER_HALF <= i && At(m1, s, i) == ZERO ensures At(m2, s, i) == ZERO {
      SlotNode(m1, s, i);
      SlotNode(m2, s, i);
      if Node(m2, s, Sub(Root, i)).Some? {
        assert OnRun(Sub(Root, i), n, 1);
        var x :| n <= x < n + 1 && OnPath(Sub(Root, i), PageNo(x));
        LowPages(x);
        Depths(PageNo(x));
        assert false;
      }
    }
    forall v: Page ensures !EntryAt(m2, r, PathL3(v)).flags.pageSize &&
        !EntryAt(m2, r, PathL2(v)).flags.pageSize { Depths(v); }
    forall x | STACK_PAGE <= x < STACK_PAGE + STACK_SIZE / PAGE ensures LeafOf(m2, r, PageNo(x)) == ZERO {
      OtherPage(x, n);
    }
  }

  lemma OtherPage(x: nat, n: nat)
    requires x != n && x < SPAN && n < SPAN
    ensures PageNo(x) != PageNo(n)
  {
    hide PageNo;
    if PageNo(x) == PageNo(n) { if x < n { PageNoInjective(x, n); } else { PageNoInjective(n, x); } }
  }

  lemma {:induction false} BackedStep(m1: Memory, u1: set<nat>, m2: Memory, u2: set<nat>, k: nat, all: set<nat>, r: nat,
                                      ram: Frames, img: Program, n: nat, h: nat, bytes: seq<Byte>)
    requires Backed(m1, u1, r, ram, img) && r in all && n < STACK_PAGE
    requires Swapped(m1, u1, m2, u2, k, all, r, n, USER_CODE)
    requires LeafOf(m2, r, PageNo(n)).frame == h && h !in u1 && h in u2
    ensures Backed(m2, u2, r, ram[h := bytes], img[n * PAGE := bytes])
  {
    hide PageNo, OwnInv, Owned, LeafOf, Translate;
    StackBelowHalf();
    var ram', img' := ram[h := bytes], img[n * PAGE := bytes];
    forall x: nat | x < STACK_PAGE ensures Holds(LeafOf(m2, r, PageNo(x)), u2, ram', img', x * PAGE) {
      if x != n {
        OtherPage(x, n);
        assert Holds(LeafOf(m1, r, PageNo(x)), u1, ram, img, x * PAGE);
      }
    }
  }

  /** pmm_alloc and vmm_map for one page, which may be mapped already: vmm_map does not look. */
  method NewPage(a: AddressSpaces, r: nat, n: nat) returns (ok: bool, h: nat)
    requires a.Valid() && a.Accounted() && r in a.roots
    requires r != a.kernel && Roomy(a.mem, a.kernel, r, n)
    modifies a`mem, a.pmm.bitmap
    ensures ok ==>
      a.Valid() && a.Accounted() &&
      Swapped(old(a.mem), old(a.pmm.Used()), a.mem, a.pmm.Used(), a.kernel, a.roots, r, n, USER_CODE)
    ensures ok ==> LeafOf(a.mem, r, PageNo(n)).frame == h && h !in old(a.pmm.Used()) && h in a.pmm.Used()
    ensures !ok ==> forall f: nat :: f < a.pmm.Frames() ==> f in a.pmm.Used()
  {
    hide Inv, OwnInv, Swapped, PageNo, Pmm.Used, MapBalance, Mappable, RemapBalance, LeafSet, Remapped, NoNewLarge,
         SharesKept, TablesAdded;
    ghost var m, u := a.mem, a.pmm.Used();
    ok, h := a.pmm.Alloc();
    if !ok { return; }
    MoreUsed(m, u, u + {h}, a.kernel, a.roots);
    AllocOwn(m, u, a.kernel, a.roots, h);
    PageOfNumber(n);
    ok := a.Map(r, h, n * PAGE, USER_CODE);
    if !ok { return; }
    SwapStep(m, u, a.mem, a.pmm.Used(), a.kernel, a.roots, r, n, h);
    LeafHere(m, a.mem, a.kernel, a.roots, r, n, h);
  }

  lemma {:induction false} SwapStep(m: Memory, u: set<nat>, m': Memory, u': set<nat>, k: nat, roots: set<nat>, r: nat,
                                    n: nat, h: nat)
    requires OwnInv(m, u, k, roots) && r in roots && r != k
    requires h !in u && u + {h} <= u' && Roomy(m, k, r, n)
    requires forall s :: s in roots ==> Owned(m, u + {h}, k, s) == Owned(m, u, k, s)
    requires RemapBalance(m, u + {h}, m', u', k, roots, r, h, PageNo(n))
    requires LeafSet(m, m', k, roots, r, PageNo(n), Entry(h, USER_CODE))
    requires Remapped(m, m', k, roots, r, 1, PageNo(n), Entry(h, USER_CODE))
    requires NoNewLarge(m, m', roots) && SharesKept(m, m', k, roots) && TablesAdded(m, m', roots, PageNo(n))
    ensures Swapped(m, u, m', u', k, roots, r, n, USER_CODE) && OwnInv(m', u', k, roots)
  {
    var t, v := Target(LeafOf(m, r, PageNo(n))), PageNo(n);
    assert LeafOf(m, r, v) == EntryAt(m, r, PathL1(v));
    hide OwnInv, Owned, LeafOf, PageNo, Translate, Leaf, NoNewLarge;
    if LeafOf(m, r, v) != ZERO { PrivateLeaf(m, u, k, roots, r, v); }
    assert !Shared(m', k, r, v.i4);
    SwapTables(m, m', roots, n);
    SwapSets(Owned(m, u, k, r), u, u', h, t);
  }

  lemma SwapSets(o: set<nat>, u: set<nat>, u': set<nat>, h: nat, t: set<nat>)
    requires t <= u && h !in u && u + {h} <= u'
    ensures o + (u' - (u + {h})) - t + {h} == o - t + (u' - u)
  {
  }

  lemma {:induction false} SwapTables(m: Memory, m': Memory, roots: set<nat>, n: nat)
    requires TablesAdded(m, m', roots, PageNo(n))
    ensures RunTables(m, m', roots, n, 1)
  {
    hide Node, PageNo, OnPath;
    forall s, q | s in roots && Node(m', s, q).Some? && Node(m, s, q).None? ensures OnRun(q, n, 1) {
      assert OnPath(q, PageNo(n));
    }
  }

  lemma LeafHere(m: Memory, m': Memory, k: nat, roots: set<nat>, r: nat, n: nat, h: nat)
    requires LeafSet(m, m', k, roots, r, PageNo(n), Entry(h, USER_CODE)) && r in roots
    ensures LeafOf(m', r, PageNo(n)).frame == h
  {
    hide PageNo, LeafOf;
  }
}
