/** The whole life of a process: loaded, created, its break moved, destroyed (kernel/kernel.c:437-487,
    kernel/kernel/process.c, kernel/kernel/syscall.c). */
module ProcessLife {
  import opened Machine
  import opened PageTables
  import opened Ownership
  import opened FrameAllocator
  import opened Vmm
  import opened Processes
  import opened ProgramBreak
  import opened ProgramPages
  import Cursors
  import Reader
  import Elf

  lemma {:induction false} WholeLife(m0: Memory, u0: set<nat>, m1: Memory, u1: set<nat>, k: nat, roots: set<nat>,
                                     r: nat)
    requires Outside(m0, u0, m1, u1, k, roots, r) && r !in roots && OwnInv(m1, u1, k, roots + {r}) && r != k
    requires UpperShape(m1, k, r, KERNEL_STACK_PAGE, 4)
    ensures var left := UpperTables(m1, u1, k, r);
      |left| == 3 && left !! u0 && u1 - (Owned(m1, u1, k, r) - left) == u0 + left
  {
    var left := UpperTables(m1, u1, k, r);
    ThreeLeft(m1, u1, k, roots + {r}, r);
    forall f: nat | f in left ensures f in Owned(m1, u1, k, r) {
      UpperApart(m1, u1, k, roots + {r}, r, f);
    }
  }

  /** A process started from memory `m0` with frames `u0` in use, between its creation and its end. */
  ghost predicate Living(a: AddressSpaces, p: Process, m0: Memory, u0: set<nat>, roots: set<nat>)
    reads p, a, a.pmm.bitmap
  {
    && p.Built(a) && p.pml4 !in roots && a.roots == roots + {p.pml4}
    && p.kernelStackTop == KERNEL_STACK_TOP && p.kernelStackSize == KERNEL_STACK_SIZE
    && Heap(a.mem, a.kernel, p.pml4, p.brkStart, p.brk, STACK_PAGE)
    && Outside(m0, u0, a.mem, a.pmm.Used(), a.kernel, roots, p.pml4)
  }

  lemma KernelStackSlot()
    ensures Aligned(KERNEL_STACK_TOP, KERNEL_STACK_SIZE) && KERNEL_STACK_SIZE / PAGE == 4
    ensures forall n :: KERNEL_STACK_PAGE <= n < KERNEL_STACK_PAGE + 4 ==> PageNo(n).i4 == 510
  {
    forall n | KERNEL_STACK_PAGE <= n < KERNEL_STACK_PAGE + 4 ensures PageNo(n).i4 == 510 {
      KernelStackPages(n);
    }
  }

  /** The pages of a loaded program end at `top`, so from there to the stack nothing is mapped. */
  lemma {:induction false} AboveTop(m: Memory, u: set<nat>, r: nat, ram: Frames, img: Program, top: nat)
    requires Backed(m, u, r, ram, img) && (forall a :: a in img ==> a < top) && top % PAGE == 0
    ensures forall n :: top / PAGE <= n < STACK_PAGE ==> PageNo(n).i4 < LOWER_HALF && LeafOf(m, r, PageNo(n)) == ZERO
  {
    hide PageNo, LeafOf;
    StackBelowHalf();
    forall n | top / PAGE <= n < STACK_PAGE ensures PageNo(n).i4 < LOWER_HALF && LeafOf(m, r, PageNo(n)) == ZERO {
      LowPages(n);
      assert Holds(LeafOf(m, r, PageNo(n)), u, ram, img, n * PAGE);
    }
  }

  /** What process_create needs of an address space. */
  lemma {:induction false} ReadyToCreate(m0: Memory, m: Memory, k: nat, r: nat)
    requires Bare(m0, m, k, r)
    ensures forall i: nat :: LOWER_HALF <= i ==> At(m, r, i) == ZERO && (At(m0, k, i) == ZERO ==> At(m, k, i) == ZERO)
    ensures forall v: Page :: !EntryAt(m, r, PathL3(v)).flags.pageSize && !EntryAt(m, r, PathL2(v)).flags.pageSize
    ensures forall n ::
      STACK_PAGE <= n < STACK_PAGE + STACK_SIZE / PAGE ==>
      PageNo(n).i4 < LOWER_HALF && LeafOf(m, r, PageNo(n)) == ZERO
  {
    hide PageNo, LeafOf;
    StackBelowHalf();
    forall n | STACK_PAGE <= n < STACK_PAGE + STACK_SIZE / PAGE ensures PageNo(n).i4 < LOWER_HALF { LowPages(n); }
  }

  /** process_create leaves the program where it is. */
  lemma {:induction false} StillBacked(m: Memory, u: set<nat>, m': Memory, u': set<nat>, k: nat, roots: set<nat>,
                                       r: nat, ram: Frames, img: Program)
    requires Backed(m, u, r, ram, img) && Created(m, u, m', u', k, roots, r, STACK_PAGE, STACK_SIZE / PAGE)
    ensures Backed(m', u', r, ram, img)
  {
    hide PageNo, LeafOf, Owned, Translate;
    StackBelowHalf();
    forall n: nat | n < STACK_PAGE ensures Holds(LeafOf(m', r, PageNo(n)), u', ram, img, n * PAGE) {
      LowPages(n);
      Apart(n, 1, STACK_PAGE, STACK_SIZE / PAGE);
      assert Holds(LeafOf(m, r, PageNo(n)), u, ram, img, n * PAGE);
    }
  }

  /** A new address space, the program loaded into it, then process_create, as kmain does. Afterwards every page of
      the program is mapped to a frame of the process that holds its bytes. The frames of pages mapped again stay in
      use: with those in use before they are `base`. */
  method Launch(a: AddressSpaces, p: Process, f: Reader.BsfsFile, ram: Frames)
    returns (ok: bool, res: Elf.LoadResult, ram': Frames, ghost base: set<nat>)
    requires a.Valid() && a.Accounted() && At(a.mem, a.kernel, 510) == ZERO
    requires f.Valid() && Cursors.InFile(f.Spec(), f.At()) && Elf.Low(f.Spec(), f.At())
    modifies p, a`mem, a`roots, a.pmm.bitmap, f
    ensures ok ==> Living(a, p, old(a.mem), base, old(a.roots))
    ensures ok ==>
      var x := Elf.Execution(f.Spec(), old(f.At()));
      x.Going? && Backed(a.mem, a.pmm.Used(), p.pml4, ram', x.img) && p.brk == p.brkStart == x.top + PAGE &&
      old(a.pmm.Used()) <= base && |base| == |old(a.pmm.Used())| + x.again
    ensures !ok && res.NoMemory? ==> forall f: nat :: f < a.pmm.Frames() ==> f in a.pmm.Used()
    ensures !ok && !res.NoMemory? ==> Elf.Execution(f.Spec(), old(f.At())) == Elf.Over(res)
  {
    hide Inv, OwnInv, Owned, Pmm.Used, Vacant, Small, UpperShape, PageNo, LeafOf, Translate, Created, Outside, Heap,
         PageUp, Copied, Bare, Backed, Elf.Execution, Elf.Low, Reader.BsfsFile.Valid;
    ghost var m0, u0, k, roots, x := a.mem, a.pmm.Used(), a.kernel, a.roots, Elf.Execution(f.Spec(), f.At());
    ram', res, base := ram, Elf.NoMemory, u0;
    KernelIn(m0, u0, k, roots);
    if x.Going? { Elf.ExecutionEnded(f.Spec(), f.At()); }
    var r;
    ok, r := NewSpace(a);
    if !ok { return; }
    LoadingNew(m0, u0, a.mem, a.pmm.Used(), k, roots, r, ram);
    res, ram', base := Elf.LoadExecutable(f, a, r, ram, m0, u0, roots);
    if !res.Loaded? {
      ok := false;
      return;
    }
    ghost var m2, u2 := a.mem, a.pmm.Used();
    ReadyToCreate(m0, m2, k, r);
    AboveTop(m2, u2, r, ram', x.img, res.top);
    StackBelowHalf();
    KernelStackSlot();
    p.brkStart := res.top + PAGE;
    p.brk := p.brkStart;
    ok := Create(a, p, r, STACK_TOP, STACK_SIZE, KERNEL_STACK_TOP, KERNEL_STACK_SIZE);
    if !ok {
      res := Elf.NoMemory;
      return;
    }
    OutsideCreated(m0, base, m2, u2, a.mem, a.pmm.Used(), k, roots, r, STACK_PAGE, STACK_SIZE / PAGE);
    StillBacked(m2, u2, a.mem, a.pmm.Used(), k, a.roots, r, ram', x.img);
    HeapStart(m2, u2, a.mem, a.pmm.Used(), k, a.roots, r, res.top / PAGE + 1);
  }

  /** The break after a request, which is not made outside the domain of Sbrk and has no effect below the start. */
  function BreakAfter(start: nat, brk: nat, request: int): nat {
    if start <= brk + request && PageUp(if request < 0 then brk else brk + request) <= STACK_PAGE then brk + request
    else brk
  }

  /** The break after all of them. */
  function LastBreak(start: nat, brk: nat, requests: seq<int>): nat {
    if requests == [] then brk
    else BreakAfter(start, LastBreak(start, brk, requests[..|requests| - 1]), requests[|requests| - 1])
  }

  lemma NextBreak(start: nat, brk: nat, requests: seq<int>, i: nat)
    requires i < |requests|
    ensures LastBreak(start, brk, requests[..i + 1]) == BreakAfter(start, LastBreak(start, brk, requests[..i]),
      requests[i])
  {
    hide BreakAfter;
    assert requests[..i + 1][..i] == requests[..i];
  }

  /** Any run of break requests; those outside the domain of Sbrk are not made. */
  method Breaks(a: AddressSpaces, p: Process, requests: seq<int>, ghost m0: Memory, ghost u0: set<nat>,
                ghost roots: set<nat>)
    returns (ok: bool)
    requires Living(a, p, m0, u0, roots)
    modifies p`brk, a`mem, a.pmm.bitmap
    ensures ok ==> Living(a, p, m0, u0, roots) && p.brk == LastBreak(p.brkStart, old(p.brk), requests)
    ensures !ok ==> forall f: nat :: f < a.pmm.Frames() ==> f in a.pmm.Used()
  {
    hide Inv, OwnInv, Owned, Pmm.Used, Small, UpperShape, PageNo, Outside, Heap, PageUp, OnlyHeap;
    ok := true;
    for i := 0 to |requests|
      invariant ok && Living(a, p, m0, u0, roots) && p.brk == LastBreak(p.brkStart, old(p.brk), requests[..i])
    {
      var request := requests[i];
      NextBreak(p.brkStart, old(p.brk), requests, i);
      if -(p.brk as int) <= request && PageUp(if request < 0 then p.brk else p.brk + request) <= STACK_PAGE {
        ghost var m1, u1 := a.mem, a.pmm.Used();
        HeapBelow(a.mem, a.kernel, p.pml4, p.brkStart, p.brk);
        BreakSmall(a.mem, a.kernel, p.pml4, p.brkStart, p.brk);
        var ret;
        ok, ret := Sbrk(a, p, request, STACK_PAGE);
        if !ok { return; }
        OutsideSbrk(m0, u0, m1, u1, a.mem, a.pmm.Used(), a.kernel, roots, p.pml4, PageUp(p.brkStart),
            STACK_PAGE - PageUp(p.brkStart));
      }
    }
    assert requests[..|requests|] == requests;
  }

  lemma HeapBelow(m: Memory, k: nat, r: nat, start: nat, brk: nat)
    requires Heap(m, k, r, start, brk, STACK_PAGE)
    ensures PageUp(start) <= STACK_PAGE
  {
    PageUpMonotone(start, brk);
  }

  lemma BreakSmall(m: Memory, k: nat, r: nat, start: nat, brk: nat)
    requires Heap(m, k, r, start, brk, STACK_PAGE)
    ensures brk < WORD / 2
  {
    BreakFits(brk, STACK_PAGE);
  }

  lemma LeftSize(u0: set<nat>, base: set<nat>, tables: set<nat>)
    requires u0 <= base && tables !! base
    ensures |base - u0 + tables| == |base| - |u0| + |tables| && u0 + (base - u0 + tables) == base + tables
    ensures (base - u0 + tables) !! u0
  {
    assert base == u0 + (base - u0);
  }

  /** A process from its first frame to its last: its program loaded, process_create, any run of break requests,
      process_destroy. Afterwards every address space translates as before, and the frames in use are those in use at
      the start plus exactly three and one for every time a page was mapped again. */
  method Life(a: AddressSpaces, p: Process, f: Reader.BsfsFile, ram: Frames, requests: seq<int>)
    returns (ok: bool, res: Elf.LoadResult, brk: nat, ghost left: set<nat>)
    requires a.Valid() && a.Accounted() && At(a.mem, a.kernel, 510) == ZERO
    requires f.Valid() && Cursors.InFile(f.Spec(), f.At()) && Elf.Low(f.Spec(), f.At())
    modifies p, a`mem, a`roots, a.pmm.bitmap, f
    ensures ok ==> a.Valid() && a.Accounted() && a.roots == old(a.roots)
    ensures ok ==> a.pmm.Used() == old(a.pmm.Used()) + left && left !! old(a.pmm.Used())
    ensures ok ==> var x := Elf.Execution(f.Spec(), old(f.At()));
      x.Going? && |left| == 3 + x.again && brk == LastBreak(x.top + PAGE, x.top + PAGE, requests)
    ensures ok ==> forall s, v :: s in a.roots ==> Translate(a.mem, s, v) == old(Translate(a.mem, s, v))
    ensures ok ==> forall s :: s in a.roots ==> a.FramesOf(s) == old(a.FramesOf(s))
    ensures !ok && res.NoMemory? ==> forall f: nat :: f < a.pmm.Frames() ==> f in a.pmm.Used()
    ensures !ok && !res.NoMemory? ==> Elf.Execution(f.Spec(), old(f.At())) == Elf.Over(res)
  {
    hide Inv, OwnInv, Owned, Pmm.Used, Small, UpperShape, PageNo, Heap, PageUp, Translate, UpperTables, Backed,
         Elf.Execution, Elf.Low, Reader.BsfsFile.Valid;
    left, brk := {}, 0;
    ghost var m0, u0, k, roots := a.mem, a.pmm.Used(), a.kernel, a.roots;
    var ram';
    ghost var base;
    ok, res, ram', base := Launch(a, p, f, ram);
    if !ok { return; }
    ok := Breaks(a, p, requests, m0, base, roots);
    if !ok {
      res := Elf.NoMemory;
      return;
    }
    brk := p.brk;
    KernelStackSlot();
    WholeLife(m0, base, a.mem, a.pmm.Used(), k, roots, p.pml4);
    OwnMore(m0, u0, base, k, roots);
    left := base - u0 + UpperTables(a.mem, a.pmm.Used(), k, p.pml4);
    LeftSize(u0, base, UpperTables(a.mem, a.pmm.Used(), k, p.pml4));
    DestroyProcess(a, p);
  }

  /** The same for a file that is read right: three frames, and one for every time the segments share a page. */
  method RightLife(a: AddressSpaces, p: Process, f: Reader.BsfsFile, ram: Frames, requests: seq<int>)
    returns (ok: bool, res: Elf.LoadResult, brk: nat, ghost left: set<nat>)
    requires a.Valid() && a.Accounted() && At(a.mem, a.kernel, 510) == ZERO
    requires f.Valid() && Elf.Readable(f.Spec(), f.At())
    modifies p, a`mem, a`roots, a.pmm.bitmap, f
    ensures ok ==> a.pmm.Used() == old(a.pmm.Used()) + left && left !! old(a.pmm.Used())
    ensures ok ==> var eh := Elf.ParseEhdr(f.data[..Elf.EHDR_SIZE]); |left| == 3 + Elf.Again(f.data, eh, eh.phnum)
    ensures !ok && !res.NoMemory? ==> var eh := Elf.ParseEhdr(f.data[..Elf.EHDR_SIZE]);
      res == if Elf.HeaderError(eh).Refused? then Elf.HeaderError(eh) else Elf.Refused(Elf.FileszExceedsMemsz)
  {
    hide Inv, OwnInv, Owned, Pmm.Used, Elf.Execution, Elf.Low, Elf.Readable, Elf.ParseEhdr, Elf.HeaderError, Elf.Again,
         Elf.Image, Elf.TooMuchFile, Reader.BsfsFile.Valid, Translate;
    ReadableFacts(f.Spec(), f.At());
    Elf.ExecutionRight(f.Spec(), f.At());
    ok, res, brk, left := Life(a, p, f, ram, requests);
  }

  lemma ReadableFacts(o: Cursors.Opened, c: Cursors.Cursor)
    requires Elf.Readable(o, c)
    ensures Cursors.InFile(o, c) && |o.data| >= Elf.EHDR_SIZE
  {
  }
}
