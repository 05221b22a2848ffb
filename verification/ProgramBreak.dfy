/** The program break (kernel/kernel/syscall.c: syscall_sbrk), and what the steps of a process's life leave alone. */
module ProgramBreak {
  import opened Machine
  import opened PageTables
  import opened Ownership
  import opened FrameAllocator
  import opened Vmm
  import opened Processes

  /** Number of the first page at or above an address: ALIGN_UP(x, 4096) / 4096. */
  function PageUp(x: nat): nat {
    (x + 4095) / PAGE
  }

  /** The heap of `r`: mapped from `start` up to `brk` rounded up, vacant from there to page `limit`. */
  ghost predicate Heap(m: Memory, k: nat, r: nat, start: nat, brk: nat, limit: nat) {
    && start <= brk && PageUp(brk) <= limit < SPAN
    && (forall n :: PageUp(start) <= n < limit ==> PageNo(n).i4 < LOWER_HALF)
    && (forall n :: PageUp(start) <= n < PageUp(brk) ==> LeafOf(m, r, PageNo(n)).flags == USER_DATA)
    && Vacant(m, k, r, PageUp(brk), limit - PageUp(brk))
  }

  /** What an sbrk call leaves alone: other processes, and the frames no process of this call owns. */
  ghost predicate OnlyHeap(m: Memory, u: set<nat>, m': Memory, u': set<nat>, k: nat, roots: set<nat>, r: nat,
                           first: nat, count: nat) {
    && u' - Owned(m', u', k, r) == u - Owned(m, u, k, r)
    && SharesKept(m, m', k, roots)
    && (forall s :: s in roots && s != r ==> Owned(m', u', k, s) == Owned(m, u, k, s))
    && (forall s, v :: s in roots && s != r ==> Translate(m', s, v) == Translate(m, s, v))
    && (forall s, v :: s in roots && (s != r || !InPages(v, first, count)) ==> LeafOf(m', s, v) == LeafOf(m, s, v))
  }

  /** Growing maps exactly the pages between the two rounded breaks. */
  lemma {:induction false} HeapGrows(m: Memory, u: set<nat>, m': Memory, u': set<nat>, k: nat, roots: set<nat>, r: nat,
                                     start: nat, brk: nat, brk': nat, limit: nat)
    requires Heap(m, k, r, start, brk, limit) && r in roots && r != k
    requires brk <= brk' && PageUp(brk') <= limit
    requires Extended(m, u, m', u', k, roots, r, PageUp(brk), PageUp(brk') - PageUp(brk), USER_DATA)
    ensures Heap(m', k, r, start, brk', limit)
    ensures PageUp(start) <= limit && OnlyHeap(m, u, m', u', k, roots, r, PageUp(start), limit - PageUp(start))
  {
    hide PageNo, LeafOf, OwnInv, PageUp;
    var a, b := PageUp(brk), PageUp(brk');
    assert PageUp(start) <= a <= b by { PageUpMonotone(start, brk); PageUpMonotone(brk, brk'); }
    assert Owned(m, u, k, r) <= u;
    forall n | PageUp(start) <= n < b ensures LeafOf(m', r, PageNo(n)).flags == USER_DATA {
      if n < a { Apart(n, 1, a, b - a); assert !InPages(PageNo(n), a, b - a); }
    }
    Apart(b, limit - b, a, b - a);
    VacantKept(m, u, m', u', k, roots, r, a, b - a, USER_DATA, b, limit - b);
    forall s, v | s in roots && (s != r ||
        !InPages(v, PageUp(start), limit - PageUp(start))) ensures LeafOf(m', s, v) == LeafOf(m, s, v) {
      assert s == r ==> !InPages(v, a, b - a);
    }
  }

  lemma PageUpMonotone(x: nat, y: nat)
    requires x <= y
    ensures PageUp(x) <= PageUp(y)
  {
  }

  /** Disjoint page ranges of one address space have no page in common. */
  lemma {:induction false} Apart(f: nat, c: nat, g: nat, d: nat)
    requires f + c <= g || g + d <= f
    requires f + c < SPAN && g + d < SPAN
    ensures forall n :: f <= n < f + c ==> !InPages(PageNo(n), g, d)
  {
    hide PageNo;
    forall n, i | f <= n < f + c && g <= i < g + d ensures PageNo(n) != PageNo(i) {
      if PageNo(n) == PageNo(i) {
        if n <= i { PageNoInjective(n, i); } else { PageNoInjective(i, n); }
      }
    }
  }

  /** Shrinking unmaps exactly the pages between the two rounded breaks and returns their frames. */
  lemma {:induction false} HeapShrinks(m: Memory, u: set<nat>, m': Memory, u': set<nat>, k: nat, roots: set<nat>,
                                       r: nat,
                                       start: nat, brk: nat, brk': nat, limit: nat)
    requires Heap(m, k, r, start, brk, limit) && r in roots && r != k
    requires start <= brk' <= brk && Small(m, k, r)
    requires Shrunk(m, u, m', u', k, roots, r, PageUp(brk'), PageUp(brk) - PageUp(brk'))
    ensures Heap(m', k, r, start, brk', limit)
    ensures PageUp(start) <= limit && OnlyHeap(m, u, m', u', k, roots, r, PageUp(start), limit - PageUp(start))
  {
    hide PageNo, LeafOf, PageUp;
    var a, b := PageUp(brk'), PageUp(brk);
    assert PageUp(start) <= a <= b by { PageUpMonotone(start, brk'); PageUpMonotone(brk', brk); }
    forall n | PageUp(start) <= n < a ensures LeafOf(m', r, PageNo(n)).flags == USER_DATA {
      Apart(n, 1, a, b - a);
      assert !InPages(PageNo(n), a, b - a);
    }
    forall n | a <= n < limit
      ensures var v := PageNo(n);
        Private(m', k, r, PathL4(v)) && LeafOf(m', r, v) == ZERO &&
        !EntryAt(m', r, PathL3(v)).flags.pageSize && !EntryAt(m', r, PathL2(v)).flags.pageSize
    {
      Depths(PageNo(n));
      assert Private(m, k, r, PathL4(PageNo(n)));
      if n >= b { Apart(n, 1, a, b - a); assert !InPages(PageNo(n), a, b - a); }
    }
    forall s, v | s in roots && (s != r ||
        !InPages(v, PageUp(start), limit - PageUp(start))) ensures LeafOf(m', s, v) == LeafOf(m, s, v) {
      assert s == r ==> !InPages(v, a, b - a);
    }
  }

  /** The bound check of a negative request is exact for the requests it is meant for and for no other:
      a request larger than the break itself wraps around and is accepted. */
  lemma ShrinkCheckExact(start: nat, brk: nat, request: int)
    requires start <= brk < WORD / 2 && -(WORD as int) / 2 <= request < 0
    ensures ((brk + request) % WORD < start <==> brk + request < start) <==> -request <= brk
  {
    if brk + request < 0 {
      assert (brk + request) % WORD == brk + request + WORD;
    }
  }

  /** At the break 0x40_2000 of a heap that starts at 0x40_1000, giving back 0x50_0000 bytes is accepted: the new
      break wraps around to an address near the top of the 64-bit range. */
  lemma ShrinkCheckFails()
    ensures var start, brk, request := 0x40_1000, 0x40_2000, -0x50_0000;
      brk + request < start && (brk + request) % WORD >= start && (brk + request) % WORD > brk
  {
  }

  /** syscall_sbrk keeps the heap exactly the pages from `brkStart` up to the rounded break, answers with
      the old break so that growths are contiguous, refuses to go below `brkStart` without changing
      anything, and takes from or returns to the frame allocator exactly what the process gains or loses. A request
      that is larger than the break is accepted: the break wraps around, and the pages stay as they are. (Within a
      page of 0 the rounding wraps around too, and vmm_free panics at page 0.) */
  method Sbrk(a: AddressSpaces, p: Process, request: int, ghost limit: nat) returns (ok: bool, ret: nat)
    requires p.Built(a) && Heap(a.mem, a.kernel, p.pml4, p.brkStart, p.brk, limit)
    requires -(WORD as int) / 2 <= request && (0 <= p.brk + request || p.brk + request <= -(PAGE as int))
    requires PageUp(if request < 0 then p.brk else p.brk + request) <= limit
    modifies p`brk, a`mem, a.pmm.bitmap
    ensures ok ==>
      p.Built(a) &&
      Heap(a.mem, a.kernel, p.pml4, p.brkStart, if old(p.brk) + request < 0 then old(p.brk) else p.brk, limit)
    ensures ok && old(p.brk) + request < 0 ==>
      ret == old(p.brk) && p.brk == old(p.brk) + request + WORD && a.mem == old(a.mem) &&
      a.pmm.Used() == old(a.pmm.Used())
    ensures ok && 0 <= old(p.brk) + request ==>
      if p.brkStart <= old(p.brk) + request then ret == old(p.brk) && p.brk == old(p.brk) + request
                   else ret == 0 && p.brk == old(p.brk) && a.mem == old(a.mem) && a.pmm.Used() == old(a.pmm.Used())
    ensures ok ==> OnlyHeap(old(a.mem), old(a.pmm.Used()), a.mem, a.pmm.Used(), a.kernel, a.roots, p.pml4,
                            PageUp(p.brkStart), limit - PageUp(p.brkStart))
    ensures !ok ==> forall f: nat :: f < a.pmm.Frames() ==> f in a.pmm.Used()
  {
    if request < 0 {
      ok := true;
      ret := Shrink(a, p, request, limit);
    } else {
      ok, ret := Grow(a, p, request, limit);
    }
  }

  method Shrink(a: AddressSpaces, p: Process, request: int, ghost limit: nat) returns (ret: nat)
    requires p.Built(a) && Heap(a.mem, a.kernel, p.pml4, p.brkStart, p.brk, limit)
    requires -(WORD as int) / 2 <= request < 0 && (0 <= p.brk + request || p.brk + request <= -(PAGE as int))
    modifies p`brk, a`mem, a.pmm.bitmap
    ensures p.Built(a)
    ensures Heap(a.mem, a.kernel, p.pml4, p.brkStart, if old(p.brk) + request < 0 then old(p.brk) else p.brk, limit)
    ensures old(p.brk) + request < 0 ==>
      ret == old(p.brk) && p.brk == old(p.brk) + request + WORD && a.mem == old(a.mem) &&
      a.pmm.Used() == old(a.pmm.Used())
    ensures 0 <= old(p.brk) + request ==>
      if p.brkStart <= old(p.brk) + request then ret == old(p.brk) && p.brk == old(p.brk) + request
      else ret == 0 && p.brk == old(p.brk) && a.mem == old(a.mem) && a.pmm.Used() == old(a.pmm.Used())
    ensures OnlyHeap(old(a.mem), old(a.pmm.Used()), a.mem, a.pmm.Used(), a.kernel, a.roots, p.pml4,
      PageUp(p.brkStart), limit - PageUp(p.brkStart))
  {
    hide Inv, OwnInv, Owned, Pmm.Used, Shrunk, Vacant, Small, UpperShape, PageNo, LeafOf, OnlyHeap, Translate, Heap,
         PageUp;
    ghost var r, k, roots, m, u := p.pml4, a.kernel, a.roots, a.mem, a.pmm.Used();
    HeapBounds(m, k, r, p.brkStart, p.brk, limit);
    BreakFits(p.brk, limit);
    NewBreak(p.brkStart, p.brk, request);
    OnlyHeapRefl(m, u, k, roots, r, PageUp(p.brkStart), limit - PageUp(p.brkStart));
    var target := (p.brk + request) % WORD;
    if target < p.brkStart {
      return 0;
    }
    var oldPage, newPage := PageUp(p.brk), PageUp(target);
    HeapPrivate(m, k, r, p.brkStart, p.brk, limit);
    ShrinkStart(m, u, k, roots, r, newPage);
    if newPage < oldPage {
      FreePages(a, p.pml4, newPage, oldPage - newPage);
    }
    if 0 <= p.brk + request {
      HeapShrinks(m, u, a.mem, a.pmm.Used(), k, roots, r, p.brkStart, p.brk, target, limit);
      ShrunkBuilt(m, u, a.mem, a.pmm.Used(), k, roots, r, newPage, oldPage - newPage, p.KernelFirst(), p.KernelCount());
    }
    ret := p.brk;
    p.brk := target;
  }

  lemma HeapBounds(m: Memory, k: nat, r: nat, start: nat, brk: nat, limit: nat)
    requires Heap(m, k, r, start, brk, limit)
    ensures start <= brk && PageUp(start) <= PageUp(brk) <= limit < SPAN
    ensures forall n :: PageUp(start) <= n < limit ==> PageNo(n).i4 < LOWER_HALF
  {
    hide PageNo, LeafOf;
    PageUpMonotone(start, brk);
  }

  /** The break a request leads to. One below 0 wraps around, to a page above the old one. */
  lemma NewBreak(start: nat, brk: nat, request: int)
    requires start <= brk < WORD / 2 && -(WORD as int) / 2 <= request < 0
    ensures var target := (brk + request) % WORD;
      if brk + request < 0 then target == brk + request + WORD > brk && PageUp(brk) <= PageUp(target)
      else
        && target == brk + request && PageUp(target) <= PageUp(brk)
        && (start <= target ==> PageUp(start) <= PageUp(target))
  {
    hide PageUp;
    var target := (brk + request) % WORD;
    if brk + request < 0 {
      assert target == brk + request + WORD;
      PageUpMonotone(brk, target);
    } else {
      PageUpMonotone(target, brk);
      if start <= target { PageUpMonotone(start, target); }
    }
  }

  method Grow(a: AddressSpaces, p: Process, request: nat, ghost limit: nat) returns (ok: bool, ret: nat)
    requires p.Built(a) && Heap(a.mem, a.kernel, p.pml4, p.brkStart, p.brk, limit) && PageUp(p.brk + request) <= limit
    modifies p`brk, a`mem, a.pmm.bitmap
    ensures ok ==> p.Built(a) && Heap(a.mem, a.kernel, p.pml4, p.brkStart, p.brk, limit)
    ensures ok ==> ret == old(p.brk) && p.brk == old(p.brk) + request
    ensures ok ==> OnlyHeap(old(a.mem), old(a.pmm.Used()), a.mem, a.pmm.Used(), a.kernel, a.roots, p.pml4,
                            PageUp(p.brkStart), limit - PageUp(p.brkStart))
    ensures !ok ==> forall f: nat :: f < a.pmm.Frames() ==> f in a.pmm.Used()
  {
    hide Inv, OwnInv, Owned, Pmm.Used, Extended, Shrunk, Vacant, Small, UpperShape, PageNo, LeafOf, OnlyHeap, Translate;
    ghost var r, k, roots, m, u := p.pml4, a.kernel, a.roots, a.mem, a.pmm.Used();
    PageUpMonotone(p.brkStart, p.brk);
    var first, last := PageUp(p.brk), PageUp(p.brk + request);
    PageUpMonotone(p.brk, p.brk + request);
    VacantPart(m, k, r, first, last - first, limit - first);
    ok := MapPages(a, p.pml4, first, last - first, USER_DATA);
    ret := p.brk;
    if !ok { return; }
    HeapGrows(m, u, a.mem, a.pmm.Used(), k, roots, r, p.brkStart, p.brk, p.brk + request, limit);
    UpperKept(m, u, a.mem, a.pmm.Used(), k, roots, r, first, last - first, USER_DATA, p.KernelFirst(),
        p.KernelCount());
    SmallKept(m, u, a.mem, a.pmm.Used(), k, roots, r, first, last - first, USER_DATA);
    p.brk := p.brk + request;
  }

  lemma BreakFits(brk: nat, limit: nat)
    requires PageUp(brk) <= limit < SPAN
    ensures brk < WORD / 2
  {
  }

  lemma OnlyHeapRefl(m: Memory, u: set<nat>, k: nat, roots: set<nat>, r: nat, first: nat, count: nat)
    ensures OnlyHeap(m, u, m, u, k, roots, r, first, count)
  {
  }

  lemma HeapPrivate(m: Memory, k: nat, r: nat, start: nat, brk: nat, limit: nat)
    requires Heap(m, k, r, start, brk, limit) && r != k
    ensures forall n ::
      PageUp(start) <= n < PageUp(brk) ==>
      Private(m, k, r, PathL4(PageNo(n))) && LeafOf(m, r, PageNo(n)).flags.present
  {
    hide PageNo, PageUp, LeafOf;
  }

  lemma VacantPart(m: Memory, k: nat, r: nat, first: nat, count: nat, all: nat)
    requires Vacant(m, k, r, first, all) && count <= all
    ensures Vacant(m, k, r, first, count)
  {
    hide PageNo, LeafOf;
  }

  /** Unmapping lower-half pages keeps the process well built. */
  lemma {:induction false} ShrunkBuilt(m: Memory, u: set<nat>, m': Memory, u': set<nat>, k: nat, roots: set<nat>,
                                       r: nat,
                                       first: nat, count: nat, kf: nat, kc: nat)
    requires Shrunk(m, u, m', u', k, roots, r, first, count) && r in roots && r != k
    requires Small(m, k, r) && UpperShape(m, k, r, kf, kc)
    requires forall n :: first <= n < first + count ==> PageNo(n).i4 < LOWER_HALF
    ensures Small(m', k, r) && UpperShape(m', k, r, kf, kc)
  {
    hide PageNo, LeafOf, Owned;
    forall v | Private(m', k, r, PathL4(v))
      ensures !EntryAt(m', r, PathL3(v)).flags.pageSize && !EntryAt(m', r, PathL2(v)).flags.pageSize
    {
      Depths(v);
      assert Private(m, k, r, PathL4(v));
    }
    forall v: Page | v.i4 >= LOWER_HALF ensures LeafOf(m', r, v) == LeafOf(m, r, v) {
      assert !InPages(v, first, count);
    }
  }

  // ---- around the process -----------------------------------------------------------------------------

  /** Frames outside the process, and everything other address spaces see. */
  ghost predicate Outside(m: Memory, u: set<nat>, m': Memory, u': set<nat>, k: nat, roots: set<nat>, r: nat) {
    && u' - Owned(m', u', k, r) == u
    && (forall s, v :: s in roots ==> Translate(m', s, v) == Translate(m, s, v))
    && (forall s :: s in roots ==> Owned(m', u', k, s) == Owned(m, u, k, s))
  }

  /** A fresh, zeroed PML4, as the kernel prepares it before process_create. */
  method NewSpace(a: AddressSpaces) returns (ok: bool, r: nat)
    requires a.Valid() && a.Accounted()
    modifies a`mem, a`roots, a.pmm.bitmap
    ensures ok ==> a.Valid() && a.Accounted() && r !in old(a.roots) && a.roots == old(a.roots) + {r} && r != a.kernel
    ensures ok ==>
      (forall i :: At(a.mem, r, i) == ZERO) && (forall i :: At(a.mem, a.kernel, i) == old(At(a.mem, a.kernel, i)))
    ensures ok ==> (forall q :: EntryAt(a.mem, r, q) == ZERO) && a.FramesOf(r) == {r}
    ensures ok ==> Outside(old(a.mem), old(a.pmm.Used()), a.mem, a.pmm.Used(), a.kernel, old(a.roots), r)
    ensures !ok ==> forall f: nat :: f < a.pmm.Frames() ==> f in a.pmm.Used()
  {
    hide Inv, OwnInv, Owned, Pmm.Used;
    ghost var m, u, k, roots := a.mem, a.pmm.Used(), a.kernel, a.roots;
    ok, r := a.pmm.Alloc();
    if !ok { return; }
    SpaceFacts(m, u, k, roots, r);
    a.mem := Erase(a.mem, r);
    a.roots := a.roots + {r};
  }

  lemma {:induction false} SpaceFacts(m: Memory, u: set<nat>, k: nat, roots: set<nat>, g: nat)
    requires Inv(m, u, k, roots) && OwnInv(m, u, k, roots) && g !in u && g < |m|
    ensures g !in roots && g != k
    ensures var m' := Erase(m, g);
      && Inv(m', u + {g}, k, roots + {g}) && OwnInv(m', u + {g}, k, roots + {g}) && Owned(m', u + {g}, k, g) == {g}
      && (forall q :: EntryAt(m', g, q) == ZERO) && Outside(m, u, m', u + {g}, k, roots, g)
  {
    AddRoot(m, u, k, roots, g);
    AddRootOwn(m, u, k, roots, g);
    var m' := Erase(m, g);
    forall s | s in roots ensures s in u { RootInUse(m, u, k, roots, s); }
    RootInUse(m, u, k, roots, k);
    forall q ensures EntryAt(m', g, q) == ZERO { EmptyRoot(m', g, q); }
  }

  lemma OutsideCreated(m0: Memory, u0: set<nat>, m1: Memory, u1: set<nat>, m2: Memory, u2: set<nat>, k: nat,
                       roots: set<nat>, r: nat,
                       first: nat, count: nat)
    requires Outside(m0, u0, m1, u1, k, roots, r) && r !in roots
    requires Created(m1, u1, m2, u2, k, roots + {r}, r, first, count)
    ensures Outside(m0, u0, m2, u2, k, roots, r)
  {
    hide Translate, LeafOf, PageNo;
    assert Owned(m1, u1, k, r) <= u1;
  }

  lemma OutsideSbrk(m0: Memory, u0: set<nat>, m1: Memory, u1: set<nat>, m2: Memory, u2: set<nat>, k: nat,
                    roots: set<nat>, r: nat,
                    first: nat, count: nat)
    requires Outside(m0, u0, m1, u1, k, roots, r) && r !in roots
    requires OnlyHeap(m1, u1, m2, u2, k, roots + {r}, r, first, count)
    ensures Outside(m0, u0, m2, u2, k, roots, r)
  {
    hide Translate, LeafOf, PageNo, Owned;
  }

  lemma LowPages(n: nat)
    requires n < SPAN / 2
    ensures PageNo(n).i4 < LOWER_HALF
  {
  }

  const STACK_TOP: nat := 0x7FFF_FFFF_A000
  const STACK_SIZE: nat := 0x20_0000
  const STACK_PAGE: nat := (STACK_TOP - STACK_SIZE) / PAGE

  lemma StackBelowHalf()
    ensures STACK_PAGE + STACK_SIZE / PAGE < SPAN / 2 && STACK_SIZE / PAGE <= SPAN && STACK_TOP % PAGE == 0
  {
  }

  lemma {:induction false} HeapStart(m: Memory, u: set<nat>, m': Memory, u': set<nat>, k: nat, roots: set<nat>,
                                     r: nat, first: nat)
    requires Created(m, u, m', u', k, roots, r, STACK_PAGE, STACK_SIZE / PAGE) && r != k && Small(m', k, r)
    requires first < STACK_PAGE
    requires forall n :: first <= n < STACK_PAGE ==> PageNo(n).i4 < LOWER_HALF && LeafOf(m, r, PageNo(n)) == ZERO
    ensures Heap(m', k, r, first * PAGE, first * PAGE, STACK_PAGE)
  {
    hide PageNo, Owned, LeafOf, Translate;
    StackBelowHalf();
    assert PageUp(first * PAGE) == first;
    forall n | first <= n < STACK_PAGE ensures LeafOf(m', r, PageNo(n)) == ZERO {
      Apart(n, 1, STACK_PAGE, STACK_SIZE / PAGE);
    }
  }
}
