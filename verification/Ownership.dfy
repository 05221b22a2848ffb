/** Which frames belong to a process: its PML4, the tables below slots it does not share with the
kernel, and the 4 KiB frames mapped there.  `OwnInv` says that no such frame is reached twice. */
module Ownership {
  import opened PageTables

  /** The frame at a path: a table, or the target of a 4 KiB leaf. */
  function Frame(mem: Memory, r: nat, p: Path): Option<nat> {
    if Depth(p) <= 3 then Node(mem, r, p)
    else if Depth(p) == 4 && EntryAt(mem, r, p) != ZERO then Some(EntryAt(mem, r, p).frame)
    else None
  }

  predicate Private(mem: Memory, k: nat, r: nat, p: Path) {
    r != k && (p.Root? || !Shared(mem, k, r, Top(p)))
  }

  /** Tables are tracked everywhere, leaves only in the private part of a process. */
  predicate Tracked(mem: Memory, k: nat, r: nat, p: Path) {
    Depth(p) <= 3 || (Depth(p) == 4 && Private(mem, k, r, p))
  }

  /** A private frame is reached by no other tracked path. */
  predicate Sole(mem: Memory, k: nat, r: nat, p: Path, s: nat, q: Path) {
    (Private(mem, k, r, p) && Tracked(mem, k, r, p) && Tracked(mem, k, s, q) &&
     Frame(mem, r, p).Some? && Frame(mem, r, p) == Frame(mem, s, q)) ==> r == s && p == q
  }

  ghost predicate OwnInv(mem: Memory, used: set<nat>, k: nat, roots: set<nat>) {
    && (forall r, p :: r in roots && Tracked(mem, k, r, p) && Frame(mem, r, p).Some? ==> Frame(mem, r, p).value in used)
    && (forall r, p, s, q {:trigger Sole(mem, k, r, p, s, q)} {:trigger Frame(mem, r, p), Frame(mem, s, q)} ::
          r in roots && s in roots ==> Sole(mem, k, r, p, s, q))
  }

  /** No tracked path leads to `h`. */
  ghost predicate Unowned(mem: Memory, k: nat, roots: set<nat>, h: nat) {
    forall s, q :: s in roots && Tracked(mem, k, s, q) ==> Frame(mem, s, q) != Some(h)
  }

  ghost predicate Owns(mem: Memory, k: nat, r: nat, f: nat) {
    exists p :: Private(mem, k, r, p) && Depth(p) <= 4 && Frame(mem, r, p) == Some(f)
  }

  /** The frames of process `r`. */
  ghost function Owned(mem: Memory, used: set<nat>, k: nat, r: nat): set<nat> {
    set f | f in used && Owns(mem, k, r, f)
  }

  // ---- attaching a table ------------------------------------------------------------------------

  lemma {:induction false} AttachFrame(mem: Memory, used: set<nat>, k: nat, roots: set<nat>,
                                       r: nat, up: Path, f: nat, i: nat, g: nat, flags: Flags, s: nat, q: Path)
    requires Inv(mem, used, k, roots) && r in roots && s in roots
    requires Node(mem, r, up) == Some(f) && Depth(up) <= 2 && i < ENTRIES && At(mem, f, i) == ZERO
    requires g !in used && g < |mem| && flags.present && !flags.pageSize
    ensures f < |mem|
    ensures var mem' := Attach(mem, f, i, g, flags);
            && Frame(mem', s, q) == (if q == Sub(up, i) && Node(mem, s, up) == Some(f) then Some(g)
                 else Frame(mem, s, q))
            && (s != k ==> Private(mem', k, s, q) == Private(mem, k, s, q))
            && Tracked(mem', k, s, q) == Tracked(mem, k, s, q)
  {
    AttachNodes(mem, used, k, roots, r, up, f, i, g, flags, s, q);
    AttachSlots(mem, used, k, roots, r, up, f, i, g, flags);
    assert Depth(Sub(up, i)) == Depth(up) + 1;
  }

  /** The one private path to an attached table is the one it was attached through. */
  lemma {:induction false} AttachSole(mem: Memory, used: set<nat>, k: nat, roots: set<nat>,
                                      r: nat, up: Path, f: nat, i: nat, s: nat)
    requires Inv(mem, used, k, roots) && r in roots && s in roots
    requires Node(mem, r, up) == Node(mem, s, up) == Some(f)
    ensures r == s || !(Private(mem, k, r, Sub(up, i)) || Private(mem, k, s, Sub(up, i)))
  {
    assert Same(mem, k, r, up, s, up);
  }

  lemma {:induction false} AttachOwnInv(mem: Memory, used: set<nat>, k: nat, roots: set<nat>,
                                        r: nat, up: Path, f: nat, i: nat, g: nat, flags: Flags)
    requires Inv(mem, used, k, roots) && r in roots && OwnInv(mem, used, k, roots)
    requires Node(mem, r, up) == Some(f) && Depth(up) <= 2 && i < ENTRIES && At(mem, f, i) == ZERO
    requires g !in used && g < |mem| && flags.present && !flags.pageSize
    ensures f < |mem|
    ensures OwnInv(Attach(mem, f, i, g, flags), used + {g}, k, roots)
    ensures forall h :: h != g && Unowned(mem, k, roots, h) ==> Unowned(Attach(mem, f, i, g, flags), k, roots, h)
  {
    assert f in used;
    var mem', here := Attach(mem, f, i, g, flags), Sub(up, i);
    forall s, q | s in roots
      ensures Frame(mem', s, q) == (if q == here && Node(mem, s, up) == Some(f) then Some(g) else Frame(mem, s, q))
      ensures s != k ==> Private(mem', k, s, q) == Private(mem, k, s, q)
      ensures Tracked(mem', k, s, q) == Tracked(mem, k, s, q)
    {
      AttachFrame(mem, used, k, roots, r, up, f, i, g, flags, s, q);
    }
    forall s, p, t, q | s in roots && t in roots ensures Sole(mem', k, s, p, t, q) {
      if p == here && Node(mem, s, up) == Some(f) {
        if q == here && Node(mem, t, up) == Some(f) {
          AttachSole(mem, used, k, roots, s, up, f, i, t);
        }
      } else {
        assert Sole(mem, k, s, p, t, q);
      }
    }
  }

  lemma {:induction false} AttachOwned(mem: Memory, used: set<nat>, k: nat, roots: set<nat>,
                                       r: nat, up: Path, f: nat, i: nat, g: nat, flags: Flags, s: nat)
    requires Inv(mem, used, k, roots) && r in roots && OwnInv(mem, used, k, roots) && s in roots
    requires Node(mem, r, up) == Some(f) && Depth(up) <= 2 && i < ENTRIES && At(mem, f, i) == ZERO
    requires g !in used && g < |mem| && flags.present && !flags.pageSize
    ensures f < |mem|
    ensures Owned(Attach(mem, f, i, g, flags), used + {g}, k, s) ==
            Owned(mem, used, k, s) + if s == r && Private(mem, k, r, Sub(up, i)) then {g} else {}
  {
    assert f in used;
    var mem', here := Attach(mem, f, i, g, flags), Sub(up, i);
    forall q
      ensures Frame(mem', s, q) == (if q == here && Node(mem, s, up) == Some(f) then Some(g) else Frame(mem, s, q))
      ensures s != k ==> Private(mem', k, s, q) == Private(mem, k, s, q)
    {
      AttachFrame(mem, used, k, roots, r, up, f, i, g, flags, s, q);
    }
    assert Depth(here) == Depth(up) + 1;
    if Node(mem, s, up) == Some(f) {
      AttachSole(mem, used, k, roots, r, up, f, i, s);
      assert EntryAt(mem, s, here) == ZERO;
    }
    forall h | h in used + {g}
      ensures Owns(mem', k, s, h) <==>
        ((h in used && Owns(mem, k, s, h)) || (h == g && s == r && Private(mem, k, r, here)))
    {
      if Owns(mem', k, s, h) {
        var p :| Private(mem', k, s, p) && Depth(p) <= 4 && Frame(mem', s, p) == Some(h);
        assert Private(mem, k, s, p);
      }
      if h in used && Owns(mem, k, s, h) {
        var p :| Private(mem, k, s, p) && Depth(p) <= 4 && Frame(mem, s, p) == Some(h);
        assert Private(mem', k, s, p) && Frame(mem', s, p) == Some(h);
      }
      if h == g && s == r && Private(mem, k, r, here) {
        assert Private(mem', k, s, here) && Frame(mem', s, here) == Some(h);
      }
    }
  }

  // ---- writing a leaf ---------------------------------------------------------------------------

  /** A leaf write changes tracked frames at the written path only, and privacy nowhere. */
  lemma {:induction false} LeafFrame(mem: Memory, used: set<nat>, k: nat, roots: set<nat>,
                                     r: nat, up: Path, f: nat, i: nat, e: Entry, s: nat, q: Path)
    requires Inv(mem, used, k, roots) && r in roots && s in roots
    requires up.Sub? && Node(mem, r, up) == Some(f) && i < ENTRIES
    requires !IsTable(At(mem, f, i), Depth(up) + 1) && !IsTable(e, Depth(up) + 1)
    ensures f < |mem|
    ensures var mem' := Write(mem, f, i, e);
            && Frame(mem', s, q) == (if q == Sub(up, i) && Node(mem, s, up) == Some(f) && Depth(up) == 3
                                     then (if e == ZERO then None else Some(e.frame)) else Frame(mem, s, q))
            && Private(mem', k, s, q) == Private(mem, k, s, q)
            && Tracked(mem', k, s, q) == Tracked(mem, k, s, q)
  {
    LeafWriteNodes(mem, used, k, roots, r, up, f, i, e, s, q);
    LeafWriteInv(mem, used, k, roots, r, up, f, i, e);
  }

  /** Ownership survives a leaf write that stores nothing, a large leaf, a leaf outside every private
      part, or a frame nobody owns. */
  lemma {:induction false} LeafOwnInv(mem: Memory, used: set<nat>, k: nat, roots: set<nat>,
                                      r: nat, up: Path, f: nat, i: nat, e: Entry)
    requires Inv(mem, used, k, roots) && r in roots && OwnInv(mem, used, k, roots)
    requires up.Sub? && Node(mem, r, up) == Some(f) && i < ENTRIES
    requires !IsTable(At(mem, f, i), Depth(up) + 1) && !IsTable(e, Depth(up) + 1)
    requires e == ZERO || Depth(up) < 3 || !Private(mem, k, r, up) ||
      (e.frame in used && Unowned(mem, k, roots, e.frame))
    ensures f < |mem|
    ensures OwnInv(Write(mem, f, i, e), used, k, roots)
    ensures forall h ::
      Unowned(mem, k, roots, h) && (e == ZERO || h != e.frame || !Private(mem, k, r, up)) ==>
      Unowned(Write(mem, f, i, e), k, roots, h)
  {
    var mem', here := Write(mem, f, i, e), Sub(up, i);
    forall s, q | s in roots
      ensures Frame(mem', s, q) == (if q == here && Node(mem, s, up) == Some(f) && Depth(up) == 3
                                    then (if e == ZERO then None else Some(e.frame)) else Frame(mem, s, q))
      ensures Private(mem', k, s, q) == Private(mem, k, s, q)
      ensures Tracked(mem', k, s, q) == Tracked(mem, k, s, q)
    {
      LeafFrame(mem, used, k, roots, r, up, f, i, e, s, q);
    }
    forall s, p, t, q | s in roots && t in roots ensures Sole(mem', k, s, p, t, q) {
      assert Sole(mem, k, s, p, t, q);
      if Node(mem, s, up) == Some(f) { AttachSole(mem, used, k, roots, r, up, f, i, s); }
      if Node(mem, t, up) == Some(f) { AttachSole(mem, used, k, roots, r, up, f, i, t); }
    }
    forall s, q | s in roots && Tracked(mem', k, s, q) && Frame(mem', s, q).Some?
      ensures Frame(mem', s, q).value in used && (Frame(mem', s, q) == Frame(mem, s, q) || Private(mem, k, r, up))
    {
      if Node(mem, s, up) == Some(f) { AttachSole(mem, used, k, roots, r, up, f, i, s); }
    }
  }

  function Target(e: Entry): set<nat> {
    if e == ZERO then {} else {e.frame}
  }

  /** Replacing a private 4 KiB leaf exchanges exactly its frame. */
  lemma {:induction false} LeafOwned(mem: Memory, used: set<nat>, k: nat, roots: set<nat>,
                                     r: nat, up: Path, f: nat, i: nat, e: Entry, s: nat)
    requires Inv(mem, used, k, roots) && r in roots && OwnInv(mem, used, k, roots) && s in roots
    requires up.Sub? && Node(mem, r, up) == Some(f) && i < ENTRIES
    requires !IsTable(At(mem, f, i), Depth(up) + 1) && !IsTable(e, Depth(up) + 1)
    requires e == ZERO || Depth(up) < 3 || !Private(mem, k, r, up) ||
      (e.frame in used && Unowned(mem, k, roots, e.frame))
    ensures f < |mem|
    ensures Owned(Write(mem, f, i, e), used, k, s) ==
            if s == r && Depth(up) == 3 && Private(mem, k, r, up)
            then Owned(mem, used, k, s) - Target(At(mem, f, i)) + Target(e) else Owned(mem, used, k, s)
  {
    var mem', here := Write(mem, f, i, e), Sub(up, i);
    assert Depth(here) == Depth(up) + 1;
    var hit := Node(mem, s, up) == Some(f) && Depth(up) == 3;
    forall q
      ensures Frame(mem', s, q) == (if q == here && hit then (if e == ZERO then None else Some(e.frame))
        else Frame(mem, s, q))
      ensures Private(mem', k, s, q) == Private(mem, k, s, q)
    {
      LeafFrame(mem, used, k, roots, r, up, f, i, e, s, q);
    }
    if hit { AttachSole(mem, used, k, roots, r, up, f, i, s); }
    var change := hit && Private(mem, k, s, here);
    assert change <==> s == r && Depth(up) == 3 && Private(mem, k, r, up);
    forall h | h in used
      ensures Owns(mem', k, s, h) <==>
              if change then (Owns(mem, k, s, h) && h !in Target(At(mem, f, i))) || h in Target(e)
                  else Owns(mem, k, s, h)
    {
      if Owns(mem', k, s, h) {
        var p :| Private(mem', k, s, p) && Depth(p) <= 4 && Frame(mem', s, p) == Some(h);
        assert Private(mem, k, s, p);
        assert Sole(mem, k, s, p, s, here);
      }
      if Owns(mem, k, s, h) {
        var p :| Private(mem, k, s, p) && Depth(p) <= 4 && Frame(mem, s, p) == Some(h);
        assert Private(mem', k, s, p);
        assert Frame(mem', s, p) == Some(h) || (p == here && change);
      }
      if change && h in Target(e) {
        assert Private(mem', k, s, here) && Frame(mem', s, here) == Some(h);
      }
    }
  }

  // ---- frames and address spaces ----------------------------------------------------------------

  /** Taking a free frame into use leaves it unowned. */
  lemma {:induction false} OwnMore(mem: Memory, used: set<nat>, more: set<nat>, k: nat, roots: set<nat>)
    requires OwnInv(mem, used, k, roots) && used <= more
    ensures OwnInv(mem, more, k, roots)
    ensures forall s :: s in roots ==> Owned(mem, more, k, s) == Owned(mem, used, k, s)
  {
    forall s, f | s in roots && f in more && Owns(mem, k, s, f) ensures f in used {
      var p :| Private(mem, k, s, p) && Depth(p) <= 4 && Frame(mem, s, p) == Some(f);
      assert Tracked(mem, k, s, p);
    }
  }

  lemma {:induction false} AllocOwn(mem: Memory, used: set<nat>, k: nat, roots: set<nat>, h: nat)
    requires OwnInv(mem, used, k, roots) && h !in used
    ensures OwnInv(mem, used + {h}, k, roots) && Unowned(mem, k, roots, h)
    ensures forall s :: s in roots ==> Owned(mem, used + {h}, k, s) == Owned(mem, used, k, s)
  {
    forall s, f | s in roots && f in used + {h} && Owns(mem, k, s, f) ensures f in used {
      var p :| Private(mem, k, s, p) && Depth(p) <= 4 && Frame(mem, s, p) == Some(f);
      assert Tracked(mem, k, s, p);
    }
  }

  /** Returning an unowned frame. */
  lemma {:induction false} FreeOwn(mem: Memory, used: set<nat>, k: nat, roots: set<nat>, h: nat)
    requires Inv(mem, used, k, roots) && OwnInv(mem, used, k, roots) && Unowned(mem, k, roots, h)
    ensures Inv(mem, used - {h}, k, roots) && OwnInv(mem, used - {h}, k, roots)
    ensures forall s :: s in roots ==> Owned(mem, used - {h}, k, s) == Owned(mem, used, k, s)
  {
    forall r, p | r in roots && Node(mem, r, p).Some? ensures Node(mem, r, p) != Some(h) {
      NodeDepth(mem, r, p);
      assert Frame(mem, r, p) == Node(mem, r, p);
    }
    assert forall s, p :: s in roots && Private(mem, k, s, p) && Depth(p) <= 4 ==> Tracked(mem, k, s, p);
  }

  lemma NodeDepth(mem: Memory, r: nat, p: Path)
    ensures Node(mem, r, p).Some? ==> Depth(p) <= 3
  {
  }

  /** A fresh zeroed PML4 owns itself and nothing else. */
  lemma {:induction false} AddRootOwn(mem: Memory, used: set<nat>, k: nat, roots: set<nat>, g: nat)
    requires Inv(mem, used, k, roots) && OwnInv(mem, used, k, roots) && g !in used && g < |mem|
    ensures OwnInv(Erase(mem, g), used + {g}, k, roots + {g})
    ensures Owned(Erase(mem, g), used + {g}, k, g) == {g}
    ensures forall s :: s in roots ==> Owned(Erase(mem, g), used + {g}, k, s) == Owned(mem, used, k, s)
  {
    var mem' := Erase(mem, g);
    forall s, q | s in roots
      ensures Frame(mem', s, q) == Frame(mem, s, q) && Private(mem', k, s, q) == Private(mem, k, s, q)
      ensures Tracked(mem', k, s, q) == Tracked(mem, k, s, q)
    {
      EraseNodes(mem, used, roots, g, s, q);
      assert Node(mem, s, Root) == Some(s) && Node(mem, k, Root) == Some(k);
    }
    forall q ensures Frame(mem', g, q) == if q.Root? then Some(g) else None {
      EmptyRoot(mem', g, q);
    }
    assert forall r, p, s, q :: r in roots && s in roots ==> Sole(mem', k, r, p, s, q) == Sole(mem, k, r, p, s, q);
    assert Private(mem', k, g, Root) && Depth(Root) == 0;
    AddRootOwned(mem, used, k, roots, g);
  }

  lemma {:induction false} AddRootOwned(mem: Memory, used: set<nat>, k: nat, roots: set<nat>, g: nat)
    requires Inv(mem, used, k, roots) && OwnInv(mem, used, k, roots) && g !in used && g < |mem|
    ensures forall s :: s in roots ==> Owned(Erase(mem, g), used + {g}, k, s) == Owned(mem, used, k, s)
  {
    var mem' := Erase(mem, g);
    forall s, q | s in roots
      ensures Frame(mem', s, q) == Frame(mem, s, q) && Private(mem', k, s, q) == Private(mem, k, s, q)
    {
      EraseNodes(mem, used, roots, g, s, q);
      assert Node(mem, s, Root) == Some(s) && Node(mem, k, Root) == Some(k);
    }
    forall s, f | s in roots && f in used + {g}
      ensures Owns(mem', k, s, f) <==> f in used && Owns(mem, k, s, f)
    {
      if Owns(mem', k, s, f) {
        var p :| Private(mem', k, s, p) && Depth(p) <= 4 && Frame(mem', s, p) == Some(f);
        assert Tracked(mem, k, s, p) && Private(mem, k, s, p);
      }
      if Owns(mem, k, s, f) {
        var p :| Private(mem, k, s, p) && Depth(p) <= 4 && Frame(mem, s, p) == Some(f);
        assert Private(mem', k, s, p) && Frame(mem', s, p) == Some(f);
      }
    }
  }

  /** After a copy, positions below the slot are the kernel's, and everything else is as before. */
  lemma {:induction false} CopySlotFrame(mem: Memory, used: set<nat>, k: nat, roots: set<nat>, r: nat, i: nat, s: nat,
                                         q: Path)
    requires Inv(mem, used, k, roots) && r in roots && r != k && s in roots
    requires LOWER_HALF <= i < ENTRIES && At(mem, r, i) == ZERO && At(mem, k, i) != ZERO
    ensures r < |mem|
    ensures var mem', hit := Write(mem, r, i, At(mem, k, i)), s == r && q.Sub? && Top(q) == i;
            && Frame(mem', s, q) == Frame(mem, if hit then k else s, q)
            && (hit ==> !Private(mem', k, s, q) && (Depth(q) <= 4 ==> Frame(mem, s, q) == None))
            && (!hit ==> Private(mem', k, s, q) == Private(mem, k, s, q))
  {
    CopySlotNodes(mem, used, k, roots, r, i, s, q);
    assert Node(mem, k, Root) == Some(k) && Node(mem, r, Root) == Some(r);
    if s == r && q.Sub? && Top(q) == i && Frame(mem, s, q).Some? {
      if q.up.Root? { SlotNode(mem, r, i); assert false; }
      SlotOfNode(mem, r, q);
      assert false;
    }
  }

  /** Copying a kernel slot gives the process nothing to own. */
  lemma {:induction false} CopySlotOwn(mem: Memory, used: set<nat>, k: nat, roots: set<nat>, r: nat, i: nat)
    requires Inv(mem, used, k, roots) && OwnInv(mem, used, k, roots) && r in roots && r != k
    requires LOWER_HALF <= i < ENTRIES && At(mem, r, i) == ZERO && At(mem, k, i) != ZERO
    ensures r < |mem|
    ensures OwnInv(Write(mem, r, i, At(mem, k, i)), used, k, roots)
    ensures forall s :: s in roots ==> Owned(Write(mem, r, i, At(mem, k, i)), used, k, s) == Owned(mem, used, k, s)
  {
    assert Node(mem, r, Root) == Some(r);
    var mem' := Write(mem, r, i, At(mem, k, i));
    forall s: nat, q: Path | s in roots
      ensures var hit := s == r && q.Sub? && Top(q) == i;
            && Frame(mem', s, q) == Frame(mem, if hit then k else s, q)
            && (hit ==> !Private(mem', k, s, q) && (Depth(q) <= 4 ==> Frame(mem, s, q) == None))
            && (!hit ==> Private(mem', k, s, q) == Private(mem, k, s, q))
    {
      CopySlotFrame(mem, used, k, roots, r, i, s, q);
    }
    forall s, p, t, q | s in roots && t in roots ensures Sole(mem', k, s, p, t, q) {
      assert Sole(mem, k, s, p, if t == r && q.Sub? && Top(q) == i then k else t, q);
    }
    forall s, f: nat | s in roots ensures Owns(mem', k, s, f) <==> Owns(mem, k, s, f) {
      if Owns(mem', k, s, f) {
        var p :| Private(mem', k, s, p) && Depth(p) <= 4 && Frame(mem', s, p) == Some(f);
        assert Private(mem, k, s, p) && Frame(mem, s, p) == Some(f);
      }
      if Owns(mem, k, s, f) {
        var p :| Private(mem, k, s, p) && Depth(p) <= 4 && Frame(mem, s, p) == Some(f);
        assert Private(mem', k, s, p) && Frame(mem', s, p) == Some(f);
      }
    }
  }

  lemma {:induction false} OwnedOnce(m: Memory, u: set<nat>, k: nat, roots: set<nat>, r: nat, s: nat, q: Path, f: nat)
    requires OwnInv(m, u, k, roots) && r in roots && s in roots && s != r
    requires Tracked(m, k, s, q) && Frame(m, s, q) == Some(f)
    ensures !Owns(m, k, r, f)
  {
    forall p ensures !(Private(m, k, r, p) && Depth(p) <= 4 && Frame(m, r, p) == Some(f)) {
      assert Sole(m, k, r, p, s, q);
    }
  }

  /** A process and frames it owns can go without touching any other address space. */
  lemma {:induction false} RemoveRoot(m: Memory, u: set<nat>, gone: set<nat>, k: nat, roots: set<nat>, r: nat)
    requires Inv(m, u, k, roots) && OwnInv(m, u, k, roots) && r in roots && r != k
    requires forall f :: f in gone ==> Owns(m, k, r, f)
    ensures Inv(m, u - gone, k, roots - {r}) && OwnInv(m, u - gone, k, roots - {r})
    ensures forall s :: s in roots && s != r ==> Owned(m, u - gone, k, s) == Owned(m, u, k, s)
  {
    forall s, q, f | s in roots && s != r && Tracked(m, k, s, q) && Frame(m, s, q) == Some(f) ensures f !in gone {
      OwnedOnce(m, u, k, roots, r, s, q, f);
    }
    forall s, q | s in roots && s != r && Node(m, s, q).Some? ensures Node(m, s, q).value !in gone {
      NodeDepth(m, s, q);
      assert Frame(m, s, q) == Node(m, s, q);
    }
    forall s, f | s in roots && s != r && f in u && Owns(m, k, s, f) ensures f !in gone {
      var q :| Private(m, k, s, q) && Depth(q) <= 4 && Frame(m, s, q) == Some(f);
      assert Tracked(m, k, s, q);
    }
  }
}
