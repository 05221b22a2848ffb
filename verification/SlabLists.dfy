/** The doubly linked lists of slabs (kernel/kernel/slab.c:93-111, 144-162). */
module SlabLists {
  import opened Sequences

  datatype Slab = Slab(count: nat, nextFree: nat, next: nat, prev: nat, phys: nat, bin: nat)
  type Slabs = map<nat, Slab>

  function After(s: seq<nat>, i: nat): nat {
    if i + 1 < |s| then s[i + 1] else 0
  }

  function Before(s: seq<nat>, i: nat): nat {
    if 0 < i <= |s| then s[i - 1] else 0
  }

  /** The list with the given head is `s`. */
  ghost predicate List(slabs: Slabs, head: nat, s: seq<nat>) {
    && head == (if s == [] then 0 else s[0]) && NoDup(s)
    && forall i :: 0 <= i < |s| ==> Placed(slabs, s, i)
  }

  predicate Placed(slabs: Slabs, s: seq<nat>, i: nat)
    requires i < |s|
  {
    s[i] != 0 && s[i] in slabs && slabs[s[i]].next == After(s, i) && slabs[s[i]].prev == Before(s, i)
  }

  /** A list stays where the links of its members do. */
  lemma ListFrame(slabs: Slabs, slabs': Slabs, head: nat, s: seq<nat>)
    requires List(slabs, head, s)
    requires forall p ::
      p in s ==> p in slabs' && p in slabs && slabs'[p].next == slabs[p].next && slabs'[p].prev == slabs[p].prev
    ensures List(slabs', head, s)
  {
    forall i | 0 <= i < |s| ensures Placed(slabs', s, i) { assert Placed(slabs, s, i) && s[i] in s; }
  }

  // ---- the updates --------------------------------------------------------------------------------

  function SetNext(slabs: Slabs, p: nat, x: nat): Slabs {
    if p in slabs then slabs[p := slabs[p].(next := x)] else slabs
  }

  function SetPrev(slabs: Slabs, p: nat, x: nat): Slabs {
    if p in slabs then slabs[p := slabs[p].(prev := x)] else slabs
  }

  /** The neighbours of `p` are joined. */
  function Unlink(slabs: Slabs, p: nat): Slabs
    requires p in slabs
  {
    var n, q := slabs[p].next, slabs[p].prev;
    var joined := if n != 0 then SetPrev(slabs, n, q) else slabs;
    if q != 0 then SetNext(joined, q, n) else joined
  }

  function HeadWithout(slabs: Slabs, head: nat, p: nat): nat
    requires p in slabs
  {
    if head == p then slabs[p].next else head
  }

  /** `p` is put before `head`. */
  function Push(slabs: Slabs, head: nat, p: nat): Slabs
    requires p in slabs
  {
    var joined := if head != 0 then SetPrev(slabs, head, p) else slabs;
    joined[p := joined[p].(next := head, prev := 0)]
  }

  /** Nothing but links changes. */
  ghost predicate OnlyLinks(slabs: Slabs, slabs': Slabs) {
    && slabs'.Keys == slabs.Keys
    && forall p :: p in slabs ==> slabs'[p] == slabs[p].(next := slabs'[p].next, prev := slabs'[p].prev)
  }

  lemma UnlinkShape(slabs: Slabs, head: nat, s: seq<nat>, i: nat)
    requires List(slabs, head, s) && i < |s|
    ensures s[i] in slabs && OnlyLinks(slabs, Unlink(slabs, s[i]))
    ensures forall p :: p in slabs && p !in s ==> Unlink(slabs, s[i])[p] == slabs[p]
  {
    assert Placed(slabs, s, i);
    if i > 0 { assert Placed(slabs, s, i - 1) && s[i - 1] in s; }
    if i + 1 < |s| { assert Placed(slabs, s, i + 1) && s[i + 1] in s; }
  }

  /** Every other member of the list after an unlink. */
  lemma UnlinkMember(slabs: Slabs, head: nat, s: seq<nat>, i: nat, k: nat)
    requires List(slabs, head, s) && i < |s| && k < |s|
    requires k != i && s[i] in slabs
    ensures var slabs' := Unlink(slabs, s[i]);
      && s[k] in slabs' && slabs'[s[k]].next == (if k + 1 == i then After(s, i) else After(s, k))
      && slabs'[s[k]].prev == (if k == i + 1 then Before(s, i) else Before(s, k))
  {
    assert Placed(slabs, s, i) && Placed(slabs, s, k);
    if i > 0 { assert Placed(slabs, s, i - 1); }
    if i + 1 < |s| { assert Placed(slabs, s, i + 1); }
    assert s[k] != s[i];
    if i > 0 && k != i - 1 { assert s[k] != s[i - 1]; }
    if i + 1 < |s| && k != i + 1 { assert s[k] != s[i + 1]; }
  }

  lemma UnlinkList(slabs: Slabs, head: nat, s: seq<nat>, i: nat)
    requires List(slabs, head, s) && i < |s|
    ensures s[i] in slabs && List(Unlink(slabs, s[i]), HeadWithout(slabs, head, s[i]), RemoveAt(s, i))
    ensures s[i] !in RemoveAt(s, i)
  {
    hide Unlink;
    assert Placed(slabs, s, i) && Placed(slabs, s, 0);
    var t, slabs' := RemoveAt(s, i), Unlink(slabs, s[i]);
    forall k | 0 <= k < |t| ensures Placed(slabs', t, k) {
      var was := if k < i then k else k + 1;
      assert Placed(slabs, s, was) && t[k] == s[was];
      UnlinkMember(slabs, head, s, i, was);
    }
  }

  lemma PushList(slabs: Slabs, head: nat, s: seq<nat>, p: nat)
    requires List(slabs, head, s) && p in slabs && p !in s && p != 0
    ensures List(Push(slabs, head, p), p, [p] + s) && OnlyLinks(slabs, Push(slabs, head, p))
    ensures forall q :: q in slabs && q !in [p] + s ==> Push(slabs, head, p)[q] == slabs[q]
  {
    var t, slabs' := [p] + s, Push(slabs, head, p);
    if s != [] { assert Placed(slabs, s, 0); }
    forall k | 0 <= k < |t| ensures Placed(slabs', t, k) {
      if k > 0 { assert Placed(slabs, s, k - 1) && t[k] == s[k - 1]; }
      if k > 1 { assert s[k - 1] != s[0]; }
    }
  }
}
