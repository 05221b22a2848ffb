/** The end of a process, over whole runs: what exits is dead for good, leaves the process list and is reaped within
bounds (kernel/kernel/scheduler.c:36-52, kernel/kernel/reaper.c:26-45, kernel/kernel/syscall.c:23-29). */
module Reaping {
  import opened Scheduler

  // ---- dead for good ------------------------------------------------------------------------------

  /** Life `l`, that of the process at `p`, is over but for the reaping. */
  predicate Doomed(s: State, p: Ptr, l: nat) {
    LifeAt(s, p, l) && IsDead(s.procs, p)
  }

  lemma DoomedStep(s: State, op: Op, p: Ptr, l: nat)
    requires Inv(s) && Enabled(s, op) && Doomed(s, p, l)
    ensures |s.run| == MAX && |s.reap| == MAX && (Doomed(Step(s, op), p, l) || l in Step(s, op).gone)
  {
    Sizes(s);
    LifeStep(s, op, p, l);
    if op.Tick? {
      ScanKeeps(s.run, s.reap, s.next, s.procs, 0, s.taken, s.idle);
    }
    hide ScanFrom, Lists, Lives, KeepsLive;
  }

  /** A process that exits is dead in every later state, until its life is ended. */
  lemma {:induction false} ExitIsFinal(states: seq<State>, ops: seq<Op>, i: nat, j: nat, p: Ptr, l: nat)
    requires IsRun(states, ops) && i < j <= |ops| && ops[i].Exit?
    requires states[i].current == p && LifeAt(states[i], p, l)
    ensures Doomed(states[j], p, l) || l in states[j].gone
    decreases j
  {
    hide Inv, Doomed, Enabled, Step, LifeAt;
    assert Next(states[j - 1], ops[j - 1], states[j]);
    if i == j - 1 {
      ExitKills(states[i], p, l);
    } else {
      ExitIsFinal(states, ops, i, j - 1, p, l);
      Reachable(states, ops, j - 1);
      if l in states[j - 1].gone {
        GoneStays(states, ops, j - 1, j, l);
      } else {
        DoomedStep(states[j - 1], ops[j - 1], p, l);
      }
    }
  }

  lemma ExitKills(s: State, p: Ptr, l: nat)
    requires |s.run| == MAX && |s.reap| == MAX && s.current == p && LifeAt(s, p, l)
    ensures Doomed(Step(s, Exit), p, l)
  {
  }

  /** From the next tick on it is not the current process again. */
  lemma {:induction false} NeverAgain(states: seq<State>, ops: seq<Op>, i: nat, m: nat, j: nat, p: Ptr, l: nat)
    requires IsRun(states, ops) && i < m < j <= |ops| && ops[i].Exit? && ops[m].Tick?
    requires states[i].current == p && LifeAt(states[i], p, l)
    ensures !LifeAt(states[j], states[j].current, l)
    decreases j
  {
    hide Inv, Enabled, Step, Tracked;
    assert Next(states[j - 1], ops[j - 1], states[j]);
    var q := states[j].current;
    Reachable(states, ops, j - 1);
    Reachable(states, ops, j);
    if LifeAt(states[j], q, l) {
      if ops[j - 1].Tick? {
        ExitIsFinal(states, ops, i, j, p, l);
        OneRunning(states, ops, j - 1);
        OneLife(states[j], p, q, l);
      } else {
        NeverAgain(states, ops, i, m, j - 1, p, l);
        SameCurrent(states[j - 1], ops[j - 1], l);
      }
      assert false;
    }
  }

  lemma OneLife(s: State, p: Ptr, q: Ptr, l: nat)
    requires Inv(s) && LifeAt(s, q, l) && (LifeAt(s, p, l) || l in s.gone)
    ensures p == q && l !in s.gone
  {
  }

  lemma SameCurrent(s: State, op: Op, l: nat)
    requires Inv(s) && Enabled(s, op) && !op.Tick?
    requires |s.run| == MAX && |s.reap| == MAX
    requires LifeAt(Step(s, op), Step(s, op).current, l)
    ensures LifeAt(s, s.current, l)
  {
  }

  // ---- out of the process list --------------------------------------------------------------------

  /** A dead process in slot `k`. */
  predicate Lingers(s: State, k: nat, p: Ptr) {
    k < |s.run| && s.run[k] == p && p != 0 && IsDead(s.procs, p)
  }

  /** What a scan does with the dead process of slot `k`: it stops before it, moves it to the reap list, or passes it
      and finds that list full. */
  predicate Handled(run: seq<Ptr>, next: nat, k: nat, r: Scan)
    requires |run| == MAX && |r.run| == MAX && k < MAX
  {
    if r.found != 0 && r.next < MAX && Dist(next, r.next) < Dist(next, k) then
      r.run[k] == run[k] && Dist(r.next + 1, k) < Dist(next, k)
    else
      && (r.found != 0 ==> r.next < MAX && Dist(next, k) < Dist(next, r.next))
      && if r.run[k] == 0 then run[k] in r.reap else r.run[k] == run[k] && 0 !in r.reap
  }

  lemma HandledLater(run: seq<Ptr>, run': seq<Ptr>, next: nat, k: nat, r: Scan)
    requires |run| == MAX && |run'| == MAX && |r.run| == MAX
    requires k < MAX && run'[k] == run[k] && Wrap(next) != k
    requires Handled(run', Wrap(next) + 1, k, r) && (r.found != 0 ==> r.next != Wrap(next))
    ensures Handled(run, next, k, r)
  {
  }

  lemma {:induction false} ScanPasses(run: seq<Ptr>, reap: seq<Ptr>, next: nat, procs: map<Ptr, Process>, loops: nat,
                                      k: nat)
    requires |run| == MAX && k < MAX && run[k] != 0
    requires IsDead(procs, run[k]) && loops + Dist(next, k) < MAX
    ensures Handled(run, next, k, ScanFrom(run, reap, next, procs, loops))
    decreases MAX - loops
  {
    var n := Wrap(next);
    ScanFound(run, reap, next, procs, loops);
    if n == k {
      ScanHere(run, reap, next, procs, loops);
    } else {
      var r := ScanFrom(run, reap, next, procs, loops);
      hide Put, IsDead, FirstFree, Handled;
      if run[n] != 0 && IsDead(procs, run[n]) && FirstFree(reap) < |reap| {
        ScanPasses(run[n := 0], Put(reap, run[n]), n + 1, procs, loops + 1, k);
        HandledLater(run, run[n := 0], next, k, r);
      } else if run[n] == 0 || IsDead(procs, run[n]) {
        ScanPasses(run, reap, n + 1, procs, loops + 1, k);
        HandledLater(run, run, next, k, r);
      } else {
        HandledNot(run, next, k, r);
      }
    }
  }

  lemma HandledNot(run: seq<Ptr>, next: nat, k: nat, r: Scan)
    requires |run| == MAX && k < MAX && Wrap(next) != k
    requires r.run == run && r.next == Wrap(next) && r.found != 0
    ensures Handled(run, next, k, r)
  {
  }

  lemma ScanHere(run: seq<Ptr>, reap: seq<Ptr>, next: nat, procs: map<Ptr, Process>, loops: nat)
    requires |run| == MAX && loops < MAX && run[Wrap(next)] != 0 && IsDead(procs, run[Wrap(next)])
    ensures var r, k := ScanFrom(run, reap, next, procs, loops), Wrap(next);
      && (r.found != 0 ==> r.next < MAX && 0 < Dist(next, r.next))
      && ((r.run[k] == 0 && run[k] in r.reap) || (r.run[k] == run[k] && 0 !in r.reap))
  {
    hide Put, IsDead, FirstFree;
    var k := Wrap(next);
    ScanFound(run, reap, next, procs, loops);
    if FirstFree(reap) < |reap| {
      PutKeeps(reap, run[k]);
      ScanAfter(run[k := 0], Put(reap, run[k]), k + 1, procs, loops + 1, k);
    } else {
      NoneFree(reap);
      ScanAfter(run, reap, k + 1, procs, loops + 1, k);
    }
  }

  lemma NoneFree(reap: seq<Ptr>)
    requires FirstFree(reap) >= |reap|
    ensures 0 !in reap
  {
  }

  /** The rest of a scan that has passed slot `k`. */
  lemma {:induction false} ScanAfter(run: seq<Ptr>, reap: seq<Ptr>, next: nat, procs: map<Ptr, Process>, loops: nat,
                                     k: nat)
    requires |run| == MAX && k < MAX && loops <= MAX
    requires next <= MAX && Dist(next, k) + loops >= MAX
    ensures var r := ScanFrom(run, reap, next, procs, loops);
      && r.run[k] == run[k] && (forall x :: x in reap && x != 0 ==> x in r.reap) && (0 !in reap ==> 0 !in r.reap)
      && (r.found != 0 ==> r.next < MAX && Dist(next, r.next) < Dist(next, k))
    decreases MAX - loops
  {
    hide Put, IsDead, FirstFree;
    if loops < MAX {
      var n := Wrap(next);
      if run[n] != 0 && IsDead(procs, run[n]) && FirstFree(reap) < |reap| {
        PutKeeps(reap, run[n]);
        HasFree(reap);
        ScanAfter(run[n := 0], Put(reap, run[n]), n + 1, procs, loops + 1, k);
      } else if run[n] == 0 || IsDead(procs, run[n]) {
        ScanAfter(run, reap, n + 1, procs, loops + 1, k);
      }
    }
  }

  lemma HasFree(reap: seq<Ptr>)
    requires FirstFree(reap) < |reap|
    ensures 0 in reap
  {
  }

  /** The scan of a tick from state `s` to `t` went past slot `k`. */
  predicate Passed(s: State, t: State, k: nat)
    requires k < MAX
  {
    t.current == s.idle || (0 < t.next <= MAX && Dist(s.next, k) < Dist(s.next, t.next - 1))
  }

  /** A tick that passes the slot of a dead process leaves the process in the reap list, unless that list is full; one
      that does not has brought the cursor closer. */
  lemma TickPasses(s: State, frame: Context, k: nat, p: Ptr)
    requires Inv(s) && k < MAX && Lingers(s, k, p)
    ensures var t := Ticked(s, frame);
      && (Passed(s, t, k) ==> p in t.reap || 0 !in t.reap)
      && (!Passed(s, t, k) ==> Lingers(t, k, p) && Dist(t.next, k) < Dist(s.next, k))
  {
    ScanPasses(s.run, s.reap, s.next, s.procs, 0, k);
    ScanKeeps(s.run, s.reap, s.next, s.procs, 0, s.taken, s.idle);
    hide ScanFrom, Dist, Lists, KeepsLive, Lives;
  }

  lemma LingersStep(s: State, op: Op, k: nat, p: Ptr)
    requires Inv(s) && Lingers(s, k, p) && Enabled(s, op) && !op.Tick?
    ensures |s.run| == MAX && |s.reap| == MAX && Lingers(Step(s, op), k, p) && Step(s, op).next == s.next
  {
  }

  /** The dead process of a slot is in the reap list, or has met a full one, within as many ticks as the cursor is slots
      before it, and one more; so within 32. */
  lemma {:induction false} BoundedLingering(states: seq<State>, ops: seq<Op>, i: nat, k: nat, p: Ptr) returns (j: nat)
    requires IsRun(states, ops) && i <= |ops| && k < MAX
    requires Lingers(states[i], k, p) && Ticks(ops[i..]) > Dist(states[i].next, k)
    ensures i < j <= |ops| && ops[j - 1].Tick? && Ticks(ops[i..j]) <= Dist(states[i].next, k) + 1
    ensures p in states[j].reap || 0 !in states[j].reap
    decreases |ops| - i
  {
    hide Inv, Dist, Ticked, Lingers, Enabled, Step, Passed;
    Reachable(states, ops, i);
    assert Next(states[i], ops[i], states[i + 1]);
    assert ops[i..][1..] == ops[i + 1..];
    if ops[i].Tick? {
      assert states[i + 1] == Ticked(states[i], ops[i].frame) by { TickIs(states[i], ops[i]); }
      TickPasses(states[i], ops[i].frame, k, p);
      if Passed(states[i], states[i + 1], k) {
        j := i + 1;
        OneTick(ops, i);
        return;
      }
    } else {
      LingersStep(states[i], ops[i], k, p);
    }
    j := BoundedLingering(states, ops, i + 1, k, p);
    assert ops[i..j][1..] == ops[i + 1..j];
  }

  // ---- reaped -------------------------------------------------------------------------------------

  function Takes(ops: seq<Op>): nat {
    if ops == [] then 0 else (if ops[0].Take? then 1 else 0) + Takes(ops[1..])
  }

  /** Process `p` is in slot `k` of the reap list. */
  predicate Queued(s: State, k: nat, p: Ptr) {
    k < |s.reap| && s.reap[k] == p && p != 0
  }

  lemma {:induction false} ScanQueued(run: seq<Ptr>, reap: seq<Ptr>, next: nat, procs: map<Ptr, Process>, loops: nat,
                                      k: nat)
    requires |run| == MAX && loops <= MAX && k < |reap| && reap[k] != 0
    ensures ScanFrom(run, reap, next, procs, loops).reap[k] == reap[k]
    decreases MAX - loops
  {
    hide IsDead, FirstFree;
    if loops < MAX {
      var n := Wrap(next);
      if run[n] != 0 && IsDead(procs, run[n]) && FirstFree(reap) < |reap| {
        ScanQueued(run[n := 0], Put(reap, run[n]), n + 1, procs, loops + 1, k);
      } else if run[n] == 0 || IsDead(procs, run[n]) {
        ScanQueued(run, reap, n + 1, procs, loops + 1, k);
      }
    }
  }

  /** Only the reaper empties a slot of its list: it takes what its cursor is at, and else comes one slot closer. */
  lemma QueuedStep(s: State, op: Op, k: nat, p: Ptr)
    requires Inv(s) && Enabled(s, op) && k < MAX && Queued(s, k, p)
    ensures |s.run| == MAX && |s.reap| == MAX
    ensures op.Take? && Dist(s.cursor, k) == 0 ==> Step(s, op).taken == p
    ensures op.Take? && Dist(s.cursor, k) > 0 ==>
      Queued(Step(s, op), k, p) && Dist(Step(s, op).cursor, k) == Dist(s.cursor, k) - 1
    ensures !op.Take? ==> Queued(Step(s, op), k, p) && Step(s, op).cursor == s.cursor
  {
    Sizes(s);
    if op.Tick? { ScanQueued(s.run, s.reap, s.next, s.procs, 0, k); }
    hide ScanFrom, Inv;
  }

  /** A process in slot `k` of the reap list is taken by exactly the take that many slots, and one more, after which the
      cursor has come to it; so by one of the next 32. */
  lemma {:induction false} BoundedReaping(states: seq<State>, ops: seq<Op>, i: nat, k: nat, p: Ptr) returns (j: nat)
    requires IsRun(states, ops) && i <= |ops| && k < MAX
    requires Queued(states[i], k, p) && Takes(ops[i..]) > Dist(states[i].cursor, k)
    ensures i < j <= |ops| && ops[j - 1].Take? && Takes(ops[i..j]) == Dist(states[i].cursor, k) + 1
    ensures states[j].taken == p
    decreases |ops| - i
  {
    hide Inv, Dist, Queued, Enabled, Step;
    Reachable(states, ops, i);
    assert Next(states[i], ops[i], states[i + 1]);
    assert ops[i..][1..] == ops[i + 1..];
    QueuedStep(states[i], ops[i], k, p);
    if ops[i].Take? && Dist(states[i].cursor, k) == 0 {
      j := i + 1;
      assert ops[i..j] == [ops[i]] && ops[i..j][1..] == [];
    } else {
      j := BoundedReaping(states, ops, i + 1, k, p);
      assert ops[i..j][1..] == ops[i + 1..j];
    }
  }

  lemma TakenStep(s: State, op: Op, p: Ptr, l: nat)
    requires Inv(s) && Enabled(s, op) && s.taken == p != 0 && LifeAt(s, p, l)
    ensures |s.run| == MAX && |s.reap| == MAX && !op.Take?
    ensures if op.Destroy? then l in Step(s, op).gone else Step(s, op).taken == p && LifeAt(Step(s, op), p, l)
  {
    hide ScanFrom;
  }

  /** The life of a taken process has ended before the reaper takes again, and after the next destruction. */
  lemma {:induction false} TakenEnds(states: seq<State>, ops: seq<Op>, i: nat, j: nat, p: Ptr, l: nat)
    requires IsRun(states, ops) && i <= j <= |ops| && states[i].taken == p != 0 && LifeAt(states[i], p, l)
    requires exists x :: i <= x < j && (ops[x].Take? || ops[x].Destroy?)
    ensures l in states[j].gone
    decreases j - i
  {
    hide Inv, Enabled, Step, LifeAt;
    Reachable(states, ops, i);
    assert Next(states[i], ops[i], states[i + 1]);
    TakenStep(states[i], ops[i], p, l);
    if ops[i].Destroy? {
      GoneStays(states, ops, i + 1, j, l);
    } else {
      TakenEnds(states, ops, i + 1, j, p, l);
    }
  }

  // ---- from the exit to the end -------------------------------------------------------------------

  /** The process is out of the process list and on its way. */
  predicate Leaving(s: State, p: Ptr, l: nat) {
    p != 0 && LifeAt(s, p, l) && (p in s.reap || p == s.taken)
  }

  lemma LeavingStep(s: State, op: Op, p: Ptr, l: nat)
    requires Inv(s) && Enabled(s, op) && Leaving(s, p, l)
    ensures |s.run| == MAX && |s.reap| == MAX && (Leaving(Step(s, op), p, l) || l in Step(s, op).gone)
  {
    LifeStep(s, op, p, l);
    if p == s.taken {
      TakenStep(s, op, p, l);
    } else {
      var k :| 0 <= k < |s.reap| && s.reap[k] == p;
      QueuedStep(s, op, k, p);
    }
    hide Step, Inv, Enabled;
  }

  lemma {:induction false} LeavingStays(states: seq<State>, ops: seq<Op>, i: nat, j: nat, p: Ptr, l: nat)
    requires IsRun(states, ops) && i <= j <= |ops| && (Leaving(states[i], p, l) || l in states[i].gone)
    ensures Leaving(states[j], p, l) || l in states[j].gone
    decreases j - i
  {
    hide Inv, Enabled, Step, Leaving;
    if l in states[i].gone {
      GoneStays(states, ops, i, j, l);
    } else if i < j {
      Reachable(states, ops, i);
      assert Next(states[i], ops[i], states[i + 1]);
      LeavingStep(states[i], ops[i], p, l);
      LeavingStays(states, ops, i + 1, j, p, l);
    }
  }

  lemma Prefix(states: seq<State>, ops: seq<Op>, n: nat)
    requires IsRun(states, ops) && n <= |ops|
    ensures IsRun(states[..n + 1], ops[..n])
  {
    hide Initial;
    forall i | 0 <= i < n ensures Next(states[..n + 1][i], ops[..n][i], states[..n + 1][i + 1]) {
      assert Next(states[i], ops[i], states[i + 1]);
    }
  }

  lemma {:induction false} TakesSplit(a: seq<Op>, b: seq<Op>)
    ensures Takes(a + b) == Takes(a) + Takes(b)
  {
    if a == [] {
      assert a + b == b;
    } else {
      TakesSplit(a[1..], b);
      assert (a + b)[1..] == a[1..] + b;
    }
  }

  lemma {:induction false} SomeTake(ops: seq<Op>)
    requires Takes(ops) > 0
    ensures exists x :: 0 <= x < |ops| && ops[x].Take?
  {
    if !ops[0].Take? {
      SomeTake(ops[1..]);
      var x :| 0 <= x < |ops[1..]| && ops[1..][x].Take?;
      assert ops[x + 1].Take?;
    }
  }

  /** A process in the reap list is taken by one of 33 takes that is not the last. */
  lemma TakenBefore(states: seq<State>, ops: seq<Op>, i: nat, j: nat, k: nat, p: Ptr) returns (t: nat)
    requires IsRun(states, ops) && i <= j <= |ops| && k < MAX
    requires Queued(states[i], k, p) && Takes(ops[i..j]) > MAX
    ensures i <= t <= j && states[t].taken == p && exists x :: t <= x < j && ops[x].Take?
  {
    hide Inv, Enabled, Step, Next, Initial, Dist;
    Prefix(states, ops, j);
    assert ops[..j][i..] == ops[i..j];
    t := BoundedReaping(states[..j + 1], ops[..j], i, k, p);
    assert ops[..j][i..t] == ops[i..t] && ops[i..j] == ops[i..t] + ops[t..j];
    TakesSplit(ops[i..t], ops[t..j]);
    SomeTake(ops[t..j]);
    var x :| 0 <= x < |ops[t..j]| && ops[t..j][x].Take?;
    assert ops[t + x].Take?;
  }

  /** A process on its way has ended once the reaper has taken 33 times. */
  lemma LeavingEnds(states: seq<State>, ops: seq<Op>, i: nat, j: nat, p: Ptr, l: nat)
    requires IsRun(states, ops) && i <= j <= |ops| && Leaving(states[i], p, l) && Takes(ops[i..j]) > MAX
    ensures l in states[j].gone
  {
    hide Inv, Enabled, Step, Next, Initial, Tracked;
    var t := i;
    if states[i].taken == p {
      SomeTake(ops[i..j]);
      var x :| 0 <= x < |ops[i..j]| && ops[i..j][x].Take?;
      assert ops[i + x].Take?;
    } else {
      var k :| 0 <= k < |states[i].reap| && states[i].reap[k] == p;
      ReapSize(states, ops, i);
      t := TakenBefore(states, ops, i, j, k, p);
      LeavingStays(states, ops, i, t, p, l);
    }
    if l in states[t].gone {
      GoneStays(states, ops, t, j, l);
    } else {
      TakenEnds(states, ops, t, j, p, l);
    }
  }

  lemma ReapSize(states: seq<State>, ops: seq<Op>, i: nat)
    requires IsRun(states, ops) && i <= |ops|
    ensures |states[i].reap| == MAX
  {
    hide Inv, Tracked;
    Reachable(states, ops, i);
    Sizes(states[i]);
  }

  /** A process that exits is reaped: after 32 ticks, none of which leaves the reap list full, and then 33 takes of the
      reaper, its life has ended, whatever the other processes do. */
  lemma ExitedEnds(states: seq<State>, ops: seq<Op>, i: nat, a: nat, b: nat, p: Ptr, l: nat)
    requires IsRun(states, ops) && i < a <= b <= |ops| && ops[i].Exit?
    requires states[i].current == p && LifeAt(states[i], p, l)
    requires Ticks(ops[i + 1..a]) >= MAX && (forall m :: i < m <= a ==> 0 in states[m].reap)
    requires Takes(ops[a..b]) > MAX
    ensures l in states[b].gone
  {
    var k := ExitSlot(states, ops, i, p);
    Prefix(states, ops, a);
    assert ops[..a][i + 1..] == ops[i + 1..a];
    hide Inv, Enabled, Step, Next, Initial, Dist;
    var j := BoundedLingering(states[..a + 1], ops[..a], i + 1, k, p);
    assert 0 in states[j].reap;
    ExitIsFinal(states, ops, i, j, p, l);
    LeavingStays(states, ops, j, a, p, l);
    if l in states[a].gone {
      GoneStays(states, ops, a, b, l);
    } else {
      LeavingEnds(states, ops, a, b, p, l);
    }
  }

  lemma ExitSlot(states: seq<State>, ops: seq<Op>, i: nat, p: Ptr) returns (k: nat)
    requires IsRun(states, ops) && i < |ops| && ops[i].Exit? && states[i].current == p
    ensures k < MAX && Lingers(states[i + 1], k, p)
  {
    Reachable(states, ops, i);
    assert Next(states[i], ops[i], states[i + 1]);
    k :| 0 <= k < MAX && states[i].run[k] == p;
  }
}
