/** The round-robin scheduler and the reaper (kernel/kernel/scheduler.c, kernel/kernel/reaper.c). */
module Scheduler {

  const MAX: nat := 32   // SCHEDULER_MAX_PROCESSES

  /** A pointer to a process; 0 is NULL. */
  type Ptr = nat

  datatype ProcState = Ready | Running | Dead
  datatype Context = Context(rip: nat, rsp: nat, rflags: nat, registers: seq<nat>)
  /** `life` tells a process from others that had the same address before it. */
  datatype Process = Process(state: ProcState, context: Context, life: nat)

  /** The scheduler's and the reaper's variables, the processes that exist, how many there have been, and a log of the
      lives that were ended. `taken` is the process the reaper has removed from its list and is about to destroy. */
  datatype State = State(run: seq<Ptr>, reap: seq<Ptr>, next: nat, cursor: nat, current: Ptr, idle: Ptr, taken: Ptr,
                         procs: map<Ptr, Process>, births: nat, gone: seq<nat>)

  // ---- the steps ----------------------------------------------------------------------------------

  /** The first empty slot. */
  function FirstFree(s: seq<Ptr>): (r: nat)
    ensures r <= |s| && (forall i :: 0 <= i < r ==> s[i] != 0) && (r < |s| ==> s[r] == 0)
  {
    if s == [] || s[0] == 0 then 0 else 1 + FirstFree(s[1..])
  }

  /** The list with `p` in its first empty slot, if it has one. */
  function Put(s: seq<Ptr>, p: Ptr): (r: seq<Ptr>)
    ensures |r| == |s|
  {
    if FirstFree(s) < |s| then s[FirstFree(s) := p] else s
  }

  function Wrap(next: nat): (r: nat)
    ensures r < MAX
  {
    if next >= MAX then 0 else next
  }

  predicate IsDead(procs: map<Ptr, Process>, p: Ptr) {
    p in procs && procs[p].state == Dead
  }

  /** What a scan for the next process leaves behind. */
  datatype Scan = Scan(run: seq<Ptr>, reap: seq<Ptr>, next: nat, found: Ptr)

  /** The scan, `loops` slots of it being done. */
  function ScanFrom(run: seq<Ptr>, reap: seq<Ptr>, next: nat, procs: map<Ptr, Process>, loops: nat): (r: Scan)
    requires |run| == MAX && loops <= MAX
    ensures |r.run| == MAX && |r.reap| == |reap|
    decreases MAX - loops
  {
    if loops == MAX then Scan(run, reap, next, 0)
    else
      var n := Wrap(next);
      var p := run[n];
      if p == 0 then ScanFrom(run, reap, n + 1, procs, loops + 1)
      else if !IsDead(procs, p) then Scan(run, reap, n, p)
      else if FirstFree(reap) < |reap| then ScanFrom(run[n := 0], Put(reap, p), n + 1, procs, loops + 1)
      else ScanFrom(run, reap, n + 1, procs, loops + 1)
  }

  /** One slot of the scan. */
  lemma ScanSlot(run: seq<Ptr>, reap: seq<Ptr>, next: nat, procs: map<Ptr, Process>, loops: nat)
    requires |run| == MAX && loops < MAX
    ensures var n := Wrap(next);
      var p := run[n];
      ScanFrom(run, reap, next, procs, loops) ==
      if p != 0 && !IsDead(procs, p) then Scan(run, reap, n, p)
      else if p != 0 && FirstFree(reap) < |reap| then ScanFrom(run[n := 0], Put(reap, p), n + 1, procs, loops + 1)
      else ScanFrom(run, reap, n + 1, procs, loops + 1)
  {
  }

  lemma ScanDone(run: seq<Ptr>, reap: seq<Ptr>, next: nat, procs: map<Ptr, Process>)
    requires |run| == MAX
    ensures ScanFrom(run, reap, next, procs, MAX) == Scan(run, reap, next, 0)
  {
  }

  function SetState(procs: map<Ptr, Process>, p: Ptr, st: ProcState): map<Ptr, Process> {
    if p in procs then procs[p := procs[p].(state := st)] else procs
  }

  /** process_save_state and the change to READY, for a current process that is not dead. */
  function SwitchOut(procs: map<Ptr, Process>, p: Ptr, frame: Context): map<Ptr, Process> {
    if p != 0 && p in procs && procs[p].state != Dead then procs[p := procs[p].(state := Ready, context := frame)]
        else procs
  }

  datatype Op = Tick(frame: Context) | Exit | Add(p: Ptr, context: Context) | Take | Destroy

  /** scheduler_loop. */
  function Ticked(s: State, frame: Context): State
    requires |s.run| == MAX
  {
    var scan := ScanFrom(s.run, s.reap, s.next, s.procs, 0);
    var chosen := if scan.found == 0 then s.idle else scan.found;
    s.(run := scan.run, reap := scan.reap, next := scan.next + 1, current := chosen,
       procs := SetState(SwitchOut(s.procs, s.current, frame), chosen, Running))
  }

  function Step(s: State, op: Op): State
    requires |s.run| == MAX && |s.reap| == MAX
  {
    match op
    case Tick(frame) => Ticked(s, frame)
    case Exit => s.(procs := SetState(s.procs, s.current, Dead))
    case Add(p, context) =>
      if FirstFree(s.run) < MAX then
          s.(run := Put(s.run, p), procs := s.procs[p := Process(Ready, context, s.births)], births := s.births + 1)
          else s
    case Take => s.(taken := s.reap[if s.cursor >= MAX then 0 else s.cursor],
        reap := s.reap[(if s.cursor >= MAX then 0 else s.cursor) := 0], cursor := (if s.cursor >= MAX then 0
        else s.cursor) + 1)
    case Destroy => s.(taken := 0, procs := s.procs - {s.taken}, gone := s.gone + if s.taken in s.procs then
        [s.procs[s.taken].life] else [])
  }

  /** When a step can happen: only a process that is neither idle nor dead exits, a process is added at an address where
      there is none, and the reaper destroys what it took before it takes again. */
  predicate Enabled(s: State, op: Op) {
    match op
    case Tick(_) => true
    case Exit => s.current != 0 && s.current != s.idle && !IsDead(s.procs, s.current)
    case Add(p, _) => p != 0 && p !in s.procs
    case Take => s.taken == 0
    case Destroy => s.taken != 0
  }

  // ---- the invariant ------------------------------------------------------------------------------

  predicate Distinct(s: seq<Ptr>) {
    forall i, j :: 0 <= i < j < |s| ==> s[i] == 0 || s[i] != s[j]
  }

  predicate Apart(s: seq<Ptr>, t: seq<Ptr>) {
    forall i, j :: 0 <= i < |s| && 0 <= j < |t| ==> s[i] == 0 || s[i] != t[j]
  }

  predicate AllIn(s: seq<Ptr>, procs: map<Ptr, Process>) {
    forall i :: 0 <= i < |s| ==> s[i] == 0 || s[i] in procs
  }

  predicate AllDead(s: seq<Ptr>, procs: map<Ptr, Process>) {
    forall i :: 0 <= i < |s| ==> s[i] == 0 || IsDead(procs, s[i])
  }

  /** No process is in two slots of the lists. */
  predicate Lists(run: seq<Ptr>, reap: seq<Ptr>, taken: Ptr, idle: Ptr, procs: map<Ptr, Process>) {
    && |run| == MAX && |reap| == MAX && Distinct(run) && Distinct(reap) && Apart(run, reap)
    && (taken != 0 ==> taken !in run && taken !in reap && IsDead(procs, taken))
    && idle !in run && idle !in reap && AllIn(run, procs) && AllDead(reap, procs)
  }

  predicate Inv(s: State) {
    && Lists(s.run, s.reap, s.taken, s.idle, s.procs)
    && s.idle != 0 && s.idle in s.procs && !IsDead(s.procs, s.idle)
    && (s.current == 0 || s.current == s.idle || s.current in s.run)
    && (forall p :: p in s.procs && s.procs[p].state == Running ==> p == s.current)
    && 0 !in s.procs && Lives(s.procs, s.births, s.gone)
  }

  /** Each life is that of one process, or ended, and it ends once. */
  predicate Lives(procs: map<Ptr, Process>, births: nat, gone: seq<nat>) {
    && (forall p :: p in procs ==> procs[p].life < births && procs[p].life !in gone)
    && (forall p, q :: p in procs && q in procs && p != q ==> procs[p].life != procs[q].life)
    && (forall i :: 0 <= i < |gone| ==> gone[i] < births) && forall i, j :: 0 <= i < j < |gone| ==> gone[i] != gone[j]
  }

  lemma LivesFrame(procs: map<Ptr, Process>, procs': map<Ptr, Process>, births: nat, gone: seq<nat>)
    requires Lives(procs, births, gone) && procs'.Keys == procs.Keys
    requires forall p :: p in procs ==> procs'[p].life == procs[p].life
    ensures Lives(procs', births, gone)
  {
  }

  // ---- a scan keeps the lists ---------------------------------------------------------------------

  lemma MoveDead(run: seq<Ptr>, reap: seq<Ptr>, taken: Ptr, idle: Ptr, procs: map<Ptr, Process>, n: nat)
    requires Lists(run, reap, taken, idle, procs) && n < MAX && run[n] != 0
    requires IsDead(procs, run[n]) && FirstFree(reap) < |reap| && idle != 0
    ensures Lists(run[n := 0], Put(reap, run[n]), taken, idle, procs)
  {
    var run', reap', p := run[n := 0], Put(reap, run[n]), run[n];
    assert reap' == reap[FirstFree(reap) := p];
    assert forall x :: x != 0 && x in run' ==> x in run;
    assert forall x :: x in reap' ==> x in reap || x == p;
  }

  /** A scan removes no process that is not dead. */
  predicate KeepsLive(run: seq<Ptr>, run': seq<Ptr>, procs: map<Ptr, Process>) {
    forall x :: x in run && x != 0 && !IsDead(procs, x) ==> x in run'
  }

  lemma DropDead(run: seq<Ptr>, run': seq<Ptr>, procs: map<Ptr, Process>, n: nat)
    requires n < |run| && IsDead(procs, run[n]) && KeepsLive(run[n := 0], run', procs)
    ensures KeepsLive(run, run', procs)
  {
    forall x | x in run && x != 0 && !IsDead(procs, x) ensures x in run[n := 0] {
      var i :| 0 <= i < |run| && run[i] == x;
      assert run[n := 0][i] == x;
    }
  }

  lemma FoundHere(run: seq<Ptr>, reap: seq<Ptr>, taken: Ptr, idle: Ptr, procs: map<Ptr, Process>, n: nat)
    requires Lists(run, reap, taken, idle, procs) && n < MAX && run[n] != 0
    ensures run[n] in run && run[n] in procs
  {
  }

  lemma KeptAll(run: seq<Ptr>, procs: map<Ptr, Process>)
    ensures KeepsLive(run, run, procs)
  {
  }

  /** Who is in the lists after a scan, and who is found. */
  lemma {:induction false} ScanKeeps(run: seq<Ptr>, reap: seq<Ptr>, next: nat, procs: map<Ptr, Process>, loops: nat,
                                     taken: Ptr, idle: Ptr)
    requires Lists(run, reap, taken, idle, procs) && |run| == MAX && loops <= MAX && idle != 0
    ensures var r := ScanFrom(run, reap, next, procs, loops);
      && Lists(r.run, r.reap, taken, idle, procs) && KeepsLive(run, r.run, procs)
      && (r.found != 0 ==> r.found in r.run && r.found in procs && !IsDead(procs, r.found))
    decreases MAX - loops
  {
    hide Lists, KeepsLive, Put, IsDead, FirstFree;
    KeptAll(run, procs);
    if loops < MAX {
      var n := Wrap(next);
      var p := run[n];
      if p == 0 {
        ScanKeeps(run, reap, n + 1, procs, loops + 1, taken, idle);
      } else if !IsDead(procs, p) {
        FoundHere(run, reap, taken, idle, procs, n);
      } else if FirstFree(reap) < |reap| {
        MoveDead(run, reap, taken, idle, procs, n);
        ScanKeeps(run[n := 0], Put(reap, p), n + 1, procs, loops + 1, taken, idle);
        DropDead(run, ScanFrom(run, reap, next, procs, loops).run, procs, n);
      } else {
        ScanKeeps(run, reap, n + 1, procs, loops + 1, taken, idle);
      }
    }
  }

  // ---- every step keeps the invariant -------------------------------------------------------------

  /** The same processes exist, and those dead are dead. */
  ghost predicate DeadKept(procs: map<Ptr, Process>, procs': map<Ptr, Process>) {
    forall p :: (p in procs ==> p in procs') && (IsDead(procs, p) ==> IsDead(procs', p))
  }

  lemma ListsFrame(run: seq<Ptr>, reap: seq<Ptr>, taken: Ptr, idle: Ptr, procs: map<Ptr, Process>, procs': map<Ptr,
                   Process>)
    requires Lists(run, reap, taken, idle, procs) && DeadKept(procs, procs')
    ensures Lists(run, reap, taken, idle, procs')
  {
  }

  /** After a tick the chosen process, and no other, is running. */
  lemma TickProcs(procs: map<Ptr, Process>, current: Ptr, frame: Context, chosen: Ptr)
    requires chosen in procs && !IsDead(procs, chosen) && 0 !in procs
    requires forall p :: p in procs && procs[p].state == Running ==> p == current
    ensures var procs' := SetState(SwitchOut(procs, current, frame), chosen, Running);
      && DeadKept(procs, procs') && procs'.Keys == procs.Keys
      && (forall p :: p in procs' ==> (procs'[p].state == Running <==> p == chosen))
      && (forall p :: p in procs' && procs'[p].state == Dead ==> procs[p].state == Dead)
      && forall p :: p in procs ==> procs'[p].life == procs[p].life
  {
  }

  lemma TickInv(s: State, frame: Context)
    requires Inv(s)
    ensures Inv(Ticked(s, frame))
    ensures var t := Ticked(s, frame);
      t.current in t.procs && forall p :: p in t.procs ==> (t.procs[p].state == Running <==> p == t.current)
  {
    hide ScanFrom, Lists, KeepsLive, SetState, SwitchOut, Lives;
    assert |s.run| == MAX by { Sizes(s); }
    ScanKeeps(s.run, s.reap, s.next, s.procs, 0, s.taken, s.idle);
    var scan := ScanFrom(s.run, s.reap, s.next, s.procs, 0);
    var chosen := if scan.found == 0 then s.idle else scan.found;
    TickProcs(s.procs, s.current, frame, chosen);
    ListsFrame(scan.run, scan.reap, s.taken, s.idle, s.procs,
        SetState(SwitchOut(s.procs, s.current, frame), chosen, Running));
    LivesFrame(s.procs, SetState(SwitchOut(s.procs, s.current, frame), chosen, Running), s.births, s.gone);
  }

  lemma Sizes(s: State)
    requires Inv(s)
    ensures |s.run| == MAX && |s.reap| == MAX
  {
  }

  lemma ExitInv(s: State)
    requires Inv(s) && Enabled(s, Exit)
    ensures Inv(Step(s, Exit))
  {
  }

  lemma AddInv(s: State, p: Ptr, context: Context)
    requires Inv(s) && Enabled(s, Add(p, context))
    ensures Inv(Step(s, Add(p, context)))
  {
    if FirstFree(s.run) < MAX {
      var s', i := Step(s, Add(p, context)), FirstFree(s.run);
      assert s'.run == s.run[i := p];
      ListsFrame(s.run, s.reap, s.taken, s.idle, s.procs, s'.procs);
      assert p !in s.run && p !in s.reap && p != s.taken && p != s.idle;
      assert forall x :: x in s'.run ==> x in s.run || x == p;
      assert s.current in s.run && s.current != 0 ==> s.current in s'.run by {
        if s.current in s.run && s.current != 0 { var j :| 0 <= j < MAX && s.run[j] == s.current;
            assert s'.run[j] == s.current; }
      }
    }
  }

  lemma TakeInv(s: State)
    requires Inv(s) && Enabled(s, Take)
    ensures Inv(Step(s, Take))
  {
    var s', c := Step(s, Take), if s.cursor >= MAX then 0 else s.cursor;
    assert s'.reap == s.reap[c := 0];
    assert forall x :: x != 0 && x in s'.reap ==> x in s.reap;
  }

  lemma DestroyInv(s: State)
    requires Inv(s) && Enabled(s, Destroy)
    ensures Inv(Step(s, Destroy))
  {
    assert s.taken != s.idle && s.taken != s.current;
  }

  lemma StepInv(s: State, op: Op)
    requires Inv(s) && Enabled(s, op)
    ensures |s.run| == MAX && |s.reap| == MAX && Inv(Step(s, op))
  {
    hide Inv, Ticked;
    Sizes(s);
    match op
    case Tick(frame) => TickInv(s, frame);
    case Exit => ExitInv(s);
    case Add(p, context) => AddInv(s, p, context);
    case Take => TakeInv(s);
    case Destroy => DestroyInv(s);
  }

  // ---- no process is lost -------------------------------------------------------------------------

  /** Every process but the idle one is in a list or in the reaper's hands. */
  predicate Tracked(s: State) {
    forall p :: p in s.procs ==> p == s.idle || p in s.run || p in s.reap || p == s.taken
  }

  ghost predicate Listed(run: seq<Ptr>, reap: seq<Ptr>, run': seq<Ptr>, reap': seq<Ptr>) {
    forall x :: x != 0 ==> (x in run || x in reap) == (x in run' || x in reap')
  }

  lemma MoveListed(run: seq<Ptr>, reap: seq<Ptr>, n: nat)
    requires n < |run| && run[n] != 0 && FirstFree(reap) < |reap|
    ensures Listed(run, reap, run[n := 0], Put(reap, run[n]))
  {
    var i := FirstFree(reap);
    var run', reap' := run[n := 0], reap[i := run[n]];
    assert reap'[i] == run[n];
    forall x | x != 0 ensures (x in run || x in reap) == (x in run' || x in reap') {
      if x in run && x != run[n] { var j :| 0 <= j < |run| && run[j] == x; assert run'[j] == x; }
      if x in reap { var j :| 0 <= j < |reap| && reap[j] == x; assert reap'[j] == x; }
    }
  }

  lemma {:induction false} ScanListed(run: seq<Ptr>, reap: seq<Ptr>, next: nat, procs: map<Ptr, Process>, loops: nat)
    requires |run| == MAX && loops <= MAX
    ensures var r := ScanFrom(run, reap, next, procs, loops); Listed(run, reap, r.run, r.reap)
    decreases MAX - loops
  {
    hide Put, IsDead, FirstFree;
    if loops < MAX {
      var n := Wrap(next);
      if run[n] != 0 && IsDead(procs, run[n]) && FirstFree(reap) < |reap| {
        MoveListed(run, reap, n);
        ScanListed(run[n := 0], Put(reap, run[n]), n + 1, procs, loops + 1);
      } else if run[n] == 0 || IsDead(procs, run[n]) {
        ScanListed(run, reap, n + 1, procs, loops + 1);
      }
    }
  }

  lemma PutKeeps(s: seq<Ptr>, p: Ptr)
    requires FirstFree(s) < |s|
    ensures p in Put(s, p) && forall x :: x in s && x != 0 ==> x in Put(s, p)
  {
    var i := FirstFree(s);
    assert Put(s, p)[i] == p;
    forall x | x in s && x != 0 ensures x in Put(s, p) {
      var j :| 0 <= j < |s| && s[j] == x;
      assert Put(s, p)[j] == x;
    }
  }

  lemma StepTracked(s: State, op: Op)
    requires Inv(s) && Tracked(s) && Enabled(s, op)
    ensures |s.run| == MAX && |s.reap| == MAX && Tracked(Step(s, op))
  {
    match op
    case Tick(frame) =>
      hide ScanFrom;
      ScanListed(s.run, s.reap, s.next, s.procs, 0);
    case Exit =>
    case Add(p, context) => if FirstFree(s.run) < MAX { PutKeeps(s.run, p); }
    case Take =>
      var s', c := Step(s, Take), if s.cursor >= MAX then 0 else s.cursor;
      forall x | x in s.reap && x != 0 && x != s'.taken ensures x in s'.reap {
        var j :| 0 <= j < MAX && s.reap[j] == x;
        assert s'.reap[j] == x;
      }
    case Destroy =>
  }

  // ---- the process chosen -------------------------------------------------------------------------

  predicate Live(run: seq<Ptr>, procs: map<Ptr, Process>, k: nat) {
    k < |run| && run[k] != 0 && !IsDead(procs, run[k])
  }

  /** How many slots the cursor is before slot `k`. */
  function Dist(next: nat, k: nat): (d: int)
    requires k < MAX
    ensures 0 <= d < MAX
  {
    if k >= Wrap(next) then k - Wrap(next) else k + MAX - Wrap(next)
  }

  /** A live process is passed over only for one the cursor meets earlier, and the cursor then comes closer to it. */
  predicate Reached(run: seq<Ptr>, next: nat, k: nat, r: Scan)
    requires |run| == MAX && |r.run| == MAX && k < MAX
  {
    && r.run[k] == run[k] && r.found != 0 && r.next < MAX && Dist(next, r.next) <= Dist(next, k)
    && (if r.next == k then r.found == run[k] else Dist(r.next + 1, k) < Dist(next, k))
  }

  lemma ReachedLater(run: seq<Ptr>, run': seq<Ptr>, next: nat, k: nat, r: Scan)
    requires |run| == MAX && |run'| == MAX && |r.run| == MAX
    requires k < MAX && run'[k] == run[k] && Wrap(next) != k
    requires Reached(run', Wrap(next) + 1, k, r)
    ensures Reached(run, next, k, r)
  {
  }

  lemma ReachedNow(run: seq<Ptr>, next: nat, k: nat, r: Scan)
    requires |run| == MAX && k < MAX && r.run == run
    requires r.next == Wrap(next) && r.found == run[r.next] != 0
    ensures Reached(run, next, k, r)
  {
  }

  lemma {:induction false} ScanReaches(run: seq<Ptr>, reap: seq<Ptr>, next: nat, procs: map<Ptr, Process>, loops: nat,
                                       k: nat)
    requires |run| == MAX && Live(run, procs, k) && loops + Dist(next, k) < MAX
    ensures Reached(run, next, k, ScanFrom(run, reap, next, procs, loops))
    decreases MAX - loops
  {
    hide Put, IsDead, FirstFree, Reached;
    var n, r := Wrap(next), ScanFrom(run, reap, next, procs, loops);
    if n != k && run[n] != 0 && IsDead(procs, run[n]) && FirstFree(reap) < |reap| {
      ScanReaches(run[n := 0], Put(reap, run[n]), n + 1, procs, loops + 1, k);
      ReachedLater(run, run[n := 0], next, k, r);
    } else if n != k && (run[n] == 0 || IsDead(procs, run[n])) {
      ScanReaches(run, reap, n + 1, procs, loops + 1, k);
      ReachedLater(run, run, next, k, r);
    } else {
      ReachedNow(run, next, k, r);
    }
  }

  lemma {:induction false} ScanFound(run: seq<Ptr>, reap: seq<Ptr>, next: nat, procs: map<Ptr, Process>, loops: nat)
    requires |run| == MAX && loops <= MAX
    ensures var r := ScanFrom(run, reap, next, procs, loops);
      r.found != 0 ==> Live(run, procs, r.next) && r.found == run[r.next]
    decreases MAX - loops
  {
    hide Put, IsDead, FirstFree;
    if loops < MAX {
      var n := Wrap(next);
      if run[n] != 0 && IsDead(procs, run[n]) && FirstFree(reap) < |reap| {
        ScanFound(run[n := 0], Put(reap, run[n]), n + 1, procs, loops + 1);
      } else if run[n] == 0 || IsDead(procs, run[n]) {
        ScanFound(run, reap, n + 1, procs, loops + 1);
      }
    }
  }

  /** The tick chooses the live process nearest after the cursor, and the idle process only when none is live. */
  lemma NearestChosen(s: State, frame: Context)
    requires Inv(s)
    ensures var t := Ticked(s, frame);
      || ((forall k :: 0 <= k < MAX ==> !Live(s.run, s.procs, k)) && t.current == s.idle)
      || exists m: nat ::
           m < MAX && Live(s.run, s.procs, m) && t.current == s.run[m] && t.next == m + 1 &&
           forall k: nat :: k < MAX && Live(s.run, s.procs, k) ==> Dist(s.next, m) <= Dist(s.next, k)
  {
    hide ScanFrom, Dist;
    var r := ScanFrom(s.run, s.reap, s.next, s.procs, 0);
    ScanFound(s.run, s.reap, s.next, s.procs, 0);
    forall k: nat | k < MAX && Live(s.run, s.procs, k) ensures r.found != 0 && r.next < MAX &&
        Dist(s.next, r.next) <= Dist(s.next, k) {
      ScanReaches(s.run, s.reap, s.next, s.procs, 0, k);
    }
  }

  // ---- runs ---------------------------------------------------------------------------------------

  /** Before the first tick: empty lists and the idle process. */
  predicate Initial(s: State) {
    && |s.run| == MAX && |s.reap| == MAX && (forall i :: 0 <= i < MAX ==> s.run[i] == 0)
    && (forall i :: 0 <= i < MAX ==> s.reap[i] == 0)
    && s.next == 0 && s.cursor == 0 && s.current == 0 && s.taken == 0 && s.gone == []
    && s.idle != 0 && s.procs.Keys == {s.idle} && s.procs[s.idle].state == Ready && s.procs[s.idle].life < s.births
  }

  predicate Next(s: State, op: Op, s': State) {
    |s.run| == MAX && |s.reap| == MAX && Enabled(s, op) && s' == Step(s, op)
  }

  predicate IsRun(states: seq<State>, ops: seq<Op>) {
    |states| == |ops| + 1 && Initial(states[0]) && forall i :: 0 <= i < |ops| ==> Next(states[i], ops[i], states[i + 1])
  }

  lemma {:induction false} Reachable(states: seq<State>, ops: seq<Op>, i: nat)
    requires IsRun(states, ops) && i <= |ops|
    ensures Inv(states[i]) && Tracked(states[i])
  {
    hide Inv, Tracked, Enabled, Step;
    if i == 0 {
      InitialInv(states[0]);
    } else {
      Reachable(states, ops, i - 1);
      assert Next(states[i - 1], ops[i - 1], states[i]);
      StepInv(states[i - 1], ops[i - 1]);
      StepTracked(states[i - 1], ops[i - 1]);
    }
  }

  lemma InitialInv(s: State)
    requires Initial(s)
    ensures Inv(s) && Tracked(s)
  {
  }

  /** The slots a process is in. */
  function Slots(s: State, p: Ptr): set<int> {
    (set i | 0 <= i < |s.run| && s.run[i] == p) + (set i | 0 <= i < |s.reap| &&
        s.reap[i] == p :: MAX + i) + (if s.taken == p then {2 * MAX} else {})
  }

  /** In every reachable state each process is in one slot at most, what is being reaped is dead, no life is ended
      twice, and the current process exists. */
  lemma Safety(states: seq<State>, ops: seq<Op>, i: nat, p: Ptr)
    requires IsRun(states, ops) && i <= |ops| && p != 0
    ensures var s := states[i];
      && |Slots(s, p)| <= 1 && (p in s.reap || p == s.taken ==> IsDead(s.procs, p))
      && (forall a, b :: 0 <= a < b < |s.gone| ==> s.gone[a] != s.gone[b])
      && (s.current != 0 ==>
           s.current in s.procs && s.procs[s.current].life !in s.gone && s.current !in s.reap && s.current != s.taken)
  {
    Reachable(states, ops, i);
    var s := states[i];
    var all := Slots(s, p);
    assert forall a, b :: a in all && b in all ==> a == b;
    if all != {} {
      var a :| a in all;
      assert all == {a};
    }
  }

  /** After every tick exactly the current process is running, and it is not dead. */
  lemma OneRunning(states: seq<State>, ops: seq<Op>, i: nat)
    requires IsRun(states, ops) && i < |ops| && ops[i].Tick?
    ensures var t := states[i + 1];
      t.current in t.procs && forall p :: p in t.procs ==> (t.procs[p].state == Running <==> p == t.current)
  {
    hide Inv, Ticked;
    Reachable(states, ops, i);
    assert Next(states[i], ops[i], states[i + 1]);
    TickInv(states[i], ops[i].frame);
  }

  /** Life `l` is that of the process at `p`. */
  predicate LifeAt(s: State, p: Ptr, l: nat) {
    p in s.procs && s.procs[p].life == l
  }

  lemma LifeStep(s: State, op: Op, p: Ptr, l: nat)
    requires Inv(s) && Enabled(s, op) && LifeAt(s, p, l)
    ensures |s.run| == MAX && |s.reap| == MAX && (LifeAt(Step(s, op), p, l) || l in Step(s, op).gone)
    ensures Step(s, op).idle == s.idle
  {
    hide ScanFrom, Put, Lists;
    Sizes(s);
  }

  /** A process that exists is in a list until its life is ended; once ended it stays so, whoever has its address
      then. */
  lemma {:induction false} NoneLost(states: seq<State>, ops: seq<Op>, i: nat, j: nat, p: Ptr, l: nat)
    requires IsRun(states, ops) && i <= j <= |ops| && LifeAt(states[i], p, l) && p != states[i].idle
    ensures var s := states[j]; if LifeAt(s, p, l) then |Slots(s, p)| == 1 else l in s.gone
    decreases j - i
  {
    hide Inv, Enabled, Step, Slots;
    Reachable(states, ops, i);
    if i == j {
      InSlot(states, ops, i, p);
    } else {
      assert Next(states[i], ops[i], states[i + 1]);
      LifeStep(states[i], ops[i], p, l);
      if LifeAt(states[i + 1], p, l) {
        NoneLost(states, ops, i + 1, j, p, l);
      } else {
        GoneStays(states, ops, i + 1, j, l);
        LifeOver(states, ops, j, p, l);
      }
    }
  }

  lemma LifeOver(states: seq<State>, ops: seq<Op>, j: nat, p: Ptr, l: nat)
    requires IsRun(states, ops) && j <= |ops| && l in states[j].gone
    ensures !LifeAt(states[j], p, l)
  {
    Reachable(states, ops, j);
  }

  lemma InSlot(states: seq<State>, ops: seq<Op>, i: nat, p: Ptr)
    requires IsRun(states, ops) && i <= |ops| && p in states[i].procs && p != states[i].idle
    ensures |Slots(states[i], p)| == 1
  {
    Reachable(states, ops, i);
    var s := states[i];
    Safety(states, ops, i, p);
    if p in s.run {
      var k :| 0 <= k < |s.run| && s.run[k] == p;
      assert k in Slots(s, p);
    } else if p in s.reap {
      var k :| 0 <= k < |s.reap| && s.reap[k] == p;
      assert MAX + k in Slots(s, p);
    } else {
      assert 2 * MAX in Slots(s, p);
    }
  }

  lemma {:induction false} GoneStays(states: seq<State>, ops: seq<Op>, i: nat, j: nat, l: nat)
    requires IsRun(states, ops) && i <= j <= |ops| && l in states[i].gone
    ensures l in states[j].gone
    decreases j - i
  {
    hide ScanFrom;
    if i < j {
      assert Next(states[i], ops[i], states[i + 1]);
      GoneStays(states, ops, i + 1, j, l);
    }
  }

  // ---- bounded waiting ----------------------------------------------------------------------------

  function Ticks(ops: seq<Op>): nat {
    if ops == [] then 0 else (if ops[0].Tick? then 1 else 0) + Ticks(ops[1..])
  }

  /** Process `p` waits in slot `k`. */
  predicate Waits(s: State, k: nat, p: Ptr) {
    k < |s.run| && s.run[k] == p && p != 0 && !IsDead(s.procs, p) && s.current != p
  }

  lemma TickCloser(s: State, frame: Context, k: nat, p: Ptr)
    requires Inv(s) && Waits(s, k, p)
    ensures var t := Ticked(s, frame); t.current == p || (Waits(t, k, p) && Dist(t.next, k) < Dist(s.next, k))
  {
    var r := ScanFrom(s.run, s.reap, s.next, s.procs, 0);
    ScanReaches(s.run, s.reap, s.next, s.procs, 0, k);
    ScanKeeps(s.run, s.reap, s.next, s.procs, 0, s.taken, s.idle);
    hide ScanFrom, Dist, Lists, KeepsLive;
  }

  lemma OtherKeeps(s: State, op: Op, k: nat, p: Ptr)
    requires Inv(s) && Waits(s, k, p) && Enabled(s, op) && !op.Tick?
    ensures |s.run| == MAX && |s.reap| == MAX && Waits(Step(s, op), k, p) && Step(s, op).next == s.next
  {
  }

  /** A waiting process is dispatched within as many ticks as the cursor is slots before it, and one more; so within 32,
      whatever the others do. */
  lemma {:induction false} BoundedWaiting(states: seq<State>, ops: seq<Op>, i: nat, k: nat, p: Ptr)
    requires IsRun(states, ops) && i <= |ops| && k < MAX
    requires Waits(states[i], k, p) && Ticks(ops[i..]) > Dist(states[i].next, k)
    ensures exists j ::
      i < j <= |ops| && states[j].current == p && ops[j - 1].Tick? && Ticks(ops[i..j]) <= Dist(states[i].next, k) + 1
    decreases |ops| - i
  {
    hide Inv, Dist, Ticked, Waits, Enabled, Step;
    Reachable(states, ops, i);
    assert Next(states[i], ops[i], states[i + 1]);
    assert ops[i..][1..] == ops[i + 1..];
    if ops[i].Tick? {
      assert states[i + 1] == Ticked(states[i], ops[i].frame) by { TickIs(states[i], ops[i]); }
      TickCloser(states[i], ops[i].frame, k, p);
      if states[i + 1].current == p {
        OneTick(ops, i);
      } else {
        BoundedWaiting(states, ops, i + 1, k, p);
        ShiftTicks(states, ops, i, k, p, Dist(states[i + 1].next, k));
      }
    } else {
      OtherKeeps(states[i], ops[i], k, p);
      BoundedWaiting(states, ops, i + 1, k, p);
      ShiftTicks(states, ops, i, k, p, Dist(states[i + 1].next, k));
    }
  }

  lemma TickIs(s: State, op: Op)
    requires op.Tick? && |s.run| == MAX && |s.reap| == MAX
    ensures Step(s, op) == Ticked(s, op.frame)
  {
  }

  lemma OneTick(ops: seq<Op>, i: nat)
    requires i < |ops| && ops[i].Tick?
    ensures Ticks(ops[i..i + 1]) == 1
  {
    assert ops[i..i + 1] == [ops[i]] && [ops[i]][1..] == [];
    assert Ticks([ops[i]][1..]) == 0;
  }

  lemma ShiftTicks(states: seq<State>, ops: seq<Op>, i: nat, k: nat, p: Ptr, d: int)
    requires |states| == |ops| + 1 && i < |ops|
    requires exists j ::
      i + 1 < j <= |ops| && states[j].current == p && ops[j - 1].Tick? && Ticks(ops[i + 1..j]) <= d + 1
    ensures exists j ::
      i < j <= |ops| && states[j].current == p && ops[j - 1].Tick? &&
      Ticks(ops[i..j]) <= d + 1 + (if ops[i].Tick? then 1 else 0)
  {
    var j :| i + 1 < j <= |ops| && states[j].current == p && ops[j - 1].Tick? && Ticks(ops[i + 1..j]) <= d + 1;
    assert ops[i..j][1..] == ops[i + 1..j];
  }

  // ---- saved contexts -----------------------------------------------------------------------------

  /** Process `p` is alive and its saved context is `frame`. */
  predicate Parked(s: State, p: Ptr, frame: Context) {
    p in s.procs && s.procs[p].state != Dead && s.procs[p].context == frame
  }

  lemma ParkedStep(s: State, op: Op, p: Ptr, frame: Context)
    requires Inv(s) && Enabled(s, op) && Parked(s, p, frame) && s.current != p
    ensures |s.run| == MAX && |s.reap| == MAX && Parked(Step(s, op), p, frame)
  {
    hide ScanFrom;
  }

  lemma ParkedNow(s: State, frame: Context)
    requires Inv(s) && s.current in s.procs && s.procs[s.current].state != Dead
    ensures Parked(Ticked(s, frame), s.current, frame)
  {
    hide ScanFrom;
  }

  /** A process switched out at step `i` has, when it is next dispatched, the context saved then. */
  lemma {:induction false} Resumes(states: seq<State>, ops: seq<Op>, i: nat, j: nat, p: Ptr)
    requires IsRun(states, ops) && i < j <= |ops| && ops[i].Tick?
    requires states[i].current == p && p in states[i].procs && states[i].procs[p].state != Dead
    requires forall m :: i < m < j ==> states[m].current != p
    ensures Parked(states[j], p, ops[i].frame)
    decreases j
  {
    hide Inv, Parked, Ticked, Enabled;
    Reachable(states, ops, j - 1);
    assert Next(states[j - 1], ops[j - 1], states[j]);
    if i == j - 1 {
      ParkedNow(states[i], ops[i].frame);
    } else {
      Resumes(states, ops, i, j - 1, p);
      ParkedStep(states[j - 1], ops[j - 1], p, ops[i].frame);
    }
  }

  lemma AddedNow(s: State, p: Ptr, context: Context)
    requires Inv(s) && Enabled(s, Add(p, context))
    ensures |s.run| == MAX && |s.reap| == MAX
    ensures var t := Step(s, Add(p, context));
      if 0 in s.run then Parked(t, p, context) && t.current != p && exists k: nat :: k < MAX && Waits(t, k, p)
      else t == s
  {
    var k := FirstFree(s.run);
    if 0 in s.run {
      assert Waits(Step(s, Add(p, context)), k, p);
    }
  }

  /** A process added to a list with room keeps the context it came with until it is first dispatched. */
  lemma {:induction false} Starts(states: seq<State>, ops: seq<Op>, i: nat, j: nat, p: Ptr, context: Context)
    requires IsRun(states, ops) && i < j <= |ops| && ops[i] == Add(p, context) && 0 in states[i].run
    requires forall m :: i < m < j ==> states[m].current != p
    ensures Parked(states[j], p, context)
    decreases j
  {
    hide Inv, Parked, Enabled, Step;
    Reachable(states, ops, j - 1);
    assert Next(states[j - 1], ops[j - 1], states[j]);
    if i == j - 1 {
      AddedNow(states[i], p, context);
    } else {
      Starts(states, ops, i, j - 1, p, context);
      ParkedStep(states[j - 1], ops[j - 1], p, context);
    }
  }

  /** It is dispatched with that context within 32 ticks. */
  lemma FirstDispatch(states: seq<State>, ops: seq<Op>, i: nat, p: Ptr, context: Context) returns (j: nat)
    requires IsRun(states, ops) && i < |ops| && ops[i] == Add(p, context) && 0 in states[i].run
    requires Ticks(ops[i + 1..]) >= MAX
    ensures i < j <= |ops| && states[j].current == p && Parked(states[j], p, context) && Ticks(ops[i + 1..j]) <= MAX
  {
    hide Inv, Enabled, Step, Waits, Dist;
    Reachable(states, ops, i);
    assert Next(states[i], ops[i], states[i + 1]);
    AddedNow(states[i], p, context);
    var k: nat :| k < MAX && Waits(states[i + 1], k, p);
    BoundedWaiting(states, ops, i + 1, k, p);
    var e :| i + 1 < e <= |ops| && states[e].current == p && ops[e - 1].Tick? &&
      Ticks(ops[i + 1..e]) <= Dist(states[i + 1].next, k) + 1;
    j := i + 1;
    while states[j].current != p
      invariant i < j <= e && forall m :: i < m < j ==> states[m].current != p
      decreases e - j
    {
      j := j + 1;
    }
    Starts(states, ops, i, j, p, context);
    FewerTicks(ops, i + 1, j, e);
  }

  lemma {:induction false} FewerTicks(ops: seq<Op>, i: nat, j: nat, e: nat)
    requires i <= j <= e <= |ops|
    ensures Ticks(ops[i..j]) <= Ticks(ops[i..e])
    decreases e - i
  {
    if i < j {
      assert ops[i..j][1..] == ops[i + 1..j] && ops[i..e][1..] == ops[i + 1..e];
      FewerTicks(ops, i + 1, j, e);
    }
  }

  // ---- the code -----------------------------------------------------------------------------------

  class Kernel {
    const processList: array<Ptr>
    const reapList: array<Ptr>
    const idle: Ptr
    var next: nat       // scheduler_next
    var cursor: nat     // reaper_cursor
    var current: Ptr
    var taken: Ptr
    var procs: map<Ptr, Process>
    var births: nat     // names the lives of processes
    ghost var gone: seq<nat>

    ghost function Value(): State
      reads this, processList, reapList
    {
      State(processList[..], reapList[..], next, cursor, current, idle, taken, procs, births, gone)
    }

    ghost predicate Valid()
      reads this, processList, reapList
    {
      processList != reapList && Inv(Value())
    }

    constructor (idle: Ptr, context: Context)
      requires idle != 0
      ensures Valid() && Initial(Value()) && fresh(processList) && fresh(reapList)
    {
      processList, reapList := new Ptr[MAX](_ => 0), new Ptr[MAX](_ => 0);
      this.idle := idle;
      next, cursor, current, taken, gone := 0, 0, 0, 0, [];
      births := 1;
      procs := map[idle := Process(Ready, context, 0)];
      new;
      InitialInv(Value());
    }

    /** reaper_add_process and scheduler_add_process search a list alike. */
    static method FindFree(list: array<Ptr>) returns (i: nat)
      ensures i == FirstFree(list[..])
    {
      i := 0;
      while i < list.Length && list[i] != 0
        invariant i <= list.Length && forall j :: 0 <= j < i ==> list[j] != 0
      {
        i := i + 1;
      }
      FirstFreeIs(list[..], i);
    }

    /** scheduler_add_process, for a new process. */
    method AddProcess(p: Ptr, context: Context) returns (ok: bool)
      requires Valid() && Enabled(Value(), Add(p, context))
      modifies this, processList
      ensures Valid() && Next(old(Value()), Add(p, context), Value()) && ok == (FirstFree(old(processList[..])) < MAX)
    {
      ghost var s := Value();
      AddInv(s, p, context);
      var i := FindFree(processList);
      hide Inv;
      ok := i < MAX;
      if ok {
        processList[i] := p;
        procs := procs[p := Process(Ready, context, births)];
        births := births + 1;
      }
      assert Value() == Step(s, Add(p, context));
    }

    /** reaper_add_process. */
    method ReaperAddProcess(p: Ptr) returns (ok: bool)
      modifies reapList
      ensures ok == (FirstFree(old(reapList[..])) < reapList.Length) && reapList[..] == Put(old(reapList[..]), p)
    {
      var i := FindFree(reapList);
      ok := i < reapList.Length;
      if ok {
        reapList[i] := p;
      }
    }

    /** The scan loop of scheduler_loop. */
    method ScanList() returns (found: Ptr)
      requires processList.Length == MAX && processList != reapList
      modifies processList, reapList, `next
      ensures ScanFrom(old(processList[..]), old(reapList[..]), old(next), procs, 0) == Scan(processList[..],
        reapList[..], next, found)
    {
      hide Put, IsDead, FirstFree, ScanFrom;
      ghost var target := ScanFrom(processList[..], reapList[..], next, procs, 0);
      found := 0;
      var loops: nat := 0;
      while loops < MAX
        invariant loops <= MAX && found == 0 && ScanFrom(processList[..], reapList[..], next, procs, loops) == target
      {
        ScanSlot(processList[..], reapList[..], next, procs, loops);
        if next >= MAX {
          next := 0;
        }
        var p := processList[next];
        if p != 0 {
          if !Alive(p) {
            ghost var run, reap := processList[..], reapList[..];
            var ok := ReaperAddProcess(p);
            if ok {
              processList[next] := 0;
              assert processList[..] == run[next := 0];
            } else {
              PutFull(reap, p);
            }
          } else {
            found := p;
            break;
          }
        }
        loops, next := loops + 1, next + 1;
      }
      ScanDone(processList[..], reapList[..], next, procs);
    }

    predicate Alive(p: Ptr)
      reads this
    {
      !IsDead(procs, p)
    }

    /** scheduler_loop: choose, save the current process, run the chosen one. */
    method SchedulerLoop(frame: Context)
      requires Valid()
      modifies this, processList, reapList
      ensures Valid() && Next(old(Value()), Tick(frame), Value())
    {
      ghost var s := Value();
      Sizes(s);
      hide Inv, ScanFrom, IsDead, Put, FirstFree, Wrap;
      assert Inv(Ticked(s, frame)) by { TickInv(s, frame); }
      var chosen := ScanList();
      next := next + 1;
      if chosen == 0 {
        chosen := idle;
      }
      if current != 0 && current in procs && procs[current].state != Dead {
        procs := procs[current := procs[current].(state := Ready, context := frame)];
      }
      if chosen in procs {
        procs := procs[chosen := procs[chosen].(state := Running)];
      }
      current := chosen;
      assert Value() == Ticked(s, frame);
    }

    /** syscall_exit, before it yields. */
    method ExitCurrent()
      requires Valid() && Enabled(Value(), Exit)
      modifies this
      ensures Valid() && Next(old(Value()), Exit, Value())
    {
      ghost var s := Value();
      ExitInv(s);
      if current in procs {
        procs := procs[current := procs[current].(state := Dead)];
      }
      assert Value() == Step(s, Exit);
    }

    /** The part of reaper_run with interrupts disabled, and the step of the cursor. */
    method ReaperTake()
      requires Valid() && taken == 0
      modifies this, reapList
      ensures Valid() && Next(old(Value()), Take, Value())
    {
      ghost var s := Value();
      TakeInv(s);
      if cursor >= MAX {
        cursor := 0;
      }
      taken := reapList[cursor];
      reapList[cursor] := 0;
      cursor := cursor + 1;
      assert Value() == Step(s, Take);
    }

    /** process_destroy and kfree of the process taken. */
    method ReaperDestroy()
      requires Valid() && taken != 0
      modifies this
      ensures Valid() && Next(old(Value()), Destroy, Value())
    {
      ghost var s := Value();
      DestroyInv(s);
      gone := gone + if taken in procs then [procs[taken].life] else [];
      procs := procs - {taken};
      taken := 0;
      assert Value() == Step(s, Destroy);
    }
  }

  lemma FirstFreeIs(s: seq<Ptr>, i: nat)
    requires i <= |s| && (forall j :: 0 <= j < i ==> s[j] != 0) && (i < |s| ==> s[i] == 0)
    ensures FirstFree(s) == i
  {
  }

  lemma PutFull(s: seq<Ptr>, p: Ptr)
    requires FirstFree(s) >= |s|
    ensures Put(s, p) == s
  {
  }
}
