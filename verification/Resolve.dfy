/** Path resolution on a populated image (kernel/common/bsfs/bsfs.c:16-90). */
module Resolve {
  import opened Sequences
  import opened Division
  import opened Layout
  import opened DiskFormat
  import opened DiskTree
  import ImageBytes
  import opened Metadata
  import opened PopulateTree
  import opened Extract

  const SLASH: Byte := 47

  // ---- paths --------------------------------------------------------------------------------------

  /** Where the component at `i` ends. */
  function SegmentEnd(path: seq<Byte>, i: nat): (j: nat)
    requires i <= |path|
    ensures i <= j <= |path| && SLASH !in path[i..j] && (j < |path| ==> path[j] == SLASH)
    decreases |path| - i
  {
    if i == |path| || path[i] == SLASH then i
    else
      var j := SegmentEnd(path, i + 1);
      assert path[i..j] == [path[i]] + path[i + 1..j];
      j
  }

  /** The components from position `i` on; a slash at the very end adds none. */
  function Components(path: seq<Byte>, i: nat): seq<seq<Byte>>
    decreases |path| - i
  {
    if i >= |path| then [] else [path[i..SegmentEnd(path, i)]] + Components(path, SegmentEnd(path, i) + 1)
  }

  /** The path with the given components. */
  function Joined(names: seq<seq<Byte>>): seq<Byte> {
    if names == [] then [] else [SLASH] + names[0] + Joined(names[1..])
  }

  lemma EndIs(path: seq<Byte>, i: nat, j: nat)
    requires i <= j <= |path| && SLASH !in path[i..j] && (j < |path| ==> path[j] == SLASH)
    ensures SegmentEnd(path, i) == j
  {
    var e := SegmentEnd(path, i);
    assert forall k :: i <= k < j ==> path[k] == path[i..j][k - i];
    assert forall k :: i <= k < e ==> path[k] == path[i..e][k - i];
  }

  /** Splitting a path gives back the names it was joined from. */
  lemma {:induction false} SplitJoined(before: seq<Byte>, names: seq<seq<Byte>>)
    requires names != [] && (forall k :: 0 <= k < |names| ==> SLASH !in names[k]) && names[|names| - 1] != []
    ensures Components(before + Joined(names), |before| + 1) == names
    decreases |names|
  {
    hide Components, SegmentEnd;
    var next, rest := before + [SLASH] + names[0], Joined(names[1..]);
    SplitFirst(before, names[0], rest);
    assert before + Joined(names) == next + rest;
    if |names| == 1 {
      assert names == [names[0]];
      NoComponents(next + rest, |next| + 1);
    } else {
      SplitJoined(next, names[1..]);
    }
  }

  lemma NoComponents(path: seq<Byte>, i: nat)
    requires i >= |path|
    ensures Components(path, i) == []
  {
  }

  lemma SplitFirst(before: seq<Byte>, name: seq<Byte>, rest: seq<Byte>)
    requires SLASH !in name && (rest == [] || rest[0] == SLASH) && (rest == [] ==> name != [])
    ensures var path, end := before + [SLASH] + name + rest, |before + [SLASH] + name|;
      Components(path, |before| + 1) == [name] + Components(path, end + 1)
  {
    hide Components;
    var path, i, end := before + [SLASH] + name + rest, |before| + 1, |before + [SLASH] + name|;
    assert path[i..end] == name;
    EndIs(path, i, end);
    OneComponent(path, i);
  }

  lemma OneComponent(path: seq<Byte>, i: nat)
    requires i < |path|
    ensures Components(path, i) == [path[i..SegmentEnd(path, i)]] + Components(path, SegmentEnd(path, i) + 1)
  {
  }

  // ---- trees --------------------------------------------------------------------------------------

  function Up(pos: seq<nat>): (r: seq<nat>)
    ensures pos != [] ==> |r| < |pos|
  {
    if pos == [] then [] else pos[..|pos| - 1]
  }

  /** The position, a list of child numbers from the root, is one of the tree. */
  predicate Reaches(node: Node, pos: seq<nat>)
    decreases |pos|, 0
  {
    pos == [] || (Reaches(node, Up(pos)) && NodeAt(node, Up(pos)).Branch? &&
        pos[|pos| - 1] < |NodeAt(node, Up(pos)).entries|)
  }

  function NodeAt(node: Node, pos: seq<nat>): Node
    requires Reaches(node, pos)
    decreases |pos|, 1
  {
    if pos == [] then node else NodeAt(node, Up(pos)).entries[pos[|pos| - 1]].node
  }

  function PlacedAt(p: Placed, pos: seq<nat>): Placed
    decreases |pos|
  {
    if pos == [] then p
    else
      var up := PlacedAt(p, Up(pos));
      if pos[|pos| - 1] < |up.kids| then up.kids[pos[|pos| - 1]] else up
  }

  /** A subtree is on disk where its position says, and its parent is the node above it. */
  lemma {:induction false} RepAt(img: Image, per: nat, table: seq<Inode>, p: Placed, root: Node, own: set<nat>,
                                 inos: set<nat>, pos: seq<nat>)
    requires Rep(img, per, table, p, p.idx, root, own, inos) && Reaches(root, pos) && Fits(root, per)
    ensures Rep(img, per, table, PlacedAt(p, pos), PlacedAt(p, Up(pos)).idx, NodeAt(root, pos), own, inos)
    ensures Fits(NodeAt(root, pos), per)
    decreases |pos|
  {
    hide DirRep, FileRep;
    if pos != [] { RepAt(img, per, table, p, root, own, inos, Up(pos)); }
  }

  /** The first entry with the given name. */
  function FirstNamed(entries: seq<Entry>, name: seq<Byte>): (r: nat)
    ensures r <= |entries| && (forall j :: 0 <= j < r ==> entries[j].name != name)
    ensures (r < |entries| ==> entries[r].name == name)
  {
    if entries == [] || entries[0].name == name then 0 else 1 + FirstNamed(entries[1..], name)
  }

  /** Where a path has led: to a node, to the sentinel inode, to no entry, or into a file. */
  datatype Place = Found(pos: seq<nat>) | Sentinel | Missing | ThroughFile

  /** The last block of the directory has a slot no entry uses. */
  predicate Spare(entries: seq<Entry>, per: nat) {
    per > 0 && (|entries| + 2) % per != 0
  }

  function Step(root: Node, per: nat, at: Place, name: seq<Byte>): (r: Place)
    requires at.Found? ==> Reaches(root, at.pos)
    ensures r.Found? ==> Reaches(root, r.pos)
  {
    match at
    case ThroughFile => ThroughFile
    case Missing => Missing
    case Sentinel => Missing
    case Found(pos) =>
      var node := NodeAt(root, pos);
      if node.Leaf? then ThroughFile
      else if name == DOT then at
      else if name == DOTDOT then Found(Up(pos))
      else
        var j := FirstNamed(node.entries, name);
        if j < |node.entries| then assert Up(pos + [j]) == pos; Found(pos + [j])
        else if name == [] && Spare(node.entries, per) then Sentinel else Missing
  }

  /** Following the components one by one. */
  function Walk(root: Node, per: nat, at: Place, names: seq<seq<Byte>>): (r: Place)
    requires at.Found? ==> Reaches(root, at.pos)
    ensures r.Found? ==> Reaches(root, r.pos)
    decreases |names|
  {
    if names == [] then at else Walk(root, per, Step(root, per, at, names[0]), names[1..])
  }

  lemma {:induction false} Stuck(root: Node, per: nat, at: Place, names: seq<seq<Byte>>)
    requires at.Missing? || at.ThroughFile?
    ensures Walk(root, per, at, names) == at
    decreases |names|
  {
    if names != [] { Stuck(root, per, at, names[1..]); }
  }

  /** The inode a place stands for. */
  function InodeOf(p: Placed, at: Place): nat {
    match at
    case Found(pos) => PlacedAt(p, pos).idx
    case Sentinel => 0
    case _ => NOWHERE
  }

  /** Names as a host directory has them: distinct, not empty, without slashes. */
  predicate Proper(node: Node)
    decreases node
  {
    match node
    case Leaf(_) => true
    case Branch(entries) =>
      && (forall i, j :: 0 <= i < j < |entries| ==> entries[i].name != entries[j].name)
      && forall i ::
           0 <= i < |entries| ==>
           entries[i].name !in [DOT, DOTDOT, []] && SLASH !in entries[i].name && 0 !in entries[i].name &&
           Proper(entries[i].node)
  }

  /** The names from the root down to a position. */
  function PathTo(root: Node, pos: seq<nat>): (r: seq<seq<Byte>>)
    requires Reaches(root, pos)
    ensures |r| == |pos|
    decreases |pos|
  {
    if pos == [] then [] else PathTo(root, Up(pos)) + [NodeAt(root, Up(pos)).entries[pos[|pos| - 1]].name]
  }

  lemma {:induction false} WalkSnoc(root: Node, per: nat, at: Place, names: seq<seq<Byte>>, name: seq<Byte>)
    requires at.Found? ==> Reaches(root, at.pos)
    ensures Walk(root, per, at, names + [name]) == Step(root, per, Walk(root, per, at, names), name)
    decreases |names|
  {
    hide Step;
    if names == [] {
      assert Walk(root, per, Step(root, per, at, name), []) == Step(root, per, at, name);
    } else {
      assert (names + [name])[1..] == names[1..] + [name];
      WalkSnoc(root, per, Step(root, per, at, names[0]), names[1..], name);
    }
  }

  lemma {:induction false} ProperAt(root: Node, pos: seq<nat>)
    requires Reaches(root, pos) && Proper(root)
    ensures Proper(NodeAt(root, pos))
    decreases |pos|
  {
    if pos != [] { ProperAt(root, Up(pos)); }
  }

  /** The last step of a path. */
  lemma LastStep(root: Node, pos: seq<nat>)
    requires Reaches(root, pos) && pos != []
    ensures var up, last := Up(pos), pos[|pos| - 1];
      Reaches(root, up) && NodeAt(root, up).Branch? && last < |NodeAt(root, up).entries| && pos == up + [last]
  {
    hide NodeAt;
  }

  lemma LastName(root: Node, pos: seq<nat>)
    requires Reaches(root, pos) && pos != [] && Reaches(root, Up(pos)) && NodeAt(root, Up(pos)).Branch?
    requires pos[|pos| - 1] < |NodeAt(root, Up(pos)).entries|
    ensures PathTo(root, pos) == PathTo(root, Up(pos)) + [NodeAt(root, Up(pos)).entries[pos[|pos| - 1]].name]
  {
    hide NodeAt, Reaches;
  }

  lemma NoSteps(root: Node, per: nat)
    ensures Walk(root, per, Found([]), PathTo(root, [])) == Found([])
  {
  }

  /** Every node of the tree is where the path of its names leads. */
  lemma {:induction false} EveryNodeFound(root: Node, per: nat, pos: seq<nat>)
    requires Reaches(root, pos) && Proper(root)
    ensures Walk(root, per, Found([]), PathTo(root, pos)) == Found(pos)
    decreases |pos|
  {
    hide Proper, Step, Walk, Reaches, NodeAt, PathTo;
    if pos == [] {
      NoSteps(root, per);
    } else {
      LastStep(root, pos);
      var up, last := Up(pos), pos[|pos| - 1];
      LastName(root, pos);
      EveryNodeFound(root, per, up);
      RootReached(root);
      WalkSnoc(root, per, Found([]), PathTo(root, up), NodeAt(root, up).entries[last].name);
      StepDown(root, per, up, last);
    }
  }

  lemma RootReached(root: Node)
    ensures Reaches(root, [])
  {
  }

  /** Behind the path of a directory, `.` leads back to it and `..` to the one above it, the root being above itself;
      behind that of a file neither leads anywhere. */
  lemma DotsLead(root: Node, per: nat, pos: seq<nat>)
    requires Reaches(root, pos) && Proper(root)
    ensures var names, file := PathTo(root, pos), NodeAt(root, pos).Leaf?;
      && Walk(root, per, Found([]), names + [DOT]) == (if file then ThroughFile else Found(pos))
      && Walk(root, per, Found([]), names + [DOTDOT]) ==
           (if file then ThroughFile else if pos == [] then Found([]) else Found(pos[..|pos| - 1]))
  {
    hide Proper, Walk, Reaches, NodeAt, PathTo;
    RootReached(root);
    EveryNodeFound(root, per, pos);
    WalkSnoc(root, per, Found([]), PathTo(root, pos), DOT);
    WalkSnoc(root, per, Found([]), PathTo(root, pos), DOTDOT);
  }

  lemma StepDown(root: Node, per: nat, up: seq<nat>, last: nat)
    requires Reaches(root, up) && Proper(root) && NodeAt(root, up).Branch? && last < |NodeAt(root, up).entries|
    ensures Step(root, per, Found(up), NodeAt(root, up).entries[last].name) == Found(up + [last])
  {
    ProperAt(root, up);
    ProperEntry(NodeAt(root, up).entries, last);
    hide Proper, FirstNamed, NodeAt, Reaches;
  }

  lemma ProperEntry(entries: seq<Entry>, i: nat)
    requires Proper(Branch(entries)) && i < |entries|
    ensures FirstNamed(entries, entries[i].name) == i
    ensures var name := entries[i].name; name !in [DOT, DOTDOT, []] && SLASH !in name && 0 !in name
  {
  }

  /** The names on the path are neither empty nor contain a slash or a NUL. */
  lemma {:induction false} PlainNames(root: Node, pos: seq<nat>)
    requires Proper(root) && Reaches(root, pos)
    ensures forall i :: 0 <= i < |pos| ==> var name := PathTo(root, pos)[i]; name != [] && SLASH !in name && 0 !in name
    decreases |pos|
  {
    hide Proper;
    if pos != [] {
      var up, last := Up(pos), pos[|pos| - 1];
      PlainNames(root, up);
      ProperAt(root, up);
      ProperEntry(NodeAt(root, up).entries, last);
    }
  }

  // ---- looking up one name ------------------------------------------------------------------------

  function First(all: seq<Dirent>, name: seq<Byte>): (r: nat)
    ensures r <= |all| && NoneBefore(all, name, r) && (r < |all| ==> all[r].name == name)
  {
    if all == [] || all[0].name == name then 0 else 1 + First(all[1..], name)
  }

  predicate NoneBefore(all: seq<Dirent>, name: seq<Byte>, n: nat) {
    n <= |all| && forall s :: 0 <= s < n ==> all[s].name != name
  }

  lemma FirstIs(all: seq<Dirent>, name: seq<Byte>, r: nat)
    requires r <= |all| && NoneBefore(all, name, r) && (r < |all| ==> all[r].name == name)
    ensures First(all, name) == r
  {
  }

  /** What a name means in a directory. */
  lemma FirstSlot(p: Placed, parent: nat, entries: seq<Entry>, spare: nat, name: seq<Byte>)
    requires |p.kids| == |entries|
    requires forall j :: 0 <= j < |entries| ==> entries[j].name != DOT && entries[j].name != DOTDOT
    ensures var all, j := Slots(p, parent, entries) + Unused(spare), FirstNamed(entries, name);
      First(all, name) ==
        if name == DOT then 0 else if name == DOTDOT then 1 else if j < |entries| then j + 2
        else if name == [] then |entries| + 2 else |all|
  {
    var slots := Slots(p, parent, entries);
    var all, j := slots + Unused(spare), FirstNamed(entries, name);
    var r := if name == DOT then 0 else if name == DOTDOT then 1 else if j < |entries| then j + 2
        else if name == [] then |entries| + 2 else |all|;
    assert slots[0] == Dirent(p.idx, DOT) && slots[1] == Dirent(parent, DOTDOT);
    assert forall k :: 0 <= k < |entries| ==> slots[k + 2] == Dirent(p.kids[k].idx, entries[k].name);
    forall s | 0 <= s < r ensures all[s].name != name {
      if 2 <= s < |entries| + 2 { assert slots[(s - 2) + 2].name == entries[s - 2].name; }
    }
    FirstIs(all, name, r);
  }

  lemma SpareIff(n: nat, per: nat, ptrs: nat)
    requires per > 0 && Enough(n, per, ptrs)
    ensures n < Cap(per, ptrs) <==> n % per != 0
  {
    if n == Cap(per, ptrs) {
      DivUnique(n, per, ptrs, 0);
    } else {
      assert per * ptrs == per * (ptrs - 1) + per;
      DivUnique(n, per, ptrs - 1, n - per * (ptrs - 1));
    }
  }

  /** The non-zero pointers of an inode are `ptrs`. */
  ghost predicate Leads(direct: seq<nat>, ptrs: seq<nat>) {
    && |direct| == DIRECT && |ptrs| <= DIRECT
    && forall i :: 0 <= i < DIRECT ==> if i < |ptrs| then direct[i] == ptrs[i] && ptrs[i] != 0 else direct[i] == 0
  }

  ghost predicate Owned(ptrs: seq<nat>, own: set<nat>) {
    forall i :: 0 <= i < |ptrs| ==> ptrs[i] in own
  }

  lemma BlockSlots(img: Image, per: nat, ptrs: seq<nat>, i: nat, d: nat, all: seq<Dirent>)
    requires i < |ptrs| && d < per && all == ReadDir(img, per, ptrs)
    ensures Cap(per, i) + d < |all|
    ensures ReadBlock(DiskTree.At(img, ptrs[i], DIRENT_SIZE * per), per)[d] == all[Cap(per, i) + d]
  {
    hide ReadDir, ReadBlock, Cap;
    SlotInRun(img, per, ptrs, i, d);
  }

  lemma AllSeen(img: Image, per: nat, ptrs: seq<nat>)
    ensures |ReadDir(img, per, ptrs)| == Cap(per, |ptrs|) && Cap(per, 0) == 0
  {
  }

  datatype Hit = Hit(inode: nat) | NoEntry | ReadError

  /** The first entry with the given name in the blocks `direct` points to; pointers that are 0 are passed over. */
  function Search(img: Image, c: Context, direct: seq<nat>, name: seq<Byte>): (h: Hit)
    requires Geometry(c)
    decreases |direct|
  {
    if direct == [] then NoEntry
    else if direct[0] == 0 then Search(img, c, direct[1..], name)
    else
      var block := BlockAt(img, c, direct[0]);
      if block.DiskError? then ReadError
      else
        var all := EntriesIn(block.value, c);
        var i := First(all, name);
        if i < |all| then Hit(all[i].inode) else Search(img, c, direct[1..], name)
  }

  /** The entries of a block. */
  function EntriesIn(block: seq<Byte>, c: Context): (r: seq<Dirent>)
    requires Geometry(c) && |block| == c.header.blockSize
  {
    WholeEntries(c);
    ReadBlock(block, Per(c))
  }

  lemma WholeEntries(c: Context)
    requires Geometry(c)
    ensures c.header.blockSize == DIRENT_SIZE * (Per(c)) && Per(c) > 0
  {
    var k, u := c.header.blockSize / c.sector, c.sector / INODE_SIZE;
    assert c.sector == INODE_SIZE * u;
    assert c.header.blockSize == k * c.sector == INODE_SIZE * (k * u);
  }

  /** The search for one component: through the direct blocks, then through the entries of each. */
  method LookUp(img: Image, c: Context, ino: Inode, name: seq<Byte>) returns (h: Hit)
    requires Geometry(c) && |ino.direct| == DIRECT
    ensures h == Search(img, c, ino.direct, name)
  {
    hide BlockAt, EntriesIn, First, NoneBefore;
    for b := 0 to DIRECT
      invariant Search(img, c, ino.direct, name) == Search(img, c, ino.direct[b..], name)
    {
      assert ino.direct[b..][0] == ino.direct[b] && ino.direct[b..][1..] == ino.direct[b + 1..];
      if ino.direct[b] == 0 { continue; }
      var block := BlockAt(img, c, ino.direct[b]);
      if block.DiskError? {
        return ReadError;
      }
      var all := EntriesIn(block.value, c);
      NoneYet(all, name);
      for d := 0 to |all|
        invariant NoneBefore(all, name, d)
      {
        NextSlot(all, name, d);
        if all[d].name == name {
          return Hit(all[d].inode);
        }
      }
      NextSlot(all, name, |all|);
    }
    h := NoEntry;
  }

  lemma BlockEntries(img: Image, c: Context, b: nat)
    requires Sectored(img, c) && b < |img|
    ensures Geometry(c) && BlockAt(img, c, b).Got?
    ensures EntriesIn(BlockAt(img, c, b).value, c) == ReadBlock(DiskTree.At(img, b, DIRENT_SIZE * Per(c)), Per(c))
    ensures Per(c) > 0
  {
    hide BlockAt, ReadBlock;
    BlockAtExact(img, c, b);
    WholeEntries(c);
  }

  /** In a directory, the search finds the first entry of all its blocks. */
  lemma {:induction false} SearchBlocks(img: Image, c: Context, direct: seq<nat>, ptrs: seq<nat>, k: nat,
                                        name: seq<Byte>)
    requires Geometry(c) && Sectored(img, c) && Leads(direct, ptrs)
    requires (forall i :: 0 <= i < |ptrs| ==> ptrs[i] < |img|) && k <= DIRECT
    requires var per := Per(c); NoneBefore(ReadDir(img, per, ptrs), name, Cap(per, if k < |ptrs| then k else |ptrs|))
    ensures var all := ReadDir(img, Per(c), ptrs);
      Search(img, c, direct[k..], name) == if First(all, name) < |all| then Hit(all[First(all, name)].inode)
          else NoEntry
    decreases DIRECT - k
  {
    hide ReadDir, ReadBlock, Cap, First, NoneBefore, BlockAt, EntriesIn, Sectored, Geometry, Search, Per;
    var per := Per(c);
    var all := ReadDir(img, per, ptrs);
    AllSeen(img, per, ptrs);
    SearchStep(img, c, direct[k..], name);
    if k == DIRECT {
      NextSlot(all, name, |all|);
    } else {
      assert direct[k..][1..] == direct[k + 1..];
      if k < |ptrs| {
        SearchBlock(img, c, ptrs, k, name);
        if First(all, name) >= Cap(per, k + 1) {
          FromFirst(all, name, Cap(per, k + 1));
          SearchBlocks(img, c, direct, ptrs, k + 1, name);
        }
      } else {
        SearchBlocks(img, c, direct, ptrs, k + 1, name);
      }
    }
  }

  lemma SearchStep(img: Image, c: Context, direct: seq<nat>, name: seq<Byte>)
    requires Geometry(c)
    ensures direct == [] ==> Search(img, c, direct, name) == NoEntry
    ensures direct != [] && direct[0] == 0 ==> Search(img, c, direct, name) == Search(img, c, direct[1..], name)
    ensures direct != [] && direct[0] != 0 && BlockAt(img, c, direct[0]).Got? ==>
      var all := EntriesIn(BlockAt(img, c, direct[0]).value, c);
      Search(img, c, direct, name) == if First(all, name) < |all| then Hit(all[First(all, name)].inode)
          else Search(img, c, direct[1..], name)
  {
    hide BlockAt, EntriesIn, First;
  }

  lemma FromFirst(all: seq<Dirent>, name: seq<Byte>, n: nat)
    requires n <= First(all, name)
    ensures NoneBefore(all, name, n)
  {
  }

  /** The first match within block `k` of a directory is the first match of all, when no block before has one. */
  lemma SearchBlock(img: Image, c: Context, ptrs: seq<nat>, k: nat, name: seq<Byte>)
    requires Geometry(c) && Sectored(img, c) && k < |ptrs|
    requires ptrs[k] < |img| && NoneBefore(ReadDir(img, Per(c), ptrs), name, Cap(Per(c), k))
    ensures BlockAt(img, c, ptrs[k]).Got? && Cap(Per(c), k + 1) <= |ReadDir(img, Per(c), ptrs)|
    ensures var all, here := ReadDir(img, Per(c), ptrs), EntriesIn(BlockAt(img, c, ptrs[k]).value, c);
      if First(here, name) < |here| then First(all, name) < Cap(Per(c), k + 1) &&
          all[First(all, name)] == here[First(here, name)]
      else First(all, name) >= Cap(Per(c), k + 1)
  {
    hide ReadDir, ReadBlock, Cap, First, NoneBefore, BlockAt, EntriesIn, Sectored, Geometry, Per;
    var per := Per(c);
    var all := ReadDir(img, per, ptrs);
    BlockEntries(img, c, ptrs[k]);
    var here := ReadBlock(DiskTree.At(img, ptrs[k], DIRENT_SIZE * per), per);
    CapNext(per, k);
    BlockSlots(img, per, ptrs, k, per - 1, all);
    var start := Cap(per, k);
    forall d | 0 <= d < per ensures here[d] == all[start + d] { BlockSlots(img, per, ptrs, k, d, all); }
    FirstWithin(all, here, start, name);
  }

  lemma FirstWithin(all: seq<Dirent>, here: seq<Dirent>, start: nat, name: seq<Byte>)
    requires start + |here| <= |all| && NoneBefore(all, name, start)
    requires forall d :: 0 <= d < |here| ==> here[d] == all[start + d]
    ensures if First(here, name) < |here| then First(all, name) == start + First(here, name) &&
      all[First(all, name)] == here[First(here, name)]
            else First(all, name) >= start + |here|
  {
    hide First;
    var f := First(here, name);
    forall s | 0 <= s < start + f ensures all[s].name != name {
      if s >= start { assert here[s - start] == all[start + (s - start)]; }
    }
    if f < |here| { FirstIs(all, name, start + f); }
  }

  lemma NoneYet(all: seq<Dirent>, name: seq<Byte>)
    ensures NoneBefore(all, name, 0)
  {
  }

  lemma NextSlot(all: seq<Dirent>, name: seq<Byte>, n: nat)
    requires NoneBefore(all, name, n)
    ensures n == |all| || all[n].name == name ==> First(all, name) == n
    ensures n < |all| && all[n].name != name ==> NoneBefore(all, name, n + 1)
  {
    if n == |all| || all[n].name == name { FirstIs(all, name, n); }
  }

  // ---- the resolver -------------------------------------------------------------------------------

  /** The image holds `root` at `p`, and the sentinel inode is empty. */
  ghost predicate Stocked(img: Image, per: nat, table: seq<Inode>, p: Placed, root: Node, own: set<nat>,
                          inos: set<nat>) {
    && per > 0 && Rep(img, per, table, p, p.idx, root, own, inos) && Fits(root, per) && |table| > 0
    && table[0] == ZeroInode()
  }

  /** The first entry called `name` leads where the tree says. */
  ghost predicate Agrees(all: seq<Dirent>, name: seq<Byte>, p: Placed, root: Node, per: nat, at: Place) {
    && (at.Found? ==> Reaches(root, at.pos))
    && var next := Step(root, per, at, name);
       if First(all, name) < |all| then (next.Found? || next.Sentinel?) &&
           all[First(all, name)].inode == InodeOf(p, next) else next.Missing?
  }

  /** What the search for `name` meets at `at`. */
  ghost predicate Meets(img: Image, per: nat, table: seq<Inode>, p: Placed, root: Node, at: Place, name: seq<Byte>,
                        ptrs: seq<nat>) {
    && InodeOf(p, at) < |table| && Leads(table[InodeOf(p, at)].direct, ptrs)
    && Agrees(ReadDir(img, per, ptrs), name, p, root, per, at)
  }

  lemma AtSentinel(img: Image, per: nat, table: seq<Inode>, p: Placed, root: Node, name: seq<Byte>)
    requires |table| > 0 && table[0] == ZeroInode()
    ensures Meets(img, per, table, p, root, Sentinel, name, [])
  {
    assert ReadDir(img, per, []) == [];
  }

  lemma AtDirectory(img: Image, per: nat, table: seq<Inode>, p: Placed, root: Node, own: set<nat>, inos: set<nat>,
                    pos: seq<nat>, name: seq<Byte>)
    requires Stocked(img, per, table, p, root, own, inos) && Reaches(root, pos) && NodeAt(root, pos).Branch?
    ensures exists ptrs: seq<nat> :: Meets(img, per, table, p, root, Found(pos), name, ptrs) && Owned(ptrs, own)
  {
    var here, above, entries := PlacedAt(p, pos), PlacedAt(p, Up(pos)).idx, NodeAt(root, pos).entries;
    hide *;
    StockedFacts(img, per, table, p, root, own, inos);
    RepAt(img, per, table, p, root, own, inos, pos);
    DirFacts(img, per, table, here, above, entries, own, inos);
    var ptrs: seq<nat> :| DirBlocks(img, per, table[here.idx], Slots(here, above, entries), own, ptrs);
    DirLeads(img, per, table[here.idx], Slots(here, above, entries), own, ptrs);
    NamesOf(entries, per);
    DirMeans(img, per, table[here.idx], here, above, entries, own, ptrs, name);
    MeansAgrees(ReadDir(img, per, ptrs), name, p, root, per, pos, here, above, entries);
    assert Meets(img, per, table, p, root, Found(pos), name, ptrs) by { FoundInode(p, pos);
        assert Meets(img, per, table, p, root, Found(pos), name, ptrs); }
  }

  lemma FoundInode(p: Placed, pos: seq<nat>)
    ensures InodeOf(p, Found(pos)) == PlacedAt(p, pos).idx && InodeOf(p, Missing) == NOWHERE
  {
  }

  lemma StockedFacts(img: Image, per: nat, table: seq<Inode>, p: Placed, root: Node, own: set<nat>, inos: set<nat>)
    requires Stocked(img, per, table, p, root, own, inos)
    ensures per > 0 && Rep(img, per, table, p, p.idx, root, own, inos) && Fits(root, per)
    ensures |table| > 0 && table[0] == ZeroInode()
  {
  }

  lemma NamesOf(entries: seq<Entry>, per: nat)
    requires Fits(Branch(entries), per)
    ensures Plain(entries)
  {
  }

  predicate Plain(entries: seq<Entry>) {
    forall j :: 0 <= j < |entries| ==> Storable(entries[j].name) && entries[j].name != DOT && entries[j].name != DOTDOT
  }

  lemma DirLeads(img: Image, per: nat, ino: Inode, slots: seq<Dirent>, own: set<nat>, ptrs: seq<nat>)
    requires DirBlocks(img, per, ino, slots, own, ptrs)
    ensures Leads(ino.direct, ptrs) && Owned(ptrs, own)
  {
    hide ReadDir, Cap;
    forall i | 0 <= i < |ptrs| ensures ptrs[i] != 0 { assert ptrs[i] in ptrs; }
  }

  /** What the first entry called `name` of a directory is. */
  ghost predicate Means(all: seq<Dirent>, name: seq<Byte>, here: Placed, above: nat, entries: seq<Entry>, per: nat) {
    && |here.kids| == |entries|
    && var i, j := First(all, name), FirstNamed(entries, name);
       if name == DOT then i < |all| && all[i].inode == here.idx
       else if name == DOTDOT then i < |all| && all[i].inode == above
       else if j < |entries| then i < |all| && all[i].inode == here.kids[j].idx
       else if name == [] && Spare(entries, per) then i < |all| && all[i].inode == 0 else i == |all|
  }

  lemma DirMeans(img: Image, per: nat, ino: Inode, here: Placed, above: nat, entries: seq<Entry>, own: set<nat>,
                 ptrs: seq<nat>, name: seq<Byte>)
    requires |here.kids| == |entries| && DirBlocks(img, per, ino, Slots(here, above, entries), own, ptrs) && per > 0
    requires Plain(entries)
    ensures Means(ReadDir(img, per, ptrs), name, here, above, entries, per)
  {
    hide ReadDir, First, FirstNamed, Slots, Cap, NoneBefore, Inside, NoDup;
    var spare := Cap(per, |ptrs|) - (|entries| + 2);
    SpareIff(|entries| + 2, per, |ptrs|);
    FirstSlot(here, above, entries, spare, name);
    var j := FirstNamed(entries, name);
    SlotMeaning(here, above, entries, 0);
    SlotMeaning(here, above, entries, 1);
    if j < |entries| { SlotMeaning(here, above, entries, j + 2); }
  }

  lemma MeansAgrees(all: seq<Dirent>, name: seq<Byte>, p: Placed, root: Node, per: nat, pos: seq<nat>, here: Placed,
                    above: nat, entries: seq<Entry>)
    requires Means(all, name, here, above, entries, per) && Reaches(root, pos) && NodeAt(root, pos) == Branch(entries)
    requires here == PlacedAt(p, pos) && above == PlacedAt(p, Up(pos)).idx
    ensures Agrees(all, name, p, root, per, Found(pos))
  {
    hide First, FirstNamed, Spare, NodeAt, PlacedAt, Reaches, Up, NoneBefore;
    var j := FirstNamed(entries, name);
    if j < |entries| { ChildPlace(p, pos, j); }
  }

  lemma ChildPlace(p: Placed, pos: seq<nat>, j: nat)
    requires j < |PlacedAt(p, pos).kids|
    ensures PlacedAt(p, pos + [j]) == PlacedAt(p, pos).kids[j]
  {
    assert Up(pos + [j]) == pos;
  }

  /** A name too long for the format is in no directory. */
  lemma TooLong(img: Image, per: nat, table: seq<Inode>, p: Placed, root: Node, own: set<nat>, inos: set<nat>,
                at: Place, name: seq<Byte>)
    requires Stocked(img, per, table, p, root, own, inos) && |name| >= NAME_MAX
    requires (at.Found? ==> Reaches(root, at.pos)) && (at.Found? || at.Sentinel?)
    ensures Step(root, per, at, name).Missing? || Step(root, per, at, name).ThroughFile?
  {
    if at.Found? {
      hide Rep;
      RepAt(img, per, table, p, root, own, inos, at.pos);
      var node := NodeAt(root, at.pos);
      if node.Branch? { assert forall j :: 0 <= j < |node.entries| ==> Storable(node.entries[j].name); }
    }
  }

  /** One component, looked up at `at`. */
  lemma MeetsHere(img: Image, per: nat, table: seq<Inode>, p: Placed, root: Node, own: set<nat>, inos: set<nat>,
                  at: Place, name: seq<Byte>)
    requires Stocked(img, per, table, p, root, own, inos) && (at.Found? || at.Sentinel?)
    requires (at.Found? ==> Reaches(root, at.pos))
    requires !Step(root, per, at, name).ThroughFile?
    ensures exists ptrs: seq<nat> :: Meets(img, per, table, p, root, at, name, ptrs) && Owned(ptrs, own)
  {
    hide Meets, Stocked, Components;
    if at.Found? {
      AtDirectory(img, per, table, p, root, own, inos, at.pos, name);
    } else {
      StockedFacts(img, per, table, p, root, own, inos);
      AtSentinel(img, per, table, p, root, name);
      assert Owned([], own);
    }
  }

  /** The component the inner loop collects. */
  method Component(path: seq<Byte>, i: nat) returns (ok: bool, name: seq<Byte>, end: nat)
    requires i < |path|
    ensures ok ==> end == SegmentEnd(path, i) && name == path[i..end] && |name| < NAME_MAX
    ensures !ok ==> |path[i..SegmentEnd(path, i)]| >= NAME_MAX
  {
    hide Clear, SegmentEnd;
    ClearHere(path, i);
    end, name := i, [];
    while end < |path| && path[end] != SLASH
      invariant i <= end <= |path| && name == path[i..end] && Clear(path, i, end) && |name| < NAME_MAX
    {
      var ch := path[end];
      ClearStep(path, i, end);
      end := end + 1;
      if |name| >= NAME_MAX - 1 {
        Within(path, i, end);
        return false, name, end;
      }
      name := name + [ch];
    }
    ClearEnd(path, i, end);
    ok := true;
  }

  predicate Clear(path: seq<Byte>, i: nat, j: nat) {
    i <= j <= |path| && SLASH !in path[i..j]
  }

  lemma ClearHere(path: seq<Byte>, i: nat)
    requires i <= |path|
    ensures Clear(path, i, i) && path[i..i] == []
  {
  }

  lemma ClearStep(path: seq<Byte>, i: nat, j: nat)
    requires Clear(path, i, j) && j < |path| && path[j] != SLASH
    ensures Clear(path, i, j + 1) && path[i..j + 1] == path[i..j] + [path[j]]
  {
    assert path[i..j + 1] == path[i..j] + [path[j]];
  }

  lemma ClearEnd(path: seq<Byte>, i: nat, j: nat)
    requires Clear(path, i, j) && (j == |path| || path[j] == SLASH)
    ensures SegmentEnd(path, i) == j
  {
    EndIs(path, i, j);
  }

  lemma Within(path: seq<Byte>, i: nat, j: nat)
    requires Clear(path, i, j)
    ensures j <= SegmentEnd(path, i)
  {
    var e := SegmentEnd(path, i);
    assert forall k :: i <= k < j ==> path[k] == path[i..j][k - i];
  }

  /** Following the components by what the image holds. */
  function Follow(img: Image, c: Context, cur: nat, names: seq<seq<Byte>>): (r: nat)
    requires Geometry(c)
    decreases |names|
  {
    if names == [] then cur
    else if |names[0]| >= NAME_MAX then NOWHERE
    else
      var ino := ReadInode(img, c, cur);
      if ino.DiskError? then NOWHERE
      else
        var h := Search(img, c, ino.value.direct, names[0]);
        if h.Hit? then Follow(img, c, h.inode, names[1..]) else NOWHERE
  }

  function Resolved(img: Image, c: Context, path: seq<Byte>): (r: nat)
    requires Geometry(c)
  {
    if path != [] && path[0] == SLASH then Follow(img, c, c.root, Components(path, 1)) else NOWHERE
  }

  /** bsfs_resolve_path, on any image and for any path, which is a C string. */
  method ResolvePath(img: Image, c: Context, path: seq<Byte>) returns (r: nat)
    requires Geometry(c) && 0 !in path
    ensures r == Resolved(img, c, path)
  {
    hide Search, ReadInode, Components, Follow, SegmentEnd;
    if path == [] || path[0] != SLASH {
      return NOWHERE;
    }
    var cur := c.root;
    var i: nat := 1;
    while i < |path|
      invariant Follow(img, c, c.root, Components(path, 1)) == Follow(img, c, cur, Components(path, i))
    {
      var ok, name, end := Component(path, i);
      OneComponent(path, i);
      FollowStep(img, c, cur, path[i..SegmentEnd(path, i)], Components(path, SegmentEnd(path, i) + 1));
      if !ok {
        return NOWHERE;
      }
      var ino := ReadInode(img, c, cur);
      if ino.DiskError? {
        return NOWHERE;
      }
      ReadPointers(img, c, cur);
      var h := LookUp(img, c, ino.value, name);
      if !h.Hit? {
        return NOWHERE;
      }
      cur := h.inode;
      i := end + 1;
    }
    NoComponents(path, i);
    FollowNone(img, c, cur);
    r := cur;
  }

  lemma FollowNone(img: Image, c: Context, cur: nat)
    requires Geometry(c)
    ensures Follow(img, c, cur, []) == cur
  {
  }

  lemma FollowStep(img: Image, c: Context, cur: nat, name: seq<Byte>, rest: seq<seq<Byte>>)
    requires Geometry(c)
    ensures Follow(img, c, cur, [name] + rest) ==
      if |name| >= NAME_MAX || ReadInode(img, c, cur).DiskError? then NOWHERE
      else var h := Search(img, c, ReadInode(img, c, cur).value.direct, name);
          if h.Hit? then Follow(img, c, h.inode, rest) else NOWHERE
  {
    hide Search, ReadInode;
    assert ([name] + rest)[1..] == rest;
  }

  lemma ReadPointers(img: Image, c: Context, idx: nat)
    requires Geometry(c)
    ensures ReadInode(img, c, idx).Got? ==> |ReadInode(img, c, idx).value.direct| == DIRECT
  {
    hide ImageBytes.Region, Cap;
  }

  // ---- the resolver on a populated image ----------------------------------------------------------

  /** The image holds `root` at the root inode of the context, its inode table in the sectors before the data. */
  ghost predicate Mounted(img: Image, c: Context, p: Placed, root: Node, own: set<nat>, inos: set<nat>) {
    && Sectored(img, c) && TableFits(c.header, |img|) && c.root == p.idx && Between(own, c.header.dataStart, |img|)
    && c.header.inodeCount <= NOWHERE
    && Stocked(img, Per(c), TableOf(img, c), p, root, own, inos)
  }

  function TableOf(img: Image, c: Context): (t: seq<Inode>)
    requires c.header.blockSize > 0
    ensures |t| == c.header.inodeCount
  {
    TableAt(img, c.header.blockSize, c.header.inodeTableStart, c.header.inodeCount)
  }

  lemma MountedFacts(img: Image, c: Context, p: Placed, root: Node, own: set<nat>, inos: set<nat>)
    requires Mounted(img, c, p, root, own, inos)
    ensures Sectored(img, c) && Geometry(c) && c.header.blockSize > 0
    ensures c.root == p.idx && Stocked(img, Per(c), TableOf(img, c), p, root, own, inos)
    ensures Between(own, c.header.dataStart, |img|) && |TableOf(img, c)| <= NOWHERE
  {
  }

  lemma MountedInode(img: Image, c: Context, p: Placed, root: Node, own: set<nat>, inos: set<nat>, idx: nat)
    requires Mounted(img, c, p, root, own, inos) && idx < |TableOf(img, c)|
    ensures ReadInode(img, c, idx) == Got(TableOf(img, c)[idx])
  {
    hide Stocked, ReadInode, TableAt;
    ReadInodeExact(img, c, idx);
  }

  /** One component followed on the image is one step in the tree. */
  lemma FollowsStep(img: Image, c: Context, p: Placed, root: Node, own: set<nat>, inos: set<nat>, at: Place,
                    name: seq<Byte>)
    requires Mounted(img, c, p, root, own, inos) && (at.Found? || at.Sentinel?) && (at.Found? ==> Reaches(root, at.pos))
    requires var next := Step(root, Per(c), at, name); !next.ThroughFile? && |name| < NAME_MAX
    ensures Geometry(c) && ReadInode(img, c, InodeOf(p, at)).Got?
    ensures var h, next := Search(img, c, ReadInode(img, c, InodeOf(p, at)).value.direct, name),
      Step(root, Per(c), at, name);
      if h.Hit? then (next.Found? || next.Sentinel?) && h.inode == InodeOf(p, next) else next.Missing?
  {
    hide Mounted, Stocked, Meets, First, ReadDir, Leads, Step, InodeOf, Agrees, Search, ReadInode, Per, Sectored,
         Geometry, Between, Owned, TableOf, Cap, NoneBefore;
    MountedFacts(img, c, p, root, own, inos);
    var per, table := Per(c), TableOf(img, c);
    MeetsHere(img, per, table, p, root, own, inos, at, name);
    var ptrs: seq<nat> :| Meets(img, per, table, p, root, at, name, ptrs) && Owned(ptrs, own);
    MeetsFacts(img, per, table, p, root, at, name, ptrs);
    MountedInode(img, c, p, root, own, inos, InodeOf(p, at));
    InImage(ptrs, own, c.header.dataStart, |img|);
    var direct := table[InodeOf(p, at)].direct;
    SearchFrom(img, per, direct, ptrs, name);
    SearchBlocks(img, c, direct, ptrs, 0, name);
  }

  lemma SearchFrom(img: Image, per: nat, direct: seq<nat>, ptrs: seq<nat>, name: seq<Byte>)
    ensures NoneBefore(ReadDir(img, per, ptrs), name, Cap(per, if 0 < |ptrs| then 0 else |ptrs|))
    ensures direct[0..] == direct
  {
  }

  lemma InImage(ptrs: seq<nat>, own: set<nat>, lo: nat, hi: nat)
    requires Owned(ptrs, own) && Between(own, lo, hi)
    ensures forall i :: 0 <= i < |ptrs| ==> ptrs[i] < hi
  {
  }

  /** A path followed on the image leads where it leads in the tree, as long as it goes through no file. */
  lemma {:induction false} FollowsTree(img: Image, c: Context, p: Placed, root: Node, own: set<nat>, inos: set<nat>,
                                       at: Place, names: seq<seq<Byte>>)
    requires Mounted(img, c, p, root, own, inos) && (at.Found? || at.Sentinel?) && (at.Found? ==> Reaches(root, at.pos))
    requires !Walk(root, Per(c), at, names).ThroughFile?
    ensures Geometry(c) && Follow(img, c, InodeOf(p, at), names) == InodeOf(p, Walk(root, Per(c), at, names))
    decreases |names|
  {
    hide Mounted, Step, ReadInode, Search, InodeOf, Follow;
    MountedFacts(img, c, p, root, own, inos);
    var per, table := Per(c), TableOf(img, c);
    if names == [] {
      FollowNone(img, c, InodeOf(p, at));
    } else {
      var next := Step(root, per, at, names[0]);
      assert names == [names[0]] + names[1..];
      FollowStep(img, c, InodeOf(p, at), names[0], names[1..]);
      if next.Missing? || next.ThroughFile? { Stuck(root, per, next, names[1..]); }
      FoundInode(p, []);
      if |names[0]| >= NAME_MAX {
        TooLong(img, per, table, p, root, own, inos, at, names[0]);
      } else {
        FollowsStep(img, c, p, root, own, inos, at, names[0]);
        if next.Found? || next.Sentinel? { FollowsTree(img, c, p, root, own, inos, next, names[1..]); }
      }
    }
  }

  /** Where a path leads in a tree. */
  function PlaceOf(root: Node, per: nat, path: seq<Byte>): (at: Place)
    ensures at.Found? ==> Reaches(root, at.pos)
  {
    if path != [] && path[0] == SLASH then Walk(root, per, Found([]), Components(path, 1)) else Missing
  }

  /** On a populated image, every path that goes through no file resolves to the inode of the place it names. */
  lemma ResolvesTree(img: Image, c: Context, p: Placed, root: Node, own: set<nat>, inos: set<nat>, path: seq<Byte>)
    requires Mounted(img, c, p, root, own, inos) && !PlaceOf(root, Per(c), path).ThroughFile?
    ensures Geometry(c) && Resolved(img, c, path) == InodeOf(p, PlaceOf(root, Per(c), path))
  {
    hide Mounted, Walk, Follow, Components;
    MountedFacts(img, c, p, root, own, inos);
    if path != [] && path[0] == SLASH {
      FollowsTree(img, c, p, root, own, inos, Found([]), Components(path, 1));
    }
  }

  // ---- the sentinel inode -------------------------------------------------------------------------

  /** A path leads to the sentinel exactly when its last component is empty and those before lead to a directory with
      a slot no entry uses and no entry of the empty name. */
  lemma SentinelExact(root: Node, per: nat, names: seq<seq<Byte>>)
    ensures Walk(root, per, Found([]), names) == Sentinel <==>
      && names != [] && names[|names| - 1] == []
      && var before := Walk(root, per, Found([]), names[..|names| - 1]);
         before.Found? && NodeAt(root, before.pos).Branch? && Spare(NodeAt(root, before.pos).entries, per)
         && FirstNamed(NodeAt(root, before.pos).entries, []) == |NodeAt(root, before.pos).entries|
  {
    if names != [] {
      var n := |names| - 1;
      assert names == names[..n] + [names[n]];
      WalkSnoc(root, per, Found([]), names[..n], names[n]);
    }
  }

  /** No node of the tree has the sentinel inode. */
  lemma FoundNotSentinel(img: Image, c: Context, p: Placed, root: Node, own: set<nat>, inos: set<nat>, pos: seq<nat>)
    requires Mounted(img, c, p, root, own, inos) && Reaches(root, pos)
    ensures PlacedAt(p, pos).idx != 0 && PlacedAt(p, pos).idx < NOWHERE
  {
    hide DirRep, FileRep;
    RepAt(img, Per(c), TableOf(img, c), p, root, own, inos, pos);
  }

  /** So the resolver returns inode 0 exactly for such a path. */
  lemma ResolvesToZero(img: Image, c: Context, p: Placed, root: Node, own: set<nat>, inos: set<nat>, path: seq<Byte>)
    requires Mounted(img, c, p, root, own, inos) && !PlaceOf(root, Per(c), path).ThroughFile?
    ensures Geometry(c) && (Resolved(img, c, path) == 0 <==> PlaceOf(root, Per(c), path) == Sentinel)
  {
    hide Mounted, Resolved, PlacedAt;
    ResolvesTree(img, c, p, root, own, inos, path);
    var at := PlaceOf(root, Per(c), path);
    if at.Found? { FoundNotSentinel(img, c, p, root, own, inos, at.pos); }
  }

  /** In an empty root directory of 1024-byte blocks, "//" is such a path. */
  lemma DoubleSlash()
    ensures PlaceOf(Branch([]), 8, [SLASH, SLASH]) == Sentinel
  {
    var path := [SLASH, SLASH];
    EndIs(path, 1, 1);
    OneComponent(path, 1);
    NoComponents(path, 2);
    assert path[1..1] == [];
    var names: seq<seq<Byte>> := [[]];
    assert Components(path, 1) == names && names[..0] == [];
    SentinelExact(Branch([]), 8, names);
  }

  lemma MeetsFacts(img: Image, per: nat, table: seq<Inode>, p: Placed, root: Node, at: Place, name: seq<Byte>,
                   ptrs: seq<nat>)
    requires Meets(img, per, table, p, root, at, name, ptrs)
    ensures InodeOf(p, at) < |table| && Leads(table[InodeOf(p, at)].direct, ptrs)
    ensures (at.Found? ==> Reaches(root, at.pos))
    ensures var all, next := ReadDir(img, per, ptrs), Step(root, per, at, name);
      if First(all, name) < |all| then (next.Found? || next.Sentinel?) &&
          all[First(all, name)].inode == InodeOf(p, next) else next.Missing?
  {
  }

  /** Every node of a populated tree resolves by the path of its names. */
  method ResolveNode(img: Image, c: Context, names: seq<seq<Byte>>, ghost p: Placed, ghost root: Node,
                     ghost own: set<nat>, ghost inos: set<nat>, ghost pos: seq<nat>)
    returns (r: nat)
    requires Mounted(img, c, p, root, own, inos) && Proper(root) && Reaches(root, pos)
    requires pos != [] && names == PathTo(root, pos)
    ensures r == PlacedAt(p, pos).idx
  {
    hide Mounted, Walk, Components, Resolved;
    MountedFacts(img, c, p, root, own, inos);
    NodePath(root, Per(c), names, pos);
    ResolvesTree(img, c, p, root, own, inos, Joined(names));
    r := ResolvePath(img, c, Joined(names));
  }

  /** A path of names is a C string. */
  lemma {:induction false} JoinedPlain(names: seq<seq<Byte>>)
    requires forall i :: 0 <= i < |names| ==> 0 !in names[i]
    ensures 0 !in Joined(names)
  {
    if names != [] { JoinedPlain(names[1..]); }
  }

  lemma NodePath(root: Node, per: nat, names: seq<seq<Byte>>, pos: seq<nat>)
    requires Proper(root) && Reaches(root, pos) && pos != [] && names == PathTo(root, pos)
    ensures PlaceOf(root, per, Joined(names)) == Found(pos) && 0 !in Joined(names)
  {
    hide Walk, Components;
    EveryNodeFound(root, per, pos);
    PlainNames(root, pos);
    JoinedPlain(names);
    SplitJoined([], names);
    assert [] + Joined(names) == Joined(names);
  }
}
