/** DiskHound's view of a file system: a finite tree, the traversal policy, and the plain recursive walk. */
module DiskTree {
  import opened Basics
  import opened Ordering
  import opened Sorting

  type Identity = (int, int)

  datatype Kind = Regular | Directory | OtherKind

  datatype Meta = Meta(device: int, inode: int, kind: Kind, blocks: int, size: int)

  /**
   * An entry as it is on disk, with how the system calls on it end. `path` is relative to the target; `remote` says
   * that the mount table shows a network, FUSE or autofs mount of another device there. Listing a directory can
   * fail at once or, at `stops`, after some of its slots were returned.
   */
  datatype Node = Node(path: Key, remote: bool, meta: Meta, openFails: bool, stops: Option<nat>, slots: seq<Slot>)

  /** One directory entry; its own stat may fail. */
  datatype Slot = Slot(node: Node, statFails: bool)

  datatype Policy = Policy(
    device: int,
    maxDepth: nat,
    maxEntries: nat,
    crossFilesystems: bool,
    includeRemoteMounts: bool,
    excluded: Key -> bool)

  const MAX_DIRECTORY_ENTRIES: nat := 100_000
  const ALLOCATED_BLOCK_BYTES: int := 512

  function Id(n: Node): Identity {
    (n.meta.device, n.meta.inode)
  }

  predicate IsDirectory(n: Node) { n.meta.kind.Directory? }

  /** A mount point that is deliberately not statted. */
  predicate Blind(p: Policy, n: Node) {
    n.remote && !p.includeRemoteMounts
  }

  /** `_skip_other_filesystem`. */
  predicate OnOtherFilesystem(p: Policy, n: Node) {
    Blind(p, n) || !(p.crossFilesystems || n.meta.device == p.device)
  }

  predicate Admits(p: Policy, n: Node) {
    !p.excluded(n.path) && !OnOtherFilesystem(p, n)
  }

  // ----- the plain recursive walk: every entry the policy admits

  function Walk(p: Policy, n: Node, depth: nat): multiset<Node>
    decreases n, 0
  {
    if !Admits(p, n) then multiset{}
    else multiset{n} + (if IsDirectory(n) && depth < p.maxDepth then WalkSlots(p, n.slots, depth + 1) else multiset{})
  }

  function WalkSlots(p: Policy, slots: seq<Slot>, depth: nat): multiset<Node>
    decreases slots, 2
  {
    if slots == [] then multiset{}
    else WalkSlots(p, slots[..|slots| - 1], depth) + WalkSlot(p, slots[|slots| - 1], depth)
  }

  function WalkSlot(p: Policy, s: Slot, depth: nat): multiset<Node>
    decreases s, 1
  {
    Walk(p, s.node, depth)
  }

  function WalkAll(p: Policy, nodes: seq<Node>, depth: nat): multiset<Node> {
    if nodes == [] then multiset{} else WalkAll(p, nodes[..|nodes| - 1], depth) + Walk(p, nodes[|nodes| - 1], depth)
  }

  // ----- what the walk cannot see

  /** `_directory_has_entries`: unknown counts as yes. */
  predicate HasEntries(n: Node) {
    n.openFails || n.stops.Some? || n.slots != []
  }

  predicate ListingGap(p: Policy, n: Node) {
    n.openFails || n.stops.Some? || |n.slots| > MAX_DIRECTORY_ENTRIES
  }

  /** Something at or below an entry that the policy admits stays unobserved. */
  predicate HasGap(p: Policy, n: Node, depth: nat)
    decreases n, 0
  {
    if p.excluded(n.path) then false
    else if OnOtherFilesystem(p, n) then Blind(p, n) && p.crossFilesystems
    else
      || n.meta.blocks < 0
      || (IsDirectory(n) &&
          if depth < p.maxDepth then ListingGap(p, n) || SlotsGap(p, n.slots, depth + 1) else HasEntries(n))
  }

  predicate SlotsGap(p: Policy, slots: seq<Slot>, depth: nat)
    decreases slots, 2
  {
    slots != [] && (SlotsGap(p, slots[..|slots| - 1], depth) || SlotGap(p, slots[|slots| - 1], depth))
  }

  predicate SlotGap(p: Policy, s: Slot, depth: nat)
    decreases s, 1
  {
    (s.statFails && !Blind(p, s.node)) || HasGap(p, s.node, depth)
  }

  predicate AnyGap(p: Policy, nodes: seq<Node>, depth: nat) {
    nodes != [] && (AnyGap(p, nodes[..|nodes| - 1], depth) || HasGap(p, nodes[|nodes| - 1], depth))
  }

  /** How many directory entries listing everything at and below an entry enumerates. */
  function Entries(p: Policy, n: Node, depth: nat): nat
    decreases n, 0
  {
    if Admits(p, n) && IsDirectory(n) && depth < p.maxDepth then |n.slots| + EntriesOfSlots(p, n.slots, depth + 1)
    else 0
  }

  function EntriesOfSlots(p: Policy, slots: seq<Slot>, depth: nat): nat
    decreases slots, 2
  {
    if slots == [] then 0
    else EntriesOfSlots(p, slots[..|slots| - 1], depth) + EntriesOfSlot(p, slots[|slots| - 1], depth)
  }

  function EntriesOfSlot(p: Policy, s: Slot, depth: nat): nat
    decreases s, 1
  {
    Entries(p, s.node, depth)
  }

  function EntriesOfAll(p: Policy, nodes: seq<Node>, depth: nat): nat {
    if nodes == [] then 0 else EntriesOfAll(p, nodes[..|nodes| - 1], depth) + Entries(p, nodes[|nodes| - 1], depth)
  }

  /** An entry that the policy does not admit is missing only when it is a mount that a crossing scan leaves out. */
  lemma NotAdmitted(p: Policy, n: Node, depth: nat)
    ensures !Admits(p, n) ==> Walk(p, n, depth) == multiset{} && Entries(p, n, depth) == 0
    ensures !Admits(p, n) ==> (HasGap(p, n, depth) <==> !p.excluded(n.path) && Blind(p, n) && p.crossFilesystems)
  {}

  // ----- snoc forms

  lemma WalkAllSnoc(p: Policy, nodes: seq<Node>, n: Node, depth: nat)
    ensures WalkAll(p, nodes + [n], depth) == WalkAll(p, nodes, depth) + Walk(p, n, depth)
    ensures AnyGap(p, nodes + [n], depth) <==> AnyGap(p, nodes, depth) || HasGap(p, n, depth)
    ensures EntriesOfAll(p, nodes + [n], depth) == EntriesOfAll(p, nodes, depth) + Entries(p, n, depth)
  {
    assert (nodes + [n])[..|nodes|] == nodes;
  }

  lemma WalkSlotsSnoc(p: Policy, slots: seq<Slot>, s: Slot, depth: nat)
    ensures WalkSlots(p, slots + [s], depth) == WalkSlots(p, slots, depth) + Walk(p, s.node, depth)
    ensures SlotsGap(p, slots + [s], depth) <==> SlotsGap(p, slots, depth) || SlotGap(p, s, depth)
    ensures EntriesOfSlots(p, slots + [s], depth) == EntriesOfSlots(p, slots, depth) + Entries(p, s.node, depth)
  {
    assert (slots + [s])[..|slots|] == slots;
  }

  lemma {:induction false} WalkSlotsPrefix(p: Policy, slots: seq<Slot>, n: nat, depth: nat)
    requires n <= |slots|
    ensures WalkSlots(p, slots[..n], depth) <= WalkSlots(p, slots, depth)
    ensures SlotsGap(p, slots[..n], depth) ==> SlotsGap(p, slots, depth)
    ensures EntriesOfSlots(p, slots[..n], depth) <= EntriesOfSlots(p, slots, depth)
    decreases |slots| - n
  {
    if n < |slots| {
      assert slots[..n + 1] == slots[..n] + [slots[n]];
      WalkSlotsSnoc(p, slots[..n], slots[n], depth);
      WalkSlotsPrefix(p, slots, n + 1, depth);
    } else {
      assert slots[..n] == slots;
    }
  }

  lemma {:induction false} WalkAllConcat(p: Policy, a: seq<Node>, b: seq<Node>, depth: nat)
    ensures WalkAll(p, a + b, depth) == WalkAll(p, a, depth) + WalkAll(p, b, depth)
    ensures AnyGap(p, a + b, depth) <==> AnyGap(p, a, depth) || AnyGap(p, b, depth)
    ensures EntriesOfAll(p, a + b, depth) == EntriesOfAll(p, a, depth) + EntriesOfAll(p, b, depth)
    decreases |b|
  {
    if b == [] {
      assert a + b == a;
    } else {
      var init, n := b[..|b| - 1], b[|b| - 1];
      assert a + b == (a + init) + [n] && b == init + [n];
      WalkAllConcat(p, a, init, depth);
      WalkAllSnoc(p, a + init, n, depth);
      WalkAllSnoc(p, init, n, depth);
    }
  }

  // ----- sorting a listing by path

  predicate PathBefore(m: Node, n: Node) {
    Less(m.path, n.path)
  }

  function InsertNode(n: Node, nodes: seq<Node>): seq<Node> {
    InsertBy(PathBefore, n, nodes)
  }

  /** `entries.sort(key=path_sort_key)`. */
  function SortNodes(nodes: seq<Node>): seq<Node> {
    SortBy(PathBefore, nodes)
  }

  lemma InsertStep(n: Node, nodes: seq<Node>)
    ensures InsertNode(n, nodes) ==
      if nodes == [] || PathBefore(n, nodes[0]) then [n] + nodes else [nodes[0]] + InsertNode(n, nodes[1..])
  {}

  lemma {:induction false} InsertNodeWalks(p: Policy, n: Node, nodes: seq<Node>, depth: nat)
    ensures WalkAll(p, InsertNode(n, nodes), depth) == WalkAll(p, nodes, depth) + Walk(p, n, depth)
    ensures AnyGap(p, InsertNode(n, nodes), depth) <==> AnyGap(p, nodes, depth) || HasGap(p, n, depth)
    ensures EntriesOfAll(p, InsertNode(n, nodes), depth) == EntriesOfAll(p, nodes, depth) + Entries(p, n, depth)
    ensures |InsertNode(n, nodes)| == |nodes| + 1
  {
    InsertStep(n, nodes);
    NoNodes(p, depth);
    hide *;
    WalkAllSnoc(p, [], n, depth);
    assert [] + [n] == [n];
    if nodes == [] || PathBefore(n, nodes[0]) {
      WalkAllConcat(p, [n], nodes, depth);
    } else {
      InsertNodeWalks(p, n, nodes[1..], depth);
      WalkAllConcat(p, [nodes[0]], nodes[1..], depth);
      WalkAllConcat(p, [nodes[0]], InsertNode(n, nodes[1..]), depth);
      assert nodes == [nodes[0]] + nodes[1..];
    }
  }

  lemma NoNodes(p: Policy, depth: nat)
    ensures WalkAll(p, [], depth) == multiset{} && !AnyGap(p, [], depth) && EntriesOfAll(p, [], depth) == 0
  {}

  lemma SortStep(nodes: seq<Node>)
    ensures SortNodes(nodes) ==
      if nodes == [] then [] else InsertNode(nodes[|nodes| - 1], SortNodes(nodes[..|nodes| - 1]))
  {}

  /** Sorting changes neither what is walked below a listing nor what is missing there. */
  lemma {:induction false} SortWalks(p: Policy, nodes: seq<Node>, depth: nat)
    ensures WalkAll(p, SortNodes(nodes), depth) == WalkAll(p, nodes, depth)
    ensures AnyGap(p, SortNodes(nodes), depth) <==> AnyGap(p, nodes, depth)
    ensures EntriesOfAll(p, SortNodes(nodes), depth) == EntriesOfAll(p, nodes, depth)
    ensures |SortNodes(nodes)| == |nodes|
  {
    hide Walk, HasGap, Entries, InsertNode, SortNodes;
    SortStep(nodes);
    if nodes == [] {
    } else {
      var init, n := nodes[..|nodes| - 1], nodes[|nodes| - 1];
      SortWalks(p, init, depth);
      InsertNodeWalks(p, n, SortNodes(init), depth);
    }
  }

  lemma PathsAreOrdered()
    ensures WeakOrder(PathBefore)
  {
    forall x: Node, y: Node, z: Node
      ensures PathBefore(x, y) ==> !PathBefore(y, x) && (PathBefore(x, z) || PathBefore(z, y))
    {
      LessIsTotal(x.path, y.path);
      LessIsTotal(x.path, z.path);
      if Less(x.path, y.path) && Less(z.path, x.path) { LessIsTransitive(z.path, x.path, y.path); }
    }
  }

  /** A sorted listing has the same entries, in ascending order of their paths. */
  lemma SortedByPath(nodes: seq<Node>)
    ensures
      var sorted := SortNodes(nodes);
      && multiset(sorted) == multiset(nodes)
      && forall i, j | 0 <= i < j < |sorted| :: sorted[i].path == sorted[j].path || Less(sorted[i].path, sorted[j].path)
  {
    var sorted := SortNodes(nodes);
    PathsAreOrdered();
    SortSorts(PathBefore, nodes);
    SortPermutes(PathBefore, nodes);
    hide SortBy, Less;
    forall i, j | 0 <= i < j < |sorted|
      ensures sorted[i].path == sorted[j].path || Less(sorted[i].path, sorted[j].path)
    {
      assert !PathBefore(sorted[j], sorted[i]);
      LessIsTotal(sorted[i].path, sorted[j].path);
    }
  }

  // ----- sums over inodes

  ghost function Ids(nodes: multiset<Node>): set<Identity> {
    set n | n in nodes :: Id(n)
  }

  /** Metadata is a function of identity. */
  ghost predicate Consistent(nodes: multiset<Node>, facts: Identity -> Meta) {
    forall n | n in nodes :: n.meta == facts(Id(n))
  }

  lemma PartIsConsistent(part: multiset<Node>, whole: multiset<Node>, facts: Identity -> Meta)
    requires part <= whole && Consistent(whole, facts)
    ensures Consistent(part, facts)
  {
    forall n | n in part ensures n.meta == facts(Id(n)) { assert n in whole; }
  }

  lemma IdsOfSum(a: multiset<Node>, n: Node)
    ensures Ids(a + multiset{n}) == Ids(a) + {Id(n)}
  {
    assert n in a + multiset{n};
    forall i | i in Ids(a) ensures i in Ids(a + multiset{n}) {
      var m :| m in a && Id(m) == i;
      assert m in a + multiset{n};
    }
  }

  lemma IdsOfPlus(a: multiset<Node>, b: multiset<Node>)
    ensures Ids(a + b) == Ids(a) + Ids(b)
  {
    forall i | i in Ids(a) + Ids(b) ensures i in Ids(a + b) {
      if i in Ids(a) {
        var n :| n in a && Id(n) == i;
        assert n in a + b;
      } else {
        var n :| n in b && Id(n) == i;
        assert n in a + b;
      }
    }
  }

  lemma IdsOfOne(n: Node)
    ensures Ids(multiset{n}) == {Id(n)}
  {
    assert n in multiset{n};
  }

  lemma IdsOfNothing()
    ensures Ids(multiset{}) == {}
  {}

  ghost function Sum(ids: set<Identity>, f: Identity -> int): int {
    if ids == {} then 0 else
      var i :| i in ids;
      f(i) + Sum(ids - {i}, f)
  }

  lemma {:induction false} SumAdds(ids: set<Identity>, i: Identity, f: Identity -> int)
    requires i !in ids
    ensures Sum(ids + {i}, f) == Sum(ids, f) + f(i)
    decreases |ids|
  {
    var all := ids + {i};
    var j :| j in all && Sum(all, f) == f(j) + Sum(all - {j}, f);
    if j == i {
      assert all - {j} == ids;
    } else {
      var rest := ids - {j};
      assert all - {j} == rest + {i};
      SumAdds(rest, i, f);
      assert rest + {j} == ids;
      SumAdds(rest, j, f);
    }
  }

  /** No inode among these has an unusable block count. */
  ghost predicate UsableBlocks(inodes: set<Identity>, facts: Identity -> Meta) {
    forall i | i in inodes :: facts(i).blocks >= 0
  }

  /** What each inode contributes. */
  ghost function Allocation(facts: Identity -> Meta): Identity -> int {
    i => if facts(i).blocks < 0 then 0 else facts(i).blocks * ALLOCATED_BLOCK_BYTES
  }

  ghost function Logical(facts: Identity -> Meta): Identity -> int {
    i => if facts(i).kind.Regular? then facts(i).size else 0
  }

  ghost function IsFile(facts: Identity -> Meta): Identity -> int {
    i => if facts(i).kind.Regular? then 1 else 0
  }

  ghost function RegularAmong(ids: set<Identity>, facts: Identity -> Meta): set<Identity> {
    set id | id in ids && facts(id).kind == Regular
  }

  lemma RegularStep(ids: set<Identity>, i: Identity, facts: Identity -> Meta)
    requires i !in ids
    ensures |RegularAmong(ids + {i}, facts)| == |RegularAmong(ids, facts)| + IsFile(facts)(i)
  {
    var files, more := RegularAmong(ids, facts), RegularAmong(ids + {i}, facts);
    if facts(i).kind == Regular { assert more == files + {i}; } else { assert more == files; }
  }

  /** A file count is the number of distinct regular inodes. */
  lemma {:induction false} FileCount(ids: set<Identity>, facts: Identity -> Meta)
    ensures Sum(ids, IsFile(facts)) == |RegularAmong(ids, facts)|
    decreases |ids|
  {
    if ids == {} {
      assert RegularAmong(ids, facts) == {};
    } else {
      var i :| i in ids;
      var rest := ids - {i};
      FileCount(rest, facts);
      SumAdds(rest, i, IsFile(facts));
      RegularStep(rest, i, facts);
      hide *;
      assert rest + {i} == ids;
    }
  }

  ghost function BlocksOf(facts: Identity -> Meta): Identity -> int {
    i => facts(i).blocks
  }

  /** With usable block counts, an allocation is the sum of the blocks, of 512 bytes each. */
  lemma {:induction false} AllocationCount(ids: set<Identity>, facts: Identity -> Meta)
    requires UsableBlocks(ids, facts)
    ensures Sum(ids, Allocation(facts)) == 512 * Sum(ids, BlocksOf(facts))
    decreases |ids|
  {
    if ids != {} {
      var i :| i in ids;
      var rest := ids - {i};
      AllocationCount(rest, facts);
      SumAdds(rest, i, Allocation(facts));
      SumAdds(rest, i, BlocksOf(facts));
      hide Sum;
      assert rest + {i} == ids;
    }
  }

  ghost function SizeOf(facts: Identity -> Meta): Identity -> int {
    i => facts(i).size
  }

  lemma RegularGrows(ids: set<Identity>, i: Identity, facts: Identity -> Meta)
    requires i !in ids
    ensures i !in RegularAmong(ids, facts)
    ensures RegularAmong(ids + {i}, facts) == RegularAmong(ids, facts) + if facts(i).kind == Regular then {i} else {}
  {}

  lemma LogicalStep(ids: set<Identity>, i: Identity, facts: Identity -> Meta)
    requires i !in ids && Sum(ids, Logical(facts)) == Sum(RegularAmong(ids, facts), SizeOf(facts))
    ensures Sum(ids + {i}, Logical(facts)) == Sum(RegularAmong(ids + {i}, facts), SizeOf(facts))
  {
    var files := RegularAmong(ids, facts);
    SumAdds(ids, i, Logical(facts));
    RegularGrows(ids, i, facts);
    SumAdds(files, i, SizeOf(facts));
    hide Sum, RegularAmong;
    assert files + {} == files;
  }

  /** A logical size is the sum of the sizes of the distinct regular inodes. */
  lemma {:induction false} LogicalSize(ids: set<Identity>, facts: Identity -> Meta)
    ensures Sum(ids, Logical(facts)) == Sum(RegularAmong(ids, facts), SizeOf(facts))
    decreases |ids|
  {
    if ids == {} {
      assert RegularAmong(ids, facts) == {};
    } else {
      var i :| i in ids;
      var rest := ids - {i};
      assert rest + {i} == ids;
      hide *;
      LogicalSize(rest, facts);
      LogicalStep(rest, i, facts);
    }
  }
}
