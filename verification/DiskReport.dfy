/** DiskHound's `scan`: the branches below one target, their totals, and when the result is complete. */
module DiskReport {
  import opened Basics
  import opened DiskTree
  import opened DiskPaths
  import opened DiskVisit
  import opened DiskScan
  import opened TopFiles

  datatype BranchResult = BranchResult(path: seq<int>, allocatedBytes: int, logicalBytes: int, fileCount: int)

  datatype ScanResult = ScanResult(
    targetAllocated: Option<int>,
    unique: int,
    capacityWarning: bool,
    branches: seq<BranchResult>,
    failures: seq<Failure>,
    depthLimited: nat,
    remoteMounts: seq<seq<int>>,
    visited: nat)

  /** `ScanResult.incomplete`. */
  predicate Incomplete(r: ScanResult) {
    r.capacityWarning || r.failures != [] || r.depthLimited > 0 || r.remoteMounts != []
  }

  /** A branch result states the sums over the distinct inodes of `log`. */
  ghost predicate States(b: BranchResult, n: Node, log: multiset<Node>, facts: Identity -> Meta) {
    && b.path == n.path
    && b.allocatedBytes == Sum(Ids(log), Allocation(facts))
    && b.logicalBytes == Sum(Ids(log), Logical(facts))
    && b.fileCount == Sum(Ids(log), IsFile(facts))
  }

  ghost function AllIds(logs: seq<multiset<Node>>): set<Identity> {
    if logs == [] then {} else AllIds(logs[..|logs| - 1]) + Ids(logs[|logs| - 1])
  }

  lemma AllIdsSnoc(logs: seq<multiset<Node>>, log: multiset<Node>)
    ensures AllIds(logs + [log]) == AllIds(logs) + Ids(log)
  {
    assert (logs + [log])[..|logs|] == logs;
  }

  // ----- the immediate entries

  /** The immediate entries that become branches. */
  function Admitted(p: Policy, nodes: seq<Node>): seq<Node> {
    if nodes == [] then [] else
      Admitted(p, nodes[..|nodes| - 1]) + if Admits(p, nodes[|nodes| - 1]) then [nodes[|nodes| - 1]] else []
  }

  /** Some walk from one of these entries meets a gap. */
  predicate BranchSees(p: Policy, nodes: seq<Node>) {
    exists n | n in nodes :: SeesGap(p, n, 1, START)
  }

  lemma BranchSeesSnoc(p: Policy, nodes: seq<Node>, n: Node)
    ensures BranchSees(p, nodes + [n]) <==> BranchSees(p, nodes) || SeesGap(p, n, 1, START)
  {
    hide SeesGap;
    assert n in nodes + [n];
    if BranchSees(p, nodes) {
      var m :| m in nodes && SeesGap(p, m, 1, START);
      assert m in nodes + [n];
    }
  }

  lemma AdmittedSnoc(p: Policy, nodes: seq<Node>, n: Node)
    ensures Admitted(p, nodes + [n]) == Admitted(p, nodes) + if Admits(p, n) then [n] else []
  {
    assert (nodes + [n])[..|nodes|] == nodes;
  }

  /** Dropping what is not admitted changes neither what is walked nor what it costs, and hides no gap. */
  lemma {:induction false} AdmittedWalks(p: Policy, nodes: seq<Node>)
    ensures WalkAll(p, Admitted(p, nodes), 1) == WalkAll(p, nodes, 1)
    ensures EntriesOfAll(p, Admitted(p, nodes), 1) == EntriesOfAll(p, nodes, 1)
    ensures !BranchSees(p, nodes) ==> !BranchSees(p, Admitted(p, nodes))
    ensures !BranchSees(p, nodes) && AnyGap(p, nodes, 1) ==> AnyGap(p, Admitted(p, nodes), 1)
  {
    NothingAdmitted(p);
    hide *;
    if nodes != [] {
      var init, n := nodes[..|nodes| - 1], nodes[|nodes| - 1];
      assert nodes == init + [n];
      AdmittedWalks(p, init);
      AdmittedSnoc(p, init, n);
      BranchSeesSnoc(p, init, n);
      BranchSeesSnoc(p, Admitted(p, init), n);
      WalkAllSnoc(p, init, n, 1);
      WalkAllSnoc(p, Admitted(p, init), n, 1);
      NotAdmitted(p, n, 1);
      NotAdmittedStep(p, n, 1, START);
      assert Admitted(p, init) + [] == Admitted(p, init);
    }
  }

  lemma NothingAdmitted(p: Policy)
    ensures Admitted(p, []) == [] && !BranchSees(p, [])
    ensures WalkAll(p, [], 1) == multiset{} && EntriesOfAll(p, [], 1) == 0 && !AnyGap(p, [], 1)
  {}

  /** The loop that drops excluded entries and other file systems. */
  method Eligible(acc: Accumulator, immediate: seq<Node>) returns (eligible: seq<Node>)
    modifies acc`excludedEntries, acc`crossDevice, acc`remoteMounts
    ensures eligible == Admitted(acc.p, immediate) && |eligible| <= |immediate|
    ensures old(acc.remoteMounts) <= acc.remoteMounts
    ensures acc.remoteMounts == old(acc.remoteMounts) && !BranchSees(acc.p, eligible) <==> !BranchSees(acc.p, immediate)
  {
    hide SeesGap, BranchSees, Admitted;
    eligible := [];
    NothingAdmitted(acc.p);
    assert immediate[..0] == [];
    for i := 0 to |immediate|
      invariant |eligible| <= i && old(acc.remoteMounts) <= acc.remoteMounts
      invariant acc.remoteMounts == old(acc.remoteMounts) && !BranchSees(acc.p, eligible) <==>
        !BranchSees(acc.p, immediate[..i])
      invariant eligible == Admitted(acc.p, immediate[..i])
    {
      var n := immediate[i];
      assert immediate[..i + 1] == immediate[..i] + [n];
      AdmittedSnoc(acc.p, immediate[..i], n);
      BranchSeesSnoc(acc.p, immediate[..i], n);
      BranchSeesSnoc(acc.p, eligible, n);
      NotAdmittedStep(acc.p, n, 1, START);
      if acc.p.excluded(n.path) {
        acc.excludedEntries := acc.excludedEntries + 1;
      } else {
        var skip := acc.SkipOtherFilesystem(n);
        if !skip { eligible := eligible + [n]; }
      }
    }
    assert immediate[..|immediate|] == immediate;
  }

  /** The cost of the first entries is part of the whole cost. */
  lemma {:induction false} PartOfEntries(p: Policy, nodes: seq<Node>, i: nat)
    requires i < |nodes|
    ensures EntriesOfAll(p, nodes[..i], 1) + Entries(p, nodes[i], 1) == EntriesOfAll(p, nodes[..i + 1], 1) <=
      EntriesOfAll(p, nodes, 1)
    decreases |nodes|
  {
    hide Entries;
    if i < |nodes| - 1 {
      PartOfEntries(p, nodes[..|nodes| - 1], i);
      assert nodes[..|nodes| - 1][..i + 1] == nodes[..i + 1] && nodes[..|nodes| - 1][..i] == nodes[..i];
    } else {
      assert nodes[..i + 1] == nodes;
    }
  }

  lemma {:induction false} PartOfAll(p: Policy, nodes: seq<Node>, i: nat)
    requires i < |nodes|
    ensures Walk(p, nodes[i], 1) <= WalkAll(p, nodes, 1)
    decreases |nodes|
  {
    hide Walk;
    if i < |nodes| - 1 { PartOfAll(p, nodes[..|nodes| - 1], i); }
  }

  // ----- the branch loop

  /**
   * What the branches scanned so far say: sums over the visited inodes, which are those of the recursive walk while
   * no limit was reached.
   */
  ghost predicate Scanned(p: Policy, eligible: seq<Node>, branches: seq<BranchResult>, logs: seq<multiset<Node>>,
                          facts: Identity -> Meta, unlimited: bool) {
    && |branches| == |logs| <= |eligible|
    && (forall i | 0 <= i < |logs| ::
          States(branches[i], eligible[i], logs[i], facts) && logs[i] <= Walk(p, eligible[i], 1))
    && (unlimited ==> forall i | 0 <= i < |logs| :: logs[i] == Observed(p, eligible[i]).log)
  }

  lemma ScannedOneMore(p: Policy, eligible: seq<Node>, branches: seq<BranchResult>, logs: seq<multiset<Node>>,
                       facts: Identity -> Meta, unlimited: bool, b: BranchResult, log: multiset<Node>,
                       nextUnlimited: bool)
    requires Scanned(p, eligible, branches, logs, facts, unlimited) && |logs| < |eligible|
    requires States(b, eligible[|logs|], log, facts) && log <= Walk(p, eligible[|logs|], 1)
    requires nextUnlimited ==> unlimited && log == Observed(p, eligible[|logs|]).log
    ensures Scanned(p, eligible, branches + [b], logs + [log], facts, nextUnlimited)
  {
    hide States, Walk, Observed;
  }

  /** The inodes that branches at these entries observe. */
  ghost function SeenBelow(p: Policy, nodes: seq<Node>): set<Identity> {
    set n, i | n in nodes && i in Observed(p, n).inodes :: i
  }

  /** The unique total of branches at these entries when no limit is reached. */
  ghost function UniqueTotal(p: Policy, nodes: seq<Node>, before: set<Identity>, facts: Identity -> Meta): int {
    Sum(before + SeenBelow(p, nodes), Allocation(facts))
  }

  /** In whatever order the branches are scanned, the unique total is the same. */
  lemma OrderDoesNotMatter(p: Policy, a: seq<Node>, b: seq<Node>, before: set<Identity>, facts: Identity -> Meta)
    requires multiset(a) == multiset(b)
    ensures UniqueTotal(p, a, before, facts) == UniqueTotal(p, b, before, facts)
  {
    hide Observed, Sum;
    forall n ensures n in a <==> n in b { assert n in a <==> n in multiset(a); }
    assert SeenBelow(p, a) == SeenBelow(p, b);
  }

  lemma {:induction false} LogsAreSeen(p: Policy, nodes: seq<Node>, logs: seq<multiset<Node>>)
    requires |nodes| == |logs| && forall i | 0 <= i < |nodes| :: logs[i] == Observed(p, nodes[i]).log
    ensures AllIds(logs) == SeenBelow(p, nodes)
  {
    hide Observed, Ids;
    if nodes == [] {
    } else {
      var k := |nodes| - 1;
      LogsAreSeen(p, nodes[..k], logs[..k]);
      ObservedIds(p, nodes[k]);
      assert nodes == nodes[..k] + [nodes[k]];
      assert SeenBelow(p, nodes) == SeenBelow(p, nodes[..k]) + Observed(p, nodes[k]).inodes;
    }
  }

  lemma ObservedIds(p: Policy, n: Node)
    ensures Observed(p, n).inodes == Ids(Observed(p, n).log)
  {
    assert Ids(multiset{}) == {};
    VisitIsPart(p, n, 1, START);
  }

  /** The loop over the eligible entries. */
  method ScanBranches(acc: Accumulator, eligible: seq<Node>, start: int, ghost facts: Identity -> Meta)
    returns (branches: seq<BranchResult>, failures: seq<Failure>, unique: int, ghost logs: seq<multiset<Node>>)
    requires acc.largest.Valid() && Consistent(WalkAll(acc.p, eligible, 1), facts) && acc.FilesOnce(facts)
    requires acc.visited + |eligible| <= acc.enumerated <= acc.p.maxEntries
    requires start == Sum(acc.globalInodes, Allocation(facts))
    modifies acc, acc.largest
    ensures acc.largest.Valid() && acc.FilesOnce(facts)
    ensures acc.visited <= acc.enumerated <= acc.p.maxEntries && |branches| == |logs| == |eligible|
    ensures unique == Sum(acc.globalInodes, Allocation(facts)) &&
      acc.globalInodes == old(acc.globalInodes) + AllIds(logs)
    ensures (old(acc.limitReached) ==> acc.limitReached) && acc.depthLimited >= old(acc.depthLimited)
    ensures old(acc.remoteMounts) <= acc.remoteMounts
    ensures old(acc.enumerated) + EntriesOfAll(acc.p, eligible, 1) < acc.p.maxEntries ==>
      acc.limitReached == old(acc.limitReached)
    ensures Scanned(acc.p, eligible, branches, logs, facts, !acc.limitReached)
    ensures !acc.limitReached ==> unique == UniqueTotal(acc.p, eligible, old(acc.globalInodes), facts)
    ensures !acc.limitReached ==>
      (failures == [] && acc.Unflagged(old(acc.depthLimited), old(acc.remoteMounts)) <==> !BranchSees(acc.p, eligible))
    ensures FirstsAmong(old(acc.firsts), acc.firsts, logs)
  {
    hide Walk, WalkAll, Ids, Sum, AllIds, Scanned, Largest.Valid, Entries, EntriesOfAll, FirstsAmong, FirstsVisited,
         Accumulator.FilesOnce, Observed, SeesGap, BranchSees, UniqueTotal;
    branches, failures, unique, logs := [], [], start, [];
    NothingScanned(acc.p, eligible, facts, !acc.limitReached, acc.firsts);
    assert eligible[..0] == [] && acc.globalInodes == acc.globalInodes + AllIds(logs);
    for i := 0 to |eligible|
      invariant acc.largest.Valid() && acc.FilesOnce(facts)
      invariant acc.visited + |eligible| - i <= acc.enumerated <= acc.p.maxEntries
      invariant unique == Sum(acc.globalInodes, Allocation(facts)) &&
        acc.globalInodes == old(acc.globalInodes) + AllIds(logs)
      invariant (old(acc.limitReached) ==> acc.limitReached) && acc.depthLimited >= old(acc.depthLimited)
      invariant old(acc.remoteMounts) <= acc.remoteMounts && |logs| == |branches| == i
      invariant acc.enumerated <= old(acc.enumerated) + EntriesOfAll(acc.p, eligible[..i], 1)
      invariant old(acc.enumerated) + EntriesOfAll(acc.p, eligible, 1) < acc.p.maxEntries ==>
        acc.limitReached == old(acc.limitReached)
      invariant Scanned(acc.p, eligible, branches, logs, facts, !acc.limitReached)
      invariant !acc.limitReached ==>
        (failures == [] && acc.Unflagged(old(acc.depthLimited), old(acc.remoteMounts)) <==>
         !BranchSees(acc.p, eligible[..i]))
      invariant FirstsAmong(old(acc.firsts), acc.firsts, logs)
    {
      // The budget guard of the loop drops nothing either.
      if acc.visited >= acc.p.maxEntries { assert false; }
      ghost var unlimited, earlier := !acc.limitReached, acc.firsts;
      PartOfAll(acc.p, eligible, i);
      PartIsConsistent(Walk(acc.p, eligible[i], 1), WalkAll(acc.p, eligible, 1), facts);
      PartOfEntries(acc.p, eligible, i);
      BranchSeesSnoc(acc.p, eligible[..i], eligible[i]);
      assert eligible[..i + 1] == eligible[..i] + [eligible[i]];
      var b;
      ghost var log;
      b, log := acc.ScanBranch(eligible[i], |eligible| - i - 1, facts);
      var branch := BranchResult(eligible[i].path, b.total, b.logical, b.files);
      failures := failures + b.failures;
      AccountedStates(b, eligible[i], log, facts);
      ScannedOneMore(acc.p, eligible, branches, logs, facts, unlimited, branch, log, !acc.limitReached);
      FirstsOneMore(old(acc.firsts), earlier, acc.firsts, logs, log);
      AllIdsSnoc(logs, log);
      branches, logs, unique := branches + [branch], logs + [log], unique + b.newGlobal;
    }
    assert eligible[..|eligible|] == eligible;
    if !acc.limitReached { UniqueIsSeen(acc.p, eligible, branches, logs, facts, old(acc.globalInodes)); }
  }

  lemma UniqueIsSeen(p: Policy, eligible: seq<Node>, branches: seq<BranchResult>, logs: seq<multiset<Node>>,
                     facts: Identity -> Meta, before: set<Identity>)
    requires Scanned(p, eligible, branches, logs, facts, true) && |logs| == |eligible|
    ensures AllIds(logs) == SeenBelow(p, eligible)
    ensures Sum(before + AllIds(logs), Allocation(facts)) == UniqueTotal(p, eligible, before, facts)
  {
    hide States, Walk, Observed, SeenBelow, AllIds, Sum;
    LogsAreSeen(p, eligible, logs);
  }

  /** The entries recorded since `before` were visited in some branch. */
  ghost predicate FirstsAmong(before: seq<Node>, firsts: seq<Node>, logs: seq<multiset<Node>>) {
    before <= firsts && forall n | n in firsts[|before|..] :: exists i :: 0 <= i < |logs| && n in logs[i]
  }

  lemma FirstsOneMore(before: seq<Node>, earlier: seq<Node>, firsts: seq<Node>, logs: seq<multiset<Node>>,
                      log: multiset<Node>)
    requires FirstsAmong(before, earlier, logs) && FirstsVisited(earlier, firsts, log)
    ensures FirstsAmong(before, firsts, logs + [log])
  {
    assert firsts[|before|..] == earlier[|before|..] + firsts[|earlier|..];
    forall n | n in firsts[|before|..] ensures exists i :: 0 <= i < |logs + [log]| && n in (logs + [log])[i] {
      if n in earlier[|before|..] {
        var i :| 0 <= i < |logs| && n in logs[i];
        assert n in (logs + [log])[i];
      } else {
        assert n in (logs + [log])[|logs|];
      }
    }
  }

  lemma ScannedWeaker(p: Policy, eligible: seq<Node>, branches: seq<BranchResult>, logs: seq<multiset<Node>>,
                      facts: Identity -> Meta, unlimited: bool, less: bool)
    requires Scanned(p, eligible, branches, logs, facts, unlimited) && (less ==> unlimited)
    ensures Scanned(p, eligible, branches, logs, facts, less)
  {}

  lemma NothingScanned(p: Policy, eligible: seq<Node>, facts: Identity -> Meta, unlimited: bool, firsts: seq<Node>)
    ensures Scanned(p, eligible, [], [], facts, unlimited) && AllIds([]) == {} && FirstsAmong(firsts, firsts, [])
    ensures EntriesOfAll(p, [], 1) == 0 && !BranchSees(p, [])
  {}

  lemma AccountedStates(b: Branch, n: Node, log: multiset<Node>, facts: Identity -> Meta)
    requires Accounted(b, log, facts)
    ensures States(BranchResult(n.path, b.total, b.logical, b.files), n, log, facts) && b.inodes == Ids(log)
  {}

  // ----- the whole scan

  /** Something that the policy admits at or below the target stays unobserved. */
  predicate TargetGap(p: Policy, target: Node) {
    target.meta.blocks < 0 || ListingGap(p, target) || SlotsGap(p, target.slots, 1)
  }

  /** The same, as far as the scan itself can tell. */
  predicate TargetSees(p: Policy, target: Node) {
    target.meta.blocks < 0 || ListingFlaw(p, target) || BranchSees(p, Listing(p, target))
  }

  /** How many entries enumerating everything below the target takes. */
  function TargetEntries(p: Policy, target: Node): nat {
    |target.slots| + EntriesOfSlots(p, target.slots, 1)
  }

  predicate WithinBudget(p: Policy, target: Node) {
    TargetEntries(p, target) < p.maxEntries
  }

  /** Looking at the target's file system again: its capacity, no usable answer, or another directory in its place. */
  datatype CapacityCheck = Measured | Unavailable | Replaced

  /** The target's own listing, the check that it is still there, its allocation and its eligible entries. */
  method OpenTarget(acc: Accumulator, target: Node, capacity: CapacityCheck, ghost facts: Identity -> Meta)
    returns (ok: bool, eligible: seq<Node>, failures: seq<Failure>, targetAllocated: Option<int>, unique: int)
    requires target.meta == facts(Id(target)) && IsDirectory(target) && acc.largest.recorded == []
    requires acc.firsts == [] && acc.visited == acc.enumerated == 0 && acc.remoteMounts == [] && !acc.limitReached
    modifies acc`enumerated, acc`limitReached, acc`excludedEntries, acc`crossDevice, acc`remoteMounts, acc`globalInodes
    ensures !ok ==> ListingGap(acc.p, target) || capacity.Replaced?
    ensures capacity.Replaced? ==> !ok
    ensures !acc.limitReached && ok ==> eligible == Admitted(acc.p, Listing(acc.p, target))
    ensures acc.enumerated <= acc.p.maxEntries && |eligible| <= acc.enumerated
    ensures acc.enumerated + EntriesOfAll(acc.p, eligible, 1) <= TargetEntries(acc.p, target)
    ensures WithinBudget(acc.p, target) ==> !acc.limitReached
    ensures ok ==> acc.FilesOnce(facts) && acc.globalInodes == {Id(target)}
    ensures ok ==> unique == Sum(acc.globalInodes, Allocation(facts))
    ensures WalkAll(acc.p, eligible, 1) <= WalkSlots(acc.p, target.slots, 1)
    ensures !acc.limitReached ==>
      (ok && failures == [] && acc.remoteMounts == [] && !BranchSees(acc.p, eligible) <==>
       !capacity.Replaced? && !TargetSees(acc.p, target))
  {
    hide Walk, WalkAll, WalkSlots, EntriesOfAll, EntriesOfSlots, Listing, Admitted, ListingFlaw, BranchSees,
         OncePerFile;
    eligible, targetAllocated, unique := [], None, 0;
    NothingBelow(acc.p, 1);
    var immediate;
    ok, immediate, failures := acc.ListDirectory(target, 1);
    if !ok || capacity.Replaced? {
      ok := false;
      return;
    }
    NoFilesYet(target, facts);
    acc.globalInodes := {Id(target)};
    SumOfOne(Id(target), Allocation(facts));
    SumOfOne(Id(target), IsFile(facts));
    if target.meta.blocks < 0 {
      failures := failures + [Failure(target.path, AllocationFailure)];
    } else {
      unique := target.meta.blocks * ALLOCATED_BLOCK_BYTES;
      targetAllocated := Some(unique);
    }
    AdmittedWalks(acc.p, immediate);
    eligible := Eligible(acc, immediate);
  }

  lemma NoFilesYet(target: Node, facts: Identity -> Meta)
    requires target.meta == facts(Id(target)) && IsDirectory(target)
    ensures OncePerFile([], [], {Id(target)}, facts)
  {}

  /**
   * `scan` of an inspected target; None is the DiagnosticError of a target that cannot be enumerated or was replaced.
   */
  method Scan(target: Node, p: Policy, top: nat, capacity: CapacityCheck, ghost facts: Identity -> Meta)
    returns (r: Option<ScanResult>, acc: Accumulator, ghost eligible: seq<Node>, ghost logs: seq<multiset<Node>>)
    requires IsDirectory(target) && p.device == target.meta.device && top >= 1
    requires target.meta == facts(Id(target)) && Consistent(WalkSlots(p, target.slots, 1), facts)
    ensures acc.largest.Valid() && acc.p == p
    ensures r.None? ==> ListingGap(p, target) || capacity.Replaced?
    ensures capacity.Replaced? ==> r.None?
    ensures r.Some? ==> acc.visited <= acc.enumerated <= p.maxEntries && r.value.visited == acc.visited
    ensures r.Some? ==> Report(r.value, target, p, eligible, logs, facts)
    ensures r.Some? ==> |acc.largest.recorded| == Sum({Id(target)} + AllIds(logs), IsFile(facts))
    ensures r.Some? ==> OncePerFile(acc.firsts, acc.largest.recorded, {Id(target)} + AllIds(logs), facts)
    ensures r.Some? ==> FirstsAmong([], acc.firsts, logs)
    ensures r.Some? && acc.limitReached ==> Incomplete(r.value)
    ensures r.Some? && !acc.limitReached ==>
      && eligible == Admitted(p, Listing(p, target))
      && r.value.unique == UniqueTotal(p, eligible, {Id(target)}, facts)
      && Scanned(p, eligible, r.value.branches, logs, facts, true)
    ensures WithinBudget(p, target) ==> !acc.limitReached
    ensures !acc.limitReached ==> (r.Some? && !Incomplete(r.value) <==> capacity.Measured? && !TargetSees(p, target))
    ensures WithinBudget(p, target) && !TargetGap(p, target) && capacity.Measured? ==> r.Some? && !Incomplete(r.value)
    ensures SlotsBelow(target.slots) < p.maxEntries && NothingWrong(p, target) && capacity.Measured? ==>
      r.Some? && !Incomplete(r.value)
    ensures DirectoriesOnce(WalkSlots(p, target.slots, 1)) && TargetGap(p, target) ==> r.None? || Incomplete(r.value)
    ensures DirectoriesOnce(WalkSlots(p, target.slots, 1)) && r.Some? && !Incomplete(r.value) ==>
      exists ids :: CountsEverything(p, target, ids) && r.value.unique == Sum(ids, Allocation(facts))
  {
    hide TargetGap, TargetSees, NothingWrong, CountsEverything, SlotsBelow, EntriesOfSlots, EntriesOfAll, Walk,
         WalkAll, WalkSlots, Consistent, Ids, AllIds, Scanned, DirectoriesOnce, Largest.Valid, Sum, OncePerFile,
         FirstsAmong, Admitted, Listing, BranchSees, UniqueTotal;
    acc := new Accumulator(p, top);
    eligible, logs := [], [];
    if TargetSees(p, target) { SeenIsTargetGap(p, target); }
    NothingWrongIsNoGap(p, target);
    var ok, entries, failures, targetAllocated, unique := OpenTarget(acc, target, capacity, facts);
    if !ok { return None, acc, eligible, logs; }
    eligible := entries;
    PartIsConsistent(WalkAll(p, entries, 1), WalkSlots(p, target.slots, 1), facts);
    ghost var remote := acc.remoteMounts;
    var branches, more;
    branches, more, unique, logs := ScanBranches(acc, entries, unique, facts);
    failures := failures + more;
    if acc.limitReached { failures := failures + [Failure(target.path, EntryLimit)]; }
    var result := ScanResult(targetAllocated, unique, !capacity.Measured?, branches, failures, acc.depthLimited,
                             acc.remoteMounts, acc.visited);
    ScannedWeaker(p, entries, branches, logs, facts, !acc.limitReached, !Incomplete(result));
    r := Some(result);
    if DirectoriesOnce(WalkSlots(p, target.slots, 1)) && !Incomplete(result) {
      PartsHideNothing(p, entries, WalkSlots(p, target.slots, 1));
      CompleteIsHonest(result, target, p, entries, logs, facts);
    }
  }

  /** Without trouble there is no gap, and what there is bounds what enumerating it takes. */
  lemma NothingWrongIsNoGap(p: Policy, target: Node)
    ensures NothingWrong(p, target) ==> !TargetGap(p, target)
    ensures SlotsBelow(target.slots) < p.maxEntries ==> WithinBudget(p, target)
  {
    GapIs(p, target.slots, 1);
    EntriesAreSlots(p, target.slots, 1);
    hide SlotsGap, TroubleAt, EntriesOfSlots, SlotsBelow;
  }

  /** What a finished scan says, complete or not. */
  ghost predicate Report(r: ScanResult, target: Node, p: Policy, eligible: seq<Node>, logs: seq<multiset<Node>>,
                         facts: Identity -> Meta) {
    && |eligible| == |logs| && WalkAll(p, eligible, 1) <= WalkSlots(p, target.slots, 1)
    && Consistent(WalkSlots(p, target.slots, 1), facts)
    && r.unique == Sum({Id(target)} + AllIds(logs), Allocation(facts))
    && Scanned(p, eligible, r.branches, logs, facts, !Incomplete(r))
    && (!Incomplete(r) ==> eligible == Admitted(p, Listing(p, target)) && !TargetSees(p, target))
  }

  // ----- honest completeness

  lemma {:induction false} NoGapInParts(p: Policy, nodes: seq<Node>)
    requires forall i | 0 <= i < |nodes| :: !HasGap(p, nodes[i], 1)
    ensures !AnyGap(p, nodes, 1)
  {
    hide HasGap;
    if nodes != [] { NoGapInParts(p, nodes[..|nodes| - 1]); }
  }

  /** A gap that the scan can tell is a gap. */
  lemma SeenIsTargetGap(p: Policy, target: Node)
    requires TargetSees(p, target)
    ensures TargetGap(p, target)
  {
    hide HasGap, SeesGap, Listing, SlotsGap, StatGap, AnyGap;
    ListingWalks(p, target, 1);
    if BranchSees(p, Listing(p, target)) {
      var n :| n in Listing(p, target) && SeesGap(p, n, 1, START);
      SeenIsGap(p, n, 1, START);
      GapOfMember(p, Listing(p, target), n);
    }
  }

  lemma {:induction false} GapOfMember(p: Policy, nodes: seq<Node>, n: Node)
    requires n in nodes && HasGap(p, n, 1)
    ensures AnyGap(p, nodes, 1)
  {
    hide HasGap;
    if n != nodes[|nodes| - 1] { GapOfMember(p, nodes[..|nodes| - 1], n); }
  }

  lemma {:induction false} IdsOfWalks(p: Policy, nodes: seq<Node>, logs: seq<multiset<Node>>)
    requires |nodes| == |logs| && forall i | 0 <= i < |nodes| :: logs[i] == Walk(p, nodes[i], 1)
    ensures AllIds(logs) == Ids(WalkAll(p, nodes, 1))
  {
    hide Walk;
    if nodes != [] {
      var k := |nodes| - 1;
      IdsOfWalks(p, nodes[..k], logs[..k]);
      IdsOfPlus(WalkAll(p, nodes[..k], 1), Walk(p, nodes[k], 1));
    }
  }

  /** A complete scan has listed the target as a whole, and none of its branches met a gap. */
  lemma CompleteTarget(p: Policy, target: Node, eligible: seq<Node>)
    requires eligible == Admitted(p, Listing(p, target)) && !TargetSees(p, target)
    ensures WalkAll(p, eligible, 1) == WalkSlots(p, target.slots, 1)
    ensures TargetGap(p, target) ==> AnyGap(p, eligible, 1)
    ensures forall i | 0 <= i < |eligible| :: !SeesGap(p, eligible[i], 1, START)
  {
    hide Walk, WalkAll, WalkSlots, SlotsGap, AnyGap, Admitted, Listing, SeesGap;
    ListingWalks(p, target, 1);
    AdmittedWalks(p, Listing(p, target));
  }

  /** A branch that met no gap is the plain walk with nothing missing exactly when it hides nothing. */
  lemma WholeOrHidden(p: Policy, n: Node, facts: Identity -> Meta)
    requires !SeesGap(p, n, 1, START) && Consistent(Walk(p, n, 1), facts)
    ensures (Observed(p, n).log == Walk(p, n, 1) && !HasGap(p, n, 1)) <==> !Hides(p, n, 1, START)
  {
    hide Visit, Walk, HasGap, Hides, SeesGap, Consistent;
    assert multiset{} + Walk(p, n, 1) == Walk(p, n, 1);
    if Hides(p, n, 1, START) {
      HidingLoses(p, n, 1, START);
    } else {
      WholeUnlessHidden(p, n, 1, START, facts);
    }
  }

  /**
   * When a scan does not call itself incomplete, a branch is the plain recursive walk of its entry, with nothing
   * missing, exactly when no directory with something below it was met again in that branch. Where no branch hides
   * anything so, every branch and the unique total are those of the plain walk, and nothing the policy admits is
   * missing.
   */
  lemma CompleteIsHonest(r: ScanResult, target: Node, p: Policy, eligible: seq<Node>, logs: seq<multiset<Node>>,
                         facts: Identity -> Meta)
    requires Report(r, target, p, eligible, logs, facts) && !Incomplete(r)
    ensures |r.branches| == |eligible| == |logs|
    ensures forall i | 0 <= i < |eligible| ::
      (logs[i] == Walk(p, eligible[i], 1) && !HasGap(p, eligible[i], 1)) <==> !Hides(p, eligible[i], 1, START)
    ensures (forall i | 0 <= i < |eligible| :: !Hides(p, eligible[i], 1, START)) ==>
      && !TargetGap(p, target)
      && (forall i | 0 <= i < |eligible| :: States(r.branches[i], eligible[i], Walk(p, eligible[i], 1), facts))
      && AllIds(logs) == Ids(WalkSlots(p, target.slots, 1))
      && r.unique == Sum({Id(target)} + Ids(WalkSlots(p, target.slots, 1)), Allocation(facts))
      && CountsEverything(p, target, {Id(target)} + AllIds(logs))
  {
    hide States, Walk, HasGap, Hides, WalkAll, WalkSlots, TargetGap, TargetSees, AnyGap, SeesGap, Ids, AllIds, Sum,
         Observed, Admitted, Listing, Consistent;
    CompleteTarget(p, target, eligible);
    forall i | 0 <= i < |eligible|
      ensures (logs[i] == Walk(p, eligible[i], 1) && !HasGap(p, eligible[i], 1)) <==> !Hides(p, eligible[i], 1, START)
    {
      PartOfAll(p, eligible, i);
      PartIsConsistent(Walk(p, eligible[i], 1), WalkSlots(p, target.slots, 1), facts);
      WholeOrHidden(p, eligible[i], facts);
    }
    if forall i | 0 <= i < |eligible| :: !Hides(p, eligible[i], 1, START) {
      NoGapInParts(p, eligible);
      IdsOfWalks(p, eligible, logs);
      NoGapBelow(p, target);
      hide CountsEverything;
      if !SlotsGap(p, target.slots, 1) { WholeWalkCounts(p, target); }
    }
  }

  lemma NoGapBelow(p: Policy, target: Node)
    ensures !TargetGap(p, target) ==> !SlotsGap(p, target.slots, 1)
  {}

  // ----- honest totals

  /** The inodes found below directories met again, in branches at these entries. */
  ghost function SkippedBelow(p: Policy, nodes: seq<Node>): set<Identity> {
    set n, i | n in nodes && i in Skipped(p, n, 1, START) :: i
  }

  lemma {:induction false} SeenAndSkipped(p: Policy, nodes: seq<Node>)
    requires forall i | 0 <= i < |nodes| :: !SeesGap(p, nodes[i], 1, START)
    ensures SeenBelow(p, nodes) + SkippedBelow(p, nodes) == Ids(WalkAll(p, nodes, 1))
  {
    hide Walk, SeesGap, Observed, Skipped, Ids;
    if nodes == [] {
      IdsOfNothing();
    } else {
      var init, n := nodes[..|nodes| - 1], nodes[|nodes| - 1];
      assert nodes == init + [n];
      SeenAndSkipped(p, init);
      BranchIds(p, n);
      IdsOfPlus(WalkAll(p, init, 1), Walk(p, n, 1));
      hide WalkAll;
      assert SeenBelow(p, nodes) == SeenBelow(p, init) + Observed(p, n).inodes;
      assert SkippedBelow(p, nodes) == SkippedBelow(p, init) + Skipped(p, n, 1, START);
    }
  }

  lemma BranchIds(p: Policy, n: Node)
    requires !SeesGap(p, n, 1, START)
    ensures Observed(p, n).inodes + Skipped(p, n, 1, START) == Ids(Walk(p, n, 1))
  {
    SkippedAccountsForRest(p, n, 1, START);
    hide Walk, SeesGap, Visit, Skipped, Ids;
  }

  lemma SameStatement(b: BranchResult, n: Node, log: multiset<Node>, other: multiset<Node>, facts: Identity -> Meta)
    requires States(b, n, log, facts) && Ids(log) == Ids(other)
    ensures States(b, n, other, facts)
  {}

  /**
   * The totals of a scan that does not call itself incomplete: a branch sums over the inodes of the plain walk exactly
   * when every inode below a directory met again is also observed elsewhere in the branch, and the unique total
   * exactly when it is observed anywhere in the scan.
   */
  lemma CompleteTotals(r: ScanResult, target: Node, p: Policy, eligible: seq<Node>, logs: seq<multiset<Node>>,
                       facts: Identity -> Meta)
    requires Report(r, target, p, eligible, logs, facts) && !Incomplete(r)
    ensures |r.branches| == |eligible| == |logs|
    ensures forall i | 0 <= i < |eligible| ::
      Ids(logs[i]) == Ids(Walk(p, eligible[i], 1)) <==> Skipped(p, eligible[i], 1, START) <= Ids(logs[i])
    ensures forall i | 0 <= i < |eligible| && Skipped(p, eligible[i], 1, START) <= Ids(logs[i]) ::
      States(r.branches[i], eligible[i], Walk(p, eligible[i], 1), facts)
    ensures
      var seen, whole := {Id(target)} + AllIds(logs), {Id(target)} + Ids(WalkSlots(p, target.slots, 1));
      && r.unique == Sum(seen, Allocation(facts))
      && (seen == whole <==> SkippedBelow(p, eligible) <= seen)
  {
    hide States, Walk, WalkAll, WalkSlots, TargetGap, TargetSees, AnyGap, SeesGap, Ids, AllIds, Sum, Observed, Admitted,
         Listing, Consistent, Skipped, SkippedBelow, SeenBelow;
    CompleteTarget(p, target, eligible);
    forall i | 0 <= i < |eligible|
      ensures Ids(logs[i]) == Ids(Walk(p, eligible[i], 1)) <==> Skipped(p, eligible[i], 1, START) <= Ids(logs[i])
      ensures Skipped(p, eligible[i], 1, START) <= Ids(logs[i]) ==>
        States(r.branches[i], eligible[i], Walk(p, eligible[i], 1), facts)
    {
      ObservedIds(p, eligible[i]);
      BranchIds(p, eligible[i]);
      if Skipped(p, eligible[i], 1, START) <= Ids(logs[i]) {
        SameStatement(r.branches[i], eligible[i], logs[i], Walk(p, eligible[i], 1), facts);
      }
    }
    LogsAreSeen(p, eligible, logs);
    SeenAndSkipped(p, eligible);
  }

  /**
   * The largest files of a complete scan that hides nothing: the records, of which the top list keeps the first by
   * size and path, are one for each distinct regular inode of the plain walk, each under a path where the walk finds
   * it.
   */
  lemma LargestOfTheWalk(r: ScanResult, target: Node, p: Policy, eligible: seq<Node>, logs: seq<multiset<Node>>,
                         facts: Identity -> Meta, firsts: seq<Node>, recorded: seq<FileResult>)
    requires Report(r, target, p, eligible, logs, facts) && !Incomplete(r)
    requires forall i | 0 <= i < |eligible| :: !Hides(p, eligible[i], 1, START)
    requires OncePerFile(firsts, recorded, {Id(target)} + AllIds(logs), facts) && FirstsAmong([], firsts, logs)
    ensures OncePerFile(firsts, recorded, {Id(target)} + Ids(WalkSlots(p, target.slots, 1)), facts)
    ensures forall n | n in firsts :: n in WalkSlots(p, target.slots, 1)
  {
    CompleteIsHonest(r, target, p, eligible, logs, facts);
    hide *;
    forall n | n in firsts ensures n in WalkSlots(p, target.slots, 1) {
      var i := VisitedIn(firsts, logs, n);
      LogsArePart(r, target, p, eligible, logs, facts, i);
      assert logs[i][n] <= WalkSlots(p, target.slots, 1)[n];
    }
  }

  lemma VisitedIn(firsts: seq<Node>, logs: seq<multiset<Node>>, n: Node) returns (i: nat)
    requires FirstsAmong([], firsts, logs) && n in firsts
    ensures i < |logs| && n in logs[i]
  {
    assert firsts[0..] == firsts;
    i :| 0 <= i < |logs| && n in logs[i];
  }

  lemma LogsArePart(r: ScanResult, target: Node, p: Policy, eligible: seq<Node>, logs: seq<multiset<Node>>,
                    facts: Identity -> Meta, i: nat)
    requires Report(r, target, p, eligible, logs, facts) && i < |logs|
    ensures logs[i] <= WalkSlots(p, target.slots, 1)
  {
    hide Walk, WalkAll, WalkSlots;
    PartOfAll(p, eligible, i);
  }

  /** Where each directory occurs once, no branch hides anything. */
  lemma PartsHideNothing(p: Policy, nodes: seq<Node>, whole: multiset<Node>)
    requires WalkAll(p, nodes, 1) <= whole && DirectoriesOnce(whole)
    ensures forall i | 0 <= i < |nodes| :: !Hides(p, nodes[i], 1, START)
  {
    hide Walk, WalkAll, Hides;
    forall i | 0 <= i < |nodes| ensures !Hides(p, nodes[i], 1, START) {
      PartOfAll(p, nodes, i);
      PartHasDirectoriesOnce(Walk(p, nodes[i], 1), whole);
      OnceHidesNothing(p, nodes[i]);
    }
  }

  lemma PartHasDirectoriesOnce(part: multiset<Node>, whole: multiset<Node>)
    requires part <= whole && DirectoriesOnce(whole)
    ensures DirectoriesOnce(part)
  {
    forall m, n | m in part && n in part && IsDirectory(n) && Id(m) == Id(n) ensures m == n && part[n] == 1 {
      assert m in whole && n in whole;
      assert part[n] <= whole[n];
    }
  }

  lemma SumOfOne(i: Identity, f: Identity -> int)
    ensures Sum({i}, f) == f(i)
  {
    SumAdds({}, i, f);
    assert {} + {i} == {i};
  }
}
