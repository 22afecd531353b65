/** DiskHound's bounded walk: `list_directory`, `_scan_branch` and `scan`. */
module DiskScan {
  import opened Basics
  import opened DiskTree
  import opened DiskVisit
  import opened TopFiles

  datatype Category = MetadataFailure | DirectoryLimit | EnumerationFailure | AllocationFailure | EntryLimit

  datatype Failure = Failure(path: seq<int>, category: Category)

  /** The local variables of `_scan_branch`. */
  datatype Branch = Branch(
    inodes: set<Identity>,
    total: int,
    logical: int,
    files: int,
    newGlobal: int,
    failures: seq<Failure>)

  const NO_BRANCH: Branch := Branch({}, 0, 0, 0, 0, [])

  /** The totals of a branch are sums over its distinct inodes, each counted once. */
  ghost predicate Accounted(b: Branch, log: multiset<Node>, facts: Identity -> Meta) {
    && b.inodes == Ids(log)
    && b.total == Sum(b.inodes, Allocation(facts))
    && b.logical == Sum(b.inodes, Logical(facts))
    && b.files == Sum(b.inodes, IsFile(facts))
  }

  /** `allocated_bytes`, with nothing for a block count it refuses. */
  function AllocationOf(n: Node): int {
    if n.meta.blocks < 0 then 0 else n.meta.blocks * ALLOCATED_BLOCK_BYTES
  }

  function FileOf(n: Node): FileResult {
    FileResult(n.path, n.meta.size, AllocationOf(n))
  }

  /** `firsts` holds one entry of every regular inode among `inodes`, and `recorded` their file records. */
  ghost predicate OncePerFile(firsts: seq<Node>, recorded: seq<FileResult>, inodes: set<Identity>,
                              facts: Identity -> Meta) {
    && |firsts| == |recorded|
    && (forall i | 0 <= i < |firsts| ::
          && recorded[i] == FileOf(firsts[i]) && Id(firsts[i]) in inodes
          && firsts[i].meta == facts(Id(firsts[i])) && firsts[i].meta.kind.Regular?)
    && (forall i, j | 0 <= i < j < |firsts| :: Id(firsts[i]) != Id(firsts[j]))
    && (forall id | id in inodes && facts(id).kind.Regular? :: exists n :: n in firsts && Id(n) == id)
  }

  ghost predicate FilesRecorded(firsts: seq<Node>, recorded: seq<FileResult>, inodes: set<Identity>,
                                facts: Identity -> Meta) {
    OncePerFile(firsts, recorded, inodes, facts) && |recorded| == Sum(inodes, IsFile(facts))
  }

  /** The entries recorded since `before` are among the visited ones. */
  ghost predicate FirstsVisited(before: seq<Node>, firsts: seq<Node>, log: multiset<Node>) {
    before <= firsts && forall n | n in firsts[|before|..] :: n in log
  }

  class Accumulator {
    const p: Policy
    const largest: Largest
    var visited: nat
    var enumerated: nat
    var limitReached: bool
    var excludedEntries: nat
    var depthLimited: nat
    var crossDevice: nat
    var remoteMounts: seq<seq<int>>
    var globalInodes: set<Identity>
    ghost var firsts: seq<Node>

    constructor (p: Policy, top: nat)
      requires top >= 1
      ensures this.p == p && fresh(largest) && largest.Valid() && largest.recorded == []
      ensures visited == enumerated == depthLimited == 0 && !limitReached && remoteMounts == [] && globalInodes == {}
      ensures firsts == []
    {
      this.p := p;
      largest := new Largest(top);
      visited, enumerated, limitReached, excludedEntries, depthLimited, crossDevice := 0, 0, false, 0, 0, 0;
      remoteMounts, globalInodes, firsts := [], {}, [];
    }

    /** The loop over the directory stream; `raised` is an OSError of the stream itself. */
    method ReadEntries(n: Node, ghost depth: nat) returns (raised: bool, entries: seq<Node>, failures: seq<Failure>)
      requires enumerated <= p.maxEntries
      modifies `enumerated, `limitReached
      ensures old(enumerated) + |entries| <= enumerated <= old(enumerated) + |n.slots|
      ensures enumerated <= p.maxEntries && (old(limitReached) ==> limitReached)
      ensures old(enumerated) + |n.slots| < p.maxEntries ==> limitReached == old(limitReached)
      ensures raised ==> n.stops.Some?
      ensures !limitReached ==> raised == Raises(n)
      ensures !limitReached && !raised ==> entries == Readable(p, n.slots[..Smaller(|n.slots|, MAX_DIRECTORY_ENTRIES)])
      ensures !limitReached ==>
        (raised || failures != [] <==> n.stops.Some? || |n.slots| > MAX_DIRECTORY_ENTRIES || StatGap(p, n.slots))
      ensures WalkAll(p, entries, depth) <= WalkSlots(p, n.slots, depth)
      ensures EntriesOfAll(p, entries, depth) <= EntriesOfSlots(p, n.slots, depth)
    {
      hide Walk, HasGap, WalkSlots, WalkAll, SlotsGap, AnyGap, Entries, EntriesOfSlots, EntriesOfAll, Readable, Blind,
           StatGap;
      raised, entries, failures := false, [], [];
      NothingRead(p, n);
      var i := 0;
      while i < |n.slots|
        invariant 0 <= i <= |n.slots| && enumerated == old(enumerated) + i <= p.maxEntries
        invariant |entries| + |failures| == i <= MAX_DIRECTORY_ENTRIES && limitReached == old(limitReached)
        invariant n.stops.Some? ==> n.stops.value >= i
        invariant entries == Readable(p, n.slots[..i])
        invariant failures == [] <==> !StatGap(p, n.slots[..i])
      {
        ReadableWalks(p, n.slots[..i], depth);
        WalkSlotsPrefix(p, n.slots, i, depth);
        if n.stops == Some(i) { return true, entries, failures; }
        if enumerated >= p.maxEntries {
          limitReached := true;
          return false, entries, failures;
        }
        enumerated := enumerated + 1;
        if |entries| + |failures| >= MAX_DIRECTORY_ENTRIES {
          failures := failures + [Failure(n.path, DirectoryLimit)];
          return false, entries, failures;
        }
        var slot := n.slots[i];
        assert n.slots[..i + 1] == n.slots[..i] + [slot];
        ReadableSnoc(p, n.slots[..i], slot);
        StatGapSnoc(p, n.slots[..i], slot);
        if !Blind(p, slot.node) && slot.statFails {
          failures := failures + [Failure(slot.node.path, MetadataFailure)];
        } else {
          entries := entries + [slot.node];
        }
        i := i + 1;
      }
      assert n.slots[..|n.slots|] == n.slots;
      ReadableWalks(p, n.slots, depth);
      return n.stops.Some?, entries, failures;
    }

    /** `list_directory`; `ok` is false for an OSError. */
    method ListDirectory(n: Node, ghost depth: nat) returns (ok: bool, children: seq<Node>, failures: seq<Failure>)
      requires enumerated <= p.maxEntries
      modifies `enumerated, `limitReached
      ensures old(enumerated) + |children| <= enumerated <= p.maxEntries && (old(limitReached) ==> limitReached)
      ensures old(enumerated) + |n.slots| < p.maxEntries ==> limitReached == old(limitReached)
      ensures enumerated + EntriesOfAll(p, children, depth) <=
        old(enumerated) + |n.slots| + EntriesOfSlots(p, n.slots, depth)
      ensures !ok ==> children == [] && ListingGap(p, n)
      ensures !limitReached ==> children == Listing(p, n) && (ok && failures == [] <==> !ListingFlaw(p, n))
      ensures WalkAll(p, children, depth) <= WalkSlots(p, n.slots, depth)
    {
      hide Walk, HasGap, WalkSlots, SlotsGap, SortNodes, Entries, EntriesOfSlots, EntriesOfAll, Readable, StatGap;
      NothingBelow(p, depth);
      if enumerated >= p.maxEntries {
        limitReached := true;
        return true, [], [];
      }
      if n.openFails { return false, [], []; }
      var raised, entries;
      raised, entries, failures := ReadEntries(n, depth);
      if raised { return false, [], []; }
      SortWalks(p, entries, depth);
      return true, SortNodes(entries), failures;
    }

    /** `_skip_other_filesystem`, which also counts. */
    method SkipOtherFilesystem(n: Node) returns (skip: bool)
      modifies `remoteMounts, `crossDevice
      ensures skip == OnOtherFilesystem(p, n)
      ensures remoteMounts == old(remoteMounts) + if Blind(p, n) && p.crossFilesystems then [n.path] else []
      ensures crossDevice == old(crossDevice) + if skip && !(Blind(p, n) && p.crossFilesystems) then 1 else 0
    {
      if !Blind(p, n) && (p.crossFilesystems || n.meta.device == p.device) { return false; }
      if Blind(p, n) && p.crossFilesystems {
        remoteMounts := remoteMounts + [n.path];
      } else {
        crossDevice := crossDevice + 1;
      }
      return true;
    }

    /** Every distinct regular inode of the scan was offered to the list of largest files once. */
    ghost predicate FilesOnce(facts: Identity -> Meta)
      reads `globalInodes, `firsts, largest
    {
      FilesRecorded(firsts, largest.recorded, globalInodes, facts)
    }

    /** Counting the first observation of an inode in a branch, and perhaps in the scan. */
    method Account(n: Node, b: Branch, ghost log: multiset<Node>, ghost facts: Identity -> Meta) returns (next: Branch)
      requires Accounted(b, log, facts) && n.meta == facts(Id(n)) && Id(n) !in b.inodes && largest.Valid() &&
        FilesOnce(facts)
      modifies `globalInodes, `firsts, largest
      ensures largest.Valid() && globalInodes == old(globalInodes) + {Id(n)}
      ensures Accounted(next, log + multiset{n}, facts) && next.inodes == b.inodes + {Id(n)}
      ensures next.newGlobal - b.newGlobal ==
        Sum(globalInodes, Allocation(facts)) - Sum(old(globalInodes), Allocation(facts))
      ensures next.failures ==
        if n.meta.blocks < 0 then b.failures + [Failure(n.path, AllocationFailure)] else b.failures
      ensures firsts == old(firsts) + if n.meta.kind.Regular? && Id(n) !in old(globalInodes) then [n] else []
      ensures FilesOnce(facts)
    {
      var first := NoteInode(n, facts);
      var allocation := AllocationOf(n);
      hide *;
      next := b.(inodes := b.inodes + {Id(n)}, total := b.total + allocation,
                 newGlobal := b.newGlobal + if first then allocation else 0);
      if n.meta.blocks < 0 { next := next.(failures := b.failures + [Failure(n.path, AllocationFailure)]); }
      if n.meta.kind.Regular? { next := next.(logical := b.logical + n.meta.size, files := b.files + 1); }
      OneMoreAccounted(b, next, log, n, facts);
    }

    /** The scan-wide part of an observation: the inode set and, for the first name of a regular file, the top list. */
    method NoteInode(n: Node, ghost facts: Identity -> Meta) returns (first: bool)
      requires n.meta == facts(Id(n)) && largest.Valid() && FilesOnce(facts)
      modifies `globalInodes, `firsts, largest
      ensures largest.Valid() && FilesOnce(facts) && globalInodes == old(globalInodes) + {Id(n)}
      ensures first == (Id(n) !in old(globalInodes))
      ensures Sum(globalInodes, Allocation(facts)) - Sum(old(globalInodes), Allocation(facts)) ==
        if first then AllocationOf(n) else 0
      ensures firsts == old(firsts) + if n.meta.kind.Regular? && first then [n] else []
    {
      first := Id(n) !in globalInodes;
      GlobalSums(globalInodes, n, facts);
      if n.meta.kind.Regular? && first {
        NewFile(firsts, largest.recorded, globalInodes, facts, n);
      } else {
        NoNewFile(firsts, largest.recorded, globalInodes, facts, n);
      }
      hide Sum, FilesRecorded, Largest.Valid, Allocation, AllocationOf, FileOf;
      globalInodes := globalInodes + {Id(n)};
      if n.meta.kind.Regular? && first {
        largest.Record(FileOf(n));
        firsts := firsts + [n];
      }
    }

    /** Nothing was missed since the flags had these values. */
    ghost predicate Unflagged(depthLimitedBefore: nat, remoteBefore: seq<seq<int>>)
      reads this
    {
      !limitReached && depthLimited == depthLimitedBefore && remoteMounts == remoteBefore
    }

    /** The directory part of the branch loop: what to push, and what could not be listed. */
    method Descend(n: Node, depth: nat) returns (children: seq<Node>, failures: seq<Failure>)
      requires IsDirectory(n) && enumerated <= p.maxEntries && Admits(p, n)
      modifies `enumerated, `limitReached, `depthLimited
      ensures old(enumerated) + |children| <= enumerated <= p.maxEntries && (old(limitReached) ==> limitReached)
      ensures old(enumerated) + Entries(p, n, depth) < p.maxEntries ==> limitReached == old(limitReached)
      ensures enumerated + EntriesOfAll(p, children, depth + 1) <= old(enumerated) + Entries(p, n, depth)
      ensures !limitReached ==> children == if depth < p.maxDepth then Listing(p, n) else []
      ensures depthLimited == old(depthLimited) + if depth >= p.maxDepth && HasEntries(n) then 1 else 0
      ensures !limitReached ==>
        (failures == [] && depthLimited == old(depthLimited) <==>
         !if depth < p.maxDepth then ListingFlaw(p, n) else HasEntries(n))
      ensures multiset{n} + WalkAll(p, children, depth + 1) <= Walk(p, n, depth)
    {
      hide WalkSlots, WalkAll, SlotsGap, AnyGap, EntriesOfSlots, EntriesOfAll, Listing, ListingFlaw;
      NothingBelow(p, depth + 1);
      if depth >= p.maxDepth {
        if HasEntries(n) { depthLimited := depthLimited + 1; }
        return [], [];
      }
      var ok;
      ok, children, failures := ListDirectory(n, depth + 1);
      if !ok { failures := [Failure(n.path, EnumerationFailure)]; }
    }

    /** What is known of a branch between two iterations of its loop. */
    ghost predicate Between(b: Branch, log: multiset<Node>, facts: Identity -> Meta)
      reads this, largest
    {
      && largest.Valid() && enumerated <= p.maxEntries
      && FilesOnce(facts)
      && Accounted(b, log, facts)
      && b.inodes <= globalInodes
    }

    /** The branch loop's work on an admitted entry whose inode is new to the branch. */
    method VisitFirst(n: Node, depth: nat, b: Branch, ghost log: multiset<Node>, ghost facts: Identity -> Meta)
      returns (next: Branch, children: seq<Node>)
      requires Between(b, log, facts) && Admits(p, n) && n.meta == facts(Id(n)) && Id(n) !in b.inodes
      modifies `enumerated, `limitReached, `depthLimited, `globalInodes, `firsts, largest
      ensures Between(next, log + multiset{n}, facts)
      ensures old(enumerated) + |children| <= enumerated
      ensures (old(limitReached) ==> limitReached) && depthLimited >= old(depthLimited)
      ensures old(enumerated) + Entries(p, n, depth) < p.maxEntries ==> limitReached == old(limitReached)
      ensures enumerated + EntriesOfAll(p, children, depth + 1) <= old(enumerated) + Entries(p, n, depth)
      ensures globalInodes == old(globalInodes) + next.inodes && next.inodes == b.inodes + {Id(n)}
      ensures !limitReached ==> children == Entered(p, n, depth, Trace(log, b.inodes))
      ensures !limitReached ==>
        (next.failures == [] && depthLimited == old(depthLimited) <==>
         b.failures == [] && !MeetsGap(p, n, depth, Trace(log, b.inodes)))
      ensures FirstsVisited(old(firsts), firsts, multiset{n})
      ensures next.newGlobal - b.newGlobal ==
        Sum(globalInodes, Allocation(facts)) - Sum(old(globalInodes), Allocation(facts))
      ensures multiset{n} + WalkAll(p, children, depth + 1) <= Walk(p, n, depth)
    {
      hide Walk, WalkAll, Ids, Sum, Entries, EntriesOfAll, Largest.Valid, Listing, ListingFlaw, HasEntries,
           Accumulator.FilesOnce, FileOf, Blind, OnOtherFilesystem;
      NothingBelow(p, depth + 1);
      AdmittedFacts(p, n, depth);
      next := Account(n, b, log, facts);
      children := [];
      if IsDirectory(n) {
        var failures;
        children, failures := Descend(n, depth);
        next := next.(failures := next.failures + failures);
      }
      assert globalInodes == old(globalInodes) + next.inodes;
    }

    /** The branch loop's work on an entry the policy admits. */
    method VisitAdmitted(n: Node, depth: nat, b: Branch, ghost log: multiset<Node>, ghost facts: Identity -> Meta)
      returns (next: Branch, children: seq<Node>)
      requires Between(b, log, facts) && Admits(p, n) && n.meta == facts(Id(n))
      modifies `enumerated, `limitReached, `depthLimited, `globalInodes, `firsts, largest
      ensures Between(next, log + multiset{n}, facts)
      ensures old(enumerated) + |children| <= enumerated
      ensures (old(limitReached) ==> limitReached) && depthLimited >= old(depthLimited)
      ensures old(enumerated) + Entries(p, n, depth) < p.maxEntries ==> limitReached == old(limitReached)
      ensures enumerated + EntriesOfAll(p, children, depth + 1) <= old(enumerated) + Entries(p, n, depth)
      ensures globalInodes == old(globalInodes) + next.inodes && next.inodes == b.inodes + {Id(n)}
      ensures !limitReached ==> children == Entered(p, n, depth, Trace(log, b.inodes))
      ensures !limitReached ==>
        (next.failures == [] && depthLimited == old(depthLimited) <==>
         b.failures == [] && !MeetsGap(p, n, depth, Trace(log, b.inodes)))
      ensures FirstsVisited(old(firsts), firsts, multiset{n})
      ensures next.newGlobal - b.newGlobal ==
        Sum(globalInodes, Allocation(facts)) - Sum(old(globalInodes), Allocation(facts))
      ensures multiset{n} + WalkAll(p, children, depth + 1) <= Walk(p, n, depth)
    {
      if Id(n) in b.inodes {
        hide Walk, WalkAll, Ids, Sum, Entries, EntriesOfAll, Largest.Valid, Listing;
        NothingBelow(p, depth + 1);
        AdmittedFacts(p, n, depth);
        RepeatAccounted(b, log, n, facts);
        assert globalInodes == globalInodes + b.inodes;
        return b, [];
      }
      hide *;
      next, children := VisitFirst(n, depth, b, log, facts);
    }

    /** The branch loop's work on one popped entry. */
    method VisitEntry(n: Node, depth: nat, b: Branch, ghost log: multiset<Node>, ghost facts: Identity -> Meta)
      returns (next: Branch, children: seq<Node>, ghost nextLog: multiset<Node>)
      requires Between(b, log, facts)
      requires Admits(p, n) ==> n.meta == facts(Id(n))
      modifies `enumerated, `limitReached, `depthLimited, `excludedEntries, `crossDevice, `remoteMounts, `globalInodes,
        `firsts, largest
      ensures Between(next, nextLog, facts)
      ensures old(enumerated) + |children| <= enumerated
      ensures (old(limitReached) ==> limitReached) && depthLimited >= old(depthLimited)
      ensures old(remoteMounts) <= remoteMounts
      ensures old(enumerated) + Entries(p, n, depth) < p.maxEntries ==> limitReached == old(limitReached)
      ensures enumerated + EntriesOfAll(p, children, depth + 1) <= old(enumerated) + Entries(p, n, depth)
      ensures excludedEntries == old(excludedEntries) + if p.excluded(n.path) then 1 else 0
      ensures globalInodes == old(globalInodes) + next.inodes
      ensures Trace(nextLog, next.inodes) == Noted(p, n, Trace(log, b.inodes))
      ensures !limitReached ==> children == Entered(p, n, depth, Trace(log, b.inodes))
      ensures !limitReached ==>
        (next.failures == [] && Unflagged(old(depthLimited), old(remoteMounts)) <==>
         b.failures == [] && !MeetsGap(p, n, depth, Trace(log, b.inodes)))
      ensures FirstsVisited(old(firsts), firsts, nextLog)
      ensures next.newGlobal - b.newGlobal ==
        Sum(globalInodes, Allocation(facts)) - Sum(old(globalInodes), Allocation(facts))
      ensures nextLog + WalkAll(p, children, depth + 1) <= log + Walk(p, n, depth)
    {
      hide Walk, WalkAll, Ids, Sum, Accounted, Entries, EntriesOfAll, Largest.Valid, Listing, ListingFlaw, HasEntries;
      NothingBelow(p, depth + 1);
      assert globalInodes == globalInodes + b.inodes;
      next, children, nextLog := b, [], log;
      if p.excluded(n.path) {
        excludedEntries := excludedEntries + 1;
        return;
      }
      var skip := SkipOtherFilesystem(n);
      if skip { return; }
      next, children := VisitAdmitted(n, depth, b, log, facts);
      nextLog := log + multiset{n};
    }

    /** The visit of the entry on top of the stack, with what it means for the whole branch. */
    method VisitTop(ghost initial: Node, ghost rest: seq<(Node, nat)>, n: Node, depth: nat, b: Branch,
                    ghost log: multiset<Node>, ghost facts: Identity -> Meta, ghost quiet: bool, ghost bound: nat)
      returns (next: Branch, children: seq<Node>, ghost nextLog: multiset<Node>)
      requires Between(b, log, facts) && Consistent(Walk(p, initial, 1), facts)
      requires OnCourse(p, initial, Trace(log, b.inodes), rest + [(n, depth)], quiet, !limitReached)
      requires quiet ==> b.failures == []
      requires enumerated + StackEntries(p, rest + [(n, depth)]) <= bound
      modifies `enumerated, `limitReached, `depthLimited, `excludedEntries, `crossDevice, `remoteMounts, `globalInodes,
        `firsts, largest
      ensures Between(next, nextLog, facts)
      ensures old(enumerated) + |children| <= enumerated
      ensures (old(limitReached) ==> limitReached) && depthLimited >= old(depthLimited)
      ensures old(remoteMounts) <= remoteMounts
      ensures enumerated + StackEntries(p, rest + Pushed(children, depth + 1)) <= bound
      ensures bound < p.maxEntries ==> limitReached == old(limitReached)
      ensures globalInodes == old(globalInodes) + next.inodes && b.inodes <= next.inodes
      ensures FirstsVisited(old(firsts), firsts, nextLog)
      ensures next.newGlobal - b.newGlobal ==
        Sum(globalInodes, Allocation(facts)) - Sum(old(globalInodes), Allocation(facts))
      ensures log <= nextLog && |nextLog| <= |log| + 1
      ensures OnCourse(p, initial, Trace(nextLog, next.inodes), rest + Pushed(children, depth + 1),
                       quiet && next.failures == [] && Unflagged(old(depthLimited), old(remoteMounts)), !limitReached)
      ensures next.failures == [] && Unflagged(old(depthLimited), old(remoteMounts)) ==> b.failures == []
    {
      ghost var spent, t := enumerated, Trace(log, b.inodes);
      PoppedFacts(p, initial, rest, n, depth, t, quiet, !limitReached, facts);
      NotedGrows(p, n, t);
      hide *;
      ghost var unlimited := !limitReached;
      PaidTop(p, rest, n, depth);
      next, children, nextLog := VisitEntry(n, depth, b, log, facts);
      CourseStep(p, initial, t, rest, n, depth, Trace(nextLog, next.inodes), children, quiet,
                 quiet && next.failures == [] && Unflagged(old(depthLimited), old(remoteMounts)), unlimited,
                 !limitReached);
      PaidStep(p, rest, n, depth, children, spent, enumerated, bound);
    }

    /** `_scan_branch`: an explicit stack, each entry visited once, every enumerated entry within the budget. */
    method ScanBranch(initial: Node, ghost reserve: nat, ghost facts: Identity -> Meta)
      returns (b: Branch, ghost log: multiset<Node>)
      requires largest.Valid() && Consistent(Walk(p, initial, 1), facts) && FilesOnce(facts)
      requires visited + 1 + reserve <= enumerated <= p.maxEntries
      modifies `visited, `enumerated, `limitReached, `depthLimited, `excludedEntries, `crossDevice, `remoteMounts,
        `globalInodes, `firsts, largest
      ensures largest.Valid() && FilesOnce(facts) && visited + reserve <= enumerated <= p.maxEntries
      ensures Accounted(b, log, facts) && log <= Walk(p, initial, 1)
      ensures visited - old(visited) >= |log|
      ensures globalInodes == old(globalInodes) + b.inodes
      ensures b.newGlobal == Sum(globalInodes, Allocation(facts)) - Sum(old(globalInodes), Allocation(facts))
      ensures (old(limitReached) ==> limitReached) && depthLimited >= old(depthLimited)
      ensures old(remoteMounts) <= remoteMounts
      ensures enumerated <= old(enumerated) + Entries(p, initial, 1)
      ensures old(enumerated) + Entries(p, initial, 1) < p.maxEntries ==> limitReached == old(limitReached)
      ensures !limitReached ==> Trace(log, b.inodes) == Observed(p, initial)
      ensures !limitReached ==>
        (b.failures == [] && Unflagged(old(depthLimited), old(remoteMounts)) <==> !SeesGap(p, initial, 1, START))
      ensures FirstsVisited(old(firsts), firsts, log)
    {
      hide Walk, Ids, Sum, Accounted, Consistent, Pushed, OnCourse, Entries, StackEntries, Largest.Valid, SeesGap,
           Visit, FirstsVisited, Accumulator.FilesOnce;
      b, log := NO_BRANCH, multiset{};
      var pending: seq<(Node, nat)> := [(initial, 1)];
      StartOfBranch(p, initial, facts, !limitReached, firsts);
      ghost var bound := enumerated + Entries(p, initial, 1);
      while pending != []
        invariant Between(b, log, facts) && visited + |pending| + reserve <= enumerated
        invariant visited - old(visited) >= |log|
        invariant globalInodes == old(globalInodes) + b.inodes
        invariant b.newGlobal == Sum(globalInodes, Allocation(facts)) - Sum(old(globalInodes), Allocation(facts))
        invariant (old(limitReached) ==> limitReached) && depthLimited >= old(depthLimited)
        invariant old(remoteMounts) <= remoteMounts
        invariant OnCourse(p, initial, Trace(log, b.inodes), pending,
                           b.failures == [] && Unflagged(old(depthLimited), old(remoteMounts)), !limitReached)
        invariant enumerated + StackEntries(p, pending) <= bound
        invariant bound < p.maxEntries ==> limitReached == old(limitReached)
        invariant FirstsVisited(old(firsts), firsts, log)
        decreases 2 * (p.maxEntries - enumerated) + |pending|
      {
        var (n, depth) := pending[|pending| - 1];
        ghost var rest := pending[..|pending| - 1];
        assert pending == rest + [(n, depth)];
        pending := pending[..|pending| - 1];
        // The budget guard of the loop: every enumerated entry is within the budget, so it drops nothing.
        if visited >= p.maxEntries { assert false; }
        visited := visited + 1;
        ghost var earlier, visitedLog := firsts, log;
        ghost var quiet := b.failures == [] && Unflagged(old(depthLimited), old(remoteMounts));
        var children;
        b, children, log := VisitTop(initial, rest, n, depth, b, log, facts, quiet, bound);
        FirstsAdd(old(firsts), earlier, firsts, visitedLog, log);
        pending := pending + Pushed(children, depth + 1);
      }
      EndOfBranch(p, initial, Trace(log, b.inodes),
                  b.failures == [] && Unflagged(old(depthLimited), old(remoteMounts)), !limitReached);
    }
  }

  // ----- the stack

  function StackWalk(p: Policy, stack: seq<(Node, nat)>): multiset<Node> {
    if stack == [] then multiset{}
    else StackWalk(p, stack[..|stack| - 1]) + Walk(p, stack[|stack| - 1].0, stack[|stack| - 1].1)
  }

  function StackEntries(p: Policy, stack: seq<(Node, nat)>): nat {
    if stack == [] then 0
    else StackEntries(p, stack[..|stack| - 1]) + Entries(p, stack[|stack| - 1].0, stack[|stack| - 1].1)
  }

  lemma StackSnoc(p: Policy, stack: seq<(Node, nat)>, n: Node, depth: nat)
    ensures StackWalk(p, stack + [(n, depth)]) == StackWalk(p, stack) + Walk(p, n, depth)
    ensures StackEntries(p, stack + [(n, depth)]) == StackEntries(p, stack) + Entries(p, n, depth)
  {
    assert (stack + [(n, depth)])[..|stack|] == stack;
  }

  lemma {:induction false} PushWalks(p: Policy, stack: seq<(Node, nat)>, children: seq<Node>, depth: nat)
    ensures StackWalk(p, stack + Pushed(children, depth)) == StackWalk(p, stack) + WalkAll(p, children, depth)
    ensures StackEntries(p, stack + Pushed(children, depth)) ==
      StackEntries(p, stack) + EntriesOfAll(p, children, depth)
    decreases |children|
  {
    hide Walk, Entries;
    if children == [] {
      assert stack + Pushed(children, depth) == stack;
    } else {
      var init, c := children[..|children| - 1], children[|children| - 1];
      assert stack + Pushed(children, depth) == (stack + [(c, depth)]) + Pushed(init, depth);
      PushWalks(p, stack + [(c, depth)], init, depth);
      StackSnoc(p, stack, c, depth);
    }
  }

  // ----- the budget of the stack

  lemma PaidTop(p: Policy, rest: seq<(Node, nat)>, n: Node, depth: nat)
    ensures Entries(p, n, depth) <= StackEntries(p, rest + [(n, depth)])
  {
    StackSnoc(p, rest, n, depth);
  }

  /** Replacing a popped entry by its listed children stays within what the stack was allowed to enumerate. */
  lemma PaidStep(p: Policy, rest: seq<(Node, nat)>, n: Node, depth: nat, children: seq<Node>, before: nat, after: nat,
                 bound: nat)
    requires before + StackEntries(p, rest + [(n, depth)]) <= bound
    requires after + EntriesOfAll(p, children, depth + 1) <= before + Entries(p, n, depth)
    ensures after + StackEntries(p, rest + Pushed(children, depth + 1)) <= bound
  {
    hide *;
    StackSnoc(p, rest, n, depth);
    PushWalks(p, rest, children, depth + 1);
  }

  // ----- the course of a branch

  /**
   * The branch so far: what was visited and what is stacked stay within the plain walk, and while no limit was reached
   * the stack still leads to what the recursive walk observes and to the gaps it meets.
   */
  ghost predicate OnCourse(p: Policy, initial: Node, t: Trace, stack: seq<(Node, nat)>, quiet: bool, unlimited: bool) {
    && t.log + StackWalk(p, stack) <= Walk(p, initial, 1)
    && (unlimited ==> VisitStack(p, stack, t) == Observed(p, initial))
    && (unlimited ==> (quiet && !StackSees(p, stack, t) <==> !SeesGap(p, initial, 1, START)))
  }

  lemma StartOfBranch(p: Policy, initial: Node, facts: Identity -> Meta, unlimited: bool, firsts: seq<Node>)
    ensures OnCourse(p, initial, START, [(initial, 1)], unlimited, unlimited)
    ensures StackEntries(p, [(initial, 1)]) == Entries(p, initial, 1)
    ensures Accounted(NO_BRANCH, multiset{}, facts) && FirstsVisited(firsts, firsts, multiset{})
  {
    var stack := [(initial, 1 as nat)];
    assert stack == [] + [(initial, 1)] && stack[..|stack| - 1] == [];
    StackSnoc(p, [], initial, 1);
  }

  lemma EndOfBranch(p: Policy, initial: Node, t: Trace, quiet: bool, unlimited: bool)
    requires OnCourse(p, initial, t, [], quiet, unlimited)
    ensures t.log <= Walk(p, initial, 1)
    ensures unlimited ==> t == Observed(p, initial) && (quiet <==> !SeesGap(p, initial, 1, START))
  {}

  /** Replacing a popped walk by the visited entry and its children stays within the whole. */
  lemma BalanceStep(p: Policy, whole: multiset<Node>, log: multiset<Node>, rest: seq<(Node, nat)>, n: Node, depth: nat,
                    next: multiset<Node>, children: seq<Node>)
    requires log + StackWalk(p, rest + [(n, depth)]) <= whole
    requires next + WalkAll(p, children, depth + 1) <= log + Walk(p, n, depth)
    ensures next + StackWalk(p, rest + Pushed(children, depth + 1)) <= whole
  {
    hide Walk, WalkAll, StackWalk;
    StackSnoc(p, rest, n, depth);
    PushWalks(p, rest, children, depth + 1);
    var below, popped, added := StackWalk(p, rest), Walk(p, n, depth), WalkAll(p, children, depth + 1);
    assert next + (below + added) == below + (next + added);
    assert log + (below + popped) == below + (log + popped);
  }

  /** One iteration keeps the branch on course. */
  lemma CourseStep(p: Policy, initial: Node, t: Trace, rest: seq<(Node, nat)>, n: Node, depth: nat, next: Trace,
                   children: seq<Node>, quiet: bool, nextQuiet: bool, unlimited: bool, nextUnlimited: bool)
    requires OnCourse(p, initial, t, rest + [(n, depth)], quiet, unlimited)
    requires next == Noted(p, n, t) && next.log + WalkAll(p, children, depth + 1) <= t.log + Walk(p, n, depth)
    requires nextUnlimited ==> unlimited && children == Entered(p, n, depth, t)
    requires nextUnlimited ==> (nextQuiet <==> quiet && !MeetsGap(p, n, depth, t))
    ensures OnCourse(p, initial, next, rest + Pushed(children, depth + 1), nextQuiet, nextUnlimited)
  {
    hide Walk, WalkAll, StackWalk, VisitStack, StackSees, SeesGap, Visit, Noted, Entered, MeetsGap, Pushed;
    BalanceStep(p, Walk(p, initial, 1), t.log, rest, n, depth, next.log, children);
    PopVisits(p, rest, n, depth, t);
  }

  /** A popped entry is part of the walk. */
  lemma PoppedFacts(p: Policy, initial: Node, rest: seq<(Node, nat)>, n: Node, depth: nat, t: Trace,
                    quiet: bool, unlimited: bool, facts: Identity -> Meta)
    requires OnCourse(p, initial, t, rest + [(n, depth)], quiet, unlimited) && Consistent(Walk(p, initial, 1), facts)
    ensures Admits(p, n) ==> n.meta == facts(Id(n))
  {
    StackSnoc(p, rest, n, depth);
    if Admits(p, n) {
      assert n in Walk(p, n, depth);
      hide Walk;
      assert Walk(p, initial, 1)[n] >= 1;
    }
  }

  lemma NotedGrows(p: Policy, n: Node, t: Trace)
    ensures t.log <= Noted(p, n, t).log && |Noted(p, n, t).log| <= |t.log| + 1 && t.inodes <= Noted(p, n, t).inodes
  {}

  // ----- accounting

  lemma FirstsAdd(before: seq<Node>, earlier: seq<Node>, firsts: seq<Node>, log: multiset<Node>, next: multiset<Node>)
    requires FirstsVisited(before, earlier, log) && FirstsVisited(earlier, firsts, next) && log <= next
    ensures FirstsVisited(before, firsts, next)
  {
    forall n | n in firsts[|before|..] ensures n in next {
      assert firsts[|before|..] == earlier[|before|..] + firsts[|earlier|..];
      if n in earlier[|before|..] { assert log[n] <= next[n]; }
    }
  }

  lemma OneMoreAccounted(b: Branch, next: Branch, log: multiset<Node>, n: Node, facts: Identity -> Meta)
    requires Accounted(b, log, facts) && n.meta == facts(Id(n)) && Id(n) !in b.inodes
    requires next.inodes == b.inodes + {Id(n)} && next.total == b.total + AllocationOf(n)
    requires next.logical == b.logical + (if n.meta.kind.Regular? then n.meta.size else 0)
    requires next.files == b.files + (if n.meta.kind.Regular? then 1 else 0)
    ensures Accounted(next, log + multiset{n}, facts)
  {
    IdsOfSum(log, n);
    SumAdds(b.inodes, Id(n), Allocation(facts));
    SumAdds(b.inodes, Id(n), Logical(facts));
    SumAdds(b.inodes, Id(n), IsFile(facts));
    hide Ids, Sum;
  }

  lemma OneMoreSummand(ids: set<Identity>, i: Identity, f: Identity -> int)
    ensures Sum(ids + {i}, f) == Sum(ids, f) + if i in ids then 0 else f(i)
  {
    if i in ids { assert ids + {i} == ids; } else { SumAdds(ids, i, f); }
  }

  lemma GlobalSums(ids: set<Identity>, n: Node, facts: Identity -> Meta)
    requires n.meta == facts(Id(n))
    ensures Sum(ids + {Id(n)}, Allocation(facts)) - Sum(ids, Allocation(facts)) ==
      if Id(n) in ids then 0 else AllocationOf(n)
  {
    OneMoreSummand(ids, Id(n), Allocation(facts));
  }

  /** The first name of a regular inode gets its record. */
  lemma NewFile(firsts: seq<Node>, recorded: seq<FileResult>, inodes: set<Identity>, facts: Identity -> Meta, n: Node)
    requires FilesRecorded(firsts, recorded, inodes, facts) && n.meta == facts(Id(n))
    requires n.meta.kind.Regular? && Id(n) !in inodes
    ensures FilesRecorded(firsts + [n], recorded + [FileOf(n)], inodes + {Id(n)}, facts)
  {
    OneMoreSummand(inodes, Id(n), IsFile(facts));
    hide Sum, FileOf;
    var more := firsts + [n];
    forall id | id in inodes + {Id(n)} && facts(id).kind.Regular? ensures exists m :: m in more && Id(m) == id {
      if id in inodes {
        var m :| m in firsts && Id(m) == id;
        assert m in more;
      } else {
        assert more[|firsts|] == n;
      }
    }
  }

  /** Any other observation leaves the records as they are. */
  lemma NoNewFile(firsts: seq<Node>, recorded: seq<FileResult>, inodes: set<Identity>, facts: Identity -> Meta, n: Node)
    requires FilesRecorded(firsts, recorded, inodes, facts) && n.meta == facts(Id(n))
    requires !n.meta.kind.Regular? || Id(n) in inodes
    ensures FilesRecorded(firsts, recorded, inodes + {Id(n)}, facts)
  {
    OneMoreSummand(inodes, Id(n), IsFile(facts));
    hide Sum, FileOf;
  }

  lemma AdmittedFacts(p: Policy, n: Node, depth: nat)
    requires Admits(p, n)
    ensures multiset{n} <= Walk(p, n, depth) && (!IsDirectory(n) ==> Entries(p, n, depth) == 0)
  {}

  lemma RepeatAccounted(b: Branch, log: multiset<Node>, n: Node, facts: Identity -> Meta)
    requires Accounted(b, log, facts) && Id(n) in b.inodes
    ensures Accounted(b, log + multiset{n}, facts)
  {
    IdsOfSum(log, n);
    assert Ids(log) + {Id(n)} == Ids(log);
  }

  lemma NothingRead(p: Policy, n: Node)
    ensures Readable(p, n.slots[..0]) == [] && !StatGap(p, n.slots[..0])
  {
    assert n.slots[..0] == [];
  }
}
