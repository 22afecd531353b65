/** The plain walk and its gaps in terms of chains of directory entries, one below the other. */
module DiskPaths {
  import opened Basics
  import opened DiskTree

  /** The policy lets an entry in: not excluded, no remote mount left out, and on a file system that is entered. */
  predicate Allowed(p: Policy, c: Node) {
    && !p.excluded(c.path)
    && !(c.remote && !p.includeRemoteMounts)
    && (p.crossFilesystems || c.meta.device == p.device)
  }

  /** What one wants to see: a scan that crosses file systems wants remote mounts as well. */
  predicate Wanted(p: Policy, c: Node) {
    && !p.excluded(c.path)
    && (p.crossFilesystems || (!(c.remote && !p.includeRemoteMounts) && c.meta.device == p.device))
  }

  /** The chain starts in `slots`, and each of its entries is in the directory before it. */
  ghost predicate Leads(slots: seq<Slot>, chain: seq<Slot>) {
    && chain != [] && chain[0] in slots
    && forall j, k | 0 <= j < |chain| && k == j + 1 < |chain| :: IsIn(chain[k], chain[j])
  }

  predicate IsIn(s: Slot, above: Slot) {
    above.node.meta.kind == Directory && s in above.node.slots
  }

  ghost predicate AllAllowed(p: Policy, chain: seq<Slot>) {
    forall s | s in chain :: Allowed(p, s.node)
  }

  ghost predicate AllWanted(p: Policy, chain: seq<Slot>) {
    forall s | s in chain :: Wanted(p, s.node)
  }

  /** Entries at `depth` and below are within the depth limit as long as the directories above them are. */
  predicate WithinDepth(p: Policy, depth: nat, chain: seq<Slot>) {
    |chain| <= 1 || depth + |chain| - 2 < p.maxDepth
  }

  /** The chain leads to an entry of the walk. */
  ghost predicate WalksTo(p: Policy, slots: seq<Slot>, depth: nat, chain: seq<Slot>, n: Node) {
    && Leads(slots, chain) && AllAllowed(p, chain) && WithinDepth(p, depth, chain)
    && chain[|chain| - 1].node == n
  }

  lemma LeadsOn(slots: seq<Slot>, chain: seq<Slot>)
    requires Leads(slots, chain) && |chain| > 1
    ensures chain[0].node.meta.kind == Directory && Leads(chain[0].node.slots, chain[1..])
    ensures chain == [chain[0]] + chain[1..] && chain[1..][|chain| - 2] == chain[|chain| - 1]
  {
    assert IsIn(chain[1], chain[0]);
    var rest := chain[1..];
    forall j, k | 0 <= j < |rest| && k == j + 1 < |rest| ensures IsIn(rest[k], rest[j]) {
      assert IsIn(chain[k + 1], chain[j + 1]);
    }
  }

  lemma LeadsBelow(slots: seq<Slot>, s: Slot, below: seq<Slot>)
    requires s in slots && s.node.meta.kind == Directory && Leads(s.node.slots, below)
    ensures Leads(slots, [s] + below)
  {
    var chain := [s] + below;
    forall j, k | 0 <= j < |chain| && k == j + 1 < |chain| ensures IsIn(chain[k], chain[j]) {
      if j > 0 { assert IsIn(below[k - 1], below[j - 1]); }
    }
  }

  /** The walk and the gaps of one slot are part of those of all. */
  lemma {:induction false} SlotIsPart(p: Policy, slots: seq<Slot>, s: Slot, depth: nat)
    requires s in slots
    ensures Walk(p, s.node, depth) <= WalkSlots(p, slots, depth)
    ensures SlotGap(p, s, depth) ==> SlotsGap(p, slots, depth)
    decreases |slots|
  {
    hide Walk, SlotGap;
    var init, last := slots[..|slots| - 1], slots[|slots| - 1];
    assert slots == init + [last];
    WalkSlotsSnoc(p, init, last, depth);
    if s != last { SlotIsPart(p, init, s, depth); }
  }

  /** One unfolding of the walk. */
  lemma WalkOpens(p: Policy, n: Node, depth: nat)
    ensures Walk(p, n, depth) ==
      if !Allowed(p, n) then multiset{}
      else multiset{n} +
           if n.meta.kind == Directory && depth < p.maxDepth then WalkSlots(p, n.slots, depth + 1) else multiset{}
  {
    hide WalkSlots;
  }

  /** What is walked below an allowed directory is walked. */
  lemma WalkedBelow(p: Policy, slots: seq<Slot>, s: Slot, depth: nat, n: Node)
    requires s in slots && Allowed(p, s.node)
    requires
      || n == s.node
      || (s.node.meta.kind == Directory && depth < p.maxDepth && n in WalkSlots(p, s.node.slots, depth + 1))
    ensures n in WalkSlots(p, slots, depth)
  {
    SlotIsPart(p, slots, s, depth);
    WalkOpens(p, s.node, depth);
    hide Walk, WalkSlots;
    assert Walk(p, s.node, depth)[n] >= 1;
    assert WalkSlots(p, slots, depth)[n] >= Walk(p, s.node, depth)[n];
  }

  lemma {:induction false} ChainIsWalked(p: Policy, slots: seq<Slot>, depth: nat, chain: seq<Slot>, n: Node)
    requires WalksTo(p, slots, depth, chain, n)
    ensures n in WalkSlots(p, slots, depth)
    decreases |chain|
  {
    var s := chain[0];
    assert s in chain && Allowed(p, s.node);
    hide Walk, WalkSlots, Allowed;
    if |chain| > 1 {
      LeadsOn(slots, chain);
      ChainIsWalked(p, s.node.slots, depth + 1, chain[1..], n);
    }
    WalkedBelow(p, slots, s, depth, n);
  }

  lemma {:induction false} ChainInSlots(p: Policy, slots: seq<Slot>, depth: nat, n: Node) returns (chain: seq<Slot>)
    requires n in WalkSlots(p, slots, depth)
    ensures WalksTo(p, slots, depth, chain, n)
    decreases slots, 2
  {
    var init, last := slots[..|slots| - 1], slots[|slots| - 1];
    assert slots == init + [last];
    WalkSlotsSnoc(p, init, last, depth);
    if n in WalkSlots(p, init, depth) {
      chain := ChainInSlots(p, init, depth, n);
    } else {
      chain := ChainInSlot(p, last, depth, n);
      assert chain[0] in slots;
    }
  }

  lemma {:induction false} ChainInSlot(p: Policy, s: Slot, depth: nat, n: Node) returns (chain: seq<Slot>)
    requires n in Walk(p, s.node, depth)
    ensures WalksTo(p, [s], depth, chain, n) && chain[0] == s
    decreases s, 1
  {
    WalkOpens(p, s.node, depth);
    if n == s.node {
      chain := [s];
    } else {
      var below := ChainInSlots(p, s.node.slots, depth + 1, n);
      chain := [s] + below;
      LeadsBelow([s], s, below);
      assert chain[|chain| - 1] == below[|below| - 1];
    }
  }

  /** An entry is in the plain walk exactly when a chain of allowed entries leads to it within the depth limit. */
  lemma WalkIs(p: Policy, slots: seq<Slot>, depth: nat, n: Node)
    ensures n in WalkSlots(p, slots, depth) <==> exists chain :: WalksTo(p, slots, depth, chain, n)
  {
    if n in WalkSlots(p, slots, depth) { var chain := ChainInSlots(p, slots, depth, n); }
    if chain :| WalksTo(p, slots, depth, chain, n) { ChainIsWalked(p, slots, depth, chain, n); }
  }

  // ----- gaps

  /** Something about the entry stays unknown, or about what is in it. */
  predicate Trouble(p: Policy, s: Slot, depth: nat) {
    var n := s.node;
    || (s.statFails && !(n.remote && !p.includeRemoteMounts))
    || (!p.excluded(n.path) && n.remote && !p.includeRemoteMounts && p.crossFilesystems)
    || (Allowed(p, n) && n.meta.blocks < 0)
    || (Allowed(p, n) && n.meta.kind == Directory && CannotList(p, n, depth))
  }

  /** Listing fails at once or halfway, or there is more in the directory than is listed. */
  predicate CannotList(p: Policy, n: Node, depth: nat) {
    n.openFails || n.stops.Some? || |n.slots| > if depth < p.maxDepth then MAX_DIRECTORY_ENTRIES else 0
  }

  /** Allowed directories within the depth limit lead to an entry in trouble. */
  ghost predicate TroubleAt(p: Policy, slots: seq<Slot>, depth: nat, chain: seq<Slot>) {
    && Leads(slots, chain) && AllAllowed(p, chain[..|chain| - 1]) && WithinDepth(p, depth, chain)
    && Trouble(p, chain[|chain| - 1], depth + |chain| - 1)
  }

  /** One unfolding of a gap. */
  lemma GapOpens(p: Policy, s: Slot, depth: nat)
    ensures SlotGap(p, s, depth) <==>
      || Trouble(p, s, depth)
      || (Allowed(p, s.node) && s.node.meta.kind == Directory && depth < p.maxDepth &&
          SlotsGap(p, s.node.slots, depth + 1))
  {
    hide SlotsGap;
  }

  lemma TroubleBelow(p: Policy, slots: seq<Slot>, depth: nat, chain: seq<Slot>)
    requires TroubleAt(p, slots, depth, chain) && |chain| > 1
    ensures Allowed(p, chain[0].node) && chain[0].node.meta.kind == Directory && depth < p.maxDepth
    ensures TroubleAt(p, chain[0].node.slots, depth + 1, chain[1..])
  {
    LeadsOn(slots, chain);
    var rest := chain[1..];
    assert chain[0] in chain[..|chain| - 1];
    assert rest[..|rest| - 1] == chain[..|chain| - 1][1..];
    hide Leads, Trouble, Allowed;
  }

  lemma {:induction false} TroubleIsGap(p: Policy, slots: seq<Slot>, depth: nat, chain: seq<Slot>)
    requires TroubleAt(p, slots, depth, chain)
    ensures SlotsGap(p, slots, depth)
    decreases |chain|
  {
    var s := chain[0];
    SlotIsPart(p, slots, s, depth);
    GapOpens(p, s, depth);
    hide Trouble, SlotsGap, SlotGap, Allowed;
    if |chain| > 1 {
      TroubleBelow(p, slots, depth, chain);
      hide TroubleAt;
      TroubleIsGap(p, s.node.slots, depth + 1, chain[1..]);
    }
  }

  lemma {:induction false} GapInSlots(p: Policy, slots: seq<Slot>, depth: nat) returns (chain: seq<Slot>)
    requires SlotsGap(p, slots, depth)
    ensures TroubleAt(p, slots, depth, chain)
    decreases slots, 2
  {
    var init, last := slots[..|slots| - 1], slots[|slots| - 1];
    assert slots == init + [last];
    WalkSlotsSnoc(p, init, last, depth);
    hide Trouble;
    if SlotsGap(p, init, depth) {
      chain := GapInSlots(p, init, depth);
    } else {
      chain := GapInSlot(p, last, depth);
      assert chain[0] in slots;
    }
  }

  lemma {:induction false} GapInSlot(p: Policy, s: Slot, depth: nat) returns (chain: seq<Slot>)
    requires SlotGap(p, s, depth)
    ensures TroubleAt(p, [s], depth, chain) && chain[0] == s
    decreases s, 1
  {
    GapOpens(p, s, depth);
    hide Trouble;
    if Trouble(p, s, depth) {
      chain := [s];
    } else {
      var below := GapInSlots(p, s.node.slots, depth + 1);
      chain := [s] + below;
      LeadsBelow([s], s, below);
      assert chain[..|chain| - 1] == [s] + below[..|below| - 1];
      assert chain[|chain| - 1] == below[|below| - 1];
    }
  }

  /** Something is missing below a directory exactly when some chain leads to an entry in trouble. */
  lemma GapIs(p: Policy, slots: seq<Slot>, depth: nat)
    ensures SlotsGap(p, slots, depth) <==> exists chain :: TroubleAt(p, slots, depth, chain)
  {
    if SlotsGap(p, slots, depth) { var chain := GapInSlots(p, slots, depth); }
    if chain :| TroubleAt(p, slots, depth, chain) { TroubleIsGap(p, slots, depth, chain); }
  }

  lemma WantedIsAllowed(p: Policy, s: Slot, depth: nat)
    requires !SlotGap(p, s, depth) && Wanted(p, s.node)
    ensures Allowed(p, s.node)
    ensures s.node.meta.kind == Directory && s.node.slots != [] ==>
      depth < p.maxDepth && !SlotsGap(p, s.node.slots, depth + 1)
  {
    GapOpens(p, s, depth);
    hide SlotGap, SlotsGap;
  }

  lemma WalksThrough(p: Policy, slots: seq<Slot>, s: Slot, depth: nat, below: seq<Slot>, n: Node)
    requires s in slots && Allowed(p, s.node) && s.node.meta.kind == Directory && depth < p.maxDepth
    requires WalksTo(p, s.node.slots, depth + 1, below, n)
    ensures WalksTo(p, slots, depth, [s] + below, n)
  {
    LeadsBelow(slots, s, below);
    hide Leads, Allowed;
    assert ([s] + below)[|below|] == below[|below| - 1];
  }

  /** Where no gap is, the walk goes along every chain of wanted entries, however deep. */
  lemma {:induction false} WantedIsWalked(p: Policy, slots: seq<Slot>, depth: nat, chain: seq<Slot>)
    requires !SlotsGap(p, slots, depth) && Leads(slots, chain) && AllWanted(p, chain)
    ensures WalksTo(p, slots, depth, chain, chain[|chain| - 1].node)
    decreases |chain|
  {
    var s := chain[0];
    assert s in chain && Wanted(p, s.node);
    SlotIsPart(p, slots, s, depth);
    WantedIsAllowed(p, s, depth);
    if |chain| > 1 {
      LeadsOn(slots, chain);
      assert AllWanted(p, chain[1..]);
      hide *;
      WantedIsWalked(p, s.node.slots, depth + 1, chain[1..]);
      WalksThrough(p, slots, s, depth, chain[1..], chain[|chain| - 1].node);
    } else {
      hide SlotsGap, SlotGap, Walk, WalkSlots, Wanted, Allowed;
      assert chain == [s];
    }
  }

  // ----- what a scan of a target has to count

  ghost predicate ReachedBy(p: Policy, target: Node, chain: seq<Slot>, id: Identity) {
    Leads(target.slots, chain) && AllWanted(p, chain) && Id(chain[|chain| - 1].node) == id
  }

  /** The inodes of the target and of every wanted entry below it. */
  ghost predicate CountsEverything(p: Policy, target: Node, ids: set<Identity>) {
    forall id :: id in ids <==> id == Id(target) || exists chain :: ReachedBy(p, target, chain, id)
  }

  /** No call on the target or on anything below it fails, and everything below it is within reach. */
  ghost predicate NothingWrong(p: Policy, target: Node) {
    && target.meta.blocks >= 0 && !target.openFails && target.stops.None?
    && |target.slots| <= MAX_DIRECTORY_ENTRIES
    && forall chain :: !TroubleAt(p, target.slots, 1, chain)
  }

  lemma WholeWalkCounts(p: Policy, target: Node)
    requires !SlotsGap(p, target.slots, 1)
    ensures CountsEverything(p, target, {Id(target)} + Ids(WalkSlots(p, target.slots, 1)))
  {
    var walk := WalkSlots(p, target.slots, 1);
    forall id | id in Ids(walk) ensures exists chain :: ReachedBy(p, target, chain, id) {
      var n :| n in walk && Id(n) == id;
      var chain := ChainInSlots(p, target.slots, 1, n);
      assert ReachedBy(p, target, chain, id);
    }
    forall id, chain: seq<Slot> | ReachedBy(p, target, chain, id) ensures id in Ids(walk) {
      WantedIsWalked(p, target.slots, 1, chain);
      ChainIsWalked(p, target.slots, 1, chain, chain[|chain| - 1].node);
    }
  }

  // ----- what enumerating may cost

  /** How many directory entries there are below an entry, whatever the policy. */
  function SlotsBelow(slots: seq<Slot>): nat
    decreases slots, 1
  {
    if slots == [] then 0 else SlotsBelow(slots[..|slots| - 1]) + SlotsOf(slots[|slots| - 1])
  }

  function SlotsOf(s: Slot): nat
    decreases s, 0
  {
    1 + SlotsBelow(s.node.slots)
  }

  lemma {:induction false} EntriesAreSlots(p: Policy, slots: seq<Slot>, depth: nat)
    ensures |slots| + EntriesOfSlots(p, slots, depth) <= SlotsBelow(slots)
    decreases slots, 1
  {
    if slots != [] {
      var init, last := slots[..|slots| - 1], slots[|slots| - 1];
      assert slots == init + [last];
      WalkSlotsSnoc(p, init, last, depth);
      EntriesAreSlots(p, init, depth);
      EntriesOfOne(p, last, depth);
      hide Entries, EntriesOfSlots, SlotsOf;
    }
  }

  lemma {:induction false} EntriesOfOne(p: Policy, s: Slot, depth: nat)
    ensures 1 + Entries(p, s.node, depth) <= SlotsOf(s)
    decreases s, 0
  {
    EntriesAreSlots(p, s.node.slots, depth + 1);
    hide EntriesOfSlots, SlotsBelow;
  }
}
