/**
 * What a branch of DiskHound's walk sees when no budget stops it: a plain recursive walk over what listings show,
 * entering each directory inode once.
 */
module DiskVisit {
  import opened Basics
  import opened DiskTree

  // ----- what a listing shows

  /** Reading the directory stream ends in an error before the per-directory limit does. */
  predicate Raises(n: Node) {
    n.stops.Some? && Smaller(n.stops.value, |n.slots|) <= MAX_DIRECTORY_ENTRIES
  }

  /** The slots whose entry can be observed. */
  function Readable(p: Policy, slots: seq<Slot>): seq<Node> {
    if slots == [] then [] else
      var last := slots[|slots| - 1];
      Readable(p, slots[..|slots| - 1]) + if !Blind(p, last.node) && last.statFails then [] else [last.node]
  }

  lemma ReadableSnoc(p: Policy, slots: seq<Slot>, s: Slot)
    ensures Readable(p, slots + [s]) == Readable(p, slots) + if !Blind(p, s.node) && s.statFails then [] else [s.node]
  {
    assert (slots + [s])[..|slots|] == slots;
  }

  /** The children of a directory, in the order of their paths; none when it cannot be enumerated. */
  function Listing(p: Policy, n: Node): seq<Node> {
    if n.openFails || Raises(n) then []
    else SortNodes(Readable(p, n.slots[..Smaller(|n.slots|, MAX_DIRECTORY_ENTRIES)]))
  }

  /** Some entry cannot be observed although it is no mount point left out on purpose. */
  predicate StatGap(p: Policy, slots: seq<Slot>) {
    exists s | s in slots :: s.statFails && !Blind(p, s.node)
  }

  /** Listing the directory leaves out some of its entries, and is known to. */
  predicate ListingFlaw(p: Policy, n: Node) {
    ListingGap(p, n) || StatGap(p, n.slots)
  }

  lemma StatGapSnoc(p: Policy, slots: seq<Slot>, s: Slot)
    ensures StatGap(p, slots + [s]) <==> StatGap(p, slots) || (s.statFails && !Blind(p, s.node))
    ensures !StatGap(p, [])
  {
    assert s in slots + [s];
    if StatGap(p, slots) {
      var x :| x in slots && x.statFails && !Blind(p, x.node);
      assert x in slots + [s];
    }
  }

  /** What is readable is part of what is there, and all of it where nothing fails. */
  lemma {:induction false} ReadableWalks(p: Policy, slots: seq<Slot>, depth: nat)
    ensures WalkAll(p, Readable(p, slots), depth) <= WalkSlots(p, slots, depth)
    ensures EntriesOfAll(p, Readable(p, slots), depth) <= EntriesOfSlots(p, slots, depth)
    ensures AnyGap(p, Readable(p, slots), depth) || StatGap(p, slots) <==> SlotsGap(p, slots, depth)
    ensures !StatGap(p, slots) ==> WalkAll(p, Readable(p, slots), depth) == WalkSlots(p, slots, depth)
  {
    NothingReadable(p, depth);
    hide *;
    if slots == [] {
    } else {
      var init, last := slots[..|slots| - 1], slots[|slots| - 1];
      ReadableWalks(p, init, depth);
      WalkAllSnoc(p, Readable(p, init), last.node, depth);
      WalkSlotsSnoc(p, init, last, depth);
      ReadableSnoc(p, init, last);
      SlotGapOfNode(p, last, depth);
      StatGapSnoc(p, init, last);
      assert init + [last] == slots;
      assert Readable(p, init) + [] == Readable(p, init);
    }
  }

  lemma NothingReadable(p: Policy, depth: nat)
    ensures Readable(p, []) == [] && !AnyGap(p, [], depth) && !SlotsGap(p, [], depth) && !StatGap(p, [])
    ensures WalkAll(p, [], depth) == WalkSlots(p, [], depth) == multiset{}
    ensures EntriesOfAll(p, [], depth) == EntriesOfSlots(p, [], depth) == 0
  {}

  lemma SlotGapOfNode(p: Policy, s: Slot, depth: nat)
    ensures SlotGap(p, s, depth) <==> HasGap(p, s.node, depth) || (s.statFails && !Blind(p, s.node))
  {}

  /** A listing shows nothing that is not there, and everything unless it is known to leave something out. */
  lemma ListingWalks(p: Policy, n: Node, depth: nat)
    ensures WalkAll(p, Listing(p, n), depth) <= WalkSlots(p, n.slots, depth)
    ensures EntriesOfAll(p, Listing(p, n), depth) <= EntriesOfSlots(p, n.slots, depth)
    ensures AnyGap(p, Listing(p, n), depth) || StatGap(p, n.slots) ==> SlotsGap(p, n.slots, depth)
    ensures !ListingFlaw(p, n) ==> WalkAll(p, Listing(p, n), depth) == WalkSlots(p, n.slots, depth)
    ensures !ListingFlaw(p, n) && SlotsGap(p, n.slots, depth) ==> AnyGap(p, Listing(p, n), depth)
  {
    hide Walk, HasGap, SortNodes, Readable, WalkSlots, SlotsGap, Entries, EntriesOfSlots, StatGap;
    var shown := Smaller(|n.slots|, MAX_DIRECTORY_ENTRIES);
    ReadableWalks(p, n.slots, depth);
    if !(n.openFails || Raises(n)) {
      ReadableWalks(p, n.slots[..shown], depth);
      WalkSlotsPrefix(p, n.slots, shown, depth);
      SortWalks(p, Readable(p, n.slots[..shown]), depth);
      if !ListingGap(p, n) { assert n.slots[..shown] == n.slots; }
    }
  }

  // ----- the walk

  /** The entries visited so far and the inodes observed so far, of one branch. */
  datatype Trace = Trace(log: multiset<Node>, inodes: set<Identity>)

  const START: Trace := Trace(multiset{}, {})

  /** After the entry itself. */
  function Noted(p: Policy, n: Node, t: Trace): Trace {
    if Admits(p, n) then Trace(t.log + multiset{n}, t.inodes + {Id(n)}) else t
  }

  /** What an entry leads to: the listing of a directory whose inode is new to the branch. */
  function Entered(p: Policy, n: Node, depth: nat, t: Trace): seq<Node> {
    if Admits(p, n) && Id(n) !in t.inodes && IsDirectory(n) && depth < p.maxDepth then Listing(p, n) else []
  }

  function Room(p: Policy, depth: nat): nat {
    if depth < p.maxDepth then p.maxDepth - depth else 0
  }

  function Visit(p: Policy, n: Node, depth: nat, t: Trace): Trace
    decreases Room(p, depth), 0
  {
    if depth < p.maxDepth then VisitAll(p, Entered(p, n, depth, t), depth + 1, Noted(p, n, t)) else Noted(p, n, t)
  }

  function VisitAll(p: Policy, nodes: seq<Node>, depth: nat, t: Trace): Trace
    decreases Room(p, depth), 1 + |nodes|
  {
    if nodes == [] then t else VisitAll(p, nodes[1..], depth, Visit(p, nodes[0], depth, t))
  }

  /** The entries and inodes a branch observes; a function of its root alone. */
  function Observed(p: Policy, root: Node): Trace {
    Visit(p, root, 1, START)
  }

  // ----- the gaps it meets

  /** Meeting an entry shows that something is missing there. */
  predicate MeetsGap(p: Policy, n: Node, depth: nat, t: Trace) {
    if p.excluded(n.path) then false
    else if OnOtherFilesystem(p, n) then Blind(p, n) && p.crossFilesystems
    else
      && Id(n) !in t.inodes
      && (n.meta.blocks < 0 ||
          (IsDirectory(n) && if depth < p.maxDepth then ListingFlaw(p, n) else HasEntries(n)))
  }

  predicate SeesGap(p: Policy, n: Node, depth: nat, t: Trace)
    decreases Room(p, depth), 0
  {
    || MeetsGap(p, n, depth, t)
    || (depth < p.maxDepth && AnySees(p, Entered(p, n, depth, t), depth + 1, Noted(p, n, t)))
  }

  predicate AnySees(p: Policy, nodes: seq<Node>, depth: nat, t: Trace)
    decreases Room(p, depth), 1 + |nodes|
  {
    nodes != [] && (SeesGap(p, nodes[0], depth, t) || AnySees(p, nodes[1..], depth, Visit(p, nodes[0], depth, t)))
  }

  // ----- what it misses of the plain walk

  /** The plain walk finds nothing beyond the entry itself, and nothing but its own block count can be missing. */
  predicate Bare(p: Policy, n: Node, depth: nat) {
    Walk(p, n, depth) == multiset{n} && (HasGap(p, n, depth) ==> n.meta.blocks < 0)
  }

  /** A directory is met again under an inode already observed although something lies below it. */
  predicate Hides(p: Policy, n: Node, depth: nat, t: Trace)
    decreases Room(p, depth), 0
  {
    || (Admits(p, n) && Id(n) in t.inodes && !Bare(p, n, depth))
    || (depth < p.maxDepth && AnyHides(p, Entered(p, n, depth, t), depth + 1, Noted(p, n, t)))
  }

  predicate AnyHides(p: Policy, nodes: seq<Node>, depth: nat, t: Trace)
    decreases Room(p, depth), 1 + |nodes|
  {
    nodes != [] && (Hides(p, nodes[0], depth, t) || AnyHides(p, nodes[1..], depth, Visit(p, nodes[0], depth, t)))
  }

  lemma FirstOfAll(p: Policy, nodes: seq<Node>, depth: nat)
    requires nodes != []
    ensures WalkAll(p, nodes, depth) == Walk(p, nodes[0], depth) + WalkAll(p, nodes[1..], depth)
    ensures AnyGap(p, nodes, depth) <==> HasGap(p, nodes[0], depth) || AnyGap(p, nodes[1..], depth)
  {
    hide Walk, HasGap;
    assert nodes == [nodes[0]] + nodes[1..];
    WalkAllConcat(p, [nodes[0]], nodes[1..], depth);
    WalkAllSnoc(p, [], nodes[0], depth);
    assert [] + [nodes[0]] == [nodes[0]];
  }

  /** An admitted entry and its listing are part of the walk. */
  lemma EnteredWalks(p: Policy, n: Node, depth: nat, t: Trace)
    requires Admits(p, n)
    ensures multiset{n} + WalkAll(p, Entered(p, n, depth, t), depth + 1) <= Walk(p, n, depth)
    ensures AnyGap(p, Entered(p, n, depth, t), depth + 1) || MeetsGap(p, n, depth, t) ==> HasGap(p, n, depth)
    ensures Id(n) !in t.inodes && !MeetsGap(p, n, depth, t) ==>
      multiset{n} + WalkAll(p, Entered(p, n, depth, t), depth + 1) == Walk(p, n, depth)
    ensures Id(n) !in t.inodes && !MeetsGap(p, n, depth, t) && HasGap(p, n, depth) ==>
      AnyGap(p, Entered(p, n, depth, t), depth + 1)
  {
    hide Listing, WalkSlots, SlotsGap, WalkAll, AnyGap, StatGap;
    ListingWalks(p, n, depth + 1);
    NothingBelow(p, depth + 1);
  }

  lemma NothingBelow(p: Policy, depth: nat)
    ensures WalkAll(p, [], depth) == multiset{} && !AnyGap(p, [], depth) && EntriesOfAll(p, [], depth) == 0
  {}

  /** The walk stays within the plain one, and the inodes are those of the visited entries. */
  lemma {:induction false} VisitIsPart(p: Policy, n: Node, depth: nat, t: Trace)
    ensures t.log <= Visit(p, n, depth, t).log <= t.log + Walk(p, n, depth)
    ensures t.inodes == Ids(t.log) ==> Visit(p, n, depth, t).inodes == Ids(Visit(p, n, depth, t).log)
    decreases Room(p, depth), 0
  {
    hide Walk, WalkAll, Entered, Ids, Admits;
    IdsOfSum(t.log, n);
    if Admits(p, n) { EnteredWalks(p, n, depth, t); } else { NotEntered(p, n, depth, t); }
    if depth < p.maxDepth {
      VisitAllIsPart(p, Entered(p, n, depth, t), depth + 1, Noted(p, n, t));
    }
  }

  lemma NotEntered(p: Policy, n: Node, depth: nat, t: Trace)
    requires !Admits(p, n)
    ensures Entered(p, n, depth, t) == [] && WalkAll(p, [], depth + 1) == multiset{} && Walk(p, n, depth) == multiset{}
  {}

  lemma {:induction false} VisitAllIsPart(p: Policy, nodes: seq<Node>, depth: nat, t: Trace)
    ensures t.log <= VisitAll(p, nodes, depth, t).log <= t.log + WalkAll(p, nodes, depth)
    ensures t.inodes == Ids(t.log) ==> VisitAll(p, nodes, depth, t).inodes == Ids(VisitAll(p, nodes, depth, t).log)
    decreases Room(p, depth), 1 + |nodes|
  {
    hide Walk, Visit, Ids;
    if nodes != [] {
      var u := Visit(p, nodes[0], depth, t);
      VisitIsPart(p, nodes[0], depth, t);
      VisitAllIsPart(p, nodes[1..], depth, u);
      FirstOfAll(p, nodes, depth);
    }
  }

  // ----- hiding loses something

  /** One unfolding of the walk and of what it hides. */
  lemma VisitStep(p: Policy, n: Node, depth: nat, t: Trace)
    requires Admits(p, n)
    ensures Noted(p, n, t) == Trace(t.log + multiset{n}, t.inodes + {Id(n)})
    ensures depth >= p.maxDepth || Id(n) in t.inodes ==> Visit(p, n, depth, t) == Noted(p, n, t)
    ensures depth < p.maxDepth ==>
      Visit(p, n, depth, t) == VisitAll(p, Entered(p, n, depth, t), depth + 1, Noted(p, n, t))
    ensures Hides(p, n, depth, t) ==>
      || (Id(n) in t.inodes && !Bare(p, n, depth))
      || (depth < p.maxDepth && AnyHides(p, Entered(p, n, depth, t), depth + 1, Noted(p, n, t)))
  {
    hide Bare, Listing;
  }

  lemma NotBare(p: Policy, n: Node, depth: nat, log: multiset<Node>)
    requires !Bare(p, n, depth)
    ensures log + multiset{n} != log + Walk(p, n, depth) || HasGap(p, n, depth)
  {
    if log + multiset{n} == log + Walk(p, n, depth) { SameRest(log, multiset{n}, Walk(p, n, depth)); }
  }

  lemma {:induction false} HidingLoses(p: Policy, n: Node, depth: nat, t: Trace)
    requires Hides(p, n, depth, t)
    ensures Visit(p, n, depth, t).log != t.log + Walk(p, n, depth) || HasGap(p, n, depth)
    decreases Room(p, depth), 0
  {
    if Admits(p, n) {
      VisitStep(p, n, depth, t);
      if Id(n) in t.inodes && !Bare(p, n, depth) {
        hide *;
        NotBare(p, n, depth, t.log);
      } else {
        RoomFalls(p, depth);
        hide *;
        var below, noted := Entered(p, n, depth, t), Noted(p, n, t);
        AnyHidingLoses(p, below, depth + 1, noted);
        BelowLoses(p, n, depth, t);
      }
    }
  }

  lemma BelowLoses(p: Policy, n: Node, depth: nat, t: Trace)
    requires Admits(p, n) && depth < p.maxDepth
    requires
      var below, noted := Entered(p, n, depth, t), Noted(p, n, t);
      || VisitAll(p, below, depth + 1, noted).log != noted.log + WalkAll(p, below, depth + 1)
      || AnyGap(p, below, depth + 1)
    ensures Visit(p, n, depth, t).log != t.log + Walk(p, n, depth) || HasGap(p, n, depth)
  {
    EnteredWalks(p, n, depth, t);
    VisitStep(p, n, depth, t);
    hide *;
    var below, noted := Entered(p, n, depth, t), Noted(p, n, t);
    VisitAllIsPart(p, below, depth + 1, noted);
    WithinPart(Visit(p, n, depth, t).log, t.log, multiset{n}, WalkAll(p, below, depth + 1), Walk(p, n, depth));
  }

  lemma RoomFalls(p: Policy, depth: nat)
    ensures depth < p.maxDepth ==> Room(p, depth + 1) < Room(p, depth)
  {}

  /** What is strictly within a part is strictly within the whole. */
  lemma WithinPart(a: multiset<Node>, log: multiset<Node>, own: multiset<Node>, below: multiset<Node>,
                   whole: multiset<Node>)
    requires a <= (log + own) + below && own + below <= whole
    ensures a == log + whole ==> a == (log + own) + below
  {
    if a == log + whole {
      forall x ensures a[x] == log[x] + own[x] + below[x] {
        assert (own + below)[x] <= whole[x];
        assert a[x] <= ((log + own) + below)[x];
      }
      assert a == (log + own) + below;
    }
  }

  lemma SameRest(a: multiset<Node>, b: multiset<Node>, c: multiset<Node>)
    requires a + b == a + c
    ensures b == c
  {
    assert b == (a + b) - a;
    assert c == (a + c) - a;
  }

  lemma {:induction false} AnyHidingLoses(p: Policy, nodes: seq<Node>, depth: nat, t: Trace)
    requires AnyHides(p, nodes, depth, t)
    ensures VisitAll(p, nodes, depth, t).log != t.log + WalkAll(p, nodes, depth) || AnyGap(p, nodes, depth)
    decreases Room(p, depth), 1 + |nodes|
  {
    var u := Visit(p, nodes[0], depth, t);
    FirstOfAll(p, nodes, depth);
    VisitIsPart(p, nodes[0], depth, t);
    VisitAllIsPart(p, nodes[1..], depth, u);
    if Hides(p, nodes[0], depth, t) {
      HidingLoses(p, nodes[0], depth, t);
    } else {
      AnyHidingLoses(p, nodes[1..], depth, u);
    }
    hide Walk, HasGap, WalkAll, AnyGap, Visit;
    var all := VisitAll(p, nodes, depth, t).log;
    var head, rest := Walk(p, nodes[0], depth), WalkAll(p, nodes[1..], depth);
    if all == t.log + (head + rest) && !AnyGap(p, nodes, depth) {
      Squeezed(u.log, t.log + head, rest, all);
      assert false;
    }
  }

  /** Two bounds that add up to an exact sum are both exact. */
  lemma Squeezed(part: multiset<Node>, whole: multiset<Node>, rest: multiset<Node>, all: multiset<Node>)
    requires part <= whole && all <= part + rest && all == whole + rest
    ensures part == whole && all == part + rest
  {
    forall x ensures part[x] == whole[x] {
      assert all[x] == whole[x] + rest[x];
      assert all[x] <= part[x] + rest[x];
    }
  }

  // ----- a walk that meets no gap

  /** A gap that the walk meets is a gap of the tree. */
  lemma {:induction false} SeenIsGap(p: Policy, n: Node, depth: nat, t: Trace)
    requires SeesGap(p, n, depth, t)
    ensures HasGap(p, n, depth)
    decreases Room(p, depth), 0
  {
    NotAdmittedStep(p, n, depth, t);
    if Admits(p, n) { EnteredWalks(p, n, depth, t); }
    if !MeetsGap(p, n, depth, t) {
      RoomFalls(p, depth);
      SeenIsGapIn(p, Entered(p, n, depth, t), depth + 1, Noted(p, n, t));
    }
  }

  lemma {:induction false} SeenIsGapIn(p: Policy, nodes: seq<Node>, depth: nat, t: Trace)
    requires AnySees(p, nodes, depth, t)
    ensures AnyGap(p, nodes, depth)
    decreases Room(p, depth), 1 + |nodes|
  {
    hide SeesGap, Visit, HasGap;
    FirstOfAll(p, nodes, depth);
    if SeesGap(p, nodes[0], depth, t) {
      SeenIsGap(p, nodes[0], depth, t);
    } else {
      SeenIsGapIn(p, nodes[1..], depth, Visit(p, nodes[0], depth, t));
    }
  }

  /** One unfolding at an entry the policy does not admit. */
  lemma NotAdmittedStep(p: Policy, n: Node, depth: nat, t: Trace)
    ensures !Admits(p, n) ==> Visit(p, n, depth, t) == t && Walk(p, n, depth) == multiset{}
    ensures !Admits(p, n) ==> (SeesGap(p, n, depth, t) <==> MeetsGap(p, n, depth, t))
    ensures !Admits(p, n) ==> (HasGap(p, n, depth) <==> MeetsGap(p, n, depth, t))
  {}

  /** One unfolding at an admitted entry. */
  lemma SeesStep(p: Policy, n: Node, depth: nat, t: Trace)
    ensures !SeesGap(p, n, depth, t) ==> !MeetsGap(p, n, depth, t)
    ensures !SeesGap(p, n, depth, t) && depth < p.maxDepth ==>
      !AnySees(p, Entered(p, n, depth, t), depth + 1, Noted(p, n, t))
    ensures !Hides(p, n, depth, t) && Admits(p, n) && Id(n) in t.inodes ==> Bare(p, n, depth)
    ensures !Hides(p, n, depth, t) && depth < p.maxDepth ==>
      !AnyHides(p, Entered(p, n, depth, t), depth + 1, Noted(p, n, t))
    ensures depth >= p.maxDepth ==> Entered(p, n, depth, t) == []
  {
    hide MeetsGap, Bare, Listing;
  }

  lemma NotedUsable(p: Policy, n: Node, depth: nat, t: Trace, facts: Identity -> Meta)
    requires Admits(p, n) && Consistent(Walk(p, n, depth), facts) && UsableBlocks(t.inodes, facts)
    requires !MeetsGap(p, n, depth, t)
    ensures UsableBlocks(Noted(p, n, t).inodes, facts) && n.meta.blocks >= 0
  {
    FileIsBare(p, n, depth);
  }

  /** A walk that neither meets a gap nor hides anything is the plain walk, and nothing is missing. */
  lemma {:induction false} WholeUnlessHidden(p: Policy, n: Node, depth: nat, t: Trace, facts: Identity -> Meta)
    requires !SeesGap(p, n, depth, t) && !Hides(p, n, depth, t)
    requires Consistent(Walk(p, n, depth), facts) && UsableBlocks(t.inodes, facts)
    ensures Visit(p, n, depth, t).log == t.log + Walk(p, n, depth) && !HasGap(p, n, depth)
    ensures UsableBlocks(Visit(p, n, depth, t).inodes, facts)
    decreases Room(p, depth), 0
  {
    hide *;
    NotAdmittedStep(p, n, depth, t);
    SeesStep(p, n, depth, t);
    if Admits(p, n) {
      NotedUsable(p, n, depth, t, facts);
      if Id(n) in t.inodes {
        VisitStep(p, n, depth, t);
        BareIsWhole(p, n, depth);
      } else {
        var below, noted := Entered(p, n, depth, t), Noted(p, n, t);
        EnteredWalks(p, n, depth, t);
        PartIsConsistent(WalkAll(p, below, depth + 1), Walk(p, n, depth), facts);
        RoomFalls(p, depth);
        if depth < p.maxDepth { AllWholeUnlessHidden(p, below, depth + 1, noted, facts); }
        FirstIsWhole(p, n, depth, t, facts);
      }
    }
  }

  lemma FirstIsWhole(p: Policy, n: Node, depth: nat, t: Trace, facts: Identity -> Meta)
    requires Admits(p, n) && Id(n) !in t.inodes && !MeetsGap(p, n, depth, t)
    requires UsableBlocks(Noted(p, n, t).inodes, facts)
    requires
      var below, noted := Entered(p, n, depth, t), Noted(p, n, t);
      depth < p.maxDepth ==>
        && VisitAll(p, below, depth + 1, noted).log == noted.log + WalkAll(p, below, depth + 1)
        && !AnyGap(p, below, depth + 1) && UsableBlocks(VisitAll(p, below, depth + 1, noted).inodes, facts)
    ensures Visit(p, n, depth, t).log == t.log + Walk(p, n, depth) && !HasGap(p, n, depth)
    ensures UsableBlocks(Visit(p, n, depth, t).inodes, facts)
  {
    hide *;
    VisitStep(p, n, depth, t);
    SeesStep(p, n, depth, t);
    EnteredWalks(p, n, depth, t);
    NothingBelow(p, depth + 1);
  }

  lemma BareIsWhole(p: Policy, n: Node, depth: nat)
    requires Bare(p, n, depth) && n.meta.blocks >= 0
    ensures Walk(p, n, depth) == multiset{n} && !HasGap(p, n, depth)
  {}

  lemma {:induction false} AllWholeUnlessHidden(p: Policy, nodes: seq<Node>, depth: nat, t: Trace,
                                                facts: Identity -> Meta)
    requires !AnySees(p, nodes, depth, t) && !AnyHides(p, nodes, depth, t)
    requires Consistent(WalkAll(p, nodes, depth), facts) && UsableBlocks(t.inodes, facts)
    ensures VisitAll(p, nodes, depth, t).log == t.log + WalkAll(p, nodes, depth) && !AnyGap(p, nodes, depth)
    ensures UsableBlocks(VisitAll(p, nodes, depth, t).inodes, facts)
    decreases Room(p, depth), 1 + |nodes|
  {
    hide SeesGap, Hides, Visit, Walk, HasGap, Consistent, UsableBlocks;
    if nodes != [] {
      FirstOfAll(p, nodes, depth);
      hide WalkAll, AnyGap;
      var head, rest := Walk(p, nodes[0], depth), WalkAll(p, nodes[1..], depth);
      PartIsConsistent(head, WalkAll(p, nodes, depth), facts);
      PartIsConsistent(rest, WalkAll(p, nodes, depth), facts);
      WholeUnlessHidden(p, nodes[0], depth, t, facts);
      AllWholeUnlessHidden(p, nodes[1..], depth, Visit(p, nodes[0], depth, t), facts);
    }
  }

  // ----- the inodes it misses

  /** The inodes that the plain walk finds at and below entries met again under a known inode. */
  ghost function Skipped(p: Policy, n: Node, depth: nat, t: Trace): set<Identity>
    decreases Room(p, depth), 0
  {
    if Admits(p, n) && Id(n) in t.inodes then Ids(Walk(p, n, depth))
    else if depth < p.maxDepth then SkippedIn(p, Entered(p, n, depth, t), depth + 1, Noted(p, n, t))
    else {}
  }

  ghost function SkippedIn(p: Policy, nodes: seq<Node>, depth: nat, t: Trace): set<Identity>
    decreases Room(p, depth), 1 + |nodes|
  {
    if nodes == [] then {}
    else Skipped(p, nodes[0], depth, t) + SkippedIn(p, nodes[1..], depth, Visit(p, nodes[0], depth, t))
  }

  /** Observed and skipped inodes together are those of the plain walk. */
  lemma {:induction false} SkippedAccountsForRest(p: Policy, n: Node, depth: nat, t: Trace)
    requires !SeesGap(p, n, depth, t)
    ensures Visit(p, n, depth, t).inodes + Skipped(p, n, depth, t) == t.inodes + Ids(Walk(p, n, depth))
    decreases Room(p, depth), 0
  {
    hide *;
    NotAdmittedStep(p, n, depth, t);
    SeesStep(p, n, depth, t);
    SkippedStep(p, n, depth, t);
    if Admits(p, n) {
      if Id(n) in t.inodes {
        VisitStep(p, n, depth, t);
        assert t.inodes + {Id(n)} == t.inodes;
      } else {
        RoomFalls(p, depth);
        if depth < p.maxDepth { AllSkippedAccountForRest(p, Entered(p, n, depth, t), depth + 1, Noted(p, n, t)); }
        FirstAccountsForRest(p, n, depth, t);
      }
    }
  }

  lemma FirstAccountsForRest(p: Policy, n: Node, depth: nat, t: Trace)
    requires Admits(p, n) && Id(n) !in t.inodes && !MeetsGap(p, n, depth, t)
    requires
      var below, noted := Entered(p, n, depth, t), Noted(p, n, t);
      depth < p.maxDepth ==>
        VisitAll(p, below, depth + 1, noted).inodes + SkippedIn(p, below, depth + 1, noted) ==
          noted.inodes + Ids(WalkAll(p, below, depth + 1))
    ensures Visit(p, n, depth, t).inodes + Skipped(p, n, depth, t) == t.inodes + Ids(Walk(p, n, depth))
  {
    hide *;
    VisitStep(p, n, depth, t);
    SeesStep(p, n, depth, t);
    SkippedStep(p, n, depth, t);
    EnteredWalks(p, n, depth, t);
    NothingBelow(p, depth + 1);
    IdsOfNothing();
    IdsOfPlus(multiset{n}, WalkAll(p, Entered(p, n, depth, t), depth + 1));
    IdsOfOne(n);
  }

  lemma SkippedStep(p: Policy, n: Node, depth: nat, t: Trace)
    ensures Skipped(p, n, depth, t) ==
      if Admits(p, n) && Id(n) in t.inodes then Ids(Walk(p, n, depth))
      else if depth < p.maxDepth then SkippedIn(p, Entered(p, n, depth, t), depth + 1, Noted(p, n, t))
      else {}
    ensures !Admits(p, n) ==> Skipped(p, n, depth, t) == {} == Ids(Walk(p, n, depth))
  {
    hide Listing;
  }

  lemma {:induction false} AllSkippedAccountForRest(p: Policy, nodes: seq<Node>, depth: nat, t: Trace)
    requires !AnySees(p, nodes, depth, t)
    ensures VisitAll(p, nodes, depth, t).inodes + SkippedIn(p, nodes, depth, t) ==
      t.inodes + Ids(WalkAll(p, nodes, depth))
    decreases Room(p, depth), 1 + |nodes|
  {
    hide SeesGap, Skipped, Visit, Walk, Ids;
    if nodes == [] {
      NothingBelow(p, depth);
      IdsOfNothing();
    } else {
      FirstOfAll(p, nodes, depth);
      hide WalkAll;
      IdsOfPlus(Walk(p, nodes[0], depth), WalkAll(p, nodes[1..], depth));
      var u := Visit(p, nodes[0], depth, t);
      SkippedAccountsForRest(p, nodes[0], depth, t);
      AllSkippedAccountForRest(p, nodes[1..], depth, u);
    }
  }

  // ----- nothing is hidden where each directory occurs once

  /** Every directory among the entries occurs once; other inodes may have several names. */
  ghost predicate DirectoriesOnce(nodes: multiset<Node>) {
    forall m, n | m in nodes && n in nodes && IsDirectory(n) && Id(m) == Id(n) :: m == n && nodes[n] == 1
  }

  lemma NoTwin(log: multiset<Node>, whole: multiset<Node>, n: Node)
    requires log <= whole && whole[n] >= log[n] + 1 && DirectoriesOnce(whole) && IsDirectory(n)
    ensures Id(n) !in Ids(log)
  {
    forall m | m in log ensures Id(m) != Id(n) {
      assert m in whole && n in whole;
    }
  }

  lemma FileIsBare(p: Policy, n: Node, depth: nat)
    requires Admits(p, n)
    ensures n in Walk(p, n, depth) && (!IsDirectory(n) ==> Bare(p, n, depth))
  {}

  lemma {:induction false} NothingHidden(p: Policy, n: Node, depth: nat, t: Trace, whole: multiset<Node>)
    requires t.log + Walk(p, n, depth) <= whole && t.inodes == Ids(t.log) && DirectoriesOnce(whole)
    ensures !Hides(p, n, depth, t)
    decreases Room(p, depth), 0
  {
    IdsOfSum(t.log, n);
    if Admits(p, n) {
      EnteredWalks(p, n, depth, t);
      FileIsBare(p, n, depth);
      hide Walk, WalkAll, Bare, Listing, Ids, DirectoriesOnce;
      assert whole[n] >= t.log[n] + 1;
      if IsDirectory(n) { NoTwin(t.log, whole, n); }
      if depth < p.maxDepth {
        NothingHiddenIn(p, Entered(p, n, depth, t), depth + 1, Noted(p, n, t), whole);
      }
    }
  }

  lemma {:induction false} NothingHiddenIn(p: Policy, nodes: seq<Node>, depth: nat, t: Trace, whole: multiset<Node>)
    requires t.log + WalkAll(p, nodes, depth) <= whole && t.inodes == Ids(t.log) && DirectoriesOnce(whole)
    ensures !AnyHides(p, nodes, depth, t)
    decreases Room(p, depth), 1 + |nodes|
  {
    hide Walk, Visit, Hides, Ids, DirectoriesOnce;
    if nodes != [] {
      FirstOfAll(p, nodes, depth);
      VisitIsPart(p, nodes[0], depth, t);
      hide WalkAll;
      NothingHidden(p, nodes[0], depth, t, whole);
      NothingHiddenIn(p, nodes[1..], depth, Visit(p, nodes[0], depth, t), whole);
    }
  }

  lemma OnceHidesNothing(p: Policy, root: Node)
    requires DirectoriesOnce(Walk(p, root, 1))
    ensures !Hides(p, root, 1, START)
  {
    assert Ids(multiset{}) == {};
    assert multiset{} + Walk(p, root, 1) == Walk(p, root, 1);
    NothingHidden(p, root, 1, START, Walk(p, root, 1));
  }

  // ----- the stack form

  function VisitStack(p: Policy, stack: seq<(Node, nat)>, t: Trace): Trace {
    if stack == [] then t else
      var top := stack[|stack| - 1];
      VisitStack(p, stack[..|stack| - 1], Visit(p, top.0, top.1, t))
  }

  predicate StackSees(p: Policy, stack: seq<(Node, nat)>, t: Trace) {
    stack != [] &&
    var top := stack[|stack| - 1];
    SeesGap(p, top.0, top.1, t) || StackSees(p, stack[..|stack| - 1], Visit(p, top.0, top.1, t))
  }

  /** `((child, depth + 1) for child in reversed(children))`. */
  function Pushed(children: seq<Node>, depth: nat): (r: seq<(Node, nat)>)
    ensures |r| == |children|
  {
    if children == [] then [] else [(children[|children| - 1], depth)] + Pushed(children[..|children| - 1], depth)
  }

  lemma {:induction false} PushedFirst(children: seq<Node>, depth: nat)
    requires children != []
    ensures Pushed(children, depth) == Pushed(children[1..], depth) + [(children[0], depth)]
  {
    if |children| > 1 {
      var init := children[..|children| - 1];
      PushedFirst(init, depth);
      assert init[1..] == children[1..][..|children| - 2];
    }
  }

  /** Popping pushed children one by one is the recursive walk over them, in listing order. */
  lemma {:induction false} PushedVisits(p: Policy, rest: seq<(Node, nat)>, children: seq<Node>, depth: nat, t: Trace)
    ensures VisitStack(p, rest + Pushed(children, depth), t) == VisitStack(p, rest, VisitAll(p, children, depth, t))
    ensures StackSees(p, rest + Pushed(children, depth), t) <==>
      AnySees(p, children, depth, t) || StackSees(p, rest, VisitAll(p, children, depth, t))
    decreases |children|
  {
    hide Visit, SeesGap;
    if children == [] {
      assert rest + Pushed(children, depth) == rest;
    } else {
      PushedFirst(children, depth);
      var stack := rest + Pushed(children, depth);
      assert stack == (rest + Pushed(children[1..], depth)) + [(children[0], depth)];
      assert stack[..|stack| - 1] == rest + Pushed(children[1..], depth);
      PushedVisits(p, rest, children[1..], depth, Visit(p, children[0], depth, t));
    }
  }

  /** One iteration of the branch loop is one unfolding of the recursive walk. */
  lemma PopVisits(p: Policy, rest: seq<(Node, nat)>, n: Node, depth: nat, t: Trace)
    ensures VisitStack(p, rest + [(n, depth)], t) ==
      VisitStack(p, rest + Pushed(Entered(p, n, depth, t), depth + 1), Noted(p, n, t))
    ensures StackSees(p, rest + [(n, depth)], t) <==>
      MeetsGap(p, n, depth, t) || StackSees(p, rest + Pushed(Entered(p, n, depth, t), depth + 1), Noted(p, n, t))
  {
    hide Pushed, Listing, MeetsGap;
    var stack := rest + [(n, depth)];
    assert stack[..|stack| - 1] == rest && stack[|stack| - 1] == (n, depth);
    PushedVisits(p, rest, Entered(p, n, depth, t), depth + 1, Noted(p, n, t));
  }
}
