/** A target whose scan DiskHound calls complete although it leaves out a file that the plain walk finds. */
module DiskExample {
  import opened Basics
  import opened Ordering
  import opened DiskTree
  import opened DiskVisit
  import opened DiskScan
  import opened DiskReport

  // A directory with two names for one inode, as a bind mount gives it; its file is excluded by path under the first.
  const FILE_A: Node := Node([0, 0, 0], false, Meta(1, 3, Regular, 8, 4096), false, None, [])
  const FILE_B: Node := FILE_A.(path := [0, 1, 0])
  const DIRECTORY_A: Node := Node([0, 0], false, Meta(1, 2, Directory, 8, 0), false, None, [Slot(FILE_A, false)])
  const DIRECTORY_B: Node := DIRECTORY_A.(path := [0, 1], slots := [Slot(FILE_B, false)])
  const ROOT: Node := Node([0], false, Meta(1, 1, Directory, 8, 0), false, None,
                           [Slot(DIRECTORY_A, false), Slot(DIRECTORY_B, false)])

  const TARGET: Node := Node([], false, Meta(1, 0, Directory, 8, 0), false, None, [Slot(ROOT, false)])

  const EXCLUDES_FIRST: Policy := Policy(1, 8, 1000, false, false, path => path == FILE_A.path)

  /** A directory that the walk enters and that has one entry. */
  predicate HoldsOne(p: Policy, n: Node, c: Node, depth: nat) {
    && Admits(p, n) && IsDirectory(n) && depth < p.maxDepth && n.meta.blocks >= 0
    && n.slots == [Slot(c, false)] && !n.openFails && n.stops.None?
  }

  lemma WalkOfOne(p: Policy, n: Node, c: Node, depth: nat)
    requires HoldsOne(p, n, c, depth)
    ensures Walk(p, n, depth) == multiset{n} + Walk(p, c, depth + 1)
    ensures HasGap(p, n, depth) == HasGap(p, c, depth + 1)
    ensures Entries(p, n, depth) == 1 + Entries(p, c, depth + 1)
  {
    NothingThere(p, depth + 1);
    WalkSlotsSnoc(p, [], n.slots[0], depth + 1);
    assert [] + [n.slots[0]] == n.slots;
  }

  lemma NothingThere(p: Policy, depth: nat)
    ensures WalkSlots(p, [], depth) == multiset{} && !SlotsGap(p, [], depth) && EntriesOfSlots(p, [], depth) == 0
  {}

  lemma ListingOfOne(p: Policy, n: Node, c: Node, depth: nat)
    requires HoldsOne(p, n, c, depth)
    ensures Listing(p, n) == [c]
  {
    ReadableSnoc(p, [], n.slots[0]);
    assert [] + [n.slots[0]] == n.slots && n.slots[..1] == n.slots;
    SortOfOne(c);
  }

  lemma SortOfOne(c: Node)
    ensures SortNodes([c]) == [c]
  {
    SortStep([c]);
    SortStep([]);
    assert [c][..0] == [];
  }

  lemma SortOfTwo(a: Node, b: Node)
    requires !Less(b.path, a.path)
    ensures SortNodes([a, b]) == [a, b]
  {
    hide Less;
    SortOfOne(a);
    assert [a, b][..1] == [a] && [a][1..] == [];
    assert InsertNode(b, []) == [b] && InsertNode(b, [a]) == [a] + InsertNode(b, []);
  }

  /** The same for the root with its two entries. */
  predicate HoldsTwo(p: Policy, n: Node, a: Node, b: Node) {
    && Admits(p, n) && IsDirectory(n) && 1 < p.maxDepth && n.meta.blocks >= 0
    && n.slots == [Slot(a, false), Slot(b, false)] && !n.openFails && n.stops.None? && !Less(b.path, a.path)
  }

  lemma WalkOfTwo(p: Policy, n: Node, a: Node, b: Node)
    requires HoldsTwo(p, n, a, b)
    ensures Walk(p, n, 1) == multiset{n} + Walk(p, a, 2) + Walk(p, b, 2)
    ensures HasGap(p, n, 1) <==> HasGap(p, a, 2) || HasGap(p, b, 2)
    ensures Entries(p, n, 1) == 2 + Entries(p, a, 2) + Entries(p, b, 2)
  {
    hide Walk, HasGap, WalkSlots, SlotsGap, Entries, EntriesOfSlots;
    NothingThere(p, 2);
    WalkSlotsSnoc(p, [], n.slots[0], 2);
    WalkSlotsSnoc(p, [n.slots[0]], n.slots[1], 2);
    assert [] + [n.slots[0]] == [n.slots[0]] && [n.slots[0]] + [n.slots[1]] == n.slots;
    WalkStep(p, n, 1);
    assert SlotGap(p, n.slots[0], 2) == HasGap(p, a, 2) && SlotGap(p, n.slots[1], 2) == HasGap(p, b, 2);
  }

  lemma WalkStep(p: Policy, n: Node, depth: nat)
    requires Admits(p, n) && IsDirectory(n) && depth < p.maxDepth && n.meta.blocks >= 0 && !ListingGap(p, n)
    ensures Walk(p, n, depth) == multiset{n} + WalkSlots(p, n.slots, depth + 1)
    ensures HasGap(p, n, depth) == SlotsGap(p, n.slots, depth + 1)
    ensures Entries(p, n, depth) == |n.slots| + EntriesOfSlots(p, n.slots, depth + 1)
  {
    hide WalkSlots, SlotsGap, EntriesOfSlots;
  }

  lemma ListingOfTwo(p: Policy, n: Node, a: Node, b: Node)
    requires HoldsTwo(p, n, a, b)
    ensures Listing(p, n) == [a, b]
  {
    ReadableSnoc(p, [], n.slots[0]);
    ReadableSnoc(p, [n.slots[0]], n.slots[1]);
    assert [] + [n.slots[0]] == [n.slots[0]] && [n.slots[0]] + [n.slots[1]] == n.slots && n.slots[..2] == n.slots;
    assert [a] + [b] == [a, b] && Readable(p, n.slots) == [a, b];
    SortOfTwo(a, b);
  }

  lemma VisitAllOfOne(p: Policy, n: Node, depth: nat, t: Trace)
    ensures VisitAll(p, [n], depth, t) == Visit(p, n, depth, t)
    ensures AnyHides(p, [n], depth, t) == Hides(p, n, depth, t)
  {
    assert [n][1..] == [];
  }

  lemma PathsInOrder()
    ensures !Less(DIRECTORY_B.path, DIRECTORY_A.path)
  {
    assert [0, 1][1..] == [1] && [0, 0][1..] == [0];
  }

  /** The second name is met under a known inode: it is not entered, although the plain walk enters it. */
  lemma SecondName(p: Policy, n: Node, c: Node, t: Trace)
    requires HoldsOne(p, n, c, 2) && Id(n) in t.inodes && c in Walk(p, c, 3) && c != n
    ensures Visit(p, n, 2, t) == Trace(t.log + multiset{n}, t.inodes) && Hides(p, n, 2, t)
  {
    WalkOfOne(p, n, c, 2);
    assert t.inodes + {Id(n)} == t.inodes;
    assert Walk(p, n, 2)[c] >= 1 && multiset{n}[c] == 0;
  }

  /** The first name is entered; its excluded file is not observed. */
  lemma FirstName(p: Policy, n: Node, c: Node, t: Trace)
    requires HoldsOne(p, n, c, 2) && Id(n) !in t.inodes && p.excluded(c.path)
    ensures Visit(p, n, 2, t) == Trace(t.log + multiset{n}, t.inodes + {Id(n)})
  {
    ListingOfOne(p, n, c, 2);
    VisitAllOfOne(p, c, 3, Noted(p, n, t));
  }

  lemma BothNames(p: Policy, n: Node, a: Node, b: Node, t: Trace)
    requires HoldsTwo(p, n, a, b) && t == Noted(p, n, START)
    ensures Observed(p, n) == Visit(p, b, 2, Visit(p, a, 2, t))
    ensures Hides(p, b, 2, Visit(p, a, 2, t)) ==> Hides(p, n, 1, START)
  {
    ListingOfTwo(p, n, a, b);
    var u := Visit(p, a, 2, t);
    VisitAllOfOne(p, b, 2, u);
    assert [a, b][1..] == [b];
    assert Entered(p, n, 1, START) == [a, b];
    assert VisitAll(p, [a, b], 2, t) == VisitAll(p, [b], 2, u);
    assert AnyHides(p, [b], 2, u) ==> AnyHides(p, [a, b], 2, t);
    assert Visit(p, n, 1, START) == VisitAll(p, Entered(p, n, 1, START), 2, t);
  }

  lemma WalkOfFile(p: Policy, n: Node, depth: nat)
    requires Admits(p, n) && !IsDirectory(n) && n.meta.blocks >= 0
    ensures Walk(p, n, depth) == multiset{n} && !HasGap(p, n, depth) && Entries(p, n, depth) == 0
  {}

  lemma WalkOfExcluded(p: Policy, n: Node, depth: nat)
    requires p.excluded(n.path)
    ensures Walk(p, n, depth) == multiset{} && !HasGap(p, n, depth) && Entries(p, n, depth) == 0
  {}

  /** Two names `a` and `b` of one directory below `n`, its file excluded under the first. */
  predicate HoldsTwice(p: Policy, n: Node, a: Node, b: Node, first: Node, second: Node) {
    && HoldsTwo(p, n, a, b) && HoldsOne(p, a, first, 2) && HoldsOne(p, b, second, 2)
    && p.excluded(first.path) && Admits(p, second) && !IsDirectory(second) && second.meta.blocks >= 0
    && Id(a) == Id(b) && Id(n) != Id(a) && b != second
  }

  lemma HeldTwice(p: Policy, n: Node, a: Node, b: Node, first: Node, second: Node)
    requires HoldsTwice(p, n, a, b, first, second)
    ensures !HasGap(p, n, 1) && Entries(p, n, 1) == 4 && Walk(p, n, 1) == multiset{n, a, b, second}
    ensures Observed(p, n).inodes == {Id(n), Id(a)} && Hides(p, n, 1, START)
  {
    hide Walk, HasGap, Entries, Visit, Hides, Less;
    WalkOfFile(p, second, 3);
    WalkOfExcluded(p, first, 3);
    WalkOfOne(p, a, first, 2);
    WalkOfOne(p, b, second, 2);
    WalkOfTwo(p, n, a, b);
    var t := Noted(p, n, START);
    FirstName(p, a, first, t);
    SecondName(p, b, second, Visit(p, a, 2, t));
    BothNames(p, n, a, b, t);
  }

  /** Nothing is missing in the branch, and still the file's inode is not observed. */
  lemma BindMountExample()
    ensures !HasGap(EXCLUDES_FIRST, ROOT, 1) && Entries(EXCLUDES_FIRST, ROOT, 1) == 4
    ensures Walk(EXCLUDES_FIRST, ROOT, 1) == multiset{ROOT, DIRECTORY_A, DIRECTORY_B, FILE_B}
    ensures Observed(EXCLUDES_FIRST, ROOT).inodes == {Id(ROOT), Id(DIRECTORY_A)}
    ensures Hides(EXCLUDES_FIRST, ROOT, 1, START)
  {
    PathsInOrder();
    HeldTwice(EXCLUDES_FIRST, ROOT, DIRECTORY_A, DIRECTORY_B, FILE_A, FILE_B);
  }

  // ----- the scan of a target with this one entry

  ghost const FACTS: Identity -> Meta := i => if i == Id(FILE_B) then FILE_B.meta else Meta(i.0, i.1, Directory, 8, 0)

  /** A target with one entry `c`, which becomes its one branch. */
  lemma TargetOfOne(p: Policy, n: Node, c: Node)
    requires HoldsOne(p, n, c, 0) && Admits(p, c) && !HasGap(p, c, 1) && 1 + Entries(p, c, 1) < p.maxEntries
    ensures WithinBudget(p, n) && !TargetGap(p, n) && WalkSlots(p, n.slots, 1) == Walk(p, c, 1)
    ensures Admitted(p, Listing(p, n)) == [c] && SeenBelow(p, [c]) == Observed(p, c).inodes
  {
    NothingThere(p, 1);
    WalkSlotsSnoc(p, [], n.slots[0], 1);
    assert [] + [n.slots[0]] == n.slots;
    ListingOfOne(p, n, c, 0);
    AdmittedSnoc(p, [], c);
    assert [] + [c] == [c] && c in [c];
    hide Walk, HasGap, WalkSlots, SlotsGap, Entries, EntriesOfSlots, Observed, Listing, Admitted;
    assert SlotGap(p, n.slots[0], 1) == HasGap(p, c, 1);
    assert SeenBelow(p, [c]) == Observed(p, c).inodes;
  }

  lemma TargetExample()
    ensures WithinBudget(EXCLUDES_FIRST, TARGET) && !TargetGap(EXCLUDES_FIRST, TARGET)
    ensures WalkSlots(EXCLUDES_FIRST, TARGET.slots, 1) == multiset{ROOT, DIRECTORY_A, DIRECTORY_B, FILE_B}
    ensures Admitted(EXCLUDES_FIRST, Listing(EXCLUDES_FIRST, TARGET)) == [ROOT]
    ensures SeenBelow(EXCLUDES_FIRST, [ROOT]) == {Id(ROOT), Id(DIRECTORY_A)}
  {
    BindMountExample();
    hide Walk, HasGap, Entries, WithinBudget, TargetGap, WalkSlots, Admitted, SeenBelow, Observed, Hides, Listing;
    TargetOfOne(EXCLUDES_FIRST, TARGET, ROOT);
  }

  /** The blocks of the three directory inodes, and of these with the file's: each inode has eight. */
  lemma FourInodes()
    ensures Sum({Id(TARGET)} + {Id(ROOT), Id(DIRECTORY_A)}, Allocation(FACTS)) == 12288
    ensures Sum({Id(TARGET)} + {Id(ROOT), Id(DIRECTORY_A), Id(FILE_B)}, Allocation(FACTS)) == 16384
  {
    var f := Allocation(FACTS);
    var one, two := {Id(TARGET)}, {Id(TARGET), Id(ROOT)};
    var three := {Id(TARGET), Id(ROOT), Id(DIRECTORY_A)};
    SumOfOne(Id(TARGET), f);
    SumAdds(one, Id(ROOT), f);
    SumAdds(two, Id(DIRECTORY_A), f);
    SumAdds(three, Id(FILE_B), f);
    assert one + {Id(ROOT)} == two && two + {Id(DIRECTORY_A)} == three;
    assert three == {Id(TARGET)} + {Id(ROOT), Id(DIRECTORY_A)};
    assert three + {Id(FILE_B)} == {Id(TARGET)} + {Id(ROOT), Id(DIRECTORY_A), Id(FILE_B)};
  }

  /** The scan reports no gap and 12288 bytes; the distinct inodes of the plain walk have 16384. */
  method ScanExample(top: nat) returns (r: Option<ScanResult>)
    requires top >= 1
    ensures r.Some? && !Incomplete(r.value) && r.value.unique == 12288
    ensures Sum({Id(TARGET)} + Ids(WalkSlots(EXCLUDES_FIRST, TARGET.slots, 1)), Allocation(FACTS)) == 16384
  {
    TargetExample();
    FourInodes();
    hide Walk, WalkSlots, SlotsGap, EntriesOfSlots, Listing, Admitted, Observed, SeenBelow, Sum, Report;
    assert Ids(multiset{ROOT, DIRECTORY_A, DIRECTORY_B, FILE_B}) == {Id(ROOT), Id(DIRECTORY_A), Id(FILE_B)} by {
      var all := multiset{ROOT, DIRECTORY_A, DIRECTORY_B, FILE_B};
      assert ROOT in all && DIRECTORY_A in all && FILE_B in all;
    }
    var acc;
    ghost var eligible, logs;
    r, acc, eligible, logs := Scan(TARGET, EXCLUDES_FIRST, top, Measured, FACTS);
  }
}
