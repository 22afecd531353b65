/** How a traversal's findings relate to the tree: nothing invented, nothing silently missed. */
module DirectoryTruth {
  import opened Basics
  import opened DirectoryTree

  // ----- nothing invented

  /** `path` continues `prefix` to a real node below no mount point, at most one level below the depth limit. */
  ghost predicate Real(o: Options, children: seq<Child>, prefix: Path, depth: nat, path: Path) {
    && prefix < path
    && NodeAt(children, path[|prefix|..]).Some?
    && !CrossesMount(children, path[|prefix|..])
    && depth + |path| - |prefix| <= o.maxDepth + 1
  }

  /** An entry tells the truth about the node at its path. */
  ghost predicate TrueEntry(o: Options, children: seq<Child>, prefix: Path, depth: nat, e: Entry) {
    && Real(o, children, prefix, depth, e.path)
    && e == EntryOf(e.path, NodeAt(children, e.path[|prefix|..]).value, o.hash)
  }

  /** A depth-limited directory lies exactly at the limit. */
  ghost predicate TrueLimit(o: Options, children: seq<Child>, prefix: Path, depth: nat, path: Path) {
    Real(o, children, prefix, depth, path) && depth + |path| - |prefix| >= o.maxDepth + 1
  }

  /** A path reported as another filesystem is a mount point. */
  ghost predicate TrueMount(o: Options, children: seq<Child>, prefix: Path, depth: nat, path: Path) {
    && Real(o, children, prefix, depth, path)
    && IsMount(NodeAt(children, path[|prefix|..]).value)
  }

  ghost predicate Truthful(o: Options, children: seq<Child>, prefix: Path, depth: nat, f: Found) {
    && (forall e | e in f.entries :: TrueEntry(o, children, prefix, depth, e))
    && (forall p | p in f.limited :: TrueLimit(o, children, prefix, depth, p))
    && (forall p | p in f.otherFilesystems :: TrueMount(o, children, prefix, depth, p))
  }

  lemma {:induction false} NamedIsIt(children: seq<Child>, c: Child)
    requires DistinctChildNames(children) && c in children
    ensures Named(children, c.name) == Some(c)
  {
    if children[0].name != c.name {
      assert children == [children[0]] + children[1..];
      NamedIsIt(children[1..], c);
    } else {
      assert forall j | 0 < j < |children| :: children[j].name != children[0].name;
    }
  }

  /** What is real below a child is real below its parent. */
  lemma RealLifts(o: Options, children: seq<Child>, c: Child, prefix: Path, depth: nat, path: Path)
    requires DistinctChildNames(children) && c in children && !IsMount(c.node)
    requires Real(o, ChildrenOf(c.node), prefix + [c.name], depth + 1, path)
    ensures Real(o, children, prefix, depth, path)
    ensures NodeAt(children, path[|prefix|..]) == NodeAt(ChildrenOf(c.node), path[|prefix| + 1..])
  {
    NamedIsIt(children, c);
    var p := path[|prefix|..];
    assert p[0] == c.name && p[1..] == path[|prefix| + 1..];
  }

  lemma RealChild(o: Options, children: seq<Child>, c: Child, prefix: Path, depth: nat)
    requires DistinctChildNames(children) && c in children && depth <= o.maxDepth
    ensures Real(o, children, prefix, depth, prefix + [c.name])
    ensures NodeAt(children, (prefix + [c.name])[|prefix|..]) == Some(c.node)
  {
    NamedIsIt(children, c);
    assert (prefix + [c.name])[|prefix|..] == [c.name];
  }

  lemma TruthfulPlus(o: Options, children: seq<Child>, prefix: Path, depth: nat, a: Found, b: Found)
    requires Truthful(o, children, prefix, depth, a) && Truthful(o, children, prefix, depth, b)
    ensures Truthful(o, children, prefix, depth, Plus(a, b))
  {}

  lemma {:induction false} StatsAreTruthful(o: Options, all: seq<Child>, depth: nat, children: seq<Child>, prefix: Path,
                                            outer: Path)
    ensures Truthful(o, all, outer, depth, FoundStats(children, prefix))
  {
    if children != [] { StatsAreTruthful(o, all, depth, children[1..], prefix, outer); }
  }

  lemma TruthfulLifts(o: Options, children: seq<Child>, c: Child, prefix: Path, depth: nat, f: Found)
    requires DistinctChildNames(children) && c in children && !IsMount(c.node)
    requires Truthful(o, ChildrenOf(c.node), prefix + [c.name], depth + 1, f)
    ensures Truthful(o, children, prefix, depth, f)
  {
    forall e | e in f.entries ensures TrueEntry(o, children, prefix, depth, e) {
      RealLifts(o, children, c, prefix, depth, e.path);
    }
    forall p | p in f.limited ensures TrueLimit(o, children, prefix, depth, p) {
      RealLifts(o, children, c, prefix, depth, p);
    }
    forall p | p in f.otherFilesystems ensures TrueMount(o, children, prefix, depth, p) {
      RealLifts(o, children, c, prefix, depth, p);
    }
  }

  lemma {:induction false} ChildIsTruthful(o: Options, all: seq<Child>, c: Child, prefix: Path, depth: nat)
    requires DistinctChildNames(all) && c in all && ProperChild(c) && depth <= o.maxDepth
    ensures Truthful(o, all, prefix, depth, FoundChild(o, c, prefix, depth))
    decreases c, 0
  {
    RealChild(o, all, c, prefix, depth);
    if c.node.Directory? && c.node.sameFilesystem && c.node.open.Works? && depth < o.maxDepth {
      var path := prefix + [c.name];
      StatsAreTruthful(o, all, depth, Listed(c.node), path, prefix);
      if c.node.scan.Works? {
        ChildrenAreTruthful(o, c.node.children, c.node.children, path, depth + 1);
        TruthfulLifts(o, all, c, prefix, depth, FoundChildren(o, c.node.children, path, depth + 1));
      }
    }
  }

  lemma {:induction false} ChildrenAreTruthful(o: Options, all: seq<Child>, children: seq<Child>, prefix: Path,
                                               depth: nat)
    requires DistinctChildNames(all) && depth <= o.maxDepth
    requires forall c | c in children :: c in all && ProperChild(c)
    ensures Truthful(o, all, prefix, depth, FoundChildren(o, children, prefix, depth))
    decreases children, 1
  {
    if children != [] {
      ChildIsTruthful(o, all, children[0], prefix, depth);
      ChildrenAreTruthful(o, all, children[1..], prefix, depth);
    }
  }

  /** Every entry, limit and mount point of a traversal is in the tree. */
  lemma TraversalIsTruthful(o: Options, children: seq<Child>)
    requires ProperChildren(children)
    ensures Truthful(o, children, [], 0, FoundBelow(o, children))
  {
    StatsAreTruthful(o, children, 0, children, [], []);
    ChildrenAreTruthful(o, children, children, [], 0);
    TruthfulPlus(o, children, [], 0, FoundStats(children, []), FoundChildren(o, children, [], 0));
  }

  // ----- nothing silently missed

  /** A failure that is not one of the tolerated ones is met: the whole comparison is given up. */
  predicate BrokenChild(o: Options, c: Child, depth: nat)
    decreases c, 0
  {
    match c.node
    case File(_, _, open, hash) => open.Breaks? || (open.Works? && hash.Breaks?)
    case Link(_, _, _, read) => read.Breaks?
    case Special(_, _, _) => false
    case Directory(_, sameFilesystem, open, scan, seen, children) =>
      sameFilesystem && (open.Breaks? || (open.Works? &&
        (if depth < o.maxDepth then
           BrokenStats(Listed(c.node)) || scan.Breaks? || (scan.Works? && BrokenChildren(o, children, depth + 1))
         else scan.Breaks? && (children == [] || seen == 0))))
  }

  predicate BrokenChildren(o: Options, children: seq<Child>, depth: nat)
    decreases children, 1
  {
    children != [] &&
    ((children[0].stat.Works? && BrokenChild(o, children[0], depth)) || BrokenChildren(o, children[1..], depth))
  }

  predicate BrokenStats(children: seq<Child>) {
    exists c | c in children :: c.stat.Breaks?
  }

  /** The path is at or below something reported as unreadable, or below something reported as not entered. */
  ghost predicate Gap(f: Found, path: Path) {
    || (exists u | u in f.unreadable :: u.0 <= path)
    || (exists d | d in f.limited :: d < path)
    || (exists d | d in f.otherFilesystems :: d < path)
  }

  ghost predicate Within(a: Found, b: Found) {
    && (forall e | e in a.entries :: e in b.entries)
    && (forall p | p in a.limited :: p in b.limited)
    && (forall p | p in a.otherFilesystems :: p in b.otherFilesystems)
    && (forall u | u in a.unreadable :: u in b.unreadable)
  }

  /** The node is recorded, or its absence is explained by a reported gap. */
  ghost predicate Covered(o: Options, f: Found, path: Path, n: Node) {
    EntryOf(path, n, o.hash) in f.entries || Gap(f, path)
  }

  lemma CoveredGrows(o: Options, a: Found, b: Found, path: Path, n: Node)
    requires Within(a, b) && Covered(o, a, path, n)
    ensures Covered(o, b, path, n)
  {}

  lemma {:induction false} StatFailureIsNoted(children: seq<Child>, c: Child, prefix: Path)
    requires c in children && c.stat.Unreadable?
    ensures (prefix + [c.name], c.stat.reason) in FoundStats(children, prefix).unreadable
  {
    if c != children[0] {
      assert children == [children[0]] + children[1..];
      StatFailureIsNoted(children[1..], c, prefix);
    }
  }

  lemma {:induction false} ChildIsWithin(o: Options, children: seq<Child>, c: Child, prefix: Path, depth: nat)
    requires c in children && c.stat.Works?
    ensures Within(FoundChild(o, c, prefix, depth), FoundChildren(o, children, prefix, depth))
  {
    hide FoundChild;
    if c != children[0] {
      assert children == [children[0]] + children[1..];
      ChildIsWithin(o, children[1..], c, prefix, depth);
    }
  }

  lemma {:induction false} ChildIsNotBroken(o: Options, children: seq<Child>, c: Child, depth: nat)
    requires c in children && c.stat.Works? && !BrokenChildren(o, children, depth)
    ensures !BrokenChild(o, c, depth)
  {
    if c != children[0] {
      assert children == [children[0]] + children[1..];
      ChildIsNotBroken(o, children[1..], c, depth);
    }
  }

  /** Coverage below one directory whose scan works. */
  lemma {:induction false} Coverage(o: Options, children: seq<Child>, prefix: Path, depth: nat, p: Path)
    requires NodeAt(children, p).Some?
    requires !BrokenStats(children) && !BrokenChildren(o, children, depth)
    ensures Covered(o, Plus(FoundStats(children, prefix), FoundChildren(o, children, prefix, depth)), prefix + p,
                    NodeAt(children, p).value)
    decreases |p|
  {
    var c := Named(children, p[0]).value;
    var stats, found := FoundStats(children, prefix), FoundChildren(o, children, prefix, depth);
    var path := prefix + p;
    if c.stat.Unreadable? {
      StatFailureIsNoted(children, c, prefix);
      assert prefix + [c.name] <= path;
    } else {
      assert c.stat.Works?;
      ChildIsWithin(o, children, c, prefix, depth);
      ChildIsNotBroken(o, children, c, depth);
      ChildCoverage(o, c, prefix, depth, p);
      CoveredGrows(o, FoundChild(o, c, prefix, depth), Plus(stats, found), path, NodeAt(children, p).value);
    }
  }

  lemma {:induction false} ChildCoverage(o: Options, c: Child, prefix: Path, depth: nat, p: Path)
    requires p != [] && p[0] == c.name && !BrokenChild(o, c, depth)
    requires |p| > 1 ==> NodeAt(ChildrenOf(c.node), p[1..]).Some?
    ensures Covered(o, FoundChild(o, c, prefix, depth), prefix + p,
                    if |p| == 1 then c.node else NodeAt(ChildrenOf(c.node), p[1..]).value)
    decreases |p|, 1
  {
    var path := prefix + [c.name];
    if |p| == 1 {
      assert prefix + p == path;
      FirstOfChild(o, c, prefix, depth);
    } else {
      assert prefix + p == path + p[1..];
      assert path < prefix + p;
      DirectoryCoverage(o, c, prefix, depth, p);
    }
  }

  /** The child itself: an entry, or a note that it is unreadable. */
  lemma FirstOfChild(o: Options, c: Child, prefix: Path, depth: nat)
    requires !BrokenChild(o, c, depth)
    ensures Covered(o, FoundChild(o, c, prefix, depth), prefix + [c.name], c.node)
  {
    var path := prefix + [c.name];
    var f := FoundChild(o, c, prefix, depth);
    if c.node.Directory? {
      assert f.entries[0] == EntryOf(path, c.node, o.hash);
    } else if f.unreadable != [] {
      assert f.unreadable[0] in f.unreadable && f.unreadable[0].0 == path;
    } else {
      assert f.entries[0] == EntryOf(path, c.node, o.hash);
    }
  }

  lemma {:induction false} DirectoryCoverage(o: Options, c: Child, prefix: Path, depth: nat, p: Path)
    requires |p| > 1 && p[0] == c.name && !BrokenChild(o, c, depth)
    requires NodeAt(ChildrenOf(c.node), p[1..]).Some?
    requires prefix + [c.name] < prefix + p && prefix + p == prefix + [c.name] + p[1..]
    ensures Covered(o, FoundChild(o, c, prefix, depth), prefix + p, NodeAt(ChildrenOf(c.node), p[1..]).value)
    decreases |p|, 0
  {
    var path := prefix + [c.name];
    var f := FoundChild(o, c, prefix, depth);
    if c.node.sameFilesystem && c.node.open.Works? && depth < o.maxDepth && c.node.scan.Works? {
      var children := c.node.children;
      Coverage(o, children, path, depth + 1, p[1..]);
      var below := Plus(FoundStats(children, path), FoundChildren(o, children, path, depth + 1));
      assert Within(below, f);
      CoveredGrows(o, below, f, prefix + p, NodeAt(children, p[1..]).value);
    } else {
      GapBelow(o, c, prefix, depth);
    }
  }

  /** A directory that is not entered leaves a note that covers everything below it. */
  lemma GapBelow(o: Options, c: Child, prefix: Path, depth: nat)
    requires c.node.Directory? && c.node.children != [] && !BrokenChild(o, c, depth)
    requires !(c.node.sameFilesystem && c.node.open.Works? && depth < o.maxDepth && c.node.scan.Works?)
    ensures
      var path := prefix + [c.name];
      var f := FoundChild(o, c, prefix, depth);
      (exists u | u in f.unreadable :: u.0 == path) || path in f.limited || path in f.otherFilesystems
  {
    var path := prefix + [c.name];
    var f := FoundChild(o, c, prefix, depth);
    if c.node.sameFilesystem {
      if !c.node.open.Works? {
        assert (path, c.node.open.reason) in f.unreadable;
      } else if !c.node.scan.Works? && (depth < o.maxDepth || c.node.seen == 0) {
        assert f.unreadable[|f.unreadable| - 1] == (path, c.node.scan.reason);
        assert (path, c.node.scan.reason) in f.unreadable;
      }
    }
  }

  /** Every node of the tree is recorded or explained. */
  lemma TraversalCovers(o: Options, children: seq<Child>, p: Path)
    requires NodeAt(children, p).Some? && !BrokenStats(children) && !BrokenChildren(o, children, 0)
    ensures Covered(o, FoundBelow(o, children), p, NodeAt(children, p).value)
  {
    assert [] + p == p;
    Coverage(o, children, [], 0, p);
  }
}
