/** ConfigDiff's `collect_directory`: a bounded recursive traversal that appends to shared lists. */
module DirectoryCollect {
  import opened Basics
  import opened DirectoryTree
  import opened DirectoryTruth

  const MAX_DIRECTORY_READ_BYTES: nat := 512 * 1024 * 1024

  // ----- what a traversal costs

  /** Directory entries observed while inspecting a child. */
  function CountChild(o: Options, c: Child, depth: nat): nat
    decreases c, 0
  {
    if c.node.Directory? && c.node.sameFilesystem && c.node.open.Works? && depth < o.maxDepth then
      |Listed(c.node)| + if c.node.scan.Works? then CountChildren(o, c.node.children, depth + 1) else 0
    else 0
  }

  function CountChildren(o: Options, children: seq<Child>, depth: nat): nat
    decreases children, 1
  {
    if children == [] then 0
    else
      (if children[0].stat.Works? then CountChild(o, children[0], depth) else 0)
      + CountChildren(o, children[1..], depth)
  }

  /** File bytes charged to the read budget while inspecting a child. */
  function BytesOfChild(o: Options, c: Child, depth: nat): nat
    decreases c, 0
  {
    match c.node
    case File(_, data, open, _) => if open.Works? then |data| else 0
    case Directory(_, sameFilesystem, open, scan, _, children) =>
      if sameFilesystem && open.Works? && depth < o.maxDepth && scan.Works?
      then BytesOfChildren(o, children, depth + 1) else 0
    case _ => 0
  }

  function BytesOfChildren(o: Options, children: seq<Child>, depth: nat): nat
    decreases children, 1
  {
    if children == [] then 0
    else
      (if children[0].stat.Works? then BytesOfChild(o, children[0], depth) else 0)
      + BytesOfChildren(o, children[1..], depth)
  }

  /** Everything that makes one child fatal: a broken call, too many entries, or too many bytes. */
  ghost predicate Fatal(broken: bool, count: nat, bytes: nat, room: int, budget: int) {
    broken || count > room || bytes > budget
  }

  class Collector {
    const options: Options
    const maxFiles: nat
    var entries: seq<Entry>
    var limited: seq<Path>
    var otherFilesystems: seq<Path>
    var unreadable: seq<(Path, string)>
    var observed: nat
    var readBudget: int

    ghost function Lists(): Found
      reads this
    {
      Found(entries, limited, otherFilesystems, unreadable)
    }

    ghost predicate Valid()
      reads this
    {
      observed <= maxFiles && readBudget >= 0
    }

    constructor (options: Options, maxFiles: nat)
      ensures Valid() && Lists() == NOTHING && observed == 0 && readBudget == MAX_DIRECTORY_READ_BYTES
      ensures this.options == options && this.maxFiles == maxFiles
    {
      this.options, this.maxFiles := options, maxFiles;
      entries, limited, otherFilesystems, unreadable := [], [], [], [];
      observed, readBudget := 0, MAX_DIRECTORY_READ_BYTES;
    }

    /** The listing loop of `visit`. */
    method ListChildren(children: seq<Child>, prefix: Path) returns (ok: bool)
      requires Valid()
      modifies this
      ensures !ok <==> Fatal(BrokenStats(children), |children|, 0, maxFiles - old(observed), old(readBudget))
      ensures ok ==> Valid() && observed == old(observed) + |children| && readBudget == old(readBudget)
      ensures ok ==> Lists() == Plus(old(Lists()), FoundStats(children, prefix))
    {
      StartOfListing(Lists(), prefix);
      hide FoundStats, Plus;
      for i := 0 to |children|
        invariant Valid() && observed == old(observed) + i && readBudget == old(readBudget)
        invariant forall j | 0 <= j < i :: !children[j].stat.Breaks?
        invariant Lists() == Plus(old(Lists()), FoundStats(children[..i], prefix))
      {
        if observed >= maxFiles { return false; }
        observed := observed + 1;
        var c := children[i];
        assert children[..i + 1] == children[..i] + [c];
        StatsSnoc(children[..i], c, prefix);
        PlusAssociates(old(Lists()), FoundStats(children[..i], prefix), Failed(prefix + [c.name], c.stat));
        if c.stat.Breaks? { return false; }
        Note(prefix + [c.name], c.stat);
      }
      assert children[..|children|] == children;
      return true;
    }

    method Append(e: Entry)
      modifies `entries
      ensures Lists() == Plus(old(Lists()), Single(e))
    {
      entries := entries + [e];
    }

    /** The handler around `inspect_child`. */
    method Note(path: Path, r: Access)
      modifies `unreadable
      ensures Lists() == Plus(old(Lists()), Failed(path, r))
    {
      if r.Unreadable? { unreadable := unreadable + [(path, r.reason)]; }
    }

    /** What an inspection that ends with `r` leaves behind, the handler's note still to come. */
    twostate predicate Inspected(r: Access, broken: bool, count: nat, bytes: nat, path: Path, found: Found)
      reads this
    {
      && (r.Breaks? <==> Fatal(broken, count, bytes, maxFiles - old(observed), old(readBudget)))
      && (!r.Breaks? ==> Valid() && observed == old(observed) + count && readBudget == old(readBudget) - bytes)
      && (!r.Breaks? ==> Plus(Lists(), Failed(path, r)) == Plus(old(Lists()), found))
    }

    method InspectFile(c: Child, prefix: Path, depth: nat) returns (r: Access)
      requires Valid() && c.node.File?
      modifies this
      ensures Inspected(r, BrokenChild(options, c, depth), 0, BytesOfChild(options, c, depth), prefix + [c.name],
                        FoundChild(options, c, prefix, depth))
    {
      if !c.node.open.Works? { return c.node.open; }
      readBudget := readBudget - |c.node.data|;
      if readBudget < 0 { return Breaks; }
      if !c.node.hash.Works? { return c.node.hash; }
      Append(EntryOf(prefix + [c.name], c.node, options.hash));
      return Works;
    }

    /** A directory that the traversal does not enter. */
    method InspectOutside(c: Child, prefix: Path, depth: nat) returns (r: Access)
      requires Valid() && c.node.Directory?
      requires !(c.node.sameFilesystem && c.node.open.Works? && depth < options.maxDepth)
      modifies this
      ensures Inspected(r, BrokenChild(options, c, depth), 0, 0, prefix + [c.name],
                        FoundChild(options, c, prefix, depth))
    {
      var path := prefix + [c.name];
      var n := c.node;
      Append(EntryOf(path, n, options.hash));
      if !n.sameFilesystem {
        otherFilesystems := otherFilesystems + [path];
      } else if !n.open.Works? {
        return n.open;
      } else if !n.scan.Works? && (n.children == [] || n.seen == 0) {
        return n.scan;
      } else if n.children != [] {
        limited := limited + [path];
      }
      return Works;
    }

    method InspectChild(c: Child, prefix: Path, depth: nat) returns (r: Access)
      requires Valid()
      modifies this
      ensures Inspected(r, BrokenChild(options, c, depth), CountChild(options, c, depth),
                        BytesOfChild(options, c, depth),
                        prefix + [c.name], FoundChild(options, c, prefix, depth))
      decreases c, 1
    {
      var path := prefix + [c.name];
      match c.node {
        case File(_, _, _, _) => r := InspectFile(c, prefix, depth);
        case Link(_, _, _, read) =>
          if !read.Works? { return read; }
          Append(EntryOf(path, c.node, options.hash));
          return Works;
        case Special(_, _, _) =>
          Append(EntryOf(path, c.node, options.hash));
          return Works;
        case Directory(_, sameFilesystem, open, _, _, _) =>
          if sameFilesystem && open.Works? && depth < options.maxDepth {
            r := InspectInside(c, prefix, depth);
          } else {
            r := InspectOutside(c, prefix, depth);
          }
      }
    }

    /** A directory that the traversal enters. */
    method InspectInside(c: Child, prefix: Path, depth: nat) returns (r: Access)
      requires Valid() && c.node.Directory? && c.node.sameFilesystem && c.node.open.Works? && depth < options.maxDepth
      modifies this
      ensures Inspected(r, BrokenChild(options, c, depth), CountChild(options, c, depth),
                        BytesOfChild(options, c, depth),
                        prefix + [c.name], FoundChild(options, c, prefix, depth))
      decreases c, 0
    {
      var path := prefix + [c.name];
      ghost var before := Lists();
      ghost var room, budget := maxFiles - observed, readBudget;
      EntersDirectory(options, c, prefix, depth);
      hide FoundChild, BrokenChild, CountChild, BytesOfChild, FoundStats, FoundChildren, BrokenChildren, BrokenStats,
           Listed, Plus;
      Append(EntryOf(path, c.node, options.hash));
      var ok := ListChildren(Listed(c.node), path);
      if !ok { return Breaks; }
      DirectorySum(before, Single(EntryOf(path, c.node, options.hash)), FoundStats(Listed(c.node), path),
                   FoundChildren(options, c.node.children, path, depth + 1), Failed(path, c.node.scan));
      if !c.node.scan.Works? { return c.node.scan; }
      ok := InspectChildren(c.node.children, path, depth + 1);
      return if ok then Works else Breaks;
    }

    /** One iteration of the inspection loop of `visit`. */
    method InspectListed(c: Child, prefix: Path, depth: nat) returns (ok: bool)
      requires Valid()
      modifies this
      ensures !ok <==> Fatal(ListedBroken(options, c, depth), ListedCount(options, c, depth),
                             ListedBytes(options, c, depth),
                             maxFiles - old(observed), old(readBudget))
      ensures ok ==> Valid() && observed == old(observed) + ListedCount(options, c, depth)
      ensures ok ==> readBudget == old(readBudget) - ListedBytes(options, c, depth)
      ensures ok ==> Lists() == Plus(old(Lists()), ListedFound(options, c, prefix, depth))
      decreases c, 2
    {
      hide FoundChild, BrokenChild, CountChild, BytesOfChild, Plus;
      PlusAssociates(Lists(), NOTHING, NOTHING);
      if !c.stat.Works? { return true; }
      var r := InspectChild(c, prefix, depth);
      if r.Breaks? { return false; }
      Note(prefix + [c.name], r);
      return true;
    }

    /** The inspection loop of `visit`. */
    method InspectChildren(children: seq<Child>, prefix: Path, depth: nat) returns (ok: bool)
      requires Valid()
      modifies this
      ensures !ok <==> Fatal(BrokenChildren(options, children, depth), CountChildren(options, children, depth),
                             BytesOfChildren(options, children, depth), maxFiles - old(observed), old(readBudget))
      ensures ok ==> Valid() && observed == old(observed) + CountChildren(options, children, depth)
      ensures ok ==> readBudget == old(readBudget) - BytesOfChildren(options, children, depth)
      ensures ok ==> Lists() == Plus(old(Lists()), FoundChildren(options, children, prefix, depth))
      decreases children, 3
    {
      ghost var before := Lists();
      NoChildren(options, before, prefix, depth);
      hide BrokenChildren, CountChildren, BytesOfChildren, FoundChildren, Plus;
      hide ListedBroken, ListedCount, ListedBytes, ListedFound;
      for i := 0 to |children|
        invariant Valid() && !BrokenChildren(options, children[..i], depth)
        invariant observed == old(observed) + CountChildren(options, children[..i], depth)
        invariant readBudget == old(readBudget) - BytesOfChildren(options, children[..i], depth)
        invariant Lists() == Plus(before, FoundChildren(options, children[..i], prefix, depth))
      {
        assert children[..i + 1] == children[..i] + [children[i]];
        ChildrenSnoc(options, children[..i], children[i], prefix, depth);
        PlusAssociates(before, FoundChildren(options, children[..i], prefix, depth),
                       ListedFound(options, children[i], prefix, depth));
        PrefixCosts(options, children, i + 1, depth);
        ok := InspectListed(children[i], prefix, depth);
        if !ok { return false; }
      }
      assert children[..|children|] == children;
      return true;
    }
  }

  function ListedFound(o: Options, c: Child, prefix: Path, depth: nat): Found {
    if c.stat.Works? then FoundChild(o, c, prefix, depth) else NOTHING
  }

  function ListedCount(o: Options, c: Child, depth: nat): nat {
    if c.stat.Works? then CountChild(o, c, depth) else 0
  }

  function ListedBytes(o: Options, c: Child, depth: nat): nat {
    if c.stat.Works? then BytesOfChild(o, c, depth) else 0
  }

  predicate ListedBroken(o: Options, c: Child, depth: nat) {
    c.stat.Works? && BrokenChild(o, c, depth)
  }

  lemma NoChildren(o: Options, before: Found, prefix: Path, depth: nat)
    ensures !BrokenChildren(o, [], depth) && CountChildren(o, [], depth) == 0 && BytesOfChildren(o, [], depth) == 0
    ensures Plus(before, FoundChildren(o, [], prefix, depth)) == before
  {}

  lemma {:induction false} ChildrenSnoc(o: Options, children: seq<Child>, c: Child, prefix: Path, depth: nat)
    ensures BrokenChildren(o, children + [c], depth) <==>
      BrokenChildren(o, children, depth) || ListedBroken(o, c, depth)
    ensures CountChildren(o, children + [c], depth) == CountChildren(o, children, depth) + ListedCount(o, c, depth)
    ensures BytesOfChildren(o, children + [c], depth) == BytesOfChildren(o, children, depth) + ListedBytes(o, c, depth)
    ensures FoundChildren(o, children + [c], prefix, depth) ==
      Plus(FoundChildren(o, children, prefix, depth), ListedFound(o, c, prefix, depth))
  {
    hide FoundChild, CountChild, BytesOfChild, BrokenChild;
    var more := children + [c];
    if children == [] {
      assert more == [c] && more[1..] == [];
    } else {
      assert more[0] == children[0] && more[1..] == children[1..] + [c];
      ChildrenSnoc(o, children[1..], c, prefix, depth);
      FirstChild(o, more, prefix, depth);
      FirstChild(o, children, prefix, depth);
      hide BrokenChildren, CountChildren, BytesOfChildren, FoundChildren, ListedBroken, ListedCount, ListedBytes,
           ListedFound;
      PlusAssociates(ListedFound(o, children[0], prefix, depth), FoundChildren(o, children[1..], prefix, depth),
                     ListedFound(o, c, prefix, depth));
    }
  }

  lemma FirstChild(o: Options, children: seq<Child>, prefix: Path, depth: nat)
    requires children != []
    ensures BrokenChildren(o, children, depth) <==>
      ListedBroken(o, children[0], depth) || BrokenChildren(o, children[1..], depth)
    ensures CountChildren(o, children, depth) ==
      ListedCount(o, children[0], depth) + CountChildren(o, children[1..], depth)
    ensures BytesOfChildren(o, children, depth) ==
      ListedBytes(o, children[0], depth) + BytesOfChildren(o, children[1..], depth)
    ensures FoundChildren(o, children, prefix, depth) ==
      Plus(ListedFound(o, children[0], prefix, depth), FoundChildren(o, children[1..], prefix, depth))
  {
    hide FoundChild, CountChild, BytesOfChild, BrokenChild, Plus;
  }

  /** A part of the children costs no more than all of them. */
  lemma {:induction false} PrefixCosts(o: Options, children: seq<Child>, n: nat, depth: nat)
    requires n <= |children|
    ensures BrokenChildren(o, children[..n], depth) ==> BrokenChildren(o, children, depth)
    ensures CountChildren(o, children[..n], depth) <= CountChildren(o, children, depth)
    ensures BytesOfChildren(o, children[..n], depth) <= BytesOfChildren(o, children, depth)
    decreases |children| - n
  {
    if n < |children| {
      assert children[..n + 1] == children[..n] + [children[n]];
      ChildrenSnoc(o, children[..n], children[n], [], depth);
      PrefixCosts(o, children, n + 1, depth);
    } else {
      assert children[..n] == children;
    }
  }

  lemma DirectorySum(before: Found, entry: Found, stats: Found, children: Found, failed: Found)
    ensures Plus(Plus(Plus(before, entry), stats), failed) ==
      Plus(before, Plus(entry, Plus(Plus(stats, NOTHING), failed)))
    ensures Plus(Plus(Plus(Plus(before, entry), stats), children), failed) ==
      Plus(before, Plus(entry, Plus(Plus(stats, children), failed)))
  {}

  /** What entering a directory comes to, in terms of its listing and its children. */
  lemma EntersDirectory(o: Options, c: Child, prefix: Path, depth: nat)
    requires c.node.Directory? && c.node.sameFilesystem && c.node.open.Works? && depth < o.maxDepth
    ensures
      var path, n := prefix + [c.name], c.node;
      && FoundChild(o, c, prefix, depth) == Plus(Single(EntryOf(path, n, o.hash)), Plus(
           Plus(FoundStats(Listed(n), path),
                if n.scan.Works? then FoundChildren(o, n.children, path, depth + 1) else NOTHING),
           Failed(path, n.scan)))
      && (BrokenChild(o, c, depth) <==>
           BrokenStats(Listed(n)) || n.scan.Breaks? || (n.scan.Works? && BrokenChildren(o, n.children, depth + 1)))
      && CountChild(o, c, depth) == |Listed(n)| + (if n.scan.Works? then CountChildren(o, n.children, depth + 1) else 0)
      && BytesOfChild(o, c, depth) == (if n.scan.Works? then BytesOfChildren(o, n.children, depth + 1) else 0)
  {}

  lemma StartOfListing(before: Found, prefix: Path)
    ensures Plus(before, FoundStats([], prefix)) == before
  {}

  lemma PlusAssociates(a: Found, b: Found, c: Found)
    ensures Plus(Plus(a, b), c) == Plus(a, Plus(b, c)) && Plus(a, NOTHING) == a && Plus(NOTHING, a) == a
  {}

  lemma {:induction false} StatsSnoc(children: seq<Child>, c: Child, prefix: Path)
    ensures FoundStats(children + [c], prefix) == Plus(FoundStats(children, prefix), Failed(prefix + [c.name], c.stat))
  {
    if children == [] {
      assert [] + [c] == [c];
    } else {
      assert (children + [c])[0] == children[0] && (children + [c])[1..] == children[1..] + [c];
      StatsSnoc(children[1..], c, prefix);
      PlusAssociates(Failed(prefix + [children[0].name], children[0].stat), FoundStats(children[1..], prefix),
                     Failed(prefix + [c.name], c.stat));
    }
  }

  // ----- the whole traversal

  /** What `collect_directory` returns. */
  datatype Collected = Collected(found: Found, root: Entry)

  /** A failure at the root itself is fatal whatever its reason. */
  ghost predicate RootFails(o: Options, maxFiles: nat, root: Node)
    requires root.Directory?
  {
    || !root.open.Works? || !root.scan.Works?
    || Fatal(BrokenStats(root.children) || BrokenChildren(o, root.children, 0),
             |root.children| + CountChildren(o, root.children, 0), BytesOfChildren(o, root.children, 0),
             maxFiles, MAX_DIRECTORY_READ_BYTES)
  }

  // ----- when a traversal succeeds, and what it then stays within

  /** No call on the node or on anything below it ends in a failure that is not tolerated. */
  ghost predicate Tolerable(n: Node) {
    match n
    case File(_, _, open, hash) => !open.Breaks? && !hash.Breaks?
    case Link(_, _, _, read) => !read.Breaks?
    case Special(_, _, _) => true
    case Directory(_, _, open, scan, _, children) =>
      !open.Breaks? && !scan.Breaks? && forall c | c in children :: !c.stat.Breaks? && Tolerable(c.node)
  }

  /** How many nodes there are below a directory, and how many bytes their files have. */
  function NodesIn(children: seq<Child>): nat
    decreases children, 1
  {
    if children == [] then 0 else 1 + NodesBelow(children[0]) + NodesIn(children[1..])
  }

  function NodesBelow(c: Child): nat
    decreases c, 0
  {
    if c.node.Directory? then NodesIn(c.node.children) else 0
  }

  function BytesIn(children: seq<Child>): nat
    decreases children, 1
  {
    if children == [] then 0 else BytesBelow(children[0]) + BytesIn(children[1..])
  }

  function BytesBelow(c: Child): nat
    decreases c, 0
  {
    match c.node
    case File(_, data, _, _) => |data|
    case Directory(_, _, _, _, _, children) => BytesIn(children)
    case _ => 0
  }

  lemma {:induction false} ModestChildren(o: Options, children: seq<Child>, depth: nat)
    requires forall c | c in children :: !c.stat.Breaks? && Tolerable(c.node)
    ensures !BrokenChildren(o, children, depth) && |children| + CountChildren(o, children, depth) <= NodesIn(children)
    ensures BytesOfChildren(o, children, depth) <= BytesIn(children)
    decreases children, 1
  {
    if children != [] {
      assert children == [children[0]] + children[1..];
      ModestChild(o, children[0], depth);
      ModestChildren(o, children[1..], depth);
      hide BrokenChild, CountChild, BytesOfChild, Tolerable, NodesBelow, BytesBelow;
    }
  }

  lemma {:induction false} ModestChild(o: Options, c: Child, depth: nat)
    requires Tolerable(c.node)
    ensures !BrokenChild(o, c, depth) && CountChild(o, c, depth) <= NodesBelow(c)
    ensures BytesOfChild(o, c, depth) <= BytesBelow(c)
    decreases c, 0
  {
    if c.node.Directory? {
      ModestChildren(o, c.node.children, depth + 1);
      hide BrokenChildren, CountChildren, BytesOfChildren, NodesIn, BytesIn;
    }
  }

  /** A readable root with nothing intolerable below it and within both limits. */
  ghost predicate IsModest(root: Node, maxFiles: nat) {
    && root.Directory? && root.open.Works? && root.scan.Works? && Tolerable(root)
    && NodesIn(root.children) <= maxFiles && BytesIn(root.children) <= MAX_DIRECTORY_READ_BYTES
  }

  lemma ModestRootWorks(o: Options, maxFiles: nat, root: Node)
    requires IsModest(root, maxFiles)
    ensures !RootFails(o, maxFiles, root)
  {
    ModestChildren(o, root.children, 0);
  }

  /** The sizes of the files among some entries. */
  function FileBytes(entries: seq<Entry>): nat {
    if entries == [] then 0 else
      var last := entries[|entries| - 1];
      FileBytes(entries[..|entries| - 1]) + if last.kind.FileKind? then last.size else 0
  }

  lemma {:induction false} FileBytesConcat(a: seq<Entry>, b: seq<Entry>)
    ensures FileBytes(a + b) == FileBytes(a) + FileBytes(b)
    decreases |b|
  {
    if b == [] {
      assert a + b == a;
    } else {
      assert (a + b)[..|a + b| - 1] == a + b[..|b| - 1];
      FileBytesConcat(a, b[..|b| - 1]);
    }
  }

  lemma {:induction false} StatsHaveNoEntries(children: seq<Child>, prefix: Path)
    ensures FoundStats(children, prefix).entries == []
  {
    if children != [] { StatsHaveNoEntries(children[1..], prefix); }
  }

  lemma {:induction false} ChildrenCost(o: Options, children: seq<Child>, prefix: Path, depth: nat)
    ensures |FoundChildren(o, children, prefix, depth).entries| <= |children| + CountChildren(o, children, depth)
    ensures FileBytes(FoundChildren(o, children, prefix, depth).entries) <= BytesOfChildren(o, children, depth)
    decreases children, 1
  {
    if children != [] {
      ChildCost(o, children[0], prefix, depth);
      ChildrenCost(o, children[1..], prefix, depth);
      hide FoundChild, CountChild, BytesOfChild, FileBytes;
      FileBytesConcat(FoundChild(o, children[0], prefix, depth).entries,
                      FoundChildren(o, children[1..], prefix, depth).entries);
      assert [] + FoundChildren(o, children[1..], prefix, depth).entries ==
        FoundChildren(o, children[1..], prefix, depth).entries;
    }
  }

  lemma OneEntry(o: Options, path: Path, n: Node)
    ensures FileBytes([EntryOf(path, n, o.hash)]) == if n.File? then |n.data| else 0
  {
    assert [EntryOf(path, n, o.hash)][..0] == [];
  }

  predicate Enters(o: Options, c: Child, depth: nat) {
    && c.node.Directory? && c.node.sameFilesystem && c.node.open.Works? && depth < o.maxDepth && c.node.scan.Works?
  }

  lemma EntriesOfDirectory(o: Options, c: Child, prefix: Path, depth: nat)
    requires c.node.Directory?
    ensures
      var path := prefix + [c.name];
      FoundChild(o, c, prefix, depth).entries == [EntryOf(path, c.node, o.hash)] +
        if Enters(o, c, depth) then FoundChildren(o, c.node.children, path, depth + 1).entries else []
    ensures Enters(o, c, depth) ==>
      CountChild(o, c, depth) == |c.node.children| + CountChildren(o, c.node.children, depth + 1)
    ensures BytesOfChild(o, c, depth) ==
      if Enters(o, c, depth) then BytesOfChildren(o, c.node.children, depth + 1) else 0
  {
    hide FoundChildren, CountChildren, BytesOfChildren, EntryOf, FoundStats;
    var path := prefix + [c.name];
    StatsHaveNoEntries(Listed(c.node), path);
    var below := FoundChildren(o, c.node.children, path, depth + 1).entries;
    assert [] + below == below && below + [] == below;
  }

  lemma {:induction false} ChildCost(o: Options, c: Child, prefix: Path, depth: nat)
    ensures |FoundChild(o, c, prefix, depth).entries| <= 1 + CountChild(o, c, depth)
    ensures FileBytes(FoundChild(o, c, prefix, depth).entries) <= BytesOfChild(o, c, depth)
    decreases c, 0
  {
    var path := prefix + [c.name];
    OneEntry(o, path, c.node);
    if c.node.Directory? {
      EntriesOfDirectory(o, c, prefix, depth);
      if Enters(o, c, depth) {
        var below := FoundChildren(o, c.node.children, path, depth + 1).entries;
        ChildrenCost(o, c.node.children, path, depth + 1);
        FileBytesConcat([EntryOf(path, c.node, o.hash)], below);
      } else {
        assert [EntryOf(path, c.node, o.hash)] + [] == [EntryOf(path, c.node, o.hash)];
      }
      hide *;
    }
  }

  /** What is collected stays within both limits. */
  lemma CollectedWithinLimits(o: Options, maxFiles: nat, root: Node)
    requires root.Directory? && !RootFails(o, maxFiles, root)
    ensures |FoundBelow(o, root.children).entries| <= maxFiles
    ensures FileBytes(FoundBelow(o, root.children).entries) <= MAX_DIRECTORY_READ_BYTES
  {
    StatsHaveNoEntries(root.children, []);
    ChildrenCost(o, root.children, [], 0);
    var found := FoundChildren(o, root.children, [], 0).entries;
    assert [] + found == found;
  }

  method CollectDirectory(root: Node, o: Options, maxFiles: nat) returns (r: Option<Collected>)
    requires root.Directory?
    ensures r.None? <==> RootFails(o, maxFiles, root)
    ensures r.Some? ==> r.value == Collected(FoundBelow(o, root.children), EntryOf([], root, o.hash))
  {
    hide BrokenChildren, CountChildren, BytesOfChildren, FoundChildren, FoundStats, BrokenStats;
    if !root.open.Works? { return None; }
    var collector := new Collector(o, maxFiles);
    var ok := collector.ListChildren(Listed(root), []);
    if !ok || !root.scan.Works? { return None; }
    ok := collector.InspectChildren(root.children, [], 0);
    if !ok { return None; }
    var found := Found(collector.entries, collector.limited, collector.otherFilesystems, collector.unreadable);
    return Some(Collected(found, EntryOf([], root, o.hash)));
  }
}
