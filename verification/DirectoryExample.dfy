/** Two trees with the same file of which ConfigDiff's comparison reports it as added. */
module DirectoryExample {
  import opened Basics
  import opened DirectoryTree
  import opened DirectoryTruth
  import opened DirectoryCollect
  import opened DirectoryDrift

  const EXAMPLE_FILE: Child := Child("x", Works, File(Meta(0, 0, 0), [], Works, Works))

  /** A tree holding m/x, in which m is a plain directory or a mount point. */
  function ExampleDirectory(plain: bool): Child {
    Child("m", Works, Directory(Meta(0, 0, 0), plain, Works, Works, 0, [EXAMPLE_FILE]))
  }

  function ExampleRoot(plain: bool): Node {
    Directory(Meta(0, 0, 0), true, Works, Works, 0, [ExampleDirectory(plain)])
  }

  function ExampleCollected(o: Options, plain: bool): Collected {
    Collected(FoundBelow(o, [ExampleDirectory(plain)]), EntryOf([], ExampleRoot(plain), o.hash))
  }

  // ----- one unfolding each

  lemma OnlyChild(o: Options, c: Child, prefix: Path, depth: nat)
    requires c.stat.Works?
    ensures FoundStats([c], prefix) == NOTHING && !BrokenStats([c])
    ensures FoundChildren(o, [c], prefix, depth) == FoundChild(o, c, prefix, depth)
    ensures BrokenChildren(o, [c], depth) == BrokenChild(o, c, depth)
    ensures Named([c], c.name) == Some(c)
  {
    hide FoundChild, BrokenChild;
    assert [c][1..] == [];
    assert FoundStats([c][1..], prefix) == NOTHING && FoundChildren(o, [c][1..], prefix, depth) == NOTHING;
  }

  lemma FileFound(o: Options, c: Child, prefix: Path, depth: nat)
    requires c.node.File? && c.node.open.Works? && c.node.hash.Works?
    ensures FoundChild(o, c, prefix, depth) == Single(EntryOf(prefix + [c.name], c.node, o.hash)) &&
      !BrokenChild(o, c, depth)
  {}

  lemma PlainFound(o: Options, m: Child, x: Child, prefix: Path, depth: nat)
    requires m.node.Directory? && m.node.sameFilesystem && m.node.open.Works? && m.node.scan.Works? &&
      depth < o.maxDepth
    requires m.node.children == [x] && x.stat.Works? && x.node.File? && x.node.open.Works? && x.node.hash.Works?
    ensures !BrokenChild(o, m, depth)
    ensures FoundChild(o, m, prefix, depth).entries ==
      [EntryOf(prefix + [m.name], m.node, o.hash), EntryOf(prefix + [m.name] + [x.name], x.node, o.hash)]
    ensures FoundChild(o, m, prefix, depth).unreadable == []
  {
    var path := prefix + [m.name];
    OnlyChild(o, x, path, depth + 1);
    FileFound(o, x, path, depth + 1);
    assert Listed(m.node) == [x];
    hide FoundChildren, FoundStats, BrokenChildren, BrokenStats;
    assert FoundChild(o, m, prefix, depth) ==
      Plus(Single(EntryOf(path, m.node, o.hash)),
           Plus(Plus(NOTHING, Single(EntryOf(path + [x.name], x.node, o.hash))), Failed(path, Works)));
  }

  lemma MountFound(o: Options, m: Child, prefix: Path, depth: nat)
    requires m.node.Directory? && !m.node.sameFilesystem
    ensures !BrokenChild(o, m, depth) && FoundChild(o, m, prefix, depth).unreadable == []
  {}

  // ----- the two traversals

  lemma ExampleTree(plain: bool)
    ensures ProperChildren([ExampleDirectory(plain)])
    ensures At(ExampleRoot(plain), ["m", "x"]) == Some(EXAMPLE_FILE.node)
    ensures CrossesMount([ExampleDirectory(plain)], ["m", "x"]) <==> !plain
  {
    var x, m := EXAMPLE_FILE, ExampleDirectory(plain);
    assert ProperChild(x) && ProperChildren([x]) && ProperChild(m);
    var o := Options(1, _ => "");
    OnlyChild(o, m, [], 0);
    OnlyChild(o, x, ["m"], 1);
    assert ["m", "x"][1..] == ["x"];
    assert NodeAt([x], ["x"]) == Some(x.node) && !CrossesMount([x], ["x"]);
  }

  lemma ExampleTraversal(o: Options, plain: bool)
    requires o.maxDepth == 1
    ensures Traversed(o, ExampleRoot(plain), ExampleCollected(o, plain))
    ensures FoundBelow(o, [ExampleDirectory(plain)]).unreadable == []
    ensures plain ==> EntryOf(["m", "x"], EXAMPLE_FILE.node, o.hash) in FoundBelow(o, [ExampleDirectory(plain)]).entries
  {
    var x, m := EXAMPLE_FILE, ExampleDirectory(plain);
    ExampleTree(plain);
    OnlyChild(o, m, [], 0);
    if plain {
      PlainFound(o, m, x, [], 0);
      assert [] + ["m"] + ["x"] == ["m", "x"];
    } else {
      MountFound(o, m, [], 0);
    }
    hide FoundChild, FoundChildren, FoundStats, BrokenChild, BrokenChildren, BrokenStats, ProperChildren;
    var found := FoundChild(o, m, [], 0);
    assert FoundBelow(o, [m]) == Plus(NOTHING, found);
    assert plain ==> found.entries[1] in found.entries;
  }

  /** Two trees with the file m/x, of which the comparison reports it as added: m is a mount point in the baseline. */
  lemma MountPointExample(hash: Bytes -> string, f: Flags)
    ensures
      var o := Options(1, hash);
      var a, b := ExampleRoot(false), ExampleRoot(true);
      && At(a, ["m", "x"]) == At(b, ["m", "x"]) == Some(EXAMPLE_FILE.node)
      && ["m", "x"] in Compared(ExampleCollected(o, false), ExampleCollected(o, true), f).added
  {
    var o, p := Options(1, hash), ["m", "x"];
    var ca, cb := ExampleCollected(o, false), ExampleCollected(o, true);
    ExampleTree(false);
    ExampleTree(true);
    ExampleTraversal(o, false);
    ExampleTraversal(o, true);
    hide Traversed, FoundBelow, At, CrossesMount, Compared, Side;
    SideHas(o, ExampleRoot(true), cb, p, EXAMPLE_FILE.node);
    assert !Hidden(ca.found, cb.found, p);
    FalselyAdded(o, ExampleRoot(false), ca, ExampleRoot(true), cb, f, p);
  }
}
